# Allocation, grabs, pointers and scheduling in the X server's dix layer

This project models seven stateful components of the X server in Dafny and proves what each of them promises.
The code that changes state in place is modelled by classes whose methods follow the C functions branch by
branch; every such method is proved against a specification on values, and the promises are proved about that
specification, for all inputs and all runs.

| file | component |
|---|---|
| `bits.dfy`, `masks.dfy`, `cells.dfy` | submask enumeration, plane masks, and what a search for free cells has to find |
| `accounts.dfy`, `claims.dfy`, `copy.dfy`, `shared.dfy` | colormap accounts, read-only claims, copying, shared channel colours |
| `stores.dfy`, `screen.dfy` | colour values, and when the screen agrees with them |
| `colormap.dfy`, `bestpixel.dfy` | the PseudoColor/GrayScale colormap itself (`dix/colormap.c`) |
| `grabs.dfy` | passive grab lists (`dix/grabs.c`) |
| `enterleave.dfy` | core enter/leave events for several master pointers (`dix/enterleave.c`) |
| `dispatch.dfy` | the smart scheduler (`dix/dispatch.c`) |
| `atom.dfy` | the atom table (`dix/atom.c`) |
| `callbacks.dfy` | re-entrant callback lists (`dix/dixutils.c`) |
| `hashtable.dfy` | the growing hash table (`Xext/hashtable.c`) |
| `common.dfy` | an option type and notions on lists |

`dafny verify dfyconfig.toml` checks everything.

## Where the code does not do what one expects

Each of these comes with a concrete input that shows it, or with an exact condition over all inputs.

* A client that grabs a key with any modifiers and ungrabs it with every modifier state is left with a grab that
  claims nothing and still blocks other clients (`Grabs.EmptiedGrabStillMatches`). Matching finds more than the
  overlaps exactly in the cases `Grabs.MatchFindsOverlap` gives.
* `smart_priority` is not limited to [-20, 0]: critical events and damage reports raise it up to +20
  (`dix/events.c:2136-2138`, `Xext/damage/damageext.c:103`). A ready client that is praised in time can be passed over
  274 times, and no more, when its peers stay below level zero, or stay at most there and differ from it modulo 256;
  otherwise it can starve. One that is not praised starves unless its peers stay at the lowest level
  (`Dispatch.StarvationExactly`).
* `AllocShared` writes the right number of sharers into every shared colour exactly when there are no red planes,
  or green and blue planes as well, and every count fits a C short (`SharedPlanes.WrittenIsRight`). One red plane of
  a new map is granted with wrong counts (`Colormaps.OneRedPlane`).
* `StoreColors` copies a definition to the final batch before it asks the screen for its version of the colour, so
  behind a refused definition the screen is sent the wrong colour (`Screens.RefusedFirst`); and the batch can repeat a
  shared colour that a later definition replaced (`Screens.StaleRed`). The screen agrees with QueryColors for all
  colours exactly if, for every channel of every cell, no definition is refused before the last one that the screen
  takes the channel from, and none after it changes the channel (`Screens.ScreenRightExactly`).
* A read-only cell's count is a C short; one more claim on a count of 32767 breaks the accounts, and nothing else
  in `AllocColor` does (`Claims.ClaimBalances`, `Colormaps.Colormap.AllocColor`). Asking for one colour 32768 times
  gets there (`Colormaps.OneClaimTooMany`).
* Texts that differ only after a NUL can share an atom, and an atom's name is the text exactly when the text is
  free of NULs (`Atoms.NulHidesTheRest`, `Atoms.AtomsAreNames`).
* A callback registered twice and deleted twice during a call stays registered, since the second deletion finds
  the node that is already marked (`Callbacks.SecondDeletionIsLost`), and one added to a list that a callback has
  deleted is lost with it. Without these two faults, and only then, a run leaves the callbacks registered that
  deleting at once would leave (`Callbacks.RunsExactly`).
* When the hash table grows, elements with equal keys change their order, so that the last one of a key's elements
  is found instead of the first (`HashTables.HashTable.AddThenFind`, `HashTables.OlderComesBack`).

## Model

| member | source | states |
|---|---|---|
| Bits.LowBitIsMacro | dix/colormap.c:1983-1985 | the expression for a mask's lowest bit is that bit, for every nonzero word |
| Bits.SubmaskRank | dix/colormap.c:197-220 | counting on a mask's bits: the i-th value is a submask, its position is i, and the last one is the mask |
| Bits.RankSubmask | dix/colormap.c:197-220 | every submask is reached at its position, below 2^popcount |
| Bits.SubmaskIncreases | dix/colormap.c:197-220 | the submasks come in increasing order |
| Bits.CarryMoves | dix/colormap.c:223-225 | a round of the carry loop never leaves the mask's range, and the settled value is the next submask |
| Bits.GetNextBits | dix/colormap.c:221-225 | one step of the macro gives the next submask, and its inner loop ends |
| Bits.VisitSubmasks | dix/colormap.c:197-225 | started at 0 the macro visits every submask exactly once, increasing, 2^popcount values in all, ending at the mask |
| PlaneMasks.NoSmallerMask | dix/colormap.c:1885-1908 | no mask that is not consecutive lies below the range searched |
| PlaneMasks.NoLargerMask | dix/colormap.c:1885-1908 | no mask that is not consecutive lies above the range searched |
| PlaneMasks.RangeCoversScattered | dix/colormap.c:1885-1908 | every mask with the right number of planes that is not consecutive lies in the range searched |
| PlaneMasks.HakmemCountsOnes | dix/colormap.c:1909-1913 | the three magic statements count the ones of every 32-bit mask |
| PlaneMasks.NextClear | dix/colormap.c:1873-1875 | skipping ahead by the mask leaves out no base pixel that is clear of it |
| PlaneMasks.NextPlane | dix/colormap.c:1597-1598 | finds the next plane of a mask that has not been taken |
| PlaneMasks.TakePlanes | dix/colormap.c:1535-1539 | takes n distinct single bits out of a mask in increasing order, leaving the rest |
| Cells.FreeBasesAre | dix/colormap.c:1845-1876 | the bases the search collects are exactly the free blocks' base pixels, ascending |
| Cells.AllPixelsExact | dix/colormap.c:1855-1948 | a grant lists without repeats exactly the cells base\|s for its bases and the mask's submasks, all of them free before |
| Cells.WholeMap | dix/colormap.c:1879-1908 | with all planes requested and enough free cells the consecutive search succeeds, so the scattered one is never reached |
| Cells.NothingSupplies | dix/colormap.c:1837-1949 | if no consecutive mask and no mask in the scattered range supplies the blocks, no permitted mask does |
| Cells.FeasibleExactly | dix/colormap.c:1803-1950 | what the search decides is whether any mask of so many planes, consecutive if asked for, is clear in `count` different pixels such that every cell that differs from one of them in planes of the mask only is free |
| Cells.FirstScattered | dix/colormap.c:1885-1947 | the mask at which the scattered search stops is the lowest of all masks that supply the request |
| Colormaps.Colormap.ScanContiguous | dix/colormap.c:1841-1876 | finds the lowest `count` free blocks of consecutive planes, and finds them if they exist |
| Colormaps.Colormap.BlockFree | dix/colormap.c:1846-1851 | stepping by the lowest plane visits a whole block of consecutive planes |
| Colormaps.Colormap.ScanScattered | dix/colormap.c:1914-1932 | finds the lowest `count` free blocks of any mask, and finds them if they exist |
| Colormaps.Colormap.ScatteredBlockFree | dix/colormap.c:1921-1927 | counting on the mask's bits decides whether a whole block is free |
| Colormaps.Colormap.AllocateBlocks | dix/colormap.c:1856-1868 | lists the rest of every block after the bases, makes exactly those cells private and unshared |
| Colormaps.Colormap.AllocateSingles | dix/colormap.c:1810-1826 | without planes the lowest free cells are taken one after the other |
| Colormaps.Colormap.TryConsecutive | dix/colormap.c:1837-1877 | tries every mask of consecutive planes |
| Colormaps.Colormap.AllocCP | dix/colormap.c:1803-1950 | succeeds exactly if some permitted mask has enough base pixels with free blocks, which is exactly if the request can be met at all; takes the first such mask in the order of the search and its lowest bases; the granted cells become private and keep everything else, no other cell changes; on failure nothing does |
| Accounts.FreeCountUpdate | dix/colormap.c:661-702 | what changing one cell does to the number of free cells |
| Accounts.PoolAfterOk | dix/colormap.c:685-702 | freeing a cell takes one pointer from each of its shared colours and frees a colour exactly with its last pointer |
| Accounts.GiveUpBalances | dix/colormap.c:232-237 | giving up a pixel keeps the free count, the client lists and the reference counts in agreement |
| Accounts.GiveUpKeepsPool | dix/colormap.c:661-702 | giving up a pixel keeps every shared colour's count equal to its pointers |
| Accounts.FreeAllBalances | dix/colormap.c:2120-2249 | freeing any list of pixels, owned or not, keeps all accounts |
| Accounts.FreeAllKeeps | dix/colormap.c:661-702 | whatever pixels are freed, a shared colour that is left has its old value, and a cell that is still allocated differs from what it was in nothing but a lower count |
| Accounts.FreeAllTakes | dix/colormap.c:2173-2203 | afterwards the client owns of each pixel what it owned less what it named; success exactly if it named nothing it did not own, and otherwise the error of the last request refused |
| Stores.FreeingKeepsColours | dix/colormap.c:2072-2249 | whatever pixels a client frees, every cell that is still allocated shows the colour it showed, shared or not |
| Common.WithoutFirstIs | dix/colormap.c:2185-2199 | taking a pixel off a list takes off its first occurrence and leaves the rest in its order |
| Accounts.LiveHole | dix/colormap.c:2185-2199 | marking a place of a client's list as freed removes the first occurrence of the pixel |
| Accounts.RequestsAre | dix/colormap.c:2173-2203 | the pixels a free request names are the bases with every submask added, without repeats |
| Accounts.RequestsAt | dix/colormap.c:2173-2203 | where in the order of freeing each base pixel with each submask added comes |
| Accounts.GrantBalances | dix/colormap.c:1752-1791 | granting free cells keeps all accounts |
| Accounts.GuardIsExact | dix/colormap.c:1756-1758 | for a 16-bit count and fewer than 2^17 free cells the up-front test refuses exactly the requests for more cells than are free |
| Accounts.GuardExactly | dix/colormap.c:1756-1758 | the test, in 32-bit integers, is right for every 16-bit count exactly if fewer than 2^17 cells are free |
| Accounts.NewAccountBalances | dix/colormap.c:283-320 | the accounts of a new map agree, whether its cells are free or all given to its creator, and it points at no shared colour |
| Accounts.RoundTrip | dix/colormap.c:1752-2249 | freeing the returned pixels with the allocated mask gives back every cell, the free count and the client's list in its old order |
| Colormaps.SharedColors.Release | dix/colormap.c:688-695 | a shared colour is freed exactly with its last pointer; until then it keeps its value, and no other colour changes |
| Colormaps.Colormap.constructor | dix/colormap.c:283-320 | a new map has all cells free, or is marked as wholly allocated with all cells private and listed for its creator; all cells are black and unshared; its accounts agree, so that every colormap starts out valid |
| Colormaps.Colormap.FreeCell | dix/colormap.c:661-702 | one cell freed: count, shared colours and free count; the cell keeps its colour and no other cell changes, and no colour left in the pool changes its value |
| Colormaps.Colormap.FreeNamed | dix/colormap.c:2178-2199 | one named pixel: freed and taken off the list, BadValue outside the map, BadAccess when not owned |
| Colormaps.Colormap.FreeCo | dix/colormap.c:2120-2249 | frees every named pixel in the code's order; an error does not stop the rest and the last error is returned |
| Colormaps.Colormap.Compact | dix/colormap.c:2205-2237 | compacting the list drops the freed places and keeps the order |
| Colormaps.Colormap.FreeColors | dix/colormap.c:2072-2117 | the whole request, with the mask cut to the map's planes and the two early errors; what the client still owns, which error is returned, and every cell still allocated and every shared colour still in use with its old colour |
| Colormaps.Colormap.AllocPseudo | dix/colormap.c:1752-1791 | BadAlloc exactly for too large or infeasible requests; otherwise exactly the granted cells become private and are recorded, and no other cell or list changes |
| Colormaps.Colormap.AllocColorCells | dix/colormap.c:1492-1556 | as AllocPseudo; the returned planes are `planes` distinct single bits whose OR is the allocated mask |
| Colormaps.Colormap.AllocThenFree | dix/colormap.c:1492-2249 | AllocColorCells followed by FreeColors of what it returned restores the whole map and succeeds |
| SharedPlanes.WrittenIsRight | dix/colormap.c:1983-2059 | when the reference counts written are the numbers of sharers |
| SharedPlanes.MatchIsKey | dix/colormap.c:1980-1994 | the comparison in the inner loop finds exactly the cells with the same base and the same submask of the channel |
| SharedPlanes.SharersCounted | dix/colormap.c:1983-2059 | how many of the granted cells share one channel colour |
| SharedPlanes.SharingKeepsPool | dix/colormap.c:1956-2067 | every shared colour counts exactly the cells pointing at it, exactly when the written counts are right |
| SharedPlanes.SharedExactly | dix/colormap.c:1956-2067 | two new cells share a channel's colour exactly when their pixels agree outside the mask and in the channel's planes |
| SharedPlanes.GrantedNewCells | dix/colormap.c:1956-2067 | each new cell is private and points at new, black colours, shared exactly as they should be; no other cell and no earlier colour changes |
| SharedPlanes.MaskSplit | dix/colormap.c:1592-1610 | the mask is split into three disjoint masks of r, g and b bits that make it up |
| SharedPlanes.SharingSeparates | dix/colormap.c:1956-2067 | a shared colour never serves two channels |
| Colormaps.Colormap.ShareChannel | dix/colormap.c:1983-2009 | one channel: a colour for every base and submask, assigned to exactly its cells |
| Colormaps.Colormap.AllocShared | dix/colormap.c:1956-2067 | all three channels of all granted cells |
| Colormaps.Colormap.AllocColorPlanes | dix/colormap.c:1558-1634 | success exactly if feasible, three disjoint masks with the lowest planes red and the highest blue, each of consecutive planes if asked for, exact sharing of new black colours, nothing else changed, and all accounts kept exactly when the written counts are right |
| SharedPlanes.SplitInARow | dix/colormap.c:1592-1610 | out of consecutive planes the three channels take consecutive planes, one channel after the other |
| SharedPlanes.SplitInOrder | dix/colormap.c:1592-1610 | the red planes are the lowest ones of the mask, and the green planes the lowest ones above them |
| Colormaps.OneRedPlane | dix/colormap.c:1956-2067 | a new map of one plane grants a request for one red plane and is left with wrong numbers of sharers |
| Claims.ClaimBalances | dix/colormap.c:762-924 | one more read-only claim keeps the accounts exactly when the count is below 32767 |
| Claims.GiveUpAll | dix/colormap.c:1432-1469 | giving up a whole list from its front leaves nothing on it |
| Colormaps.Colormap.FindColor | dix/colormap.c:762-924 | the first matching cell from the hint around, else the first free cell, else BadAlloc when every cell is in use and none matches |
| Colormaps.Colormap.AllocColor | dix/colormap.c:929-1032 | the first matching cell, or else the first free one, with the screen's version of the colour; told to the screen when it is new; the client's list grows by the pixel and no other cell changes; accounts kept unless a count overflows |
| Colormaps.ClaimedToTheLimit | dix/colormap.c:762-924 | asking a new map for one colour 32767 times leaves it valid with that count |
| Colormaps.OneClaimTooMany | dix/colormap.c:762-924 | one more such request is granted, makes the count negative and breaks the accounts |
| Stores.NewCellShown | dix/colormap.c:814-878 | taking a free cell into use and telling the screen about it alone keeps the screen up to date |
| Colormaps.Colormap.FreePixels | dix/colormap.c:1432-1469 | a client's whole list is given up and all accounts are kept, also of a wholly allocated map of another client; cells still allocated keep their colours |
| MapCopy.CopyConserves | dix/colormap.c:538-657 | read-only counts add up to the old ones, private cells move with their colours or pointers, other cells stay, every allocated cell of either map has the old colour or pointers, both maps balance |
| MapCopy.CopyKeepsColours | dix/colormap.c:538-657 | every pixel on the client's list has its old colour in the new map, every cell still allocated in the old map keeps its colour, and nothing else is allocated in the new map |
| MapCopy.CopyStep | dix/colormap.c:613-629 | one more claim copied |
| MapCopy.WholeSplit | dix/colormap.c:556-568 | handing over a wholly allocated map is the same split |
| Colormaps.Colormap.CopyClaim | dix/colormap.c:614-628 | one claim: copied to the new map with the cell's colour or pointers and freed in the old one, no shared colour's count changes |
| Colormaps.Colormap.CopyFree | dix/colormap.c:581-657 | the client's claims and its list move whole |
| Colormaps.Colormap.CopyColormapAndFree | dix/colormap.c:538-578 | both paths split every cell by the client's claims, keep every colour in both maps, and leave both maps with sound accounts; the client's list moves; the mark of a wholly allocated map goes with its creator's copy |
| Colormaps.Colormap.UpdateColors | dix/colormap.c:704-757 | tells the screen the colours of exactly the allocated cells |
| Stores.RefreshShows | dix/colormap.c:704-757 | after that the screen shows every allocated cell's colour, whatever it showed before |
| Stores.RefreshIs | dix/colormap.c:704-757 | a refresh sends exactly the allocated cells, once each, ascending |
| Stores.StoreOneChanges | dix/colormap.c:2369-2418 | one definition changes exactly the flagged channels of its cell and of the cells sharing them |
| Stores.StoreThenQuery | dix/colormap.c:2342-2473 | after a request every channel has the value of the last accepted definition that reaches it, or its old value |
| Stores.LastDecides | dix/colormap.c:2342-2473 | the last definition that reaches a channel of a cell decides its value, and a channel that none reaches keeps its value |
| Stores.VerdictIs | dix/colormap.c:2342-2372 | success exactly if no definition is refused, otherwise the reason why the last one refused was |
| Stores.ChangesAre | dix/colormap.c:2420-2465 | told are exactly the other cells that share a flagged channel, once each, ascending, with their colours and just those channels |
| Stores.StoringKeepsAccounts | dix/colormap.c:2342-2473 | storing colours changes no count |
| Stores.NobodyShares | dix/colormap.c:2374-2410 | if no flagged channel's colour counts more than one pointer, no other cell of the map changes |
| Screens.ScreenAt | dix/colormap.c:2342-2472 | what a screen, with or without readable hardware, shows for a channel after a request: its stored value if no definition of the cell counts for it; otherwise the value stored up to the last one that counts, or the raw colour of that one if a definition was refused before it |
| Screens.ScreenRightExactly | dix/colormap.c:2342-2472 | the screen shows what QueryColors returns, for all colours asked for, all screens and whatever they showed before, exactly if no definition is refused before the last one that counts for a channel of a cell and no accepted one after it changes that channel |
| Screens.ScreenFollows | dix/colormap.c:2342-2472 | after a single definition the screen shows what QueryColors returns on every allocated cell |
| Screens.RefusedFirst | dix/colormap.c:2361-2371 | on a sound map of two private cells: behind a refused definition the screen is sent a colour that QueryColors does not return |
| Screens.StaleRed | dix/colormap.c:2374-2472 | on a sound map of two cells that share red and blue: a red replaced by a later definition is sent once more at the end |
| Colormaps.Colormap.StoreChannel | dix/colormap.c:2374-2388 | one channel of a definition, written or read back |
| Colormaps.Colormap.TellSharers | dix/colormap.c:2420-2465 | the screen is told about exactly the other cells that share a changed channel, with all channels filled in |
| Colormaps.Colormap.StoreColors | dix/colormap.c:2252-2473 | the whole request: every channel has what the last accepted definition reaching it says, or else its old value; the error of the last refused definition; and everything the screen is told, at once and in the final batch |
| Colormaps.Colormap.QueryColors | dix/colormap.c:1403-1429 | the colours of the named cells, shared or local, and BadValue if some pixel is outside the map |
| BestPixel.BigNumAdd | dix/colormap.c:1225-1236 | the two-part sum with its single carry is exact modulo 2^40 |
| BestPixel.GreaterIsGreater | dix/colormap.c:1216-1217 | the two-part comparison is the comparison of the numbers |
| BestPixel.Measure | dix/colormap.c:1249-1276 | the summed distance is exact for all 16-bit colours and below the value the search starts with |
| BestPixel.FindBestPixel | dix/colormap.c:1238-1283 | the lowest index of minimal squared distance over the channel's components |
| Grabs.MatchFindsOverlap | dix/grabs.c:433-487 | matching a mask-free grab finds every overlap, is symmetric, and exactly when it finds more |
| Grabs.EmptiedGrabStillMatches | dix/grabs.c:359-376 | a run of one grab and 256 ungrabs after which no pair is claimed and another client's grab is still refused |
| Grabs.CutIsExact | dix/grabs.c:615-672 | cutting one grab removes the minuend's pairs and keeps every other pair exactly once |
| Grabs.SubtractionIsExact | dix/grabs.c:574-701 | after an ungrab the client's claims are the old ones minus the minuend's and other clients' are unchanged |
| Grabs.SurvivorsAreParts | dix/grabs.c:615-701 | what an ungrab leaves are parts of the old grabs, in their order, with the same client and attributes |
| Grabs.AddedAreParts | dix/grabs.c:636-666 | a grab split off is a part of an old one of the minuend's client, with its attributes |
| Grabs.OthersStay | dix/grabs.c:615-617 | the other clients' grabs are left as they are, in their order |
| Grabs.IdenticalIsSame | dix/grabs.c:489-518 | an identical grab claims the same pairs |
| Grabs.NoneIdenticalLeft | dix/grabs.c:553-559 | with memory no grab identical to the new one is left on the list |
| Grabs.AddIsExact | dix/grabs.c:528-568 | after an add the claims are the old ones and the new grab's, also when an identical grab was removed |
| Grabs.StepKeepsDisjoint | dix/grabs.c:528-701 | no request makes two clients claim one pair |
| Grabs.RunKeepsDisjoint | dix/grabs.c:528-701 | over any run claims of different clients never overlap |
| Grabs.GrabList.DeleteDetailFromMask | dix/grabs.c:343-357 | a copy of the mask without one value, or nothing exactly if there is no room for it |
| Grabs.GrabList.FreeResource | dix/grabs.c:323-341 | freeing a grab's resource unlinks it if it is on the list |
| Grabs.GrabList.ScanOne | dix/grabs.c:615-672 | one grab: deleted, edited, split or left alone |
| Grabs.GrabList.Scan | dix/grabs.c:591-673 | the plan for the whole list; the four work arrays never overflow |
| Grabs.GrabList.Commit | dix/grabs.c:681-693 | carrying out the plan gives exactly the subtracted list |
| Grabs.GrabList.DeletePassiveGrabFromList | dix/grabs.c:574-701 | success exactly if the allocations it needs are granted, at most one and four for each grab on the list; then the subtracted list, otherwise the old list with all masks |
| Grabs.GrabList.AddPassiveGrabToList | dix/grabs.c:528-568 | BadAccess exactly for a grab matching another client's, Denied exactly for one not allowed otherwise, Success exactly with memory for it; an identical own grab is subtracted first whenever there is memory for that |
| EnterLeave.CommonAncestorLowest | dix/enterleave.c:214-221 | the common ancestor is above both windows and nothing below it is |
| EnterLeave.MovePathCovers | dix/enterleave.c:532-548 | a move's path meets no window twice and meets every window whose presence changes |
| EnterLeave.MoveInOrder | dix/enterleave.c:341-548 | all leaves of a move come before all its enters, leaves go up the tree and enters down, and details and children fit the two windows |
| EnterLeave.MoveSeenFrom | dix/enterleave.c:532-548 | the events along the path, seen from any window |
| EnterLeave.MoveInformsEveryWindow | dix/enterleave.c:532-548 | a window gets one event exactly when its presence changes, of the required kind, and its client is right again |
| EnterLeave.RunIsCoherent | dix/enterleave.c:532-548 | over any run of moves of any pointers replaying a window's events gives its true presence |
| EnterLeave.NothingAbovePointer | dix/enterleave.c:297-311 | above a window that still has a pointer nothing is required, so the upward loop may stop |
| EnterLeave.PointerTable.HasPointer | dix/enterleave.c:92-109 | whether some pointer is on the window |
| EnterLeave.PointerTable.FirstPointerChild | dix/enterleave.c:141-150 | whether some pointer is below the window |
| EnterLeave.PointerTable.CommonAncestor | dix/enterleave.c:214-221 | the loop up the tree finds the common ancestor |
| EnterLeave.PointerTable.CoreEnterNotifies | dix/enterleave.c:247-276 | exactly the required enters strictly between two windows, top first |
| EnterLeave.PointerTable.CoreLeaveNotifies | dix/enterleave.c:281-317 | exactly the required leaves strictly between two windows, bottom first, in spite of stopping early |
| EnterLeave.PointerTable.CoreEnterLeaveNonLinear | dix/enterleave.c:341-418 | exactly the required events of a move between unrelated windows |
| EnterLeave.PointerTable.CoreEnterLeaveToAncestor | dix/enterleave.c:425-476 | exactly the required events of a move to an ancestor, the leaves bottom first and the enter last |
| EnterLeave.PointerTable.CoreEnterLeaveToDescendant | dix/enterleave.c:481-530 | exactly the required events of a move to a descendant |
| EnterLeave.PointerTable.CoreEnterLeaveEvents | dix/enterleave.c:532-548 | a move emits exactly the required events, leaves upward before enters downward, and updates the table; slave devices change nothing |
| EnterLeave.PointerTable.DoEnterLeaveEvents | dix/enterleave.c:590-602 | a move to the same window does nothing, any other as above |
| Dispatch.RobinAdvances | dix/dispatch.c:361-386 | only clients up to the cap are passed over, and at the top level this gets them further along the robin |
| Dispatch.Progress | dix/dispatch.c:353-386 | while passed over, the smart priority climbs to the top level and then the robin distance grows with every call |
| Dispatch.NoStarvation | dix/dispatch.c:341-412 | no more calls than the bound pass a client over, whatever the others do: 274 with peers up to level zero |
| Dispatch.ChosenRanks | dix/dispatch.c:349-375 | the chosen client is the first of those that rank highest by priority, then smart priority, then robin distance |
| Dispatch.LongestIsReached | dix/dispatch.c:341-412 | the bound is reached, by a run from the lowest level with peers served in descending order |
| Dispatch.StarvationExactly | dix/dispatch.c:341-412 | a client can be passed over n times in a row exactly up to the bound under the condition on its peers and its praise, and for ever otherwise |
| Dispatch.Client.Praise | dix/dispatch.c:353-357 | a client idle for long enough climbs by one, never above zero this way |
| Dispatch.Client.Boost | dix/events.c:2136-2138 | a critical event raises the priority up to the maximum of 20 |
| Dispatch.Client.NoteCritical | Xext/damage/damageext.c:95-105 | a damage report puts a client with a positive critical count at the top level and changes no other |
| Dispatch.Scheduler.PickBest | dix/dispatch.c:349-375 | praises every due client and picks the first client that nobody beats |
| Dispatch.Scheduler.SmartScheduleClient | dix/dispatch.c:341-412 | the first of the highest ranking clients, exactly the due clients praised, the robin entry recorded in bounds, the new slice length |
| Dispatch.Scheduler.EndSlice | dix/dispatch.c:513-521 | running to the end of the slice costs one level, never below -20 |
| Dispatch.Scheduler.EnableLimitedSchedulingLatency | dix/dispatch.c:464-469 | the slice goes back to one interval |
| Atoms.Fingerprint | dix/atom.c:79-83 | the fingerprint, taken from both ends in 32-bit arithmetic |
| Atoms.ComparesNames | dix/atom.c:90-94 | strncmp with the length test orders a text by its part before a NUL |
| Atoms.RunIsStable | dix/atom.c:75-136 | over any run atoms keep their numbers and names, and exactly the texts asked for are added |
| Atoms.AtomsAreNames | dix/atom.c:75-155 | numbers and NUL-free texts are in bijection; with NULs, exactly what is shared |
| Atoms.NulHidesTheRest | dix/atom.c:79-94 | two different texts with one atom |
| Atoms.AllMade | dix/atom.c:186-198 | the predefined atoms get their numbers in order when as many are made as are asked for |
| Atoms.NamesDiffer | dix/atom.c:186-198 | with memory all names become atoms exactly if their keys are different |
| Atoms.SplitGap | dix/atom.c:84-96 | a new node splits a gap of the tree into two that are apart from all others |
| Atoms.AtomTable.Search | dix/atom.c:84-98 | the walk finds a key's node, or the one place where it belongs |
| Atoms.AtomTable.MakeAtom | dix/atom.c:75-136 | an existing atom, a new last one, None exactly for an unknown text not to be made, BAD_RESOURCE exactly for one to be made without memory for its node, its name or a full table; the tree stays ordered and holds the table's nodes |
| Atoms.AtomTable.GrowTable | dix/atom.c:112-124 | doubling keeps every entry and leaves room |
| Atoms.AtomTable.NameForAtom | dix/atom.c:145-155 | the name of exactly the valid atoms |
| Atoms.InitAtoms | dix/atom.c:186-198 | a fresh table with the predefined names, or a fatal error exactly if there are not 68; with memory and 68 names exactly if two of them have one key |
| Callbacks.MarkingDeletes | dix/dixutils.c:658-683 | marking acts like deleting at once exactly when the first node of the key is unmarked or none is |
| Callbacks.LeavingKeeps | dix/dixutils.c:685-732 | the end of a call keeps numDeleted at least the number of marked nodes, and leaves no marks when it is the outermost |
| Callbacks.LeavingKeepsKeys | dix/dixutils.c:694-731 | the end of a call changes nothing about which callbacks are registered; the outermost one leaves no mark |
| Callbacks.AdditionIs | dix/dixutils.c:643-656 | an addition puts exactly one callback in front, or for lack of memory leaves the callbacks as they were |
| Callbacks.WithDeletedIs | dix/dixutils.c:658-683 | a deletion takes off or marks the first node of the key, and no other |
| Callbacks.KeptIsClean | dix/dixutils.c:712-731 | the sweep removes exactly the marked nodes |
| Callbacks.DeferredExactly | dix/dixutils.c:643-760 | for any nesting of calls, adds, deletes and list deletions: after every event the callbacks that stay registered are those that deleting at once leaves, exactly if no deletion met a marked first node while another one was live and nothing was added to a list marked for deletion; and so it is if nothing is registered twice |
| Callbacks.RunsExactly | dix/dixutils.c:643-760 | the same for runs that start without a list |
| Callbacks.SecondDeletionIsLost | dix/dixutils.c:663-671 | registered twice and deleted twice in a call, one registration stays |
| Callbacks.CallsInOrder | dix/dixutils.c:690-693 | a traversal calls exactly the callbacks on the list at its start, once each and in order, whatever they add, delete or call in turn |
| Callbacks.CallCallsAll | dix/dixutils.c:685-732 | the same for a whole call at any depth of nesting |
| Callbacks.CallbackListPtr.AddCallback | dix/dixutils.c:643-656 | with memory a new node at the front and the list created first if there is none; true exactly then, and otherwise no callback changes |
| Callbacks.CallbackListPtr.DeleteCallback | dix/dixutils.c:658-683 | the first node of the key is marked and counted during a call and freed otherwise; true exactly if there is one |
| Callbacks.CallbackListPtr.DeleteCallbackList | dix/dixutils.c:735-760 | everything freed, or only marked during a call |
| Callbacks.CallbackListPtr.FreeList | dix/dixutils.c:754-759 | every node is freed once |
| Callbacks.CallbackListPtr.Sweep | dix/dixutils.c:711-731 | the list becomes the order-preserving filter of its unmarked nodes although the loop stops at numDeleted zero |
| Callbacks.CallbackListPtr.CallEach | dix/dixutils.c:690-693 | during a traversal no node is freed, whatever the callbacks do, and the walk goes on where it was |
| Callbacks.CallbackListPtr.CallCallbacks | dix/dixutils.c:685-732 | a whole call, nested to any depth, does what the specification of runs says |
| Callbacks.CallbackListPtr.Perform | dix/dixutils.c:685-732 | any script of operations; while the list is being called nothing is taken off it |
| HashTables.HashTable.constructor | Xext/hashtable.c:36-70 | an empty table of 64 buckets |
| HashTables.HashTable.HtFind | Xext/hashtable.c:189-203 | the first element of a key in its bucket, or nothing exactly if no bucket has one |
| HashTables.HashTable.HtRemove | Xext/hashtable.c:170-187 | takes the found element of the key off and no other |
| HashTables.HashTable.DoubleSize | Xext/hashtable.c:90-122 | twice the buckets, the same elements, each where its key now hashes to, those of one key reversed; a failure changes nothing |
| HashTables.HashTable.HtAdd | Xext/hashtable.c:124-168 | exactly one new element; growth exactly when over 4 per bucket below the largest size; null exactly without memory, and then everything is restored; on absent keys the table is a map |
| HashTables.HashTable.AddThenFind | Xext/hashtable.c:90-203 | what is found after an addition: the first of a key's elements, or the last one if the table grew |
| HashTables.OlderComesBack | Xext/hashtable.c:90-203 | a key added twice to a new table: the newer element is found until the 257th element makes it grow, and then the older one |

## Left out

- DirectColor, TrueColor and static visuals, `AllocDirect`, and cells allocated while a map is being created: the
  search relies on `ColormapEntries == 2^nplanes`, which several channels in one map do not give.
- Maps of more than 16 planes and counts of 2^16 or more in allocation requests: the count is a CARD16 in the
  protocol, and the visuals of this kind that `mi` makes stop at depth 10 (`include/micmap.h:36`, `mi/micmap.c:371`).
  A map of 17 planes would be the first one for which `AllocPseudo`'s test is wrong (`Accounts.GuardExactly`).
- `FakeAllocColor` and its temporary cells, which are not in the free counts; `FindColorInRootCmap`, whose result is
  the parameter `hint` of `AllocColor`.
- The union in a colormap entry is two fields, with `fShared` saying which one is meant; the stale bits of the other
  one are not modelled.
- Running out of memory, except for ungrabbing, adding grabs, atoms, callbacks and hash table elements, where the
  outcome of every allocation is an input; the four work arrays of an ungrab count as one allocation. The
  resource that remembers a client's pixels, access control hooks and private data.
- In the grab list one grab type, device, modifier device and event type; XI2 masks and the matching of all devices
  or all master devices. A minuend and a new grab carry no detail mask, as the callers guarantee.
- EnterLeave.PointerTable.HasPointer: does not model the early return for a grabbed device, since device grabs are
  not modelled.
- EnterLeave.PointerTable.DoEnterLeaveEvents: does not model the XI2 device events it sends besides the core events,
  nor the modes that passive grabs give them.
- In the enter/leave events focus events, which repeat the window-to-window cases.
- `Dispatch` runs requests and input between two choices; the model takes the choices one after the other with any
  change to the other clients in between.
- Atom numbers are unbounded; the source would reach `BAD_RESOURCE` after 3.7 billion atoms. `FreeAllAtoms` only
  frees. The generated list of predefined names is not part of this model; its names are a parameter.
- A callback's procedure and data are one key, and what procedures do is any script of list operations. The table of
  lists to clean up at a reset is not modelled.
- The hash function is a parameter with the range its description demands; buckets are sequences of element
  references, so the double links inside a bucket are not modelled. A missing table on creation is not modelled.
- Request parsing, byte order, replies, tracing and printing.
