/**
 Moving one client's cells from a colormap to a new one (dix/colormap.c, CopyColormapAndFree).
 */
module MapCopy {
  import opened Cells
  import opened Accounts
  import opened Claims
  import opened Stores

  /** What is left of a cell of which k claims have moved away. */
  function Left(e: Entry, k: nat): Entry {
    if k == 0 then e
    else if e.refcnt > k then e.(refcnt := e.refcnt - k)
    else e.(refcnt := 0, fShared := false)
  }

  /** The copy of a cell to which k claims have moved: a private cell moves whole, a read-only cell
      is copied with just the claims that moved. */
  function Moved(e: Entry, k: nat): Entry {
    if k == 0 then BLANK_CELL else if e.refcnt > 0 then e.(refcnt := k) else e
  }

  /** The two maps after a copy: every cell split by the client's claims, the client's list moved. */
  ghost predicate Split(a: Account, c: nat, src: Account, dst: Account) {
    && c < |a.lists| && |src.cells| == |dst.cells| == |a.cells|
    && (forall i :: 0 <= i < |a.cells| ==>
          && src.cells[i] == Left(a.cells[i], multiset(a.lists[c])[i])
          && dst.cells[i] == Moved(a.cells[i], multiset(a.lists[c])[i]))
    && src.lists == a.lists[c := []]
    && dst.lists == seq(|a.lists|, _ => [])[c := a.lists[c]]
    && src.free == FreeCount(src.cells) && dst.free == FreeCount(dst.cells)
  }

  predicate Unused(e: Entry) { e.refcnt == 0 && !e.fShared }

  /** A client's claims on a cell: at most its count, and one on a private cell of its own. */
  lemma ClaimsBounded(a: Account, c: nat, i: nat)
    requires Balanced(a) && c < |a.lists| && i < |a.cells|
    ensures var k := multiset(a.lists[c])[i];
            && (a.cells[i].refcnt == 0 ==> k == 0)
            && (a.cells[i].refcnt == ALLOC_PRIVATE ==> k <= 1)
            && (a.cells[i].refcnt > 0 ==> k <= a.cells[i].refcnt)
  {
    OwnedUpdate(a.lists, c, a.lists[c]);
    assert CellOk(a.cells[i], Owned(a.lists)[i]);
    assert multiset(a.lists[c])[i] <= Owned(a.lists)[i];
  }

  /** What becomes of a cell of which k claims are handed over: a read-only cell's counts add up, a
      private one moves with its colour or shared colours, and any other cell stays where it was.  In
      both maps a cell that is allocated has the colour or shared colours of the old one. */
  ghost predicate Conserved(e: Entry, s: Entry, d: Entry, k: nat) {
    && (e.refcnt > 0 ==> s.refcnt + d.refcnt == e.refcnt && d.refcnt == k)
    && (k > 0 ==> d.refcnt != 0 && d.local == e.local && d.fShared == e.fShared && d.shco == e.shco)
    && (s.refcnt != 0 ==> e.refcnt != 0 && s.local == e.local && s.fShared == e.fShared && s.shco == e.shco)
    && (e.refcnt == ALLOC_PRIVATE && k > 0 ==> d == e && Unused(s))
    && (k == 0 ==> s == e && Unused(d))
  }

  lemma ConservedCell(e: Entry, k: nat, owners: nat)
    requires CellOk(e, owners) && k <= owners
    ensures Conserved(e, Left(e, k), Moved(e, k), k)
    ensures CellOk(Left(e, k), owners - k) && CellOk(Moved(e, k), k)
  {
  }

  /** Every claim is in exactly one of the two maps, pointers to shared colours are neither made nor
      lost, and both maps' accounts are balanced. */
  lemma CopyConserves(a: Account, c: nat, src: Account, dst: Account)
    requires Balanced(a) && Split(a, c, src, dst)
    ensures Balanced(src) && Balanced(dst)
    ensures Refs(src.cells) + Refs(dst.cells) == Refs(a.cells)
    ensures forall i :: 0 <= i < |a.cells| ==>
              Conserved(a.cells[i], src.cells[i], dst.cells[i], multiset(a.lists[c])[i])
  {
    hide FreeCount, Owned, Refs, Separate, Left, Moved, CellOk, Conserved;
    SplitOwned(a, c, src, dst);
    var o, mine := Owned(a.lists), multiset(a.lists[c]);
    forall i | 0 <= i < |a.cells|
      ensures CellOk(src.cells[i], Owned(src.lists)[i]) && CellOk(dst.cells[i], Owned(dst.lists)[i])
      ensures Conserved(a.cells[i], src.cells[i], dst.cells[i], mine[i])
    {
      assert mine[i] <= o[i];
      ConservedCell(a.cells[i], mine[i], o[i]);
    }
    SplitSeparate(a, c, src, dst);
    SplitRefs(a, c, src.cells, dst.cells);
  }

  /** A copy changes no colour: every pixel on the client's list has its old colour in the new map,
      and every cell still allocated in the old map keeps its colour there. */
  lemma CopyKeepsColours(a: Account, c: nat, src: Account, dst: Account, pool: Pool)
    requires Balanced(a) && Split(a, c, src, dst)
    ensures forall x :: x in a.lists[c] ==>
              && x < |a.cells| && dst.cells[x].refcnt != 0
              && ColourOf(dst.cells[x], pool) == ColourOf(a.cells[x], pool)
    ensures forall i :: 0 <= i < |a.cells| && src.cells[i].refcnt != 0 ==>
              && a.cells[i].refcnt != 0
              && ColourOf(src.cells[i], pool) == ColourOf(a.cells[i], pool)
    ensures forall i :: 0 <= i < |a.cells| && dst.cells[i].refcnt != 0 ==> i in a.lists[c]
  {
    hide Balanced, Split, Left, Moved, ColourOf, Conserved, Refs;
    SplitSizes(a, c, src, dst);
    CopyConserves(a, c, src, dst);
    var list := a.lists[c];
    forall i: nat | i < |a.cells|
      ensures i in list ==> dst.cells[i].refcnt != 0 && ColourOf(dst.cells[i], pool) == ColourOf(a.cells[i], pool)
      ensures src.cells[i].refcnt != 0 ==>
                a.cells[i].refcnt != 0 && ColourOf(src.cells[i], pool) == ColourOf(a.cells[i], pool)
      ensures dst.cells[i].refcnt != 0 ==> i in list
    {
      ConservedColours(a.cells[i], src.cells[i], dst.cells[i], multiset(list)[i], pool);
      assert i in list <==> i in multiset(list);
    }
    forall x | x in list ensures x < |a.cells| {
      var n :| 0 <= n < |list| && list[n] == x;
      NextClaim(a, c, n);
    }
  }

  lemma ConservedColours(e: Entry, s: Entry, d: Entry, k: nat, pool: Pool)
    requires Conserved(e, s, d, k)
    ensures k > 0 ==> d.refcnt != 0 && ColourOf(d, pool) == ColourOf(e, pool)
    ensures s.refcnt != 0 ==> e.refcnt != 0 && ColourOf(s, pool) == ColourOf(e, pool)
    ensures d.refcnt != 0 ==> k > 0
  {
  }

  lemma SplitSizes(a: Account, c: nat, src: Account, dst: Account)
    requires Split(a, c, src, dst)
    ensures c < |a.lists| && |src.cells| == |dst.cells| == |a.cells|
  {
  }

  /** Of the claims of all clients, the new map has those of client c. */
  lemma SplitOwned(a: Account, c: nat, src: Account, dst: Account)
    requires Split(a, c, src, dst)
    ensures multiset(a.lists[c]) <= Owned(a.lists)
    ensures Owned(src.lists) == Owned(a.lists) - multiset(a.lists[c]) && Owned(dst.lists) == multiset(a.lists[c])
    ensures forall p: nat :: p in Owned(src.lists) || p in Owned(dst.lists) ==> p in Owned(a.lists)
  {
    hide Owned, Left, Moved, FreeCount;
    OwnedUpdate(a.lists, c, []);
    OwnedByOne(|a.lists|, c, a.lists[c]);
  }

  lemma SplitSeparate(a: Account, c: nat, src: Account, dst: Account)
    requires Balanced(a) && Split(a, c, src, dst)
    ensures Separate(src.cells) && Separate(dst.cells)
  {
    hide FreeCount, Owned, Refs, Separate;
    StaysSeparate(a.cells, src.cells);
    StaysSeparate(a.cells, dst.cells);
  }

  lemma SplitRefs(a: Account, c: nat, src: seq<Entry>, dst: seq<Entry>)
    requires Balanced(a) && c < |a.lists| && |src| == |dst| == |a.cells|
    requires forall i :: 0 <= i < |a.cells| ==>
               && src[i] == Left(a.cells[i], multiset(a.lists[c])[i])
               && dst[i] == Moved(a.cells[i], multiset(a.lists[c])[i])
    ensures Refs(src) + Refs(dst) == Refs(a.cells)
  {
    forall i | 0 <= i < |a.cells| ensures RefsOf(src[i]) + RefsOf(dst[i]) == RefsOf(a.cells[i]) {
      ClaimsBounded(a, c, i);
      assert CellOk(a.cells[i], Owned(a.lists)[i]);
    }
    RefsAdd(a.cells, src, dst);
  }

  lemma Regroup(a: multiset<nat>, b: multiset<nat>, x: multiset<nat>, y: multiset<nat>)
    ensures (a + x) + (b + y) == (a + b) + (x + y)
  {
  }

  lemma {:induction false} RefsAdd(a: seq<Entry>, s: seq<Entry>, d: seq<Entry>)
    requires |s| == |d| == |a| && forall i :: 0 <= i < |a| ==> RefsOf(s[i]) + RefsOf(d[i]) == RefsOf(a[i])
    ensures Refs(s) + Refs(d) == Refs(a)
  {
    if a != [] {
      hide RefsOf;
      var n := |a| - 1;
      RefsAdd(a[..n], s[..n], d[..n]);
      Regroup(Refs(s[..n]), Refs(d[..n]), RefsOf(s[n]), RefsOf(d[n]));
    }
  }

  /** The two maps after the claims listed in `moved` have been copied. */
  ghost predicate PartSplit(a: Account, moved: seq<nat>, src: seq<Entry>, dst: seq<Entry>) {
    && |src| == |dst| == |a.cells|
    && forall i :: 0 <= i < |a.cells| ==>
         src[i] == Left(a.cells[i], multiset(moved)[i]) && dst[i] == Moved(a.cells[i], multiset(moved)[i])
  }

  /** Copying one more claim: what the source and the copy of the cell become. */
  function CopiedTo(e: Entry, d: Entry): Entry {
    if d.refcnt > 0 then d.(refcnt := d.refcnt + 1) else if e.refcnt > 0 then e.(refcnt := 1) else e
  }

  function CopiedFrom(e: Entry, d: Entry): Entry {
    FreedCell(if d.refcnt <= 0 && e.refcnt <= 0 then e.(fShared := false) else e)
  }

  /** The next claim of a list is on a cell that has not lost all its claims yet. */
  lemma NextClaim(a: Account, c: nat, n: nat)
    requires Balanced(a) && c < |a.lists| && n < |a.lists[c]|
    ensures var list, x := a.lists[c], a.lists[c][n];
            var m := multiset(list[..n])[x];
            && x < |a.cells| && Claimable(a.cells[x], m) && multiset(list[..n + 1])[x] == m + 1
            && forall i :: i != x ==> multiset(list[..n + 1])[i] == multiset(list[..n])[i]
  {
    hide Owned, Separate, FreeCount;
    var list := a.lists[c];
    var x := list[n];
    OwnedUpdate(a.lists, c, list);
    assert x in multiset(list) && x in Owned(a.lists);
    ClaimsBounded(a, c, x);
    assert CellOk(a.cells[x], Owned(a.lists)[x]);
    OneMoreOf(list, n);
  }

  lemma OneMoreOf(list: seq<nat>, n: nat)
    requires n < |list|
    ensures multiset(list[..n])[list[n]] < multiset(list)[list[n]]
    ensures multiset(list[..n + 1]) == multiset(list[..n]) + multiset{list[n]}
  {
    assert list[..n + 1] == list[..n] + [list[n]];
    assert list == list[..n] + list[n..] && list[n..] == [list[n]] + list[n + 1..];
  }

  /** A cell of which m claims have moved away, and one more is there. */
  predicate Claimable(e: Entry, m: nat) {
    && e.refcnt >= ALLOC_PRIVATE && e.refcnt != 0 && (e.fShared ==> e.refcnt == ALLOC_PRIVATE)
    && (if e.refcnt == ALLOC_PRIVATE then m == 0 else m < e.refcnt)
  }

  lemma StepCell(e: Entry, m: nat)
    requires Claimable(e, m)
    ensures var s, d := Left(e, m), Moved(e, m);
            && s.refcnt != 0 && s.refcnt >= ALLOC_PRIVATE && (!s.fShared || s.refcnt == ALLOC_PRIVATE)
            && d.refcnt >= 0 && CopiedTo(s, d).refcnt != 0 && (d.refcnt > 0 ==> s.refcnt > 0)
            && CopiedFrom(s, d) == Left(e, m + 1) && CopiedTo(s, d) == Moved(e, m + 1)
            && FreedCell(s) == Left(e, m + 1)
  {
  }

  lemma CopyStep(a: Account, c: nat, n: nat, src: seq<Entry>, dst: seq<Entry>)
    requires Balanced(a) && c < |a.lists| && n < |a.lists[c]| && PartSplit(a, a.lists[c][..n], src, dst)
    ensures var x := a.lists[c][n];
            && x < |a.cells| && src[x].refcnt != 0 && src[x].refcnt >= ALLOC_PRIVATE
            && (!src[x].fShared || src[x].refcnt == ALLOC_PRIVATE)
            && dst[x].refcnt >= 0 && CopiedTo(src[x], dst[x]).refcnt != 0
            && (dst[x].refcnt > 0 ==> src[x].refcnt > 0)
            && PartSplit(a, a.lists[c][..n + 1], src[x := CopiedFrom(src[x], dst[x])],
                         dst[x := CopiedTo(src[x], dst[x])])
  {
    hide Balanced, Left, Moved, CopiedTo, CopiedFrom;
    NextClaim(a, c, n);
    StepCell(a.cells[a.lists[c][n]], multiset(a.lists[c][..n])[a.lists[c][n]]);
  }

  /** The free counts after one more claim is copied. */
  lemma CopyStepCounts(src: seq<Entry>, dst: seq<Entry>, x: nat)
    requires x < |src| == |dst| && src[x].refcnt != 0 && src[x].refcnt >= ALLOC_PRIVATE
    requires dst[x].refcnt >= 0 && CopiedTo(src[x], dst[x]).refcnt != 0 && (dst[x].refcnt > 0 ==> src[x].refcnt > 0)
    ensures FreeCount(src[x := CopiedFrom(src[x], dst[x])]) == FreeCount(src) + if src[x].refcnt > 1 then 0 else 1
    ensures FreeCount(dst[x := CopiedTo(src[x], dst[x])]) == FreeCount(dst) - if dst[x].refcnt > 0 then 0 else 1
  {
    FreeCountUpdate(src, x, CopiedFrom(src[x], dst[x]));
    FreeCountUpdate(dst, x, CopiedTo(src[x], dst[x]));
  }

  lemma PartSplitStart(a: Account, dst: seq<Entry>)
    requires |dst| == |a.cells| && forall i :: 0 <= i < |dst| ==> dst[i] == BLANK_CELL
    ensures PartSplit(a, [], a.cells, dst)
  {
  }

  lemma SplitDone(a: Account, c: nat, src: Account, dst: Account)
    requires c < |a.lists| && PartSplit(a, a.lists[c], src.cells, dst.cells)
    requires src.lists == a.lists[c := []] && dst.lists == seq(|a.lists|, _ => [])[c := a.lists[c]]
    requires src.free == FreeCount(src.cells) && dst.free == FreeCount(dst.cells)
    ensures Split(a, c, src, dst)
  {
  }

  /** A map whose cells were all given to client c when it was created. */
  ghost predicate Whole(a: Account, c: nat) {
    && c < |a.lists| && a.lists == seq(|a.lists|, _ => [])[c := seq(|a.cells|, i => i)]
    && forall i :: 0 <= i < |a.cells| ==> a.cells[i].refcnt == ALLOC_PRIVATE && !a.cells[i].fShared
  }

  /** Giving up the whole list leaves of every cell what a copy of the list leaves. */
  lemma {:induction false} GivenUpCells(f: Freeing, c: nat, n: nat, others: multiset<nat>)
    requires c < |f.account.lists| && n <= |f.account.lists[c]|
    requires Balanced(f.account) && PoolOk(f.pool, Refs(f.account.cells) + others)
    ensures var g := FreeAll(f, c, f.account.lists[c][..n]).account;
            forall i :: 0 <= i < |f.account.cells| ==>
              g.cells[i] == Left(f.account.cells[i], multiset(f.account.lists[c][..n])[i])
  {
    hide Balanced, PoolOk, Refs, RefsOf, PoolAfter, FreeAll;
    var a, list := f.account, f.account.lists[c];
    if n == 0 {
      assert list[..0] == [];
      FreeAllOneMore(f, c, [], 0);
    } else {
      GivenUpCells(f, c, n - 1, others);
      GiveUpNext(f, c, n - 1, others);
      var x := list[n - 1];
      OneClaimFewer(a, c, n - 1);
    }
  }

  lemma OneClaimFewer(a: Account, c: nat, n: nat)
    requires Balanced(a) && c < |a.lists| && n < |a.lists[c]|
    ensures var x, list := a.lists[c][n], a.lists[c];
            && x < |a.cells| && FreedCell(Left(a.cells[x], multiset(list[..n])[x])) ==
               Left(a.cells[x], multiset(list[..n + 1])[x])
            && forall i :: i != x ==> multiset(list[..n + 1])[i] == multiset(list[..n])[i]
  {
    hide Balanced, Left, FreedCell;
    NextClaim(a, c, n);
    StepCell(a.cells[a.lists[c][n]], multiset(a.lists[c][..n])[a.lists[c][n]]);
  }

  /** The copy of a whole map: the new map takes all cells as they are, the old one gives up all. */
  lemma WholeSplit(a: Account, c: nat, src: Account, dst: Account)
    requires Whole(a, c) && |src.cells| == |a.cells|
    requires forall i :: 0 <= i < |a.cells| ==> src.cells[i] == Left(a.cells[i], multiset(a.lists[c])[i])
    requires src.lists == a.lists[c := []] && src.free == FreeCount(src.cells)
    requires dst == Account(a.cells, 0, seq(|a.lists|, _ => [])[c := seq(|a.cells|, i => i)])
    ensures Split(a, c, src, dst)
  {
    NoneFree(dst.cells);
    forall i: nat | i < |a.cells| ensures multiset(a.lists[c])[i] == 1 { CountingList(|a.cells|, i); }
  }

  /** Another client has nothing of a whole map to copy. */
  lemma WholeStays(a: Account, owner: nat, c: nat, src: Account, dst: Account)
    requires Whole(a, owner) && c != owner && Split(a, c, src, dst)
    ensures Whole(src, owner)
  {
    assert a.lists[c] == [];
    assert src.lists == a.lists;
  }

  /** Giving up unshared cells touches no shared colour. */
  lemma {:induction false} GivenUpPool(f: Freeing, c: nat, n: nat, others: multiset<nat>)
    requires c < |f.account.lists| && n <= |f.account.lists[c]|
    requires Balanced(f.account) && PoolOk(f.pool, Refs(f.account.cells) + others)
    requires forall i :: 0 <= i < |f.account.cells| ==> !f.account.cells[i].fShared
    ensures FreeAll(f, c, f.account.lists[c][..n]).pool == f.pool
  {
    hide FreeAll, Balanced, PoolOk, Refs;
    var list := f.account.lists[c];
    if n == 0 {
      assert list[..0] == [];
      FreeAllOneMore(f, c, [], 0);
    } else {
      GivenUpPool(f, c, n - 1, others);
      GivenUpCells(f, c, n - 1, others);
      GiveUpNext(f, c, n - 1, others);
    }
  }

  /** What is left of a whole map whose owner gives up its list, and the copy made before. */
  lemma WholeGivenUp(f: Freeing, c: nat, src: Account, dst: Account, others: multiset<nat>)
    requires Whole(f.account, c) && Balanced(f.account) && PoolOk(f.pool, Refs(f.account.cells) + others)
    requires src == FreeAll(f, c, f.account.lists[c]).account && src.lists == f.account.lists[c := []]
    requires dst == Account(f.account.cells, 0, seq(|f.account.lists|, _ => [])[c := seq(|f.account.cells|, i => i)])
    ensures Split(f.account, c, src, dst) && FreeAll(f, c, f.account.lists[c]).pool == f.pool
  {
    var list := f.account.lists[c];
    assert list[..|list|] == list;
    GivenUpCells(f, c, |list|, others);
    GivenUpPool(f, c, |list|, others);
    FreeAllBalances(f, c, list, others);
    WholeSplit(f.account, c, src, dst);
  }

  /** Of the pointers to shared colours, those of the other map of a pair count as others. */
  lemma PairPools(pool: Pool, s: multiset<nat>, d: multiset<nat>, all: multiset<nat>, others: multiset<nat>)
    requires PoolOk(pool, all + others) && s + d == all
    ensures PoolOk(pool, s + (d + others)) && PoolOk(pool, d + (s + others))
  {
    assert s + (d + others) == all + others && d + (s + others) == all + others;
  }

  lemma BalancedFree(a: Account)
    requires Balanced(a)
    ensures a.free == FreeCount(a.cells)
  {
  }
}
