/**
 Dynamic single-channel colormaps (PseudoColor, GrayScale) as dix/colormap.c keeps them.
 */
module Colormaps {
  import opened Bits
  import opened PlaneMasks
  import opened Cells
  import opened Accounts
  import opened Common
  import opened Claims
  import opened MapCopy
  import opened SharedPlanes
  import opened Stores

  /** The shared colours of all maps. */
  class SharedColors {
    var pool: Pool

    constructor ()
      ensures pool == map[]
    {
      pool := map[];
    }

    /** A new colour, black, with the given count. */
    method Create(refcnt: int) returns (id: nat)
      modifies this
      ensures id !in old(pool) && pool == old(pool)[id := SharedColor(0, refcnt)]
    {
      FreshId(pool);
      id :| id !in pool;
      pool := pool[id := SharedColor(0, refcnt)];
    }

    /** Takes one pointer away from a colour, and frees the colour with the last one. */
    method Release(id: nat)
      requires id in pool
      modifies this
      ensures id in pool <==> old(pool)[id].refcnt != 1
      ensures id in pool ==> pool[id] == SharedColor(old(pool)[id].color, old(pool)[id].refcnt - 1)
      ensures pool - {id} == old(pool) - {id}
      ensures pool == Drop(old(pool), id)
    {
      pool := pool[id := pool[id].(refcnt := pool[id].refcnt - 1)];
      if pool[id].refcnt == 0 {
        assert pool - {id} == old(pool) - {id};
        pool := pool - {id};
      }
    }
  }

  class Colormap {
    const nplanes: nat
    const red: array<Entry>
    const shared: SharedColors
    const resolve: RGB -> RGB  // what the screen makes of a colour (ResolveColor)
    const owner: nat  // the client that created the map
    var freeRed: int
    var clientPixelsRed: seq<seq<nat>>
    var allAllocated: bool
    ghost var sent: seq<Item>  // every change the screen was told about

    /** A new map: every cell free, or every cell allocated to its creator.  Its accounts agree, and
        with it those of the shared colours if they did before. */
    constructor (planes: nat, limitClients: nat, colours: SharedColors, screen: RGB -> RGB, all: bool, client: nat,
                 ghost others: multiset<nat>)
      requires 1 <= planes <= MAX_PLANES && client < limitClients
      ensures nplanes == planes && shared == colours && resolve == screen && fresh(red) && Shape()
      ensures View() == NewAccount(Pow2(planes), limitClients, all, client)
      ensures allAllocated == all && owner == client && sent == []
      ensures allAllocated ==> Whole(View(), owner)
      ensures red.Length == Pow2(planes) && freeRed == (if all then 0 else red.Length)
      ensures forall i :: 0 <= i < red.Length ==>
        red[i] == Entry(if all then ALLOC_PRIVATE else 0, false, RGB(0, 0, 0), SharedIds(0, 0, 0))
      ensures |clientPixelsRed| == limitClients && forall c :: 0 <= c < limitClients ==>
        clientPixelsRed[c] == if all && c == client then seq(red.Length, i => i) else []
      ensures Balanced(View()) && (PoolOk(colours.pool, others) ==> Valid(others))
    {
      hide *;
      nplanes, shared, resolve, owner, allAllocated, sent := planes, colours, screen, client, all, [];
      var size := Pow2(planes);
      var entry := if all then BLANK_CELL.(refcnt := ALLOC_PRIVATE) else BLANK_CELL;
      red := new Entry[size](_ => entry);
      freeRed := if all then 0 else size;
      clientPixelsRed := if all then seq(limitClients, _ => [])[client := seq(size, i => i)]
        else seq(limitClients, _ => []);
      new;
      BegunWith(size, limitClients, all, client);
      NewAccountBalances(size, limitClients, all, client);
      NewIsValid(others);
    }

    lemma BegunWith(size: nat, limitClients: nat, all: bool, client: nat)
      requires 1 <= nplanes <= MAX_PLANES && client < limitClients && red.Length == size == Pow2(nplanes)
      requires freeRed == if all then 0 else size
      requires forall i :: 0 <= i < size ==> red[i] == if all then BLANK_CELL.(refcnt := ALLOC_PRIVATE) else BLANK_CELL
      requires clientPixelsRed == if all then seq(limitClients, _ => [])[client := seq(size, i => i)]
               else seq(limitClients, _ => [])
      ensures View() == NewAccount(size, limitClients, all, client) && (all ==> Whole(View(), client)) && Shape()
      ensures forall i :: 0 <= i < size ==>
        red[i] == Entry(if all then ALLOC_PRIVATE else 0, false, RGB(0, 0, 0), SharedIds(0, 0, 0))
    {
    }

    lemma NewIsValid(others: multiset<nat>)
      requires Shape() && Balanced(View()) && Refs(View().cells) == multiset{} &&
               (allAllocated ==> Whole(View(), owner))
      ensures PoolOk(shared.pool, others) ==> Valid(others)
    {
      assert Refs(red[..]) + others == others;
    }

    ghost function View(): Account reads this, red {
      Account(red[..], freeRed, clientPixelsRed)
    }

    /** The map's part of the invariant; `others` counts the pointers to shared colours that other
        maps hold.  A map that is still marked as wholly allocated is private to its creator. */
    ghost predicate Valid(others: multiset<nat>) reads this, red, shared {
      Shape() && Balanced(View()) && PoolOk(shared.pool, Refs(red[..]) + others) &&
        (allAllocated ==> Whole(View(), owner))
    }

    ghost predicate Shape() {
      1 <= nplanes <= MAX_PLANES && red.Length == Pow2(nplanes)
    }

    lemma ShapeIs()
      requires Shape()
      ensures 1 <= nplanes <= MAX_PLANES && red.Length == Pow2(nplanes)
    {
    }

    // -------------------------------------------------------------- AllocCP

    /** Looks for `count` base pixels whose blocks of consecutive planes are free. */
    method ScanContiguous(planes: nat, ghost k: nat, mask: nat, base: nat, count: nat, pixels: array<nat>)
      returns (found: bool)
      requires Shape() && planes > 0 && planes + k <= nplanes
      requires mask == Contig(planes, k) && base == Pow2(k)
      requires 0 < count <= pixels.Length
      modifies pixels
      ensures found <==> Supplies(red[..], mask, count)
      ensures found ==> pixels[..count] == FreeBases(red[..], mask, red.Length)[..count]
    {
      hide Submask, PopCount, Shl;
      ghost var cells := red[..];
      ContigFits(planes, k, nplanes);
      ContigPop(planes, k);
      var n, pixel, entries := 0, 0, red.Length - mask;
      while pixel < entries
        invariant red[..] == cells
        invariant Disjoint(pixel, mask) || pixel >= entries
        invariant n < count && pixels[..n] == FreeBases(cells, mask, pixel)
        decreases red.Length - pixel
      {
        var save := pixel;
        var free := BlockFree(planes, k, mask, base, save);
        if free {
          pixels[n] := save;
          n := n + 1;
          assert pixels[..n] == FreeBases(cells, mask, save + 1);
          if n == count {
            FreeBasesPrefix(cells, mask, save + 1, red.Length);
            return true;
          }
        }
        pixel := save + 1;
        if And(pixel, mask) != 0 { pixel := pixel + mask; }
        forall q: nat | save + 1 <= q < pixel ensures !FreeBlock(cells, q, mask) {
          NextClear(save, planes, k, q);
        }
        NextClear(save, planes, k, save + 1);
        FreeBasesSkip(cells, mask, save + 1, pixel);
      }
      FreeBasesSkip(cells, mask, entries, pixel);
      FreeBasesSkip(cells, mask, entries, red.Length);
      return false;
    }

    /** Steps through one block of consecutive planes as long as its cells are free. */
    method BlockFree(planes: nat, ghost k: nat, mask: nat, base: nat, save: nat) returns (free: bool)
      requires Shape() && planes > 0 && mask == Contig(planes, k) && base == Pow2(k)
      requires save + mask < red.Length && Disjoint(save, mask)
      ensures free <==> FreeBlock(red[..], save, mask)
    {
      hide Pow2, PopCount, And, Submask;
      var pixel, maxp := save, save + mask + base;
      ghost var i, last := 0, Pow2(planes);
      ContigPop(planes, k);
      ShlZero(k);
      ShlSteps(last - 1, 1, k);
      while pixel != maxp && red[pixel].refcnt == 0
        invariant i <= last && pixel == save + Shl(i, k)
        invariant i < last ==> pixel <= save + mask
        invariant i == last <==> pixel == maxp
        invariant forall j: nat :: j < i ==> red[save + Submask(j, mask)].refcnt == 0
        decreases last - i
      {
        ContigSubmask(i, planes, k);
        ShlSteps(i, 1, k);
        pixel := pixel + base;
        i := i + 1;
        if i < last { ContigSubmask(i, planes, k); }
      }
      if i < last { ContigSubmask(i, planes, k); }
      return pixel == maxp;
    }

    /** Looks for `count` base pixels whose blocks over any mask are free. */
    method ScanScattered(mask: nat, count: nat, pixels: array<nat>) returns (found: bool)
      requires Shape() && 0 < mask < Pow2(nplanes) && 0 < count <= pixels.Length
      modifies pixels
      ensures found <==> Supplies(red[..], mask, count)
      ensures found ==> pixels[..count] == FreeBases(red[..], mask, red.Length)[..count]
    {
      hide FreeBlock;
      ghost var cells := red[..];
      var n, entries := 0, red.Length - mask;
      for pixel := 0 to entries
        invariant red[..] == cells
        invariant n < count && pixels[..n] == FreeBases(cells, mask, pixel)
      {
        if And(pixel, mask) != 0 { NotFreeBlock(cells, pixel, mask); continue; }
        var free := ScatteredBlockFree(mask, pixel);
        if !free { continue; }
        pixels[n] := pixel;
        n := n + 1;
        assert pixels[..n] == FreeBases(cells, mask, pixel + 1);
        if n < count { continue; }
        FreeBasesPrefix(cells, mask, pixel + 1, red.Length);
        return true;
      }
      forall q: nat | entries <= q < red.Length ensures !FreeBlock(cells, q, mask) { NotFreeBlock(cells, q, mask); }
      FreeBasesSkip(cells, mask, entries, red.Length);
      return false;
    }

    /** Counts through one block on the mask's bits as long as its cells are free. */
    method ScatteredBlockFree(mask: nat, pixel: nat) returns (free: bool)
      requires mask > 0 && pixel + mask < red.Length && Disjoint(pixel, mask)
      ensures free <==> FreeBlock(red[..], pixel, mask)
    {
      hide Pow2, Submask, PopCount, And, Rank, LowBit;
      var maxp, base := 0, LowBit(mask);
      ghost var i, last := 0, Pow2(PopCount(mask)) - 1;
      RankZero(mask);
      while red[pixel + maxp].refcnt == 0
        invariant i <= last && maxp == Submask(i, mask)
        invariant forall j: nat :: j < i ==> red[pixel + Submask(j, mask)].refcnt == 0
        decreases last - i
      {
        SubmaskRank(i, mask);
        if maxp == mask { break; }
        maxp := GetNextBits(maxp, mask, base);
        i := i + 1;
      }
      SubmaskRank(i, mask);
      free := !(maxp < mask || red[pixel + mask].refcnt != 0);
    }

    /** Makes every cell of the found blocks private, listing the pixels after the bases; the planes
        are stepped through by their lowest bit, or by counting on the mask's bits. */
    method AllocateBlocks(mask: nat, consecutive: bool, count: nat, pixels: array<nat>, ghost bases: seq<nat>,
                          ghost k: nat)
      requires Shape() && mask > 0 && count == |bases| && count <= pixels.Length && pixels[..count] == bases
      requires pixels.Length == |AllPixels(bases, mask)|
      requires forall p: nat :: p in bases ==> p + mask < red.Length
      requires consecutive ==> mask == Contig(PopCount(mask), k)
      modifies red, pixels
      ensures pixels[..] == AllPixels(bases, mask)
      ensures red[..] == Privatized(old(red[..]), BlockCells(bases, mask))
    {
      hide *;
      ghost var cells := red[..];
      var c, at := count, count;
      assert bases[count..] == [];
      TailsEnds(bases, mask);
      PrivatizedNone(cells);
      while c > 0
        invariant 0 <= c <= count <= at <= pixels.Length
        invariant pixels[..at] == bases + Tails(bases[c..], mask)
        invariant red[..] == Privatized(cells, BlockCells(bases[c..], mask))
      {
        c := c - 1;
        TailsSplit(bases, mask, c);
        assert pixels[c] == pixels[..at][c] == bases[c];
        assert bases[c] in bases;
        at := AllocateBlock(pixels[c], mask, consecutive, pixels, at, k);
        assert BlockCells(bases[c..], mask) == BlockCells(bases[c + 1..], mask) +
          ({bases[c]} + Members(BlockTail(bases[c], mask)));
        PrivatizedTwice(cells, BlockCells(bases[c + 1..], mask), {bases[c]} + Members(BlockTail(bases[c], mask)));
      }
      assert bases[0..] == bases;
      assert pixels[..at] == AllPixels(bases, mask);
    }

    method MarkCell(x: nat, ghost cells: seq<Entry>, ghost marked: set<nat>)
      requires x < red.Length && red[..] == Privatized(cells, marked)
      modifies red
      ensures red[..] == Privatized(cells, marked + {x})
    {
      red[x] := red[x].(refcnt := ALLOC_PRIVATE, fShared := false);
      PrivatizedOne(cells, marked, x);
    }

    method AllocateBlock(p: nat, mask: nat, consecutive: bool, pixels: array<nat>, start: nat, ghost k: nat)
      returns (at: nat)
      requires Shape() && mask > 0 && p + mask < red.Length
      requires start + |BlockTail(p, mask)| <= pixels.Length
      requires consecutive ==> mask == Contig(PopCount(mask), k)
      modifies red, pixels
      ensures at == start + |BlockTail(p, mask)|
      ensures pixels[..at] == old(pixels[..start]) + BlockTail(p, mask)
      ensures red[..] == Privatized(old(red[..]), {p} + Members(BlockTail(p, mask)))
    {
      hide *;
      ghost var cells, before, tail := red[..], pixels[..start], BlockTail(p, mask);
      ghost var j, last, marked: set<nat> := 0, |tail|, {};
      var bits, base := 0, LowBit(mask);
      at := start;
      RankZero(mask);
      PrivatizedNone(cells);
      while true
        invariant 0 <= j <= last && bits == Submask(j, mask) && at == start + j
        invariant pixels[..at] == before + tail[..j]
        invariant marked == (if j == 0 then {} else {p} + Members(tail[..j - 1]))
        invariant red[..] == Privatized(cells, marked)
        decreases last - j
      {
        MarkCell(p + bits, cells, marked);
        marked := marked + {p + bits};
        TailTaken(p, mask, j);
        if bits == mask { break; }
        if consecutive {
          ConsecutiveStep(j, mask, k);
          bits := bits + base;
        } else {
          bits := GetNextBits(bits, mask, base);
        }
        pixels[at] := p + bits;
        at, j := at + 1, j + 1;
        TailTaken(p, mask, j);
      }
      assert tail[..j] == tail;
      assert marked == {p} + Members(tail);
    }

    /** Finds `count` unallocated cells one after the other, making each private on the way. */
    method AllocateSingles(count: nat, pixels: array<nat>)
      requires Shape() && pixels.Length == count && Supplies(red[..], 0, count)
      modifies red, pixels
      ensures pixels[..] == FreeBases(old(red[..]), 0, red.Length)[..count]
      ensures red[..] == Privatized(old(red[..]), Members(pixels[..]))
    {
      hide *;
      ghost var cells := red[..];
      ghost var seen: nat := 0;
      var pixel: nat := 0;
      PrivatizedNone(cells);
      MembersMore([], 0);
      FreeBasesNone(cells);
      for k := 0 to count
        invariant pixels[..k] == FreeBases(cells, 0, seen)
        invariant pixel <= seen <= pixel + 1 && seen <= red.Length
        invariant seen == pixel + 1 ==> red[pixel].refcnt != 0
        invariant red[..] == Privatized(cells, Members(pixels[..k]))
      {
        ghost var list := pixels[..k];
        pixel, seen := NextFree(pixel, seen, cells, count, list);
        FreeBasesNext(cells, pixel);
        MarkCell(pixel, cells, Members(list));
        PrivatizedAt(cells, Members(list) + {pixel}, pixel);
        pixels[k] := pixel;
        seen := pixel + 1;
        assert pixels[..k + 1] == list + [pixel];
        MembersMore(list, pixel);
      }
      FreeBasesPrefix(cells, 0, seen, red.Length);
      assert pixels[..count] == pixels[..];
      SupplyPrefix(cells, seen, count, pixels[..]);
    }

    /** Steps to the next unallocated cell; there is one as long as fewer cells were taken than the
        map had to give. */
    method NextFree(from: nat, ghost seen: nat, ghost cells: seq<Entry>, ghost count: nat, ghost list: seq<nat>)
      returns (pixel: nat, ghost seen': nat)
      requires from <= seen <= from + 1 && seen <= red.Length
      requires seen == from + 1 ==> red[from].refcnt != 0
      requires list == FreeBases(cells, 0, seen) && |list| < count && Supplies(cells, 0, count)
      requires red[..] == Privatized(cells, Members(list)) && |cells| == red.Length
      ensures seen' == pixel < red.Length && cells[pixel].refcnt == 0
      ensures FreeBases(cells, 0, pixel) == list
    {
      hide *;
      pixel, seen' := from, seen;
      MoreToCome(cells, seen', count);
      while red[pixel].refcnt != 0
        invariant pixel <= seen' <= pixel + 1 && seen' < red.Length
        invariant seen' == pixel + 1 ==> red[pixel].refcnt != 0
        invariant FreeBases(cells, 0, seen') == list
        decreases red.Length - pixel
      {
        if seen' == pixel { TakenCell(cells, list, pixel); assert red[pixel] == red[..][pixel]; }
        pixel := pixel + 1;
        seen' := pixel;
        MoreToCome(cells, seen', count);
      }
      assert red[pixel] == red[..][pixel];
      TakenCell(cells, list, pixel);
    }

    /** Allocates count << planes cells: true exactly when some permitted mask has enough base pixels
        with free blocks.  Then `pixels` lists the lowest such bases of that mask followed by the
        rest of their blocks, all of them are private and unshared, and no other cell changes. */
    method AllocCP(count: nat, planes: nat, contig: bool, pixels: array<nat>) returns (ok: bool, mask: nat)
      requires Shape() && count > 0 && pixels.Length == count * Pow2(planes) <= FreeCount(red[..])
      modifies red, pixels
      ensures ok <==> Feasible(old(red[..]), count, planes, contig, nplanes)
      ensures ok <==> CanBeMet(old(red[..]), count, planes, contig, nplanes)
      ensures !ok ==> red[..] == old(red[..])
      ensures ok ==> Allocated(old(red[..]), red[..], mask, count, planes, contig, pixels[..])
      ensures ok ==> forall i: nat :: i < red.Length ==>
        red[i] == if i in pixels[..] then Entry(ALLOC_PRIVATE, false, old(red[i].local), old(red[i].shco))
                  else old(red[i])
      ensures ok && planes > 0 ==> FirstChoice(old(red[..]), mask, count, planes, nplanes)
    {
      ghost var cells := red[..];
      FeasibleExactly(cells, count, planes, contig, nplanes);
      hide CanBeMet, Feasible, FirstChoice, FreeBases;
      if planes == 0 {
        FreeBasesCount(cells, red.Length);
        assert cells[..red.Length] == cells;
        AllocateSingles(count, pixels);
        NoPlanes(pixels[..]);
        ContigPop(0, 0);
        assert Permitted(0, planes, contig, nplanes);
        OnePermitted(cells, 0, count, planes, contig, nplanes);
        NowPrivate(cells, pixels[..]);
        return true, 0;
      } else if planes > nplanes {
        NonePermitted(cells, count, planes, contig, nplanes);
        return false, 0;
      }
      ok, mask := AllocPlanes(count, planes, contig, pixels);
      if ok { NowPrivate(cells, pixels[..]); }
    }

    lemma OnePermitted(cells: seq<Entry>, mask: nat, count: nat, planes: nat, contig: bool, n: nat)
      requires Permitted(mask, planes, contig, n) && Supplies(cells, mask, count)
      ensures Feasible(cells, count, planes, contig, n)
    {
    }

    lemma NonePermitted(cells: seq<Entry>, count: nat, planes: nat, contig: bool, n: nat)
      requires planes > n
      ensures !Feasible(cells, count, planes, contig, n)
    {
      forall m | Permitted(m, planes, contig, n) ensures false { PopBounds(m, n); }
    }

    lemma NowPrivate(cells: seq<Entry>, xs: seq<nat>)
      requires red[..] == Privatized(cells, Members(xs))
      ensures red.Length == |cells| && forall i: nat :: i < |cells| ==>
                red[i] == if i in xs then Entry(ALLOC_PRIVATE, false, cells[i].local, cells[i].shco) else cells[i]
    {
      PrivatizedIs(cells, xs, red[..]);
      assert forall i: nat :: i < |cells| ==> red[i] == red[..][i];
    }

    /** The general case: consecutive planes first, since that is fastest, then all other masks. */
    method AllocPlanes(count: nat, planes: nat, contig: bool, pixels: array<nat>) returns (ok: bool, mask: nat)
      requires Shape() && count > 0 && 0 < planes <= nplanes &&
               pixels.Length == count * Pow2(planes) <= FreeCount(red[..])
      modifies red, pixels
      ensures ok <==> Feasible(old(red[..]), count, planes, contig, nplanes)
      ensures !ok ==> red[..] == old(red[..])
      ensures ok ==> Allocated(old(red[..]), red[..], mask, count, planes, contig, pixels[..])
      ensures ok ==> FirstChoice(old(red[..]), mask, count, planes, nplanes)
    {
      hide *;
      ShapeIs();
      ghost var cells := red[..];
      CountFits(count, planes);
      ok, mask := TryConsecutive(count, planes, contig, pixels);
      if ok { return; }
      if contig || planes == 1 || nplanes < 3 {
        NothingSupplies(cells, count, planes, contig, nplanes);
        return false, 0;
      }
      if planes == nplanes { WholeMap(cells, count, nplanes); }
      mask := FirstMask(planes);
      while mask <= FinalMask(planes, nplanes)
        invariant red[..] == cells
        invariant mask >= FirstMask(planes)
        invariant forall m: nat :: FirstMask(planes) <= m < mask && PopCount(m) == planes ==> !Supplies(cells, m, count)
        decreases FinalMask(planes, nplanes) + 1 - mask
      {
        MaskInRange(mask, planes, nplanes);
        HakmemCountsOnes(mask);
        if HakmemCount(mask) == planes {
          var found := ScanScattered(mask, count, pixels);
          if found {
            FoundBases(cells, mask, count, planes);
            AllocateBlocks(mask, false, count, pixels, pixels[..count], 0);
            FoundIsAllocated(cells, mask, count, planes, contig, nplanes);
            FirstScattered(cells, mask, count, planes, nplanes);
            return true, mask;
          }
        }
        mask := mask + 1;
      }
      NothingSupplies(cells, count, planes, contig, nplanes);
      return false, 0;
    }

    /** Tries the masks of consecutive planes, from the lowest up. */
    method TryConsecutive(count: nat, planes: nat, contig: bool, pixels: array<nat>) returns (ok: bool, mask: nat)
      requires Shape() && 0 < planes <= nplanes && 0 < count <= pixels.Length == count * Pow2(planes)
      modifies red, pixels
      ensures ok ==> Feasible(old(red[..]), count, planes, contig, nplanes)
      ensures ok ==> Allocated(old(red[..]), red[..], mask, count, planes, contig, pixels[..])
      ensures ok ==> FirstChoice(old(red[..]), mask, count, planes, nplanes)
      ensures !ok ==> red[..] == old(red[..])
      ensures !ok ==> forall k: nat :: planes + k <= nplanes ==> !Supplies(old(red[..]), Contig(planes, k), count)
    {
      hide *;
      ShapeIs();
      ghost var cells := red[..];
      var base, left := 1, nplanes - (planes - 1);
      mask := Pow2(planes) - 1;
      ConsecutiveFrom(planes, 0);
      ghost var k := 0;
      while left > 0
        invariant left == nplanes - (planes - 1) - k && 0 <= left
        invariant red[..] == cells && mask == Contig(planes, k) && base == Pow2(k)
        invariant forall j: nat :: j < k ==> !Supplies(cells, Contig(planes, j), count)
      {
        left := left - 1;
        ConsecutiveFrom(planes, k);
        ContigPop(planes, k);
        ContigPositive(planes, k);
        ContigFits(planes, k, nplanes);
        var found := ScanContiguous(planes, k, mask, base, count, pixels);
        if found {
          FoundBases(cells, mask, count, planes);
          ConsecutiveIsContig(mask, planes, k);
          AllocateBlocks(mask, true, count, pixels, pixels[..count], k);
          FoundIsAllocated(cells, mask, count, planes, contig, nplanes);
          FirstRun(cells, mask, count, planes, nplanes, k);
          return true, mask;
        }
        mask, base, k := mask + mask, base + base, k + 1;
      }
      return false, 0;
    }

    // -------------------------------------------------------------- FreeColors

    method FreeCell(i: nat, ghost refs: multiset<nat>)
      requires i < red.Length && PoolOk(shared.pool, refs) && RefsOf(red[i]) <= refs
      modifies red, this`freeRed, shared
      ensures red[..] == old(red[..])[i := FreedCell(old(red[i]))]
      ensures red[..] == old(red[..])[i := red[i]] && red[i].local == old(red[i].local)
      ensures red[i].refcnt == (if old(red[i].refcnt) > 1 then old(red[i].refcnt) - 1 else 0)
      ensures red[i].fShared == (old(red[i].fShared) && old(red[i].refcnt) > 1) && red[i].shco == old(red[i].shco)
      ensures forall id :: id in shared.pool ==>
                id in old(shared.pool) && shared.pool[id].color == old(shared.pool)[id].color
      ensures freeRed == if old(red[i].refcnt) > 1 then old(freeRed) else old(freeRed) + 1
      ensures shared.pool == PoolAfter(old(shared.pool), old(red[i]))
    {
      FreedKeeps(red[i], shared.pool);
      var pent := red[i];
      if pent.refcnt > 1 {
        red[i] := pent.(refcnt := pent.refcnt - 1);
      } else {
        if pent.fShared {
          DropThree(shared.pool, refs, pent.shco.red, pent.shco.green, pent.shco.blue);
          shared.Release(pent.shco.red);
          shared.Release(pent.shco.green);
          shared.Release(pent.shco.blue);
          red[i] := red[i].(fShared := false);
        }
        red[i] := red[i].(refcnt := 0);
        freeRed := freeRed + 1;
      }
    }

    /** One pixel named by the client: freed and taken off its list, or an error that does not stop
        the rest.  `list` is the client's list with holes where pixels were freed. */
    method FreeNamed(client: nat, x: nat, list: seq<nat>, errVal: Code, ghost f: Freeing, ghost others: multiset<nat>)
      returns (list': seq<nat>, errVal': Code, hit: bool)
      requires Shape() && client < |clientPixelsRed|
      requires f == Freeing(Account(red[..], freeRed, clientPixelsRed[client := Live(list)]), shared.pool, errVal)
      requires Balanced(f.account) && PoolOk(f.pool, Refs(red[..]) + others)
      modifies red, this`freeRed, shared
      ensures Freeing(Account(red[..], freeRed, clientPixelsRed[client := Live(list')]), shared.pool, errVal') ==
              FreeOne(f, client, x)
      ensures |list'| == |list| && |Live(list')| == |Live(list)| - (if hit then 1 else 0) && (!hit ==> list' == list)
    {
      hide *;
      ShapeIs();
      list', errVal', hit := list, errVal, false;
      if x >= red.Length {
        FreeOneIs(f, client, x);
        return list', BadValue, false;
      }
      var k := 0;
      while k < |list| && list[k] != x
        invariant k <= |list| && x !in list[..k]
      {
        k := k + 1;
      }
      NotAHole(nplanes, x);
      LiveHas(list, x);
      FreeOneIs(f, client, x);
      if k < |list| {
        LiveHole(list, k);
        OwnRefs(f.account, x, others);
        FreeCell(x, Refs(red[..]) + others);
        list', hit := list[k := HOLE], true;
      } else {
        assert list[..k] == list;
        errVal' := BadAccess;
      }
    }

    /** One pass over the named pixels with some bits of the mask added. */
    method FreePass(client: nat, pixels: seq<nat>, bits: nat, list: seq<nat>, errVal: Code, zapped: nat,
                    ghost f: Freeing, ghost done: seq<nat>, ghost others: multiset<nat>)
      returns (list': seq<nat>, errVal': Code, zapped': nat)
      requires Shape() && client < |clientPixelsRed| && |f.account.lists| == |clientPixelsRed|
      requires Freeing(Account(red[..], freeRed, clientPixelsRed[client := Live(list)]), shared.pool, errVal) ==
               FreeAll(f, client, done)
      requires Balanced(f.account) && PoolOk(f.pool, Refs(f.account.cells) + others)
      requires |Live(list)| == |list| - zapped
      modifies red, this`freeRed, shared
      ensures Freeing(Account(red[..], freeRed, clientPixelsRed[client := Live(list')]), shared.pool, errVal') ==
              FreeAll(f, client, done + WithBits(pixels, bits))
      ensures |Live(list')| == |list'| - zapped' && (zapped' == 0 ==> list' == list) && zapped' >= zapped
      ensures |list'| == |list|
    {
      hide *;
      ShapeIs();
      list', errVal', zapped' := list, errVal, zapped;
      ghost var xs := WithBits(pixels, bits);
      WithBitsIs(pixels, bits);
      assert done + xs[..0] == done;
      for n := 0 to |pixels|
        invariant Freeing(Account(red[..], freeRed, clientPixelsRed[client := Live(list')]), shared.pool, errVal') ==
                  FreeAll(f, client, done + xs[..n])
        invariant |Live(list')| == |list'| - zapped' && (zapped' == 0 ==> list' == list) && zapped' >= zapped
        invariant |list'| == |list|
      {
        FreeAllBalances(f, client, done + xs[..n], others);
        FreeAllOneMore(f, client, done + xs[..n], xs[n]);
        assert done + xs[..n] + [xs[n]] == done + xs[..n + 1];
        var hit;
        list', errVal', hit := FreeNamed(client, Or(pixels[n], bits), list', errVal',
                                         FreeAll(f, client, done + xs[..n]), others);
        if hit { zapped' := zapped' + 1; }
      }
      assert xs[..|pixels|] == xs;
    }

    /** Frees every combination of the pixels with the mask's bits. */
    method FreeCo(client: nat, pixels: seq<nat>, mask: nat, ghost others: multiset<nat>) returns (errVal: Code)
      requires Valid(others) && client < |clientPixelsRed| && !allAllocated
      modifies red, this`freeRed, this`clientPixelsRed, shared
      ensures Freeing(View(), shared.pool, errVal) ==
              FreeAll(Freeing(old(View()), old(shared.pool), Success), client,
                      Requests(pixels, mask, Pow2(PopCount(mask))))
      ensures Valid(others)
    {
      hide *;
      ValidIs(others);
      ghost var f := Freeing(View(), shared.pool, Success);
      RequestsIs(pixels, mask);
      errVal := Success;
      if pixels == [] {
        NoRequests(mask, Pow2(PopCount(mask)));
        FreeAllOneMore(f, client, [], 0);
        return;
      }
      var bits: nat, base, zapped: nat, list := 0, LowBit(mask), 0, clientPixelsRed[client];
      ghost var i: nat := 0;
      NoHoles(f.account, nplanes, client);
      FreeAllOneMore(f, client, [], 0);
      RankZero(mask);
      assert clientPixelsRed[client := list] == clientPixelsRed;
      while true
        invariant i < Pow2(PopCount(mask)) && bits == Submask(i, mask)
        invariant clientPixelsRed == f.account.lists && |list| == |clientPixelsRed[client]|
        invariant Freeing(Account(red[..], freeRed, clientPixelsRed[client := Live(list)]), shared.pool, errVal) ==
                  FreeAll(f, client, Requests(pixels, mask, i))
        invariant |Live(list)| == |list| - zapped && (zapped == 0 ==> list == clientPixelsRed[client])
        decreases Pow2(PopCount(mask)) - i
      {
        list, errVal, zapped := FreePass(client, pixels, bits, list, errVal, zapped, f, Requests(pixels, mask, i),
                                         others);
        RequestsMore(pixels, mask, i);
        SubmaskRank(i, mask);
        i := i + 1;
        if bits == mask { break; }
        bits := GetNextBits(bits, mask, base);
      }
      if zapped > 0 {
        var live := Compact(list, |list| - zapped);
        clientPixelsRed := clientPixelsRed[client := live];
      } else {
        assert clientPixelsRed[client := list] == clientPixelsRed;
      }
      FreeAllBalances(f, client, Requests(pixels, mask, i), others);
      BecomesValid(others);
    }

    /** Copies the pixels left on a list to its front. */
    method Compact(list: seq<nat>, left: nat) returns (live: seq<nat>)
      requires left == |Live(list)|
      ensures live == Live(list)
    {
      live := [];
      var c := 0;
      assert list[..0] == [];
      while |live| < left
        invariant c <= |list| && live == Live(list[..c])
        decreases |list| - c
      {
        LiveWhole(list, c);
        LiveConcat(list[..c], [list[c]]);
        assert list[..c] + [list[c]] == list[..c + 1];
        if list[c] != HOLE { live := live + [list[c]]; }
        c := c + 1;
      }
      LiveConcat(list[..c], list[c..]);
      assert list[..c] + list[c..] == list;
    }

    /** Frees the client's pixels among the named combinations; a map allocated whole refuses. */
    method FreeColors(client: nat, pixels: seq<nat>, mask: nat, ghost others: multiset<nat>) returns (result: Code)
      requires Valid(others) && client < |clientPixelsRed|
      modifies red, this`freeRed, this`clientPixelsRed, shared
      ensures Valid(others)
      ensures old(allAllocated) ==> result == BadAccess && View() == old(View()) && shared.pool == old(shared.pool)
      ensures !old(allAllocated) ==>
        var rmask := And(mask, Pow2(nplanes) - 1);
        var f := FreeAll(Freeing(old(View()), old(shared.pool), Success), client,
                         Requests(pixels, rmask, Pow2(PopCount(rmask))));
        && View() == f.account && shared.pool == f.pool
        && result == if mask != rmask && pixels != [] then BadValue else f.result
      ensures !old(allAllocated) ==>
        var rmask := And(mask, Pow2(nplanes) - 1);
        var xs, mine := Requests(pixels, rmask, Pow2(PopCount(rmask))), old(clientPixelsRed[client]);
        && clientPixelsRed == old(clientPixelsRed)[client := clientPixelsRed[client]]
        && multiset(clientPixelsRed[client]) == multiset(mine) - multiset(xs)
        && result == (if mask != rmask && pixels != [] then BadValue else LastRefusal(mine, red.Length, xs))
        && (result == Success <==> (mask == rmask || pixels == []) && multiset(xs) <= multiset(mine))
      ensures forall id :: id in shared.pool ==>
        id in old(shared.pool) && shared.pool[id].color == old(shared.pool)[id].color
      ensures forall i :: 0 <= i < red.Length && red[i].refcnt != 0 ==>
        && old(red[i].refcnt) != 0 && red[i].(refcnt := old(red[i].refcnt)) == old(red[i])
        && (red[i].refcnt == ALLOC_PRIVATE <==> old(red[i].refcnt) == ALLOC_PRIVATE)
        && ColourOf(red[i], shared.pool) == ColourOf(old(red[i]), old(shared.pool))
    {
      hide *;
      ValidIs(others);
      if allAllocated { return BadAccess; }
      ghost var f := Freeing(View(), shared.pool, Success);
      var rmask := And(mask, Pow2(nplanes) - 1);
      result := FreeCo(client, pixels, rmask, others);
      ValidIs(others);
      FreedColours(f, client, Requests(pixels, rmask, Pow2(PopCount(rmask))), result, others);
      if mask != rmask && pixels != [] { result := BadValue; }
    }

    /** What freeing leaves: the client's other pixels, and all colours as they were. */
    lemma FreedColours(f: Freeing, client: nat, xs: seq<nat>, result: Code, others: multiset<nat>)
      requires client < |f.account.lists| && Balanced(f.account) && PoolOk(f.pool, Refs(f.account.cells) + others)
      requires f.result == Success && FreeAll(f, client, xs) == Freeing(View(), shared.pool, result)
      ensures red.Length == |f.account.cells| && |clientPixelsRed| == |f.account.lists|
      ensures clientPixelsRed == f.account.lists[client := clientPixelsRed[client]]
      ensures multiset(clientPixelsRed[client]) == multiset(f.account.lists[client]) - multiset(xs)
      ensures result == LastRefusal(f.account.lists[client], red.Length, xs)
      ensures result == Success <==> multiset(xs) <= multiset(f.account.lists[client])
      ensures forall id :: id in shared.pool ==> id in f.pool && shared.pool[id].color == f.pool[id].color
      ensures forall i :: 0 <= i < red.Length && red[i].refcnt != 0 ==>
        && f.account.cells[i].refcnt != 0 && red[i].(refcnt := f.account.cells[i].refcnt) == f.account.cells[i]
        && (red[i].refcnt == ALLOC_PRIVATE <==> f.account.cells[i].refcnt == ALLOC_PRIVATE)
        && ColourOf(red[i], shared.pool) == ColourOf(f.account.cells[i], f.pool)
    {
      hide FreeAll, Refs, PoolOk, Balanced, ColourOf, LastRefusal;
      FreeAllTakes(f, client, xs) by { ListsInside(f.account, client); }
      FreeingKeepsColours(f, client, xs, others);
      assert forall i :: 0 <= i < red.Length ==> View().cells[i] == red[i];
    }

    // -------------------------------------------------------------- AllocColorCells

    /** Allocates count << planes cells and puts them all on the client's list; only the base pixels
        are returned. */
    method AllocPseudo(client: nat, count: nat, planes: nat, contig: bool, ghost others: multiset<nat>)
      returns (ok: Code, pixels: seq<nat>, mask: nat, first: nat, ghost all: seq<nat>)
      requires Valid(others) && client < |clientPixelsRed| && 0 < count <= 0xFFFF
      modifies red, this`freeRed, this`clientPixelsRed
      ensures ok == (if planes < 32 && count * Pow2(planes) <= old(freeRed) &&
                     Feasible(old(red[..]), count, planes, contig, nplanes)
                     then Success else BadAlloc)
      ensures ok == BadAlloc ==> View() == old(View())
      ensures ok == Success ==>
        && Allocated(old(red[..]), red[..], mask, count, planes, contig, all)
        && pixels == all[..count] == FreeBases(old(red[..]), mask, red.Length)[..count]
        && View() == Granted(old(View()), client, all)
      ensures ok == Success ==>
        && freeRed == old(freeRed) - |all| && |all| == count * Pow2(planes)
        && clientPixelsRed == old(clientPixelsRed)[client := old(clientPixelsRed[client]) + all]
        && forall i: nat :: i < red.Length ==>
             red[i] == if i in all then Entry(ALLOC_PRIVATE, false, old(red[i].local), old(red[i].shco))
                       else old(red[i])
      ensures ok == Success && planes > 0 ==> FirstChoice(old(red[..]), mask, count, planes, nplanes)
      ensures first == |old(clientPixelsRed[client])|
      ensures Valid(others) && (ok == Success ==> !allAllocated)
    {
      hide *;
      ValidIs(others);
      FreeIs(others);
      ok, pixels, mask, first, all := BadAlloc, [], 0, |clientPixelsRed[client]|, [];
      if planes >= 32 { return; }
      GuardIsExact(count, planes, freeRed);
      var npix := ShiftInt32(count, planes);
      if npix > freeRed || npix < count { return; }
      ghost var a := View();
      var temp := new nat[npix];
      var done: bool;
      done, mask := AllocCP(count, planes, contig, temp);
      if done {
        AllocatedIsGrant(a, client, red[..], mask, count, planes, contig, temp[..]);
        ok, pixels, all := Success, temp[..count], temp[..];
        clientPixelsRed := clientPixelsRed[client := clientPixelsRed[client] + temp[..]];
        freeRed := freeRed - npix;
        assert temp[..count] == temp[..][..count];
        assert Account(red[..], freeRed, clientPixelsRed) == Granted(a, client, all);
      }
      BecomesValid(others);
    }

    /** Allocates cells and returns their base pixels and the planes of their mask. */
    method AllocColorCells(client: nat, colors: nat, planes: nat, contig: bool, ghost others: multiset<nat>)
      returns (ok: Code, pixels: seq<nat>, masks: seq<nat>, ghost mask: nat)
      requires Valid(others) && client < |clientPixelsRed| && 0 < colors <= 0xFFFF
      modifies red, this`freeRed, this`clientPixelsRed
      ensures ok == (if planes < 32 && colors * Pow2(planes) <= old(freeRed) &&
                     Feasible(old(red[..]), colors, planes, contig, nplanes)
                     then Success else BadAlloc)
      ensures ok == BadAlloc ==> View() == old(View())
      ensures ok == Success ==>
        && Permitted(mask, planes, contig, nplanes) && Supplies(old(red[..]), mask, colors)
        && pixels == FreeBases(old(red[..]), mask, red.Length)[..colors]
        && View() == Granted(old(View()), client, AllPixels(pixels, mask))
        && |masks| == planes && Planes(masks) && OrAll(masks) == mask
      ensures ok == Success ==>
        && freeRed == old(freeRed) - colors * Pow2(planes)
        && clientPixelsRed ==
           old(clientPixelsRed)[client := old(clientPixelsRed[client]) + AllPixels(pixels, mask)]
        && forall i: nat :: i < red.Length ==>
             red[i] == if i in AllPixels(pixels, mask)
                       then Entry(ALLOC_PRIVATE, false, old(red[i].local), old(red[i].shco))
                       else old(red[i])
      ensures ok == Success && planes > 0 ==> FirstChoice(old(red[..]), mask, colors, planes, nplanes)
      ensures Valid(others)
    {
      hide *;
      ValidIs(others);
      ShapeIs();
      ghost var cells := red[..];
      ghost var all;
      masks := [];
      var m: nat;
      var first;
      ok, pixels, m, first, all := AllocPseudo(client, colors, planes, contig, others);
      mask := m;
      if ok == Success {
        AllocatedIs(cells, red[..], mask, colors, planes, contig, all, nplanes);
        var r; ghost var k;
        TakenNone(mask);
        masks, r, k := TakePlanes(m, planes, 1, 0, 0);
        TakenAll(mask, OrAll(masks), k);
      }
    }

    /** A client that allocates cells and then frees the returned pixels with the OR of the returned
        planes leaves the map as it was: every cell, the free count and all pixel lists. */
    method AllocThenFree(client: nat, colors: nat, planes: nat, contig: bool, ghost others: multiset<nat>)
      returns (granted: Code, freed: Code)
      requires Valid(others) && client < |clientPixelsRed| && 0 < colors <= 0xFFFF && !allAllocated
      modifies red, this`freeRed, this`clientPixelsRed, shared
      ensures View() == old(View()) && shared.pool == old(shared.pool)
      ensures granted == Success ==> freed == Success
    {
      hide *;
      ValidIs(others);
      ShapeIs();
      ghost var a, pool := View(), shared.pool;
      var pixels, masks; ghost var mask;
      granted, pixels, masks, mask := AllocColorCells(client, colors, planes, contig, others);
      if granted != Success { return granted, granted; }
      PermittedFits(mask, planes, contig, nplanes);
      ViewIs();
      GrantedView(a, client, AllPixels(pixels, mask), View());
      freed := FreeColors(client, pixels, OrAll(masks), others);
      RoundTrip(a, client, mask, colors, pool);
    }

    lemma PermittedFits(mask: nat, planes: nat, contig: bool, n: nat)
      requires Permitted(mask, planes, contig, n)
      ensures And(mask, Pow2(n) - 1) == mask
    {
      AndFull(mask, n);
    }

    // -------------------------------------------------------------- AllocColorPlanes

    /** Points one channel of the listed cells that pass the comparison at a colour. */
    method AssignColor(ch: Channel, all: seq<nat>, rest: nat, value: nat, id: nat)
      requires forall x :: x in all ==> x < red.Length
      modifies red
      ensures Coloured(old(red[..]), red[..], all, ch, rest, value, id)
    {
      ghost var cells := red[..];
      for z := 0 to |all|
        invariant Coloured(cells, red[..], all[..z], ch, rest, value, id)
      {
        assert all[z] in all;
        assert all[..z + 1] == all[..z] + [all[z]];
        if AndNot(all[z], rest) == value { red[all[z]] := WithId(red[all[z]], ch, id); }
      }
      assert all[..|all|] == all;
    }

    /** For one base pixel, makes a colour for every combination of one channel's planes. */
    method ShareChannel(ch: Channel, p: nat, all: seq<nat>, ms: Masks, n: Counts, ghost before: seq<Entry>,
                        ghost pool0: Pool, ghost ids: Ids)
      returns (ghost ids': Ids)
      requires ms.Apart() && Disjoint(p, ms.Total())
      requires forall x :: x in all ==> x < red.Length
      requires forall k :: k in ids ==> k.ch != ch || k.base != p
      requires Sharing(before, red[..], all, ids, ms) && PoolWith(pool0, shared.pool, ids, n)
      modifies red, shared
      ensures ChannelKeys(ids, ids', ch, p, ms.Of(ch), Pow2(PopCount(ms.Of(ch))))
      ensures Sharing(before, red[..], all, ids', ms) && PoolWith(pool0, shared.pool, ids', n)
    {
      hide *;
      var own, rest := ms.Of(ch), ms.Others(ch);
      var common, bits, base := AndNot(p, rest), 0, LowBit(own);
      ghost var i: nat := 0;
      ids' := ids;
      NoChannelKeys(ids, ch, p, own);
      while true
        invariant i < Pow2(PopCount(own)) && bits == Submask(i, own)
        invariant ChannelKeys(ids, ids', ch, p, own, i)
        invariant Sharing(before, red[..], all, ids', ms) && PoolWith(pool0, shared.pool, ids', n)
        decreases Pow2(PopCount(own)) - i
      {
        ghost var key := Key(ch, p, bits);
        ChannelKeysStep(ids, ids', ch, p, own, i, 0);
        SubmaskRank(i, own);
        ghost var pool := shared.pool;
        var id := shared.Create(n.Written(ch));
        ghost var cells := red[..];
        AssignColor(ch, all, rest, Or(common, bits), id);
        SharingStep(before, cells, red[..], all, ids', ms, ch, p, bits, id);
        PoolStep(pool0, pool, ids', n, key, id);
        ChannelKeysStep(ids, ids', ch, p, own, i, id);
        ids' := ids'[key := id];
        i := i + 1;
        if bits == own { break; }
        bits := GetNextBits(bits, own, base);
      }
    }

    /** Gives every new cell its three shared colours. */
    method AllocShared(bases: seq<nat>, all: seq<nat>, ms: Masks, n: Counts) returns (ghost ids: Ids)
      requires ms.Apart() && forall x :: x in all ==> x < red.Length
      requires forall p: nat :: p in bases ==> Disjoint(p, ms.Total())
      requires NoRepeats(bases)
      modifies red, shared
      ensures KeysOf(ids, bases, ms)
      ensures Sharing(old(red[..]), red[..], all, ids, ms) && PoolWith(old(shared.pool), shared.pool, ids, n)
    {
      hide *;
      ghost var before, pool0 := red[..], shared.pool;
      ids := map[];
      SharingNone(red[..], all, ms);
      NoKeys(ms, shared.pool, n);
      assert bases[..0] == [];
      for m := 0 to |bases|
        invariant KeysOf(ids, bases[..m], ms)
        invariant Sharing(before, red[..], all, ids, ms) && PoolWith(pool0, shared.pool, ids, n)
      {
        var p := bases[m];
        assert p in bases;
        NewBase(ids, bases, m, ms);
        ghost var ids0 := ids;
        ids := ShareChannel(Red, p, all, ms, n, before, pool0, ids);
        ghost var ids1 := ids;
        OtherChannel(ids0, ids1, Red, p, ms);
        ids := ShareChannel(Green, p, all, ms, n, before, pool0, ids);
        OtherChannel(ids1, ids, Green, p, ms);
        ghost var ids2 := ids;
        ids := ShareChannel(Blue, p, all, ms, n, before, pool0, ids);
        AllChannels(ids0, ids1, ids2, ids, bases, m, ms);
      }
      assert bases[..|bases|] == bases;
    }

    /** Allocates cells over r + g + b planes and shares each channel among the cells that differ in
        other planes only.  The shared colours end up with the right counts exactly when there are
        no red planes or all three channels have planes, and the counts fit. */
    method AllocColorPlanes(client: nat, colors: nat, r: nat, g: nat, b: nat, contig: bool, ghost others: multiset<nat>)
      returns (ok: Code, pixels: seq<nat>, ms: Masks, ghost ids: Ids)
      requires Valid(others) && client < |clientPixelsRed| && 0 < colors <= 0xFFFF
      modifies red, this`freeRed, this`clientPixelsRed, shared
      ensures ok == (if r + g + b < 32 && colors * Pow2(r + g + b) <= old(freeRed) &&
                        Feasible(old(red[..]), colors, r + g + b, contig, nplanes)
                     then Success else BadAlloc)
      ensures ok == BadAlloc ==> View() == old(View()) && shared.pool == old(shared.pool)
      ensures ok == Success ==>
        && Permitted(ms.Total(), r + g + b, contig, nplanes) && Supplies(old(red[..]), ms.Total(), colors)
        && pixels == FreeBases(old(red[..]), ms.Total(), red.Length)[..colors]
        && PlanesGranted(old(View()), old(shared.pool), View(), shared.pool, client, pixels,
                         AllPixels(pixels, ms.Total()),
                         ms, Counts(r, g, b), ids)
        && Balanced(View()) && ms.InOrder() && (contig ==> ms.InARow(Counts(r, g, b)))
      ensures ok == Success ==>
        && ms.Apart() && PopCount(ms.r) == r && PopCount(ms.g) == g && PopCount(ms.b) == b
        && freeRed == old(freeRed) - colors * Pow2(r + g + b)
        && clientPixelsRed ==
           old(clientPixelsRed)[client := old(clientPixelsRed[client]) + AllPixels(pixels, ms.Total())]
        && NewCellsShare(old(Now()), Now(), AllPixels(pixels, ms.Total()), ms)
      ensures ok == Success && r + g + b > 0 ==>
        FirstChoice(old(red[..]), ms.Total(), colors, r + g + b, nplanes)
      ensures Valid(others) <==> ok == BadAlloc || Counts(r, g, b).Right()
    {
      hide *;
      ValidIs(others);
      ShapeIs();
      ghost var before, cells0 := View(), red[..];
      NowIs();
      ghost var all;
      ms, ids := Masks(0, 0, 0), map[];
      var mask: nat, first: nat;
      ok, pixels, mask, first, all := AllocPseudo(client, colors, r + g + b, contig, others);
      if ok != Success { return; }
      AllocatedIs(cells0, red[..], mask, colors, r + g + b, contig, all, nplanes);
      PermittedIs(mask, r + g + b, contig, nplanes);
      TotalIs(Counts(r, g, b));
      ms := SplitPlanes(mask, Counts(r, g, b), contig);
      AllPixelsExact(cells0, mask, colors);
      BasesFirst(pixels, mask);
      ghost var granted, pool0 := red[..], shared.pool;
      ValidIs(others);
      GrantedView(before, client, all, View());
      assert clientPixelsRed[client][first..] == all;
      ids := AllocShared(pixels, clientPixelsRed[client][first..], ms, Counts(r, g, b));
      SupplyLength(cells0, mask, colors);
      GrantBalances(before, client, all);
      GrantedPrivate(before, client, all);
      BlocksKeyed(pixels, all, ids, ms);
      SharingDone(granted, red[..], all, ids, ms);
      SharingBalances(Granted(before, client, all), all, ids, ms, pool0, shared.pool, Counts(r, g, b), others);
      SharingKeepsPool(granted, pixels, all, ids, ms, Counts(r, g, b), pool0, shared.pool, others);
      PlanesGrantedIs(before, pool0, Granted(before, client, all).(cells := red[..]), shared.pool, client, pixels, all,
                      ms, Counts(r, g, b), ids);
      PlanesView(before, client, all);
      NowShared(before, pool0, client, pixels, all, ms, Counts(r, g, b), ids);
      PlanesValid(others);
    }

    /** Splits the mask of an allocation into those of the channels: the lowest planes are red, the next
        ones green, the highest blue. */
    method SplitPlanes(mask: nat, n: Counts, ghost contig: bool) returns (ms: Masks)
      requires PopCount(mask) == n.Total() && (contig ==> exists k :: mask == Contig(n.Total(), k))
      ensures ms.Apart() && ms.Total() == mask && ms.InOrder() && (contig ==> ms.InARow(n))
      ensures PopCount(ms.r) == n.r && PopCount(ms.g) == n.g && PopCount(ms.b) == n.b
    {
      hide *;
      TotalIs(n);
      TakenNone(mask);
      var rs, gs, bs, r1, r2, r3; ghost var k1, k2, k3;
      rs, r1, k1 := TakePlanes(mask, n.r, 1, 0, 0);
      gs, r2, k2 := TakePlanes(mask, n.g, r1, k1, OrAll(rs));
      bs, r3, k3 := TakePlanes(mask, n.b, r2, k2, OrAll(rs) + OrAll(gs));
      MaskSplit(mask, rs, gs, bs, k1, k2, k3);
      ms := Masks(OrAll(rs), OrAll(gs), OrAll(bs));
      SplitInOrder(mask, ms, k1, k2);
      if contig { SplitInARow(mask, ms, n, k1, k2, k3); }
    }

    lemma NowShared(before: Account, pool0: Pool, client: nat, pixels: seq<nat>, all: seq<nat>, ms: Masks, n: Counts,
                    ids: Ids)
      requires client < |before.lists| && forall x :: x in all ==> x < |before.cells| && before.cells[x].refcnt == 0
      requires View() == Granted(before, client, all).(cells := red[..])
      requires PlanesGranted(before, pool0, Granted(before, client, all).(cells := red[..]), shared.pool, client,
                             pixels, all, ms, n, ids)
      ensures NewCellsShare(Values(before.cells, pool0), Now(), all, ms)
      ensures freeRed == before.free - |all|
      ensures clientPixelsRed == before.lists[client := before.lists[client] + all]
    {
      hide PlanesGranted, NewCellsShare;
      GrantedNewCells(before, pool0, View(), shared.pool, client, pixels, all, ms, n, ids);
    }

    lemma PermittedIs(mask: nat, planes: nat, contig: bool, n: nat)
      requires Permitted(mask, planes, contig, n)
      ensures PopCount(mask) == planes && (contig ==> exists k :: mask == Contig(planes, k))
    {
    }

    lemma TotalIs(n: Counts)
      ensures n.Total() == n.r + n.g + n.b
    {
    }

    lemma PlanesView(before: Account, client: nat, all: seq<nat>)
      requires client < |before.lists| && freeRed == before.free - |all|
      requires clientPixelsRed == before.lists[client := before.lists[client] + all]
      ensures View() == Granted(before, client, all).(cells := red[..])
    {
    }

    lemma PlanesValid(others: multiset<nat>)
      requires Shape() && Balanced(View()) && !allAllocated
      ensures Valid(others) <==> PoolOk(shared.pool, Refs(red[..]) + others)
    {
    }

    // -------------------------------------------------------------- AllocColor

    /** Finds a read-only cell of exactly this colour, searching from the hint and around, or else
        takes the first free cell found on the way. */
    method FindColor(rgb: RGB, hint: nat, client: nat) returns (ok: Code, pixel: nat, ghost k: nat)
      requires Shape() && client < |clientPixelsRed|
      modifies red, this`freeRed, this`clientPixelsRed, this`sent
      ensures pixel < red.Length
      ensures sent == old(sent) + if ok == Success && old(red[pixel].refcnt) == 0
              then [Item(pixel, rgb, true, true, true)] else []
      ensures var cells, start := old(red[..]), if hint >= red.Length then 0 else hint;
        if ok == Success then
          && k < red.Length && pixel == Around(start, k, red.Length)
          && ((FirstMatch(cells, rgb, start, k) &&
               View() == Claimed(old(View()), client, pixel, cells[pixel].(refcnt := Increment(cells[pixel].refcnt)),
                                 false)) ||
              (FirstFree(cells, rgb, start, k) &&
               View() == Claimed(old(View()), client, pixel, cells[pixel].(refcnt := 1, fShared := false, local := rgb),
                                 true)))
        else
          && ok == BadAlloc && View() == old(View())
          && forall i :: 0 <= i < |cells| ==> cells[i].refcnt != 0 && !Matches(cells[i], rgb)
    {
      ShapeIs();
      AroundNext(if hint >= red.Length then 0 else hint, 0, red.Length);
      hide Claimed, Increment, View, Shape, Around;
      ghost var cells := red[..];
      var start := if hint >= red.Length then 0 else hint;
      var free, foundFree, i := 0, false, 0;
      ghost var at: nat := 0;
      pixel, k := start, 0;
      while i < red.Length
        invariant i <= red.Length && red[..] == cells && View() == old(View()) && sent == old(sent)
        invariant i < red.Length ==> pixel == Around(start, i, red.Length)
        invariant forall j :: 0 <= j < i ==> !Matches(cells[Around(start, j, red.Length)], rgb)
        invariant !foundFree ==> forall j :: 0 <= j < i ==> cells[Around(start, j, red.Length)].refcnt != 0
        invariant foundFree ==> at < i && free == Around(start, at, red.Length) && cells[free].refcnt == 0
        invariant foundFree ==> forall j :: 0 <= j < at ==> cells[Around(start, j, red.Length)].refcnt != 0
      {
        assert red[pixel] == cells[pixel];
        AroundNext(start, i, red.Length);
        if red[pixel].refcnt > 0 {
          if red[pixel].local == rgb {
            ClaimMatch(pixel, client);
            return Success, pixel, i;
          }
        } else if !foundFree && red[pixel].refcnt == 0 {
          free, foundFree, at := pixel, true, i;
        }
        pixel := pixel + 1;
        if pixel >= red.Length { pixel := 0; }
        i := i + 1;
      }
      forall x | 0 <= x < |cells| ensures !Matches(cells[x], rgb) && (!foundFree ==> cells[x].refcnt != 0) {
        var j := AroundCovers(start, |cells|, x);
      }
      if !foundFree { return BadAlloc, 0, 0; }
      ClaimFree(rgb, free, client);
      return Success, free, at;
    }

    /** One more claim on a read-only cell. */
    method ClaimMatch(x: nat, client: nat)
      requires x < red.Length && client < |clientPixelsRed|
      modifies red, this`clientPixelsRed
      ensures View() == Claimed(old(View()), client, x, old(red[x]).(refcnt := Increment(old(red[x].refcnt))), false)
    {
      red[x] := red[x].(refcnt := Increment(red[x].refcnt));
      clientPixelsRed := clientPixelsRed[client := clientPixelsRed[client] + [x]];
    }

    /** Takes a free cell into use for a colour, and tells the screen about it. */
    method ClaimFree(rgb: RGB, x: nat, client: nat)
      requires x < red.Length && client < |clientPixelsRed|
      modifies red, this`freeRed, this`clientPixelsRed, this`sent
      ensures sent == old(sent) + [Item(x, rgb, true, true, true)]
      ensures View() == Claimed(old(View()), client, x, old(red[x]).(refcnt := 1, fShared := false, local := rgb), true)
    {
      red[x] := red[x].(fShared := false, refcnt := 1, local := rgb);
      freeRed := freeRed - 1;
      sent := sent + [Item(x, rgb, true, true, true)];
      clientPixelsRed := clientPixelsRed[client := clientPixelsRed[client] + [x]];
    }

    /** A read-only cell for the screen's version of a colour.  The accounts stay balanced unless a
        matching cell already has the largest count a short can hold. */
    method AllocColor(rgb: RGB, hint: nat, client: nat, ghost others: multiset<nat>)
      returns (ok: Code, colour: RGB, pixel: nat, ghost k: nat)
      requires Valid(others) && client < |clientPixelsRed|
      modifies red, this`freeRed, this`clientPixelsRed, this`sent
      ensures pixel < red.Length && colour == resolve(rgb) && |clientPixelsRed| == |old(clientPixelsRed)|
      ensures sent == old(sent) + if ok == Success && old(red[pixel].refcnt) == 0
              then [Item(pixel, colour, true, true, true)] else []
      ensures ok == Success ==> red[pixel].refcnt != 0 && red[pixel].local == colour && pixel in clientPixelsRed[client]
      ensures ok == Success ==>
        && View() == Claimed(old(View()), client, pixel, red[pixel], old(red[pixel].refcnt) == 0)
        && red[pixel].refcnt == if old(red[pixel].refcnt) == 0 then 1 else Increment(old(red[pixel].refcnt))
      ensures ok == Success ==>
        && old(red[pixel].refcnt) >= 0 && !red[pixel].fShared && red[pixel].shco == old(red[pixel].shco)
        && (old(red[pixel].refcnt) > 0 ==> red[pixel].local == old(red[pixel].local))
        && (0 <= old(red[pixel].refcnt) < SHORT_MAX ==> red[pixel].refcnt == old(red[pixel].refcnt) + 1)
        && (forall i :: 0 <= i < red.Length && i != pixel ==> red[i] == old(red[i]))
        && freeRed == old(freeRed) - (if old(red[pixel].refcnt) == 0 then 1 else 0)
        && clientPixelsRed == old(clientPixelsRed)[client := old(clientPixelsRed[client]) + [pixel]]
      ensures ok == Success ==>
        var cells, start := old(red[..]), if hint >= red.Length then 0 else hint;
        && k < red.Length && pixel == Around(start, k, red.Length)
        && (FirstMatch(cells, colour, start, k) || FirstFree(cells, colour, start, k))
      ensures ok == BadAlloc ==>
        && View() == old(View())
        && forall i :: 0 <= i < red.Length ==> old(red[i].refcnt) != 0 && !Matches(old(red[i]), colour)
      ensures ok == Success || ok == BadAlloc
      ensures Valid(others) <==> !(ok == Success && old(red[pixel].refcnt) == SHORT_MAX)
    {
      hide *;
      ValidIs(others);
      colour := resolve(rgb);
      ghost var a := View();
      if allAllocated { WholePrivate(a, owner); }
      ok, pixel, k := FindColor(colour, hint, client);
      assert a.cells == old(red[..]) && forall i :: 0 <= i < red.Length ==> a.cells[i] == old(red[i]);
      if ok == Success {
        var start := if hint >= red.Length then 0 else hint;
        FoundCell(a.cells, colour, start, k);
        ClaimBalances(a, client, pixel, colour);
        ghost var e := if a.cells[pixel].refcnt > 0 then a.cells[pixel].(refcnt := Increment(a.cells[pixel].refcnt))
                       else a.cells[pixel].(refcnt := 1, fShared := false, local := colour);
        ClaimedView(a, client, pixel, e, a.cells[pixel].refcnt == 0);
        ClaimedFrame(a, client, pixel, colour, e);
        ValidExactly(others);
      } else {
        ViewIs();
        BecomesValid(others);
      }
    }

    /** What the search found: a cell of the colour, which is not about to be free, or a free cell. */
    lemma FoundCell(cells: seq<Entry>, rgb: RGB, start: nat, k: nat)
      requires start < |cells| && k < |cells|
      ensures var e := cells[Around(start, k, |cells|)];
              && (FirstMatch(cells, rgb, start, k) ==> e.refcnt > 0 && e.local == rgb && Increment(e.refcnt) != 0)
              && (FirstFree(cells, rgb, start, k) ==> e.refcnt == 0)
    {
    }

    lemma ClaimedView(a: Account, client: nat, x: nat, e: Entry, taken: bool)
      requires client < |a.lists| && x < |a.cells| && View() == Claimed(a, client, x, e, taken)
      ensures x < red.Length && red[x] == e && |clientPixelsRed| == |a.lists| && x in clientPixelsRed[client]
      ensures View() == Claimed(a, client, x, red[x], taken) && View().cells == red[..]
    {
      assert View().cells[x] == red[x];
      assert clientPixelsRed[client][|a.lists[client]|] == x;
    }

    /** What one more claim changes, and that nothing else does. */
    lemma ClaimedFrame(a: Account, client: nat, x: nat, colour: RGB, e: Entry)
      requires Balanced(a) && client < |a.lists| && x < |a.cells| && a.cells[x].refcnt >= 0
      requires e == if a.cells[x].refcnt > 0 then a.cells[x].(refcnt := Increment(a.cells[x].refcnt))
                    else a.cells[x].(refcnt := 1, fShared := false, local := colour)
      requires View() == Claimed(a, client, x, e, a.cells[x].refcnt == 0)
      ensures x < red.Length == |a.cells| && !red[x].fShared && red[x].shco == a.cells[x].shco
      ensures a.cells[x].refcnt > 0 ==> red[x].local == a.cells[x].local
      ensures a.cells[x].refcnt < SHORT_MAX ==> red[x].refcnt == a.cells[x].refcnt + 1
      ensures forall i :: 0 <= i < red.Length && i != x ==> red[i] == a.cells[i]
      ensures freeRed == a.free - (if a.cells[x].refcnt == 0 then 1 else 0)
      ensures clientPixelsRed == a.lists[client := a.lists[client] + [x]]
    {
      hide FreeCount, Owned, Separate;
      assert CellOk(a.cells[x], Owned(a.lists)[x]);
      assert forall i :: 0 <= i < red.Length ==> red[i] == View().cells[i];
    }

    lemma ValidExactly(others: multiset<nat>)
      requires Shape() && PoolOk(shared.pool, Refs(red[..]) + others) && !allAllocated
      ensures Valid(others) <==> Balanced(View())
    {
    }

    // -------------------------------------------------------------- FreePixels

    /** Frees every cell on a client's list.  Only the other clients of a map remember their pixels as
        a resource, and a copy takes the mark of a wholly allocated map away first. */
    method FreePixels(client: nat, ghost others: multiset<nat>)
      requires Valid(others) && client < |clientPixelsRed| && (allAllocated ==> client != owner)
      modifies red, this`freeRed, this`clientPixelsRed, shared
      ensures Valid(others) && clientPixelsRed == old(clientPixelsRed)[client := []]
      ensures var f := FreeAll(Freeing(old(View()), old(shared.pool), Success), client, old(clientPixelsRed[client]));
              View() == f.account && shared.pool == f.pool
      ensures forall id :: id in shared.pool ==>
        id in old(shared.pool) && shared.pool[id].color == old(shared.pool)[id].color
      ensures forall i :: 0 <= i < red.Length && red[i].refcnt != 0 ==>
        && old(red[i].refcnt) != 0 && red[i].(refcnt := old(red[i].refcnt)) == old(red[i])
        && (red[i].refcnt == ALLOC_PRIVATE <==> old(red[i].refcnt) == ALLOC_PRIVATE)
        && ColourOf(red[i], shared.pool) == ColourOf(old(red[i]), old(shared.pool))
    {
      hide *;
      ValidIs(others);
      ghost var f := Freeing(View(), shared.pool, Success);
      var list := clientPixelsRed[client];
      FreeAllOneMore(f, client, [], 0);
      assert list[..0] == [] && list[0..] == list && clientPixelsRed[client := list] == clientPixelsRed;
      for n := 0 to |list|
        invariant clientPixelsRed == old(clientPixelsRed)
        invariant Freeing(Account(red[..], freeRed, clientPixelsRed[client := list[n..]]), shared.pool, Success) ==
                  FreeAll(f, client, list[..n])
      {
        GiveUpNext(f, client, n, others);
        FreeCell(list[n], Refs(red[..]) + others);
      }
      assert list[..|list|] == list && list[|list|..] == [];
      clientPixelsRed := clientPixelsRed[client := []];
      FreeAllBalances(f, client, list, others);
      BecomesValid(others);
      FreedColours(f, client, list, Success, others);
    }

    // -------------------------------------------------------------- CopyColormapAndFree

    /** Copies one claim to the new map and takes it out of this one. */
    method CopyClaim(x: nat, dst: Colormap, ghost refs: multiset<nat>) returns (taken: bool)
      requires x < red.Length == dst.red.Length && dst != this && dst.red != red
      requires PoolOk(shared.pool, refs)
      requires dst.red[x].refcnt >= 0 && red[x].refcnt != 0 && (red[x].fShared ==> red[x].refcnt == ALLOC_PRIVATE)
      requires dst.red[x].refcnt > 0 ==> red[x].refcnt > 0
      modifies red, this`freeRed, shared, dst.red
      ensures red[..] == old(red[..])[x := CopiedFrom(old(red[x]), old(dst.red[x]))]
      ensures dst.red[..] == old(dst.red[..])[x := CopiedTo(old(red[x]), old(dst.red[x]))]
      ensures red[x].refcnt != 0 ==> red[x] == old(red[x]).(refcnt := old(red[x].refcnt) - 1)
      ensures red[x].refcnt == 0 ==> !red[x].fShared && old(red[x].refcnt) <= 1
      ensures old(dst.red[x].refcnt) > 0 ==> dst.red[x] == old(dst.red[x]).(refcnt := old(dst.red[x].refcnt) + 1)
      ensures old(dst.red[x].refcnt) == 0 ==>
        dst.red[x] == if old(red[x].refcnt) > 0 then old(red[x]).(refcnt := 1) else old(red[x])
      ensures freeRed == old(freeRed) + (if old(red[x].refcnt) > 1 then 0 else 1)
      ensures shared.pool == old(shared.pool) && taken == (old(dst.red[x].refcnt) <= 0)
    {
      taken := false;
      if dst.red[x].refcnt > 0 {
        dst.red[x] := dst.red[x].(refcnt := dst.red[x].refcnt + 1);
      } else {
        dst.red[x] := red[x];
        taken := true;
        if red[x].refcnt > 0 {
          dst.red[x] := dst.red[x].(refcnt := 1);
        } else {
          red[x] := red[x].(fShared := false);
        }
      }
      FreeCell(x, refs);
    }

    /** Moves the client's claims and its list to a new, blank map. */
    method CopyFree(client: nat, dst: Colormap, ghost others: multiset<nat>)
      requires Valid(others) && client < |clientPixelsRed| && dst != this && dst.red != red
      requires dst.nplanes == nplanes && dst.Shape() &&
               dst.View() == NewAccount(Pow2(nplanes), |clientPixelsRed|, false, client)
      modifies this`freeRed, this`clientPixelsRed, red, shared, dst`freeRed, dst`clientPixelsRed, dst.red
      ensures Split(old(View()), client, View(), dst.View()) && shared.pool == old(shared.pool)
    {
      hide *;
      ValidIs(others);
      ShapeIs();
      dst.ShapeIs();
      ghost var a, refs, pool := View(), Refs(red[..]) + others, shared.pool;
      var list, nalloc := clientPixelsRed[client], 0;
      dst.NewView(|clientPixelsRed|, client, false);
      PartSplitStart(a, dst.red[..]);
      BlankFree(dst.red[..]);
      BalancedFree(a);
      assert list[..0] == [];
      for n := 0 to |list|
        invariant PartSplit(a, list[..n], red[..], dst.red[..])
        invariant shared.pool == pool && freeRed == FreeCount(red[..])
        invariant FreeCount(dst.red[..]) == red.Length - nalloc
        invariant clientPixelsRed == a.lists && dst.freeRed == red.Length
        invariant dst.clientPixelsRed == seq(|a.lists|, _ => [])
      {
        var x := list[n];
        CopyStep(a, client, n, red[..], dst.red[..]);
        CopyStepCounts(red[..], dst.red[..], x);
        assert red[x] == red[..][x] && dst.red[x] == dst.red[..][x];
        var taken := CopyClaim(x, dst, refs);
        if taken { nalloc := nalloc + 1; }
      }
      assert list[..|list|] == list;
      dst.freeRed := dst.freeRed - nalloc;
      dst.clientPixelsRed := dst.clientPixelsRed[client := list];
      clientPixelsRed := clientPixelsRed[client := []];
      ViewIs();
      dst.ViewIs();
      SplitDone(a, client, View(), dst.View());
    }

    lemma NewView(clients: nat, client: nat, all: bool)
      requires client < clients && View() == NewAccount(red.Length, clients, all, client)
      ensures |clientPixelsRed| == clients && freeRed == (if all then 0 else red.Length)
      ensures clientPixelsRed == if all then seq(clients, _ => [])[client := seq(red.Length, i => i)]
              else seq(clients, _ => [])
      ensures !all ==> forall i :: 0 <= i < red.Length ==> red[..][i] == BLANK_CELL
    {
    }

    /** The owner of a whole map has given up its list after its cells were copied to the new map. */
    lemma HandedOver(dst: Colormap, a: Account, pool: Pool, client: nat, others: multiset<nat>)
      requires Whole(a, client) && Balanced(a) && PoolOk(pool, Refs(a.cells) + others)
      requires var f := FreeAll(Freeing(a, pool, Success), client, a.lists[client]);
               View() == f.account && shared.pool == f.pool
      requires clientPixelsRed == a.lists[client := []] && dst.red[..] == a.cells
      requires dst.freeRed == 0 && dst.clientPixelsRed == seq(|a.lists|, _ => [])[client := seq(dst.red.Length, i => i)]
      ensures Split(a, client, View(), dst.View()) && shared.pool == pool && Whole(dst.View(), client)
    {
      WholeCopied(a, client, dst.View());
      hide FreeAll, Balanced, PoolOk, Whole, Split;
      WholeGivenUp(Freeing(a, pool, Success), client, View(), dst.View(), others);
    }

    lemma WholeCopied(a: Account, c: nat, b: Account)
      requires Whole(a, c) && b.cells == a.cells && b.lists == seq(|a.lists|, _ => [])[c := seq(|a.cells|, i => i)]
      ensures Whole(b, c)
    {
    }

    lemma ViewIs()
      ensures View() == Account(red[..], freeRed, clientPixelsRed)
    {
    }

    /** Moves the client's claims to a new map, which is as the copy's path needs it. */
    method MoveClaims(client: nat, dst: Colormap, ghost others: multiset<nat>)
      requires Valid(others) && client < |clientPixelsRed| && dst != this && dst.red != red
      requires dst.nplanes == nplanes && dst.Shape() && dst.allAllocated == (allAllocated && client == owner)
      requires dst.View() == NewAccount(Pow2(nplanes), |clientPixelsRed|, dst.allAllocated, client)
      modifies this`freeRed, this`clientPixelsRed, this`allAllocated, red, shared
      modifies dst`freeRed, dst`clientPixelsRed, dst.red
      ensures Split(old(View()), client, View(), dst.View()) && shared.pool == old(shared.pool)
      ensures allAllocated == (old(allAllocated) && client != owner)
      ensures (allAllocated ==> Whole(View(), owner)) && (dst.allAllocated ==> Whole(dst.View(), client))
    {
      hide *;
      ValidIs(others);
      ShapeIs();
      dst.ShapeIs();
      ghost var a, pool := View(), shared.pool;
      if allAllocated && client == owner {
        dst.NewView(|clientPixelsRed|, client, true);
        CopyEntries(dst);
        allAllocated := false;
        BecomesValid(others);
        FreePixels(client, others);
        HandedOver(dst, a, pool, client, others);
      } else {
        CopyFree(client, dst, others);
        if allAllocated { WholeStays(a, owner, client, View(), dst.View()); }
      }
    }

    /** A new map with the client's claims, which leave this map; a map that was allocated whole to
        its creator is handed over whole. */
    method CopyColormapAndFree(client: nat, ghost others: multiset<nat>) returns (dst: Colormap)
      requires Valid(others) && client < |clientPixelsRed|
      modifies this, red, shared
      ensures fresh(dst) && fresh(dst.red) && dst.nplanes == nplanes && dst.shared == shared && dst.resolve == resolve
      ensures Split(old(View()), client, View(), dst.View()) && shared.pool == old(shared.pool)
      ensures forall x :: x in old(clientPixelsRed[client]) ==>
        && x < red.Length == dst.red.Length && dst.red[x].refcnt != 0
        && ColourOf(dst.red[x], shared.pool) == ColourOf(old(red[x]), shared.pool)
      ensures forall i :: 0 <= i < red.Length && red[i].refcnt != 0 ==>
        old(red[i].refcnt) != 0 && ColourOf(red[i], shared.pool) == ColourOf(old(red[i]), shared.pool)
      ensures clientPixelsRed == old(clientPixelsRed)[client := []]
      ensures |dst.clientPixelsRed| == |clientPixelsRed| && dst.clientPixelsRed[client] == old(clientPixelsRed[client])
      ensures Valid(Refs(dst.red[..]) + others) && dst.Valid(Refs(red[..]) + others)
      ensures |dst.red[..]| == red.Length && dst.sent == Refresh(dst.Now(), red.Length)
      ensures dst.owner == client && dst.allAllocated == (old(allAllocated) && client == owner)
      ensures allAllocated == (old(allAllocated) && client != owner)
    {
      hide *;
      ValidIs(others);
      ShapeIs();
      ghost var a, pool := View(), shared.pool;
      dst := new Colormap(nplanes, |clientPixelsRed|, shared, resolve, allAllocated && client == owner, client, others);
      dst.ShapeIs();
      MoveClaims(client, dst, others);
      CopyConserves(a, client, View(), dst.View());
      CopiedColours(a, client, dst);
      ViewIs();
      dst.ViewIs();
      PairPools(pool, Refs(red[..]), Refs(dst.red[..]), Refs(a.cells), others);
      PairKnown(dst, Refs(red[..]) + others);
      dst.UpdateColors();
      dst.ViewIs();
      dst.NowIs();
      BecomesValid(Refs(dst.red[..]) + others);
      dst.BecomesValid(Refs(red[..]) + others);
    }

    lemma CopiedColours(a: Account, client: nat, dst: Colormap)
      requires Balanced(a) && Split(a, client, View(), dst.View())
      ensures client < |a.lists| && red.Length == dst.red.Length == |a.cells|
      ensures clientPixelsRed == a.lists[client := []]
      ensures |dst.clientPixelsRed| == |a.lists| && dst.clientPixelsRed[client] == a.lists[client]
      ensures forall x :: x in a.lists[client] ==>
        && x < red.Length && dst.red[x].refcnt != 0
        && ColourOf(dst.red[x], shared.pool) == ColourOf(a.cells[x], shared.pool)
      ensures forall i :: 0 <= i < red.Length && red[i].refcnt != 0 ==>
        a.cells[i].refcnt != 0 && ColourOf(red[i], shared.pool) == ColourOf(a.cells[i], shared.pool)
    {
      hide Balanced, ColourOf;
      CopyKeepsColours(a, client, View(), dst.View(), shared.pool);
      assert forall i :: 0 <= i < red.Length ==> View().cells[i] == red[i];
      assert forall i :: 0 <= i < dst.red.Length ==> dst.View().cells[i] == dst.red[i];
    }

    lemma PairKnown(dst: Colormap, others: multiset<nat>)
      requires dst.shared == shared && PoolOk(shared.pool, Refs(dst.red[..]) + others)
      ensures Known(dst.Now())
    {
      AccountsKnow(dst.red[..], shared.pool, others);
    }

    /** Tells the screen the colours of all allocated cells. */
    method UpdateColors()
      requires Known(Now())
      modifies this`sent
      ensures |Now().cells| == red.Length && sent == old(sent) + Refresh(Now(), red.Length)
    {
      ghost var told: seq<Item> := [];
      for i := 0 to red.Length
        invariant told == Refresh(Now(), i) && sent == old(sent)
      {
        var pent := red[i];
        assert pent == Now().cells[i];
        if pent.refcnt != 0 {
          told := told + [Item(i, ColourOf(pent, shared.pool), true, true, true)];
        }
      }
      if told != [] { sent := sent + told; }
    }

    method CopyEntries(dst: Colormap)
      requires dst.red.Length == red.Length && dst.red != red
      modifies dst.red
      ensures dst.red[..] == red[..]
    {
      for i := 0 to red.Length
        invariant dst.red[..i] == red[..i]
      {
        dst.red[i] := red[i];
      }
    }

    // -------------------------------------------------------------- StoreColors, QueryColors

    ghost function Now(): Values reads this, red, shared {
      Values(red[..], shared.pool)
    }

    /** One channel of a definition: written if flagged, read back if not; `alone` is false when the
        channel was written and others share it. */
    method StoreChannel(item: Item, ch: Channel, rgb: RGB) returns (value: nat, alone: bool)
      requires item.pixel < red.Length && Known(Now())
      modifies red, shared
      ensures Now() == Write(old(Now()), item, ch, rgb)
      ensures value == Colour(Now().cells[item.pixel], shared.pool, ch)
      ensures alone <==> !(item.Sets(ch) && HasSharers(old(Now()), item.pixel, ch))
    {
      var pent := red[item.pixel];
      assert pent == Now().cells[item.pixel];
      var id := IdOf(pent, ch);
      assert pent.fShared ==> id in shared.pool;
      alone := true;
      if item.Sets(ch) {
        value := Get(rgb, ch);
        if pent.fShared {
          shared.pool := shared.pool[id := shared.pool[id].(color := value)];
          if shared.pool[id].refcnt > 1 { alone := false; }
        } else {
          red[item.pixel] := pent.(local := Put(pent.local, ch, value));
        }
      } else {
        value := if pent.fShared then shared.pool[id].color else Get(pent.local, ch);
      }
    }

    /** Carries out one definition whose colour is already the screen's, and tells the screen about
        the other cells that change with it. */
    method StoreItem(item: Item, ghost others: multiset<nat>) returns (filled: Item)
      requires item.pixel < red.Length && Known(Now()) && Separate(red[..])
      modifies red, shared, this`sent
      ensures |red[..]| == |old(red[..])| && Now() == StoreOne(old(Now()), item, item.rgb)
      ensures filled == item.(rgb := ColourOf(red[..][item.pixel], shared.pool))
      ensures sent == old(sent) + if SharedChange(Now(), item) then Changes(Now(), item, red.Length) else []
    {
      hide *;
      NowIs();
      ghost var s := Now();
      ThreeWrites(s, item, item.rgb);
      var r, g, b, ok1, ok2, ok3;
      r, ok1 := StoreChannel(item, Red, item.rgb);
      NowIs();
      g, ok2 := StoreChannel(item, Green, item.rgb);
      NowIs();
      b, ok3 := StoreChannel(item, Blue, item.rgb);
      NowIs();
      filled := item.(rgb := RGB(r, g, b));
      if !(ok1 && ok2 && ok3) { TellSharers(item); }
      NowIs();
    }

    /** Runs through the map and tells the screen about every cell that shares a changed channel. */
    method TellSharers(item: Item)
      requires item.pixel < red.Length && Known(Now())
      modifies this`sent
      ensures sent == old(sent) + Changes(Now(), item, red.Length)
    {
      var pent := red[item.pixel];
      for t := 0 to red.Length
        invariant sent == old(sent) + Changes(Now(), item, t)
      {
        var pentT := red[t];
        assert Now().cells[t] == pentT && Now().cells[item.pixel] == pent;
        if pentT.fShared && t != item.pixel {
          assert forall ch :: IdOf(Now().cells[t], ch) in shared.pool;
          var chgRed := item.doRed && pentT.shco.red == pent.shco.red;
          var chgGreen := item.doGreen && pentT.shco.green == pent.shco.green;
          var chgBlue := item.doBlue && pentT.shco.blue == pent.shco.blue;
          if chgRed || chgGreen || chgBlue {
            sent := sent + [Item(t, ColourOf(pentT, shared.pool), chgRed, chgGreen, chgBlue)];
          }
        }
      }
    }

    lemma NowIs()
      ensures Now() == Values(red[..], shared.pool) && |red[..]| == red.Length
      ensures forall i :: 0 <= i < red.Length ==> red[..][i] == red[i]
    {
    }

    /** Carries out one definition and moves it up to the ones that are sent at the end. */
    method StoreNext(defs: array<Item>, n: nat, idef: nat, errVal: Code, ghost others: multiset<nat>)
      returns (idef': nat, errVal': Code)
      requires idef <= n < defs.Length && Known(Now()) && Separate(red[..])
      modifies defs, red, shared, this`sent
      ensures |Now().cells| == red.Length && idef' <= n + 1
      ensures var t, item := old(Now()), old(defs[n]);
              && Now() == (if Accepted(t.cells, item) then StoreOne(t, item, resolve(item.rgb)) else t)
              && errVal' == (if Accepted(t.cells, item) then errVal
                             else if item.pixel >= |t.cells| then BadValue else BadAccess)
              && sent == old(sent) + SharersOf(t, item, resolve(item.rgb))
              && defs[..idef'] == old(defs[..idef]) + OwnOf(t, item, resolve(item.rgb), idef == n)
      ensures forall k :: n < k < defs.Length ==> defs[k] == old(defs[k])
    {
      hide *;
      NowIs();
      var item := defs[n];
      AcceptedIs(Now(), item);
      ghost var t, asked := Now(), item;
      idef', errVal' := idef, errVal;
      if item.pixel >= red.Length {
        errVal' := BadValue;
        NothingSent(t, item, resolve(item.rgb), idef == n);
      } else if red[item.pixel].refcnt != ALLOC_PRIVATE {
        errVal' := BadAccess;
        NothingSent(t, item, resolve(item.rgb), idef == n);
      } else {
        if idef != n { defs[idef] := defs[n]; }
        idef' := idef + 1;
        item := item.(rgb := resolve(item.rgb));
        Recoloured(t, asked, item.rgb);
        item := StoreItem(item, others);
        defs[n] := item;
        NowIs();
        SentIs(t, asked, resolve(asked.rgb), idef == n);
        assert defs[..idef'] == old(defs[..idef]) + [defs[idef' - 1]];
      }
    }

    /** Carries out a request's definitions one after the other, in place in the list that is sent to
        the screen at the end. */
    method StoreColors(defs: array<Item>, ghost others: multiset<nat>) returns (errVal: Code)
      requires Valid(others)
      modifies defs, red, shared, this`sent
      ensures Now() == StoreAll(old(Now()), old(defs[..]), resolve)
      ensures errVal == Verdict(old(red[..]), old(defs[..]))
      ensures errVal == Success <==> forall k :: 0 <= k < defs.Length ==> Accepted(old(red[..]), old(defs[..])[k])
      ensures forall k: nat :: LastRefused(old(red[..]), old(defs[..]), k) ==>
        errVal == if old(defs[..])[k].pixel >= red.Length then BadValue else BadAccess
      ensures SameShape(old(Now()), Now()) && Valid(others)
      ensures forall i: nat, ch, k: nat :: i < red.Length && LastReaching(old(red[..]), old(defs[..]), i, ch, k) ==>
        Colour(red[i], shared.pool, ch) == Get(resolve(old(defs[..])[k].rgb), ch)
      ensures forall i: nat, ch :: i < red.Length && NoneReaches(old(red[..]), old(defs[..]), i, ch) ==>
        Colour(red[i], shared.pool, ch) == old(Colour(red[i], shared.pool, ch))
      ensures sent == old(sent) +
              (ToldAtOnce(old(Now()), old(defs[..]), resolve) + ToldAtEnd(old(Now()), old(defs[..]), resolve))
    {
      hide *;
      ValidIs(others);
      NowIs();
      AccountsKnow(red[..], shared.pool, others);
      ghost var s, items, sent0 := Now(), defs[..], sent;
      StoreAllNone(s, resolve);
      ToldNone(s, resolve);
      assert items[..0] == [];
      errVal := Success;
      var idef: nat := 0;
      for n := 0 to defs.Length
        invariant idef <= n && |red[..]| == |s.cells| && Now() == Values(red[..], shared.pool)
        invariant Now() == StoreAll(s, items[..n], resolve)
        invariant errVal == Verdict(s.cells, items[..n])
        invariant forall k :: n <= k < defs.Length ==> defs[k] == items[k]
        invariant sent == sent0 + ToldAtOnce(s, items[..n], resolve)
        invariant defs[..idef] == ToldAtEnd(s, items[..n], resolve)
      {
        StoreThenQuery(s, items[..n], resolve);
        StoreAllMore(s, items, n, resolve);
        ToldMore(s, items, n, resolve);
        SameShapeKeeps(s, Now());
        SameShapeSize(s, Now());
        idef, errVal := StoreNext(defs, n, idef, errVal, others);
        NowIs();
      }
      if idef != 0 { sent := sent + defs[..idef]; }
      assert items[..defs.Length] == items;
      NowIs();
      StoreThenQuery(s, items, resolve);
      StoringKeepsAccounts(old(View()), s, Now(), Refs(s.cells), others);
      if allAllocated { StoringKeepsWhole(old(View()), owner, s, Now()); }
      BecomesValid(others);
      VerdictIs(s.cells, items);
      StoredValues(s, items);
    }

    lemma StoredValues(s: Values, items: seq<Item>)
      requires Now() == StoreAll(s, items, resolve) && Known(s) && Separate(s.cells)
      ensures red.Length == |s.cells|
      ensures forall i: nat, ch, k: nat :: i < red.Length && LastReaching(s.cells, items, i, ch, k) ==>
        Colour(red[i], shared.pool, ch) == Get(resolve(items[k].rgb), ch)
      ensures forall i: nat, ch :: i < red.Length && NoneReaches(s.cells, items, i, ch) ==>
        Colour(red[i], shared.pool, ch) == Colour(s.cells[i], s.pool, ch)
    {
      hide StoreAll, Known, Separate, Final, NoneReaches, Colour, Get, Reaches;
      StoreThenQuery(s, items, resolve);
      assert forall i :: 0 <= i < red.Length ==> Now().cells[i] == red[i];
      forall i: nat, ch | i < red.Length
        ensures forall k: nat :: k < |items| && LastReaching(s.cells, items, i, ch, k) ==>
                  Final(s, items, resolve, i, ch) == Get(resolve(items[k].rgb), ch)
        ensures NoneReaches(s.cells, items, i, ch) ==>
                  Final(s, items, resolve, i, ch) == Colour(s.cells[i], s.pool, ch)
      {
        LastDecides(s, items, resolve, i, ch);
      }
    }

    /** Reads colours; pixels outside the map are reported and leave black in the reply. */
    method QueryColors(pixels: seq<nat>) returns (colours: seq<RGB>, errVal: Code)
      requires Known(Now())
      ensures |colours| == |pixels|
      ensures forall k :: 0 <= k < |pixels| ==>
                colours[k] == if pixels[k] < red.Length then ColourOf(red[pixels[k]], shared.pool) else RGB(0, 0, 0)
      ensures errVal == if forall k :: 0 <= k < |pixels| ==> pixels[k] < red.Length then Success else BadValue
    {
      colours, errVal := seq(|pixels|, _ => RGB(0, 0, 0)), Success;
      for n := 0 to |pixels|
        invariant |colours| == |pixels|
        invariant forall k :: 0 <= k < n ==>
                    colours[k] == if pixels[k] < red.Length then ColourOf(red[pixels[k]], shared.pool) else RGB(0, 0, 0)
        invariant forall k :: n <= k < |pixels| ==> colours[k] == RGB(0, 0, 0)
        invariant errVal == if forall k :: 0 <= k < n ==> pixels[k] < red.Length then Success else BadValue
      {
        if pixels[n] >= red.Length {
          errVal := BadValue;
        } else {
          var pent := red[pixels[n]];
          if pent.fShared {
            assert pent == Now().cells[pixels[n]];
            assert IdOf(pent, Red) in shared.pool && IdOf(pent, Green) in shared.pool &&
              IdOf(pent, Blue) in shared.pool;
            colours := colours[n := RGB(shared.pool[pent.shco.red].color, shared.pool[pent.shco.green].color,
                                        shared.pool[pent.shco.blue].color)];
          } else {
            colours := colours[n := pent.local];
          }
        }
      }
    }

    lemma BlankPair()
      requires nplanes == 1 && View() == NewAccount(Pow2(1), 1, false, 0)
      ensures red.Length == 2 && freeRed == 2 && |clientPixelsRed| == 1 && red[..][0] == red[..][1] == BLANK_CELL
      ensures |red[..]| == 2 && BLANK_CELL.refcnt == 0 && clientPixelsRed[0] == []
    {
      assert |View().cells| == 2;
    }

    lemma WrongPool()
      requires Balanced(View()) && Shape() && !allAllocated && !Valid(multiset{})
      ensures !PoolOk(shared.pool, Refs(red[..]))
    {
      assert Refs(red[..]) + multiset{} == Refs(red[..]);
    }

    lemma ValidIs(others: multiset<nat>)
      requires Valid(others)
      ensures Shape() && Balanced(View()) && PoolOk(shared.pool, Refs(red[..]) + others)
      ensures View() == Account(red[..], freeRed, clientPixelsRed)
      ensures allAllocated ==> Whole(View(), owner)
    {
    }

    lemma WholePrivate(a: Account, c: nat)
      requires Whole(a, c)
      ensures forall i :: 0 <= i < |a.cells| ==> a.cells[i].refcnt == ALLOC_PRIVATE < 0
    {
    }

    lemma StoringKeepsWhole(a: Account, c: nat, s: Values, t: Values)
      requires Whole(a, c) && a.cells == s.cells && SameShape(s, t)
      ensures Whole(a.(cells := t.cells), c)
    {
      forall i | 0 <= i < |t.cells| ensures t.cells[i].refcnt == ALLOC_PRIVATE && !t.cells[i].fShared {
        SameCell(s, t, i);
      }
    }

    lemma FreeIs(others: multiset<nat>)
      requires Valid(others)
      ensures 0 <= freeRed == FreeCount(red[..]) <= 0x1_0000
      ensures allAllocated ==> freeRed == 0
    {
      Pow2Increases(nplanes, 16);
      Pow2Values();
      if allAllocated { NoneFree(red[..]); }
    }

    lemma BecomesValid(others: multiset<nat>)
      requires Shape() && Balanced(Account(red[..], freeRed, clientPixelsRed)) &&
               PoolOk(shared.pool, Refs(red[..]) + others)
      requires allAllocated ==> Whole(Account(red[..], freeRed, clientPixelsRed), owner)
      ensures Valid(others) && View() == Account(red[..], freeRed, clientPixelsRed)
    {
    }
  }

  // ---------------------------------------------------------------- requests that break the accounts

  /** Two cells of which the first is claimed n times for one colour. */
  ghost predicate ClaimedTimes(cells: seq<Entry>, rgb: RGB, n: nat) {
    && |cells| == 2 && cells[1].refcnt == 0 && cells[0].refcnt == n && (n > 0 ==> cells[0].local == rgb)
  }

  lemma ClaimedOnceMore(a: Account, b: Account, rgb: RGB, n: nat, k: nat, x: nat, e: Entry)
    requires ClaimedTimes(a.cells, rgb, n) && n <= SHORT_MAX && |a.lists| == 1 && k < 2 && x == Around(0, k, 2)
    requires FirstMatch(a.cells, rgb, 0, k) || FirstFree(a.cells, rgb, 0, k)
    requires b == Claimed(a, 0, x, e, a.cells[x].refcnt == 0)
    requires e.local == rgb && e.refcnt == if a.cells[x].refcnt == 0 then 1 else Increment(a.cells[x].refcnt)
    ensures x == 0 && |b.cells| == 2 && |b.lists| == 1 && |b.lists[0]| == |a.lists[0]| + 1 && 0 <= SHORT_MAX
    ensures if n < SHORT_MAX then ClaimedTimes(b.cells, rgb, n + 1) else b.cells[0].refcnt == -0x8000
  {
    assert Around(0, 0, 2) == 0 && Around(0, 1, 2) == 1;
    assert k == 0;
  }

  lemma ClaimedTimesIs(cells: seq<Entry>, rgb: RGB, n: nat)
    requires ClaimedTimes(cells, rgb, n)
    ensures |cells| == 2 && cells[0].refcnt == n && cells[1].refcnt == 0 && Around(0, 0, 2) == 0 && Around(0, 1, 2) == 1
  {
  }

  method ClaimAgain(pmap: Colormap, rgb: RGB, ghost n: nat) returns (ok: Code)
    requires pmap.Valid(multiset{}) && |pmap.clientPixelsRed| == 1
    requires n <= SHORT_MAX && ClaimedTimes(pmap.red[..], pmap.resolve(rgb), n)
    modifies pmap, pmap.red
    ensures ok == Success && pmap.red.Length == 2 && |pmap.clientPixelsRed| == 1
    ensures |pmap.clientPixelsRed[0]| == |old(pmap.clientPixelsRed[0])| + 1
    ensures if n < SHORT_MAX then pmap.Valid(multiset{}) && ClaimedTimes(pmap.red[..], pmap.resolve(rgb), n + 1)
            else !pmap.Valid(multiset{}) && pmap.red[0].refcnt == -0x8000
  {
    hide *;
    pmap.ViewIs();
    ghost var a := pmap.View();
    ClaimedTimesIs(a.cells, pmap.resolve(rgb), n);
    assert forall i :: 0 <= i < pmap.red.Length ==> a.cells[i] == pmap.red[i];
    var colour, pixel; ghost var k;
    ok, colour, pixel, k := pmap.AllocColor(rgb, 0, 0, multiset{});
    pmap.ViewIs();
    ClaimedOnceMore(a, pmap.View(), colour, n, k, pixel, pmap.red[pixel]);
  }

  lemma NoClaims(cells: seq<Entry>, rgb: RGB)
    requires |cells| == 2 && cells[0].refcnt == 0 && cells[1].refcnt == 0
    ensures ClaimedTimes(cells, rgb, 0) && 0 <= SHORT_MAX
  {
  }

  /** A new map of one plane in which one cell's count has reached the largest short: its only client
      asked for one colour 32767 times. */
  method ClaimedToTheLimit(screen: RGB -> RGB, rgb: RGB) returns (pmap: Colormap)
    ensures fresh(pmap) && fresh(pmap.red) && pmap.Valid(multiset{}) && pmap.resolve == screen
    ensures ClaimedTimes(pmap.red[..], screen(rgb), SHORT_MAX)
    ensures |pmap.clientPixelsRed| == 1 && |pmap.clientPixelsRed[0]| == SHORT_MAX
  {
    hide *;
    NoColours();
    var shared := new SharedColors();
    pmap := new Colormap(1, 1, shared, screen, false, 0, multiset{});
    pmap.BlankPair();
    NoClaims(pmap.red[..], screen(rgb));
    for n := 0 to SHORT_MAX
      invariant fresh(pmap) && fresh(pmap.red) && pmap.Valid(multiset{}) && pmap.resolve == screen
      invariant ClaimedTimes(pmap.red[..], screen(rgb), n)
      invariant |pmap.clientPixelsRed| == 1 && |pmap.clientPixelsRed[0]| == n
    {
      var ok := ClaimAgain(pmap, rgb, n);
    }
  }

  /** One claim more makes the count negative and breaks the accounts. */
  method OneClaimTooMany(screen: RGB -> RGB, rgb: RGB) returns (pmap: Colormap, ok: Code)
    ensures fresh(pmap) && ok == Success && pmap.red.Length == 2 && pmap.red[0].refcnt == -0x8000 &&
            !pmap.Valid(multiset{})
  {
    pmap := ClaimedToTheLimit(screen, rgb);
    hide *;
    ok := ClaimAgain(pmap, rgb, SHORT_MAX);
  }

  /** On a new map of one plane, a request for one red plane is granted and leaves counts of sharers
      that are not the numbers of sharers. */
  method OneRedPlane(screen: RGB -> RGB) returns (pmap: Colormap, ok: Code)
    ensures fresh(pmap) && ok == Success && Balanced(pmap.View())
    ensures !PoolOk(pmap.shared.pool, Refs(pmap.red[..])) && !pmap.Valid(multiset{})
  {
    hide *;
    NoColours();
    var shared := new SharedColors();
    pmap := new Colormap(1, 1, shared, screen, false, 0, multiset{});
    pmap.BlankPair();
    FreePair(pmap.red[..], false);
    var pixels, ms; ghost var ids;
    ok, pixels, ms, ids := pmap.AllocColorPlanes(0, 1, 1, 0, 0, false, multiset{});
    RedIsWrong();
    pmap.WrongPool();
  }

  lemma NoColours()
    ensures PoolOk(map[], multiset{}) && 1 <= MAX_PLANES
  {
  }

  lemma RedIsWrong()
    ensures !Counts(1, 0, 0).Right()
  {
    WrittenIsRight(Counts(1, 0, 0));
  }
}
