/**
 The cells of a colormap and what a search for free blocks of cells should find (dix/colormap.c).
 */
module Cells {
  import opened Bits
  import opened PlaneMasks
  import opened Common

  const ALLOC_PRIVATE := -1

  /** Pixel values and map sizes stay within 16 planes. */
  const MAX_PLANES: nat := 16

  datatype RGB = RGB(red: nat, green: nat, blue: nat)

  /** Which shared colours a cell of AllocColorPlanes points at, one per channel. */
  datatype SharedIds = SharedIds(red: nat, green: nat, blue: nat)

  /** The two members of the union `co` are kept apart; fShared says which one is meant. */
  datatype Entry = Entry(refcnt: int, fShared: bool, local: RGB, shco: SharedIds)

  // ---------------------------------------------------------------- free blocks

  /** All the cells p|s for submasks s of the mask exist and are free, and p is clear of the mask. */
  ghost predicate FreeBlock(cells: seq<Entry>, p: nat, mask: nat) {
    && Disjoint(p, mask) && p + mask < |cells|
    && forall i: nat :: i < Pow2(PopCount(mask)) ==> cells[p + Submask(i, mask)].refcnt == 0
  }

  /** The base pixels below n whose blocks are free, in increasing order. */
  ghost function FreeBases(cells: seq<Entry>, mask: nat, n: nat): seq<nat> {
    if n == 0 then [] else FreeBases(cells, mask, n - 1) + if FreeBlock(cells, n - 1, mask) then [n - 1] else []
  }

  /** A plane mask the request allows. */
  ghost predicate Permitted(mask: nat, planes: nat, contig: bool, nplanes: nat) {
    && mask < Pow2(nplanes) && PopCount(mask) == planes
    && (contig ==> exists k :: mask == Contig(planes, k))
  }

  /** The mask has at least `count` base pixels with free blocks. */
  ghost predicate Supplies(cells: seq<Entry>, mask: nat, count: nat) {
    |FreeBases(cells, mask, |cells|)| >= count
  }

  /** The request can be met. */
  ghost predicate Feasible(cells: seq<Entry>, count: nat, planes: nat, contig: bool, nplanes: nat) {
    exists mask :: Permitted(mask, planes, contig, nplanes) && Supplies(cells, mask, count)
  }

  /** The pixels of one block other than its base, in increasing order. */
  ghost function BlockTail(p: nat, mask: nat): (t: seq<nat>)
    ensures |t| == Pow2(PopCount(mask)) - 1
  {
    seq(Pow2(PopCount(mask)) - 1, j requires 0 <= j => p + Submask(j + 1, mask))
  }

  /** The tails of the blocks, the last block first. */
  ghost function Tails(bases: seq<nat>, mask: nat): seq<nat> {
    if bases == [] then [] else Tails(bases[1..], mask) + BlockTail(bases[0], mask)
  }

  /** Everything an allocation hands out: the base pixels, then the rest of every block. */
  ghost function AllPixels(bases: seq<nat>, mask: nat): seq<nat> {
    bases + Tails(bases, mask)
  }

  /** The cells of all the blocks. */
  ghost function BlockCells(bases: seq<nat>, mask: nat): set<nat> {
    if bases == [] then {} else BlockCells(bases[1..], mask) + {bases[0]} + Members(BlockTail(bases[0], mask))
  }

  /** The outcome of a successful search: the lowest bases of a permitted mask, listed first, and
      the rest of their blocks; those cells and no others become private. */
  ghost predicate Allocated(before: seq<Entry>, after: seq<Entry>, mask: nat, count: nat, planes: nat, contig: bool,
                            pixels: seq<nat>)
  {
    && (exists n :: |before| == Pow2(n) && Permitted(mask, planes, contig, n))
    && Supplies(before, mask, count)
    && pixels == AllPixels(FreeBases(before, mask, |before|)[..count], mask)
    && after == Privatized(before, Members(pixels))
  }

  ghost function Members(s: seq<nat>): set<nat> {
    set x | x in s
  }

  /** The cells with some of them made private and unshared. */
  ghost function Privatized(cells: seq<Entry>, who: set<nat>): seq<Entry> {
    seq(|cells|, i requires 0 <= i < |cells| =>
      if i in who then cells[i].(refcnt := ALLOC_PRIVATE, fShared := false) else cells[i])
  }

  /** How many cells are free. */
  ghost function FreeCount(cells: seq<Entry>): (n: nat)
    ensures n <= |cells|
  {
    if cells == [] then 0
    else FreeCount(cells[..|cells| - 1]) + if cells[|cells| - 1].refcnt == 0 then 1 else 0
  }

  // ---------------------------------------------------------------- lemmas on bases

  lemma {:induction false} FreeBasesAre(cells: seq<Entry>, mask: nat, n: nat)
    ensures var bs := FreeBases(cells, mask, n);
            && (forall p: nat :: p in bs <==> p < n && FreeBlock(cells, p, mask))
            && (forall i, j :: 0 <= i < j < |bs| ==> bs[i] < bs[j])
  {
    if n > 0 {
      FreeBasesAre(cells, mask, n - 1);
      var bs := FreeBases(cells, mask, n - 1);
      assert forall i :: 0 <= i < |bs| ==> bs[i] in bs;
    }
  }

  /** Values without a free block add nothing. */
  lemma {:induction false} FreeBasesSkip(cells: seq<Entry>, mask: nat, a: nat, b: nat)
    requires a <= b && forall p: nat :: a <= p < b ==> !FreeBlock(cells, p, mask)
    ensures FreeBases(cells, mask, b) == FreeBases(cells, mask, a)
    decreases b
  {
    if a < b { FreeBasesSkip(cells, mask, a, b - 1); }
  }

  lemma {:induction false} FreeBasesPrefix(cells: seq<Entry>, mask: nat, a: nat, b: nat)
    requires a <= b
    ensures FreeBases(cells, mask, a) <= FreeBases(cells, mask, b)
    decreases b
  {
    if a < b { FreeBasesPrefix(cells, mask, a, b - 1); }
  }

  lemma {:induction false} TailsSplit(bases: seq<nat>, mask: nat, c: nat)
    requires c < |bases|
    ensures Tails(bases[c..], mask) == Tails(bases[c + 1..], mask) + BlockTail(bases[c], mask)
    ensures Tails(bases[c..], mask) <= Tails(bases, mask)
    ensures BlockCells(bases[c..], mask) ==
            BlockCells(bases[c + 1..], mask) + {bases[c]} + Members(BlockTail(bases[c], mask))
  {
    assert bases[c..][1..] == bases[c + 1..];
    if c == 0 {
      assert bases[0..] == bases;
    } else {
      TailsSplit(bases[1..], mask, c - 1);
      assert bases[1..][c - 1..] == bases[c..];
    }
  }

  lemma {:induction false} AllPixelsLength(bases: seq<nat>, mask: nat)
    ensures |AllPixels(bases, mask)| == |bases| * Pow2(PopCount(mask))
  {
    if bases != [] {
      AllPixelsLength(bases[1..], mask);
      var p := Pow2(PopCount(mask));
      assert |bases| * p == (|bases| - 1) * p + p;
    }
  }

  lemma {:induction false} BlockCellsAreAllPixels(bases: seq<nat>, mask: nat)
    ensures BlockCells(bases, mask) == Members(AllPixels(bases, mask))
  {
    if bases != [] {
      BlockCellsAreAllPixels(bases[1..], mask);
      assert bases == [bases[0]] + bases[1..];
    }
  }

  /** A block's tail in terms of the block's submasks. */
  lemma BlockHas(p: nat, mask: nat, x: nat)
    ensures x == p || x in BlockTail(p, mask) <==>
            exists i: nat :: i < Pow2(PopCount(mask)) && x == p + Submask(i, mask)
  {
    hide Submask, Pow2, PopCount;
    RankZero(mask);
    var t := BlockTail(p, mask);
    assert forall j :: 0 <= j < |t| ==> t[j] == p + Submask(j + 1, mask);
    if x in t {
      var j: nat :| j < |t| && t[j] == x;
      assert j + 1 < Pow2(PopCount(mask)) && x == p + Submask(j + 1, mask);
    }
    if i: nat :| i < Pow2(PopCount(mask)) && x == p + Submask(i, mask) {
      if i > 0 { assert t[i - 1] == x; }
    }
    if x == p { assert x == p + Submask(0, mask); }
  }

  lemma SingleCell(cells: seq<Entry>, p: nat)
    ensures FreeBlock(cells, p, 0) <==> p < |cells| && cells[p].refcnt == 0
  {
    AndZero(p);
    if p < |cells| && cells[p].refcnt == 0 {
      assert forall i: nat :: i < 1 ==> Submask(i, 0) == 0;
    }
    if FreeBlock(cells, p, 0) { assert cells[p + Submask(0, 0)].refcnt == 0; }
  }

  lemma {:induction false} FreeBasesCount(cells: seq<Entry>, n: nat)
    requires n <= |cells|
    ensures |FreeBases(cells, 0, n)| == FreeCount(cells[..n])
  {
    if n > 0 {
      FreeBasesCount(cells, n - 1);
      SingleCell(cells, n - 1);
      assert cells[..n][..n - 1] == cells[..n - 1];
    }
  }

  lemma {:induction false} AllFree(cells: seq<Entry>)
    requires FreeCount(cells) == |cells|
    ensures forall i :: 0 <= i < |cells| ==> cells[i].refcnt == 0
  {
    if cells != [] {
      var n := |cells| - 1;
      AllFree(cells[..n]);
      assert forall i :: 0 <= i < n ==> cells[i] == cells[..n][i];
    }
  }

  /** Without planes an allocation is just the base pixels. */
  lemma {:induction false} NoPlanes(bases: seq<nat>)
    ensures AllPixels(bases, 0) == bases && BlockCells(bases, 0) == Members(bases)
  {
    if bases != [] {
      NoPlanes(bases[1..]);
      assert BlockTail(bases[0], 0) == [];
      assert AllPixels(bases[1..], 0) == bases[1..] + Tails(bases[1..], 0);
      assert bases == [bases[0]] + bases[1..];
    }
  }

  /** Only the whole map fits a mask of all planes, so asking for all planes of a map with enough
      free cells always succeeds with consecutive planes. */
  lemma WholeMap(cells: seq<Entry>, count: nat, n: nat)
    requires |cells| == Pow2(n) && count > 0 && count * Pow2(n) <= FreeCount(cells)
    ensures count == 1 && Supplies(cells, Contig(n, 0), 1)
  {
    var m := Contig(n, 0);
    if count > 1 { assert count * Pow2(n) >= 2 * Pow2(n) by { Multiples(count, 2, Pow2(n)); } }
    Multiples(count, 1, Pow2(n));
    AllFree(cells);
    assert Disjoint(0, m);
    forall i: nat | i < Pow2(PopCount(m)) ensures Submask(i, m) < |cells| { }
    assert FreeBlock(cells, 0, m);
    FreeBasesAre(cells, m, |cells|);
    assert 0 in FreeBases(cells, m, |cells|);
  }

  lemma Multiples(a: nat, b: nat, c: nat)
    requires a >= b
    ensures a * c >= b * c
  {
  }

  /** When no consecutive mask and no mask in the scattered range supplies the blocks, nothing does. */
  lemma NothingSupplies(cells: seq<Entry>, count: nat, planes: nat, contig: bool, n: nat)
    requires planes > 0
    requires forall k: nat :: planes + k <= n ==> !Supplies(cells, Contig(planes, k), count)
    requires !contig && 2 <= planes < n ==>
               forall m: nat :: FirstMask(planes) <= m <= FinalMask(planes, n) && PopCount(m) == planes ==>
                 !Supplies(cells, m, count)
    ensures !Feasible(cells, count, planes, contig, n)
  {
    forall m | Permitted(m, planes, contig, n) ensures !Supplies(cells, m, count) {
      if k: nat :| m == Contig(planes, k) {
        ContigFits(planes, k, n);
      } else {
        PopMaximum(m, planes, n);
        RangeCoversScattered(m, planes, n);
      }
    }
  }

  lemma PrivatizedOne(cells: seq<Entry>, marked: set<nat>, x: nat)
    requires x < |cells|
    ensures var e := Privatized(cells, marked);
            e[x := e[x].(refcnt := ALLOC_PRIVATE, fShared := false)] == Privatized(cells, marked + {x})
  {
  }

  lemma PrivatizedNone(cells: seq<Entry>)
    ensures Privatized(cells, {}) == cells
  {
  }

  lemma TailsEnds(bases: seq<nat>, mask: nat)
    ensures Tails([], mask) == [] && BlockCells([], mask) == {}
    ensures AllPixels(bases, mask) == bases + Tails(bases, mask)
  {
  }

  lemma PrivatizedTwice(cells: seq<Entry>, a: set<nat>, b: set<nat>)
    ensures Privatized(Privatized(cells, a), b) == Privatized(cells, a + b)
  {
  }

  lemma TailTaken(p: nat, mask: nat, j: nat)
    requires j < Pow2(PopCount(mask))
    ensures var tail := BlockTail(p, mask);
            j > 0 ==> tail[..j] == tail[..j - 1] + [p + Submask(j, mask)] &&
                      Members(tail[..j]) == Members(tail[..j - 1]) + {p + Submask(j, mask)}
    ensures j == 0 ==> Submask(0, mask) == 0 && Members(BlockTail(p, mask)[..0]) == {}
    ensures Sub(Submask(j, mask), mask) && Rank(Submask(j, mask), mask) == j
    ensures Submask(j, mask) == mask <==> j == Pow2(PopCount(mask)) - 1
  {
    SubmaskRank(j, mask);
    RankZero(mask);
  }

  lemma NotFreeBlock(cells: seq<Entry>, p: nat, mask: nat)
    requires p + mask >= |cells| || !Disjoint(p, mask)
    ensures !FreeBlock(cells, p, mask)
  {
  }

  lemma ConsecutiveStep(j: nat, mask: nat, k: nat)
    requires mask == Contig(PopCount(mask), k) && mask > 0 && j + 1 < Pow2(PopCount(mask))
    ensures Submask(j + 1, mask) == Submask(j, mask) + LowBit(mask)
  {
    var p := PopCount(mask);
    ContigPop(p, k);
    if p == 0 { ShlZero(k); }
    ContigSubmask(j, p, k);
    ContigSubmask(j + 1, p, k);
    ShlSteps(j, 1, k);
  }

  lemma ConsecutiveFrom(planes: nat, k: nat)
    ensures Contig(planes, 0) == Pow2(planes) - 1 && Pow2(0) == 1
    ensures Contig(planes, k + 1) == 2 * Contig(planes, k) && Pow2(k + 1) == 2 * Pow2(k)
  {
  }

  lemma ConsecutiveIsContig(mask: nat, planes: nat, k: nat)
    requires mask == Contig(planes, k)
    ensures mask == Contig(PopCount(mask), k)
    ensures exists j :: mask == Contig(planes, j)
  {
    ContigPop(planes, k);
  }

  lemma CountFits(count: nat, planes: nat)
    ensures count <= count * Pow2(planes)
  {
    assert count * Pow2(planes) - count == count * (Pow2(planes) - 1);
  }

  lemma MaskInRange(mask: nat, planes: nat, n: nat)
    requires 0 < planes < n <= MAX_PLANES && FirstMask(planes) <= mask <= FinalMask(planes, n)
    ensures 0 < mask < Pow2(n) && mask < 0x1_0000_0000
  {
    FinalFits(planes, n);
    Pow2Increases(n, 17);
    assert Pow2(17) == 0x2_0000 by { assert Pow2(8) == 0x100; assert Pow2(12) == 0x1000; }
  }

  lemma FoundBases(cells: seq<Entry>, mask: nat, count: nat, planes: nat)
    requires PopCount(mask) == planes && Supplies(cells, mask, count)
    ensures var bases := FreeBases(cells, mask, |cells|)[..count];
            && |bases| == count && |AllPixels(bases, mask)| == count * Pow2(planes)
            && forall p: nat :: p in bases ==> p + mask < |cells|
  {
    FreeBasesAre(cells, mask, |cells|);
    var all := FreeBases(cells, mask, |cells|);
    assert forall i :: 0 <= i < count ==> all[..count][i] in all;
    AllPixelsLength(FreeBases(cells, mask, |cells|)[..count], mask);
  }

  lemma FoundIsAllocated(cells: seq<Entry>, mask: nat, count: nat, planes: nat, contig: bool, n: nat)
    requires |cells| == Pow2(n) && mask < Pow2(n) && PopCount(mask) == planes && Supplies(cells, mask, count)
    requires !contig || exists k :: mask == Contig(planes, k)
    ensures var bases := FreeBases(cells, mask, |cells|)[..count];
            Allocated(cells, Privatized(cells, BlockCells(bases, mask)), mask, count, planes, contig,
                      AllPixels(bases, mask))
    ensures Feasible(cells, count, planes, contig, n)
  {
    BlockCellsAreAllPixels(FreeBases(cells, mask, |cells|)[..count], mask);
    assert Permitted(mask, planes, contig, n);
  }

  lemma MembersMore(s: seq<nat>, x: nat)
    ensures Members(s + [x]) == Members(s) + {x} && Members([]) == {}
  {
  }

  lemma FreeBasesNone(cells: seq<Entry>)
    ensures FreeBases(cells, 0, 0) == []
  {
  }

  lemma FreeBasesNext(cells: seq<Entry>, p: nat)
    requires p < |cells| && cells[p].refcnt == 0
    ensures FreeBases(cells, 0, p + 1) == FreeBases(cells, 0, p) + [p]
  {
    SingleCell(cells, p);
  }

  lemma PrivatizedAt(cells: seq<Entry>, who: set<nat>, p: nat)
    requires p < |cells| && p in who
    ensures |Privatized(cells, who)| == |cells| && Privatized(cells, who)[p].refcnt != 0
  {
  }

  lemma SupplyPrefix(cells: seq<Entry>, seen: nat, count: nat, pixels: seq<nat>)
    requires pixels == FreeBases(cells, 0, seen) <= FreeBases(cells, 0, |cells|) && |pixels| == count
    ensures pixels == FreeBases(cells, 0, |cells|)[..count]
  {
  }

  lemma MoreToCome(cells: seq<Entry>, seen: nat, count: nat)
    requires Supplies(cells, 0, count) && |FreeBases(cells, 0, seen)| < count
    ensures seen != |cells|
  {
  }

  /** Among the cells not listed, the private ones are those that were not free. */
  lemma TakenCell(cells: seq<Entry>, list: seq<nat>, p: nat)
    requires p < |cells| && list == FreeBases(cells, 0, p)
    ensures |Privatized(cells, Members(list))| == |cells|
    ensures Privatized(cells, Members(list))[p] == cells[p]
    ensures cells[p].refcnt != 0 ==> FreeBases(cells, 0, p + 1) == list
  {
    FreeBasesAre(cells, 0, p);
    SingleCell(cells, p);
  }

  /** Two free cells make one block of one plane. */
  lemma FreePair(cells: seq<Entry>, contig: bool)
    requires |cells| == 2 && cells[0].refcnt == 0 && cells[1].refcnt == 0
    ensures Feasible(cells, 1, 1, contig, 1) && Pow2(1) == 2
  {
    OneBit();
    hide Submask, PopCount, Contig, Disjoint, Pow2;
    assert FreeBlock(cells, 0, 1);
    FreeBasesAre(cells, 1, 2);
    assert 0 in FreeBases(cells, 1, 2);
    assert Permitted(1, 1, contig, 1) && Supplies(cells, 1, 1);
  }

  lemma OneBit()
    ensures Submask(0, 1) == 0 && Submask(1, 1) == 1 && PopCount(1) == 1 && Contig(1, 0) == 1 && Pow2(1) == 2
    ensures Disjoint(0, 1)
  {
    hide Submask, PopCount;
    assert Pow2(1) == 2;
    ContigPop(1, 0);
    ContigSubmask(0, 1, 0);
    ContigSubmask(1, 1, 0);
  }

  // ---------------------------------------------------------------- what an allocation hands out

  lemma BlockTailParts(p: nat, mask: nat)
    requires Disjoint(p, mask)
    ensures NoRepeats(BlockTail(p, mask))
    ensures forall x :: x in BlockTail(p, mask) ==> And(x, mask) != 0 && x - And(x, mask) == p
  {
    var t := BlockTail(p, mask);
    forall j | 0 <= j < |t| ensures And(t[j], mask) != 0 && t[j] - And(t[j], mask) == p {
      SubmaskRank(j + 1, mask);
      RankZero(mask);
      Parts(p, Submask(j + 1, mask), mask);
    }
    forall i, j | 0 <= i < j < |t| ensures t[i] != t[j] { SubmaskIncreases(i + 1, j + 1, mask); }
  }

  lemma {:induction false} TailsParts(bases: seq<nat>, mask: nat)
    requires NoRepeats(bases) && forall p: nat :: p in bases ==> Disjoint(p, mask)
    ensures NoRepeats(Tails(bases, mask))
    ensures forall x :: x in Tails(bases, mask) ==> And(x, mask) != 0 && x - And(x, mask) in bases
  {
    if bases != [] {
      assert bases == [bases[0]] + bases[1..];
      TailsParts(bases[1..], mask);
      BlockTailParts(bases[0], mask);
      assert bases[0] !in bases[1..];
      NoRepeatsConcat(Tails(bases[1..], mask), BlockTail(bases[0], mask));
    }
  }

  /** x is in the block of base p. */
  predicate InBlock(p: nat, mask: nat, x: nat) {
    p <= x && Sub(x - p, mask)
  }

  lemma BlockIs(p: nat, mask: nat, x: nat)
    ensures x == p || x in BlockTail(p, mask) <==> InBlock(p, mask, x)
  {
    BlockHas(p, mask, x);
    if InBlock(p, mask, x) { RankSubmask(x - p, mask); assert x == p + Submask(Rank(x - p, mask), mask); }
    if i: nat :| i < Pow2(PopCount(mask)) && x == p + Submask(i, mask) { SubmaskRank(i, mask); }
  }

  lemma {:induction false} BlockCellsAre(bases: seq<nat>, mask: nat, x: nat)
    ensures x in BlockCells(bases, mask) <==> exists p: nat :: p in bases && InBlock(p, mask, x)
  {
    if bases != [] {
      assert bases == [bases[0]] + bases[1..];
      BlockCellsAre(bases[1..], mask, x);
      BlockIs(bases[0], mask, x);
      assert bases[0] in bases;
    }
  }

  lemma FreeBlockCell(cells: seq<Entry>, p: nat, mask: nat, x: nat)
    requires FreeBlock(cells, p, mask) && InBlock(p, mask, x)
    ensures x < |cells| && cells[x].refcnt == 0
  {
    RankSubmask(x - p, mask);
    AndBounds(x - p, mask);
  }

  /** What an allocation lists: without repeats exactly the cells p|s for each of the bases p, all
      clear of the mask, and each submask s of the mask; all of them were free. */
  lemma AllPixelsExact(cells: seq<Entry>, mask: nat, count: nat)
    requires Supplies(cells, mask, count)
    ensures var bases := FreeBases(cells, mask, |cells|)[..count];
            var all := AllPixels(bases, mask);
            && NoRepeats(all) && |all| == count * Pow2(PopCount(mask))
            && (forall p: nat :: p in bases ==> Disjoint(p, mask))
            && (forall x: nat :: x in all <==> exists p: nat :: p in bases && InBlock(p, mask, x))
            && (forall x: nat :: x in all ==> x < |cells| && cells[x].refcnt == 0)
  {
    hide Sub, BlockCells, Tails, InBlock;
    var found := FreeBases(cells, mask, |cells|);
    var bases := found[..count];
    var all := AllPixels(bases, mask);
    FreeBasesAre(cells, mask, |cells|);
    assert forall i :: 0 <= i < count ==> bases[i] == found[i] && found[i] in found;
    TailsParts(bases, mask);
    NoRepeatsConcat(bases, Tails(bases, mask));
    AllPixelsLength(bases, mask);
    BlockCellsAreAllPixels(bases, mask);
    forall x: nat ensures x in all <==> exists p: nat :: p in bases && InBlock(p, mask, x) {
      BlockCellsAre(bases, mask, x);
      assert x in all <==> x in Members(all);
    }
    forall x: nat | x in all ensures x < |cells| && cells[x].refcnt == 0 {
      var p: nat :| p in bases && InBlock(p, mask, x);
      FreeBlockCell(cells, p, mask, x);
    }
  }

  // ---------------------------------------------------------------- when a request can be met

  lemma {:induction false} NoMore(a: seq<nat>, b: seq<nat>)
    requires NoRepeats(a) && forall x :: x in a ==> x in b
    ensures |a| <= |b|
  {
    if a != [] {
      assert a[0] in a;
      var i :| 0 <= i < |b| && b[i] == a[0];
      var rest := b[..i] + b[i + 1..];
      assert b == b[..i] + [b[i]] + b[i + 1..];
      forall x | x in a[1..] ensures x in rest {
        assert x in a && x != a[0];
      }
      NoMore(a[1..], rest);
    }
  }

  lemma {:induction false} ShlIsProduct(x: nat, k: nat)
    ensures Shl(x, k) == x * Pow2(k)
  {
    if k != 0 {
      ShlIsProduct(x, k - 1);
      ShlOdd(x, k - 1);
      assert x * Pow2(k) == 2 * (x * Pow2(k - 1));
    }
  }

  /** Every cell whose pixel differs from p in planes of the mask only exists and is free, p having
      none of these planes set. */
  ghost predicate BlockIsFree(cells: seq<Entry>, p: nat, mask: nat) {
    And(p, mask) == 0 && forall x: nat :: InBlock(p, mask, x) ==> x < |cells| && cells[x].refcnt == 0
  }

  lemma FreeBlockIs(cells: seq<Entry>, p: nat, mask: nat)
    ensures FreeBlock(cells, p, mask) <==> BlockIsFree(cells, p, mask)
  {
    hide Submask, Rank, Pow2, PopCount;
    if FreeBlock(cells, p, mask) {
      forall x: nat | InBlock(p, mask, x) ensures x < |cells| && cells[x].refcnt == 0 {
        FreeBlockCell(cells, p, mask, x);
      }
    }
    if BlockIsFree(cells, p, mask) {
      SubmaskRank(0, mask);
      assert InBlock(p, mask, p + mask) by { WholeSub(mask); }
      forall i: nat | i < Pow2(PopCount(mask)) ensures cells[p + Submask(i, mask)].refcnt == 0 {
        SubmaskRank(i, mask);
        assert InBlock(p, mask, p + Submask(i, mask));
      }
    }
  }

  lemma WholeSub(mask: nat)
    ensures Sub(mask, mask)
  {
    hide Submask, Rank;
    assert Pow2(PopCount(mask)) > 0;
    SubmaskRank(Pow2(PopCount(mask)) - 1, mask);
  }

  /** Some mask of so many of the map's planes, consecutive ones if asked for, is clear in each of
      `count` different pixels whose blocks are free. */
  ghost predicate CanBeMet(cells: seq<Entry>, count: nat, planes: nat, contig: bool, n: nat) {
    exists mask: nat, bases: seq<nat> ::
      && mask < Pow2(n) && PopCount(mask) == planes
      && (contig ==> exists k: nat :: mask == (Pow2(planes) - 1) * Pow2(k))
      && |bases| == count && NoRepeats(bases) && forall p :: p in bases ==> BlockIsFree(cells, p, mask)
  }

  lemma ConsecutiveRun(mask: nat, planes: nat)
    ensures (exists k: nat :: mask == Contig(planes, k)) <==> (exists k: nat :: mask == (Pow2(planes) - 1) * Pow2(k))
  {
    if k: nat :| mask == Contig(planes, k) { ShlIsProduct(Pow2(planes) - 1, k); }
    if k: nat :| mask == (Pow2(planes) - 1) * Pow2(k) {
      ShlIsProduct(Pow2(planes) - 1, k);
      assert mask == Contig(planes, k);
    }
  }

  /** What the search decides is whether the request can be met at all. */
  lemma FeasibleExactly(cells: seq<Entry>, count: nat, planes: nat, contig: bool, n: nat)
    ensures Feasible(cells, count, planes, contig, n) <==> CanBeMet(cells, count, planes, contig, n)
  {
    hide FreeBlock, PopCount, Pow2, BlockIsFree;
    if mask :| Permitted(mask, planes, contig, n) && Supplies(cells, mask, count) {
      var found := FreeBases(cells, mask, |cells|);
      var bases := found[..count];
      FreeBasesAre(cells, mask, |cells|);
      forall p | p in bases ensures BlockIsFree(cells, p, mask) {
        assert p in found;
        FreeBlockIs(cells, p, mask);
      }
      ConsecutiveRun(mask, planes);
      assert forall i, j :: 0 <= i < j < count ==> bases[i] == found[i] && found[j] == bases[j];
      assert NoRepeats(bases);
      assert CanBeMet(cells, count, planes, contig, n);
    }
    if CanBeMet(cells, count, planes, contig, n) {
      var mask: nat, bases: seq<nat> :|
        && mask < Pow2(n) && PopCount(mask) == planes
        && (contig ==> exists k: nat :: mask == (Pow2(planes) - 1) * Pow2(k))
        && |bases| == count && NoRepeats(bases) && forall p :: p in bases ==> BlockIsFree(cells, p, mask);
      if contig {
        var k: nat :| mask == (Pow2(planes) - 1) * Pow2(k);
        ShlIsProduct(Pow2(planes) - 1, k);
        assert mask == Contig(planes, k);
      }
      assert Permitted(mask, planes, contig, n);
      FreeBasesAre(cells, mask, |cells|);
      forall p | p in bases ensures p in FreeBases(cells, mask, |cells|) {
        FreeBlockIs(cells, p, mask);
        FreeBlockInside(cells, p, mask);
      }
      NoMore(bases, FreeBases(cells, mask, |cells|));
    }
  }

  lemma FreeBlockInside(cells: seq<Entry>, p: nat, mask: nat)
    requires FreeBlock(cells, p, mask)
    ensures p < |cells|
  {
  }

  /** The search takes the first mask that supplies the request: consecutive masks from the lowest up,
      then all others from the lowest up. */
  ghost predicate FirstChoice(cells: seq<Entry>, mask: nat, count: nat, planes: nat, n: nat) {
    || (exists k: nat :: mask == Contig(planes, k) &&
          forall j: nat :: j < k ==> !Supplies(cells, Contig(planes, j), count))
    || ((forall k: nat :: planes + k <= n ==> !Supplies(cells, Contig(planes, k), count)) &&
        forall m: nat :: m < mask && PopCount(m) == planes ==> !Supplies(cells, m, count))
  }

  lemma FirstScattered(cells: seq<Entry>, mask: nat, count: nat, planes: nat, n: nat)
    requires 0 < planes <= n && mask < Pow2(n)
    requires forall k: nat :: planes + k <= n ==> !Supplies(cells, Contig(planes, k), count)
    requires forall m: nat :: FirstMask(planes) <= m < mask && PopCount(m) == planes ==> !Supplies(cells, m, count)
    ensures FirstChoice(cells, mask, count, planes, n)
  {
    hide Supplies, Contig, PopCount;
    forall m: nat | m < mask && PopCount(m) == planes ensures !Supplies(cells, m, count) {
      if k: nat :| m == Contig(planes, k) {
        ContigFits(planes, k, n);
      } else {
        RangeCoversScattered(m, planes, n);
      }
    }
  }

  lemma FirstRun(cells: seq<Entry>, mask: nat, count: nat, planes: nat, n: nat, k: nat)
    requires mask == Contig(planes, k) && forall j: nat :: j < k ==> !Supplies(cells, Contig(planes, j), count)
    ensures FirstChoice(cells, mask, count, planes, n)
  {
  }

  /** What the cells are once some of them are handed out. */
  lemma PrivatizedIs(cells: seq<Entry>, xs: seq<nat>, after: seq<Entry>)
    requires after == Privatized(cells, Members(xs))
    ensures |after| == |cells| && forall i: nat :: i < |cells| ==>
              after[i] == if i in xs then Entry(ALLOC_PRIVATE, false, cells[i].local, cells[i].shco) else cells[i]
  {
  }
}
