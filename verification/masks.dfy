/**
 Plane masks: contiguous masks, the range that covers the others, and the bit count used to find
 them (dix/colormap.c, AllocCP).
 */
module PlaneMasks {
  import opened Bits

  function Shl(x: nat, k: nat): nat {
    if k == 0 then x else 2 * Shl(x, k - 1)
  }

  /** `planes` consecutive bits, starting at bit k. */
  function Contig(planes: nat, k: nat): nat {
    Shl(Pow2(planes) - 1, k)
  }

  lemma {:induction false} ShlOdd(x: nat, k: nat)
    ensures Shl(2 * x + 1, k) == 2 * Shl(x, k) + Pow2(k)
    ensures Shl(2 * x, k) == 2 * Shl(x, k)
  {
    if k != 0 { ShlOdd(x, k - 1); }
  }

  lemma {:induction false} PopBounds(m: nat, n: nat)
    requires m < Pow2(n)
    ensures PopCount(m) <= n
    ensures PopCount(m) == n ==> m == Pow2(n) - 1
    ensures m >= Pow2(PopCount(m)) - 1
  {
    if m != 0 { PopBounds(m / 2, n - 1); }
  }

  lemma {:induction false} ContigPop(planes: nat, k: nat)
    ensures PopCount(Contig(planes, k)) == planes
    ensures LowBit(Contig(planes, k)) == if planes == 0 then 0 else Pow2(k)
    decreases k, planes
  {
    if k != 0 {
      ContigPop(planes, k - 1);
      if planes == 0 { ShlZero(k); ShlZero(k - 1); } else { ContigPositive(planes, k - 1); }
    } else if planes != 0 {
      ContigPop(planes - 1, 0);
      assert (Pow2(planes) - 1) / 2 == Pow2(planes - 1) - 1;
    }
  }

  lemma {:induction false} ShlSteps(i: nat, j: nat, k: nat)
    ensures Shl(i + j, k) == Shl(i, k) + Shl(j, k) && Shl(1, k) == Pow2(k)
  {
    if k != 0 { ShlSteps(i, j, k - 1); }
  }

  lemma {:induction false} ShlZero(k: nat)
    ensures Shl(0, k) == 0
  {
    if k != 0 { ShlZero(k - 1); }
  }

  lemma {:induction false} ContigPositive(planes: nat, k: nat)
    requires planes > 0
    ensures Contig(planes, k) > 0
  {
    if k != 0 { ContigPositive(planes, k - 1); }
  }

  /** The submasks of a contiguous mask are the multiples of its lowest bit. */
  lemma {:induction false} ContigSubmask(i: nat, planes: nat, k: nat)
    requires i < Pow2(planes)
    ensures Submask(i, Contig(planes, k)) == Shl(i, k)
    decreases k, planes
  {
    if k != 0 {
      ContigSubmask(i, planes, k - 1);
      if Contig(planes, k) == 0 { assert planes == 0 by { if planes > 0 { ContigPositive(planes, k); } } ShlZero(k); }
    } else if planes != 0 {
      ContigSubmask(i / 2, planes - 1, 0);
      assert (Pow2(planes) - 1) / 2 == Pow2(planes - 1) - 1;
    }
  }

  lemma {:induction false} ContigFits(planes: nat, k: nat, n: nat)
    requires planes > 0
    ensures Contig(planes, k) < Pow2(n) <==> planes + k <= n
    decreases k, planes
  {
    if k != 0 {
      if n != 0 { ContigFits(planes, k - 1, n - 1); } else { ContigPositive(planes, k); }
    } else {
      Pow2Increases(planes, n);
      Pow2Increases(n, planes);
    }
  }

  lemma {:induction false} Pow2Increases(a: nat, b: nat)
    ensures a < b ==> Pow2(a) < Pow2(b)
    decreases b
  {
    if a < b && a + 1 < b { Pow2Increases(a, b - 1); }
  }

  /** Skipping over a contiguous mask: from a value clear of the mask, the next clear value is one
      further, or one further plus the mask, and no value in between is clear. */
  lemma {:induction false} NextClear(x: nat, planes: nat, k: nat, q: nat)
    requires planes > 0 && Disjoint(x, Contig(planes, k))
    ensures var m := Contig(planes, k);
            && (!Disjoint(x + 1, m) ==> Disjoint(x + 1 + m, m))
            && (!Disjoint(x + 1, m) && x < q < x + 1 + m ==> !Disjoint(q, m))
    decreases k, planes
  {
    var m := Contig(planes, k);
    AndZero(x / 2); AndZero(q / 2); AndZero((x + 1 + m) / 2);
    if k != 0 {
      NextClear(x / 2, planes, k - 1, q / 2);
      if x % 2 == 1 { assert (x + 1) / 2 == x / 2 + 1 && (x + 1 + m) / 2 == x / 2 + 1 + m / 2; }
    } else {
      assert m / 2 == Contig(planes - 1, 0) && m % 2 == 1;
      assert x % 2 == 0;
      assert (x + 1 + m) / 2 == x / 2 + 1 + m / 2;
      if planes > 1 {
        NextClear(x / 2, planes - 1, 0, q / 2);
        NextClearLow(x / 2, planes - 1);
      }
    }
  }

  lemma NextClearLow(x: nat, planes: nat)
    requires planes > 0 && Disjoint(x, Contig(planes, 0))
    ensures !Disjoint(x + 1, Contig(planes, 0))
  {
    assert Contig(planes, 0) % 2 == 1;
  }

  // ---------------------------------------------------------------- the range of the others

  /** The smallest mask with p bits that is not the lowest contiguous one. */
  function FirstMask(p: nat): nat
    requires p > 0
  {
    3 * Pow2(p - 1) - 1
  }

  /** The largest mask of n bits with p bits set that is not the highest contiguous one. */
  function FinalMask(p: nat, n: nat): nat
    requires 0 < p < n
  {
    Shl(Pow2(p - 1) - 1, n - p + 1) + Pow2(n - p - 1)
  }

  lemma FinalFits(p: nat, n: nat)
    requires 0 < p < n
    ensures FinalMask(p, n) < Pow2(n)
  {
    ContigFits(p, n - p, n);
    ShlOdd(Pow2(p - 1) - 1, n - p);
    assert Pow2(p) - 1 == 2 * (Pow2(p - 1) - 1) + 1;
    assert Shl(Pow2(p - 1) - 1, n - p + 1) == 2 * Shl(Pow2(p - 1) - 1, n - p);
  }

  lemma {:induction false} NoSmallerMask(m: nat, p: nat)
    requires p > 0 && PopCount(m) == p && m != Contig(p, 0)
    ensures m >= FirstMask(p)
    decreases m
  {
    if m % 2 == 1 {
      if p > 1 { NoSmallerMask(m / 2, p - 1); } else { PopZero(m / 2); }
    } else {
      PopMinimum(m / 2);
    }
  }

  lemma {:induction false} PopZero(m: nat)
    requires PopCount(m) == 0
    ensures m == 0
  {
    if m != 0 { PopZero(m / 2); }
  }

  lemma {:induction false} PopMinimum(m: nat)
    ensures m >= Pow2(PopCount(m)) - 1
  {
    if m != 0 { PopMinimum(m / 2); }
  }

  lemma {:induction false} PopMaximum(m: nat, p: nat, n: nat)
    requires m < Pow2(n) && PopCount(m) == p
    ensures p <= n && m <= Contig(p, n - p)
    decreases n
  {
    PopBounds(m, n);
    if m == 0 {
    } else if m % 2 == 0 {
      PopMaximum(m / 2, p, n - 1);
    } else {
      PopMaximum(m / 2, p - 1, n - 1);
      ShlOdd(Pow2(p - 1) - 1, n - p);
      assert Pow2(p) - 1 == 2 * (Pow2(p - 1) - 1) + 1;
    }
  }

  lemma {:induction false} NoLargerMask(m: nat, p: nat, n: nat)
    requires 0 < p < n && m < Pow2(n) && PopCount(m) == p && m != Contig(p, n - p)
    ensures m <= FinalMask(p, n)
    decreases n
  {
    if m % 2 == 0 {
      if p < n - 1 {
        NoLargerMask(m / 2, p, n - 1);
      } else {
        assert Contig(p, 1) == 2 * Contig(p, 0);
        PopBounds(m / 2, n - 1);
      }
    } else if p == 1 {
      PopZero(m / 2);
      ShlZero(n);
    } else {
      PopMaximum(m / 2, p - 1, n - 1);
      assert FinalMask(p, n) == 2 * Contig(p - 1, n - p) + Pow2(n - p - 1);
    }
  }

  /** Some mask of p bits below 2^n that is not contiguous exists only if n is at least 3 and p is
      neither 0, 1 nor n; and every such mask lies in the range the search covers. */
  lemma RangeCoversScattered(m: nat, p: nat, n: nat)
    requires p > 0 && PopCount(m) == p && m < Pow2(n)
    requires forall k :: 0 <= k <= n - p ==> m != Contig(p, k)
    ensures 2 <= p < n && FirstMask(p) <= m <= FinalMask(p, n)
  {
    PopBounds(m, n);
    assert m != Contig(p, 0);
    if p == 1 { var k := OneBit(m, n); assert false; }
    NoSmallerMask(m, p);
    NoLargerMask(m, p, n);
  }

  lemma {:induction false} OneBit(m: nat, n: nat) returns (k: nat)
    requires PopCount(m) == 1 && m < Pow2(n)
    ensures k <= n - 1 && m == Contig(1, k)
  {
    if m % 2 == 1 {
      PopZero(m / 2);
      k := 0;
    } else {
      k := OneBit(m / 2, n - 1);
      k := k + 1;
    }
  }

  // ---------------------------------------------------------------- the planes of a mask

  function Shr(x: nat, k: nat): nat {
    if k == 0 then x else Shr(x, k - 1) / 2
  }

  /** The OR of some masks. */
  function OrAll(ms: seq<nat>): nat {
    if ms == [] then 0 else Or(OrAll(ms[..|ms| - 1]), ms[|ms| - 1])
  }

  /** Single bits in increasing order. */
  ghost predicate Planes(ms: seq<nat>) {
    && (forall i :: 0 <= i < |ms| ==> exists k: nat :: ms[i] == Pow2(k))
    && (forall i, j :: 0 <= i < j < |ms| ==> ms[i] < ms[j])
  }

  lemma {:induction false} BitSet(x: nat, k: nat)
    ensures And(x, Pow2(k)) != 0 <==> Shr(x, k) % 2 == 1
  {
    AndZero(x / 2);
    if k == 0 {
      if x != 0 { AndBounds(x / 2, 0); }
    } else {
      BitSet(x / 2, k - 1);
      ShrHalf(x, k - 1);
    }
  }

  lemma {:induction false} ShrHalf(x: nat, k: nat)
    ensures Shr(x / 2, k) == Shr(x, k) / 2
  {
    if k > 0 { ShrHalf(x, k - 1); }
  }

  lemma {:induction false} OrHigh(x: nat, k: nat)
    requires x < Pow2(k)
    ensures Or(x, Pow2(k)) == x + Pow2(k)
  {
    AndNotHigh(x, k);
  }

  lemma {:induction false} AndNotHigh(x: nat, k: nat)
    requires x < Pow2(k)
    ensures AndNot(Pow2(k), x) == Pow2(k)
  {
    if k > 0 { AndNotHigh(x / 2, k - 1); } else { assert AndNot(0, 0) == 0; }
  }

  lemma {:induction false} AndFull(x: nat, n: nat)
    requires x < Pow2(n)
    ensures And(x, Pow2(n) - 1) == x
  {
    if x > 0 {
      AndFull(x / 2, n - 1);
      assert (Pow2(n) - 1) / 2 == Pow2(n - 1) - 1;
    }
  }

  /** What has been taken out of a mask up to bit k, and what is left. */
  ghost predicate Taken(mask: nat, low: nat, k: nat) {
    low < Pow2(k) && low + Shl(Shr(mask, k), k) == mask
  }

  lemma TakenNone(mask: nat)
    ensures Taken(mask, 0, 0) && Shr(mask, 0) == mask && Pow2(0) == 1
  {
  }

  lemma TakenAll(mask: nat, low: nat, k: nat)
    requires Taken(mask, low, k) && PopCount(Shr(mask, k)) == 0
    ensures low == mask
  {
    PopZero(Shr(mask, k));
    ShlZero(k);
  }

  lemma {:induction false} ShrNothing(k: nat)
    ensures Shr(0, k) == 0 && PopCount(0) == 0
  {
    if k > 0 { ShrNothing(k - 1); }
  }

  /** What has been taken out of a mask of consecutive bits is consecutive and starts where the mask does. */
  lemma {:induction false} TakenInARow(planes: nat, first: nat, low: nat, k: nat)
    requires Taken(Contig(planes, first), low, k)
    ensures var left := PopCount(Shr(Contig(planes, first), k));
            left <= planes && low == Contig(planes - left, first)
    decreases k
  {
    var m := Contig(planes, first);
    if k == 0 || planes == 0 {
      ContigPop(planes, first);
      ShlZero(first);
      ShlZero(k);
      ShrNothing(k);
    } else {
      ShrHalf(m, k - 1);
      var rest := Shr(m, k);
      assert Shl(rest, k) == 2 * Shl(rest, k - 1);
      assert m / 2 == Contig(if first == 0 then planes - 1 else planes, if first == 0 then 0 else first - 1);
      assert Taken(m / 2, low / 2, k - 1);
      TakenInARow(if first == 0 then planes - 1 else planes, if first == 0 then 0 else first - 1, low / 2, k - 1);
      assert m % 2 == low % 2 == if first == 0 then 1 else 0;
    }
  }

  /** Consecutive bits that follow each other. */
  lemma {:induction false} ContigJoins(a: nat, b: nat, first: nat)
    ensures Contig(a + b, first) == Contig(a, first) + Contig(b, first + a)
    decreases first, a
  {
    if first > 0 {
      ContigJoins(a, b, first - 1);
    } else if a > 0 {
      ContigJoins(a - 1, b, 0);
    }
  }

  lemma TakenStep(mask: nat, low: nat, k: nat)
    requires Taken(mask, low, k)
    ensures And(mask, Pow2(k)) == 0 ==> Taken(mask, low, k + 1) && PopCount(Shr(mask, k)) == PopCount(Shr(mask, k + 1))
    ensures And(mask, Pow2(k)) != 0 ==>
              && Taken(mask, low + Pow2(k), k + 1) && Or(low, Pow2(k)) == low + Pow2(k)
              && PopCount(Shr(mask, k)) == PopCount(Shr(mask, k + 1)) + 1
  {
    BitSet(mask, k);
    OrHigh(low, k);
    var h := Shr(mask, k + 1);
    ShlOdd(h, k);
    assert Shr(mask, k) == 2 * h + Shr(mask, k) % 2;
    assert Shl(h, k + 1) == 2 * Shl(h, k);
  }

  /** From bit r = 1 << k on, finds the next bit of the mask that is set; there is one. */
  method NextPlane(mask: nat, r: nat, ghost k: nat, ghost low: nat) returns (bit: nat, ghost j: nat)
    requires r == Pow2(k) && Taken(mask, low, k) && PopCount(Shr(mask, k)) > 0
    ensures j >= k && bit == Pow2(j) && Taken(mask, low, j) && And(mask, bit) != 0
    ensures PopCount(Shr(mask, j)) == PopCount(Shr(mask, k))
  {
    bit, j := r, k;
    while And(mask, bit) == 0
      invariant j >= k && bit == Pow2(j) && Taken(mask, low, j)
      invariant PopCount(Shr(mask, j)) == PopCount(Shr(mask, k))
      decreases Shr(mask, j)
    {
      TakenStep(mask, low, j);
      bit, j := bit + bit, j + 1;
    }
  }

  /** Takes the next n bits out of a mask, from bit r up. */
  method TakePlanes(mask: nat, n: nat, r: nat, ghost k: nat, ghost low: nat)
    returns (bits: seq<nat>, r': nat, ghost k': nat)
    requires r == Pow2(k) && Taken(mask, low, k) && PopCount(Shr(mask, k)) >= n
    ensures |bits| == n && Planes(bits)
    ensures k' >= k && r' == Pow2(k') && Taken(mask, low + OrAll(bits), k')
    ensures PopCount(Shr(mask, k')) == PopCount(Shr(mask, k)) - n
    ensures forall i :: 0 <= i < n ==> r <= bits[i] < r' && And(mask, bits[i]) != 0
  {
    hide Planes, OrAll, Taken, And, PopCount, Shr, Pow2;
    bits, r', k' := [], r, k;
    NoPlanesYet();
    for i := 0 to n
      invariant |bits| == i && Planes(bits) && k' >= k && r' == Pow2(k') && Taken(mask, low + OrAll(bits), k')
      invariant PopCount(Shr(mask, k')) == PopCount(Shr(mask, k)) - i
      invariant r <= r' && forall j :: 0 <= j < i ==> r <= bits[j] < r' && And(mask, bits[j]) != 0
    {
      ghost var j;
      var bit: nat;
      bit, j := NextPlane(mask, r', k', low + OrAll(bits));
      OnePlaneMore(mask, low, bits, k', j);
      bits, r', k' := bits + [bit], bit + bit, j + 1;
    }
  }

  /** Adding the plane found at bit j to those already taken. */
  lemma OnePlaneMore(mask: nat, low: nat, bits: seq<nat>, k: nat, j: nat)
    requires k <= j && Planes(bits) && And(mask, Pow2(j)) != 0
    requires Taken(mask, low + OrAll(bits), j)
    requires forall i :: 0 <= i < |bits| ==> bits[i] < Pow2(k)
    ensures Planes(bits + [Pow2(j)]) && Pow2(k) <= Pow2(j) < Pow2(j + 1) == 2 * Pow2(j)
    ensures Taken(mask, low + OrAll(bits + [Pow2(j)]), j + 1)
    ensures PopCount(Shr(mask, j)) == PopCount(Shr(mask, j + 1)) + 1
  {
    hide And, Or, PopCount, Shr, Shl, Planes;
    TakenStep(mask, low + OrAll(bits), j);
    OrHigh(OrAll(bits), j);
    assert (bits + [Pow2(j)])[..|bits|] == bits;
    Pow2Increases(k, j);
    PlanesMore(bits, j);
  }

  lemma PlanesMore(bits: seq<nat>, j: nat)
    requires Planes(bits) && forall i :: 0 <= i < |bits| ==> bits[i] < Pow2(j)
    ensures Planes(bits + [Pow2(j)])
  {
  }

  lemma NoPlanesYet()
    ensures Planes([]) && OrAll([]) == 0
  {
  }

  // ---------------------------------------------------------------- HAKMEM item 169

  /** Octal 033333333333 */
  const THREES: nat := 0xDB6DB6DB

  /** Octal 030707070707 */
  const SEVENS: nat := 0xC71C71C7

  /** The count of ones in a 32-bit word, as the mask search computes it. */
  function HakmemCount(mask: nat): nat {
    var pixel := And(mask / 2, THREES);
    var digits := (mask - pixel - And(pixel / 2, THREES)) % 0x1_0000_0000;
    And(digits + digits / 8, SEVENS) % 63
  }

  function Threes(d: nat): nat { if d == 0 then 0 else 8 * Threes(d - 1) + 3 }

  function Sevens(g: nat): nat { if g == 0 then 3 else 64 * Sevens(g - 1) + 7 }

  /** Each octal digit replaced by its number of ones. */
  function DigitCounts(m: nat): nat {
    if m == 0 then 0 else 8 * DigitCounts(m / 8) + PopCount(m % 8)
  }

  function Pow8(d: nat): nat { if d == 0 then 1 else 8 * Pow8(d - 1) }

  function Pow64(g: nat): nat { if g == 0 then 1 else 64 * Pow64(g - 1) }

  lemma AndTwice(x: nat, a: nat, y: nat, b: nat)
    requires a < 2 && b < 2
    ensures And(2 * x + a, 2 * y + b) == 2 * And(x, y) + if a == 1 && b == 1 then 1 else 0
  {
    assert (2 * x + a) / 2 == x && (2 * y + b) / 2 == y;
  }

  lemma AndDigit(x: nat, a: nat, y: nat, b: nat)
    requires a < 8 && b < 8
    ensures And(8 * x + a, 8 * y + b) == 8 * And(x, y) + And(a, b)
  {
    hide And;
    AndZero(0);
    AndTwice(4 * x + a / 2, a % 2, 4 * y + b / 2, b % 2);
    AndTwice(2 * x + a / 4, a / 2 % 2, 2 * y + b / 4, b / 2 % 2);
    AndTwice(x, a / 4, y, b / 4);
    AndTwice(a / 2, a % 2, b / 2, b % 2);
    AndTwice(a / 4, a / 2 % 2, b / 4, b / 2 % 2);
    AndTwice(0, a / 4, 0, b / 4);
  }

  lemma SmallCount(l: nat)
    requires l < 8
    ensures var a := And(l / 2, 3); a <= 3 && And(a / 2, 3) <= 3 && l - a - And(a / 2, 3) == PopCount(l)
    ensures PopCount(l) <= 3
  {
    assert l == 0 || l == 1 || l == 2 || l == 3 || l == 4 || l == 5 || l == 6 || l == 7;
    assert PopCount(0) == 0 && PopCount(1) == 1 && PopCount(2) == 1 && PopCount(3) == 2;
    assert And(0, 3) == 0 && And(1, 3) == 1 && And(2, 3) == 2 && And(3, 3) == 3;
  }

  lemma AndThree(x: nat)
    requires x < 8
    ensures And(x, 3) == x % 4
  {
    AndTwice(x / 2, x % 2, 1, 1);
    AndTwice(x / 4, x / 2 % 2, 0, 1);
    AndZero(x / 4);
  }

  lemma HalfDigit(x: nat, l: nat, t: nat)
    requires l < 8
    ensures And((8 * x + l) / 2, 8 * t + 3) == 8 * And(x / 2, t) + And(l / 2, 3)
  {
    hide And;
    var c := 4 * (x % 2) + l / 2;
    assert (8 * x + l) / 2 == 8 * (x / 2) + c;
    AndDigit(x / 2, c, t, 3);
    AndThree(c);
    AndThree(l / 2);
  }

  /** The two subtractions leave in every octal digit its number of ones. */
  lemma {:induction false} DigitsCounted(m: nat, d: nat)
    requires m < Pow8(d)
    ensures var p := And(m / 2, Threes(d)); m - p - And(p / 2, Threes(d)) == DigitCounts(m)
  {
    if d == 0 {
    } else {
      hide And, PopCount;
      var h, l, t := m / 8, m % 8, Threes(d - 1);
      DigitsCounted(h, d - 1);
      SmallCount(l);
      HalfDigit(h, l, t);
      HalfDigit(And(h / 2, t), And(l / 2, 3), t);
      if m == 0 { PopZeroIs(); }
    }
  }

  lemma {:induction false} PopDigit(m: nat)
    ensures PopCount(m) == PopCount(m / 8) + PopCount(m % 8)
  {
    hide PopCount;
    PopHalf(m);
    PopHalf(m / 2);
    PopHalf(m / 4);
    var l := m % 8;
    PopHalf(l);
    PopHalf(l / 2);
    PopHalf(l / 4);
    PopZeroIs();
    assert m / 2 / 2 == m / 4 && m / 4 / 2 == m / 8 && l / 2 / 2 == l / 4 && l / 4 / 2 == 0;
    assert l % 2 == m % 2 && l / 2 % 2 == m / 2 % 2 && l / 4 == m / 4 % 2;
  }


  /** Adding neighbouring digits and keeping every second one leaves a number whose digits in base
      64 sum to the number of ones; base 64 is 1 modulo 63. */
  lemma {:induction false} PairsSummed(m: nat, g: nat) returns (t: nat)
    requires m < 4 * Pow64(g)
    ensures var p := DigitCounts(m); And(p + p / 8, Sevens(g)) == 63 * t + PopCount(m)
  {
    hide And, PopCount, DigitCounts;
    if g == 0 {
      t := 0;
      TopPair(m);
    } else {
      var h := m / 64;
      var t' := PairsSummed(h, g - 1);
      var u, b, a := DigitCounts(h), PopCount(m / 8 % 8), PopCount(m % 8);
      TwoDigits(m);
      SmallCount(m / 8 % 8); SmallCount(m % 8);
      DigitsSmall(h);
      PairStep(u, b, a, Sevens(g - 1));
      PopDigit(m); PopDigit(m / 8);
      assert m / 8 / 8 == h;
      t := 64 * t' + PopCount(h);
    }
  }

  lemma TopPair(m: nat)
    requires m < 4
    ensures And(DigitCounts(m) + DigitCounts(m) / 8, 3) == PopCount(m)
  {
    assert m == 0 || m == 1 || m == 2 || m == 3;
    assert DigitCounts(m) == PopCount(m) <= 2;
    AndThree(PopCount(m));
  }

  lemma TwoDigits(m: nat)
    ensures DigitCounts(m) == 64 * DigitCounts(m / 64) + 8 * PopCount(m / 8 % 8) + PopCount(m % 8)
  {
    hide PopCount;
    PopZeroIs();
    assert m / 8 / 8 == m / 64;
  }

  lemma PairStep(u: nat, b: nat, a: nat, sevens: nat)
    requires a <= 3 && b <= 3 && u % 8 <= 3
    ensures var p := 64 * u + 8 * b + a; And(p + p / 8, 64 * sevens + 7) == 64 * And(u + u / 8, sevens) + a + b
  {
    hide And;
    var p := 64 * u + 8 * b + a;
    assert p + p / 8 == 8 * (8 * (u + u / 8) + (b + u % 8)) + (a + b);
    AndDigit(8 * (u + u / 8) + (b + u % 8), a + b, 8 * sevens, 7);
    AndDigit(u + u / 8, b + u % 8, sevens, 0);
    AndZero(b + u % 8);
    AndSeven(a + b);
  }

  lemma PopZeroIs()
    ensures PopCount(0) == 0
  {
  }

  lemma AndSeven(x: nat)
    requires x < 8
    ensures And(x, 7) == x
  {
    AndTwice(x / 2, x % 2, 3, 1);
    AndThree(x / 2);
  }

  lemma DigitsSmall(m: nat)
    ensures DigitCounts(m) % 8 <= 3
  {
    SmallCount(m % 8);
  }

  /** The three magic statements count the ones of every 32-bit mask. */
  lemma HakmemCountsOnes(mask: nat)
    requires mask < 0x1_0000_0000
    ensures HakmemCount(mask) == PopCount(mask)
  {
    hide And, PopCount, DigitCounts, Pow8, Pow64, Pow2, Threes, Sevens;
    assert Threes(11) == THREES by { ThreesAre(); }
    assert Sevens(5) == SEVENS by { SevensAre(); }
    assert mask < Pow8(11) && mask < 4 * Pow64(5) by { PowersAre(); }
    DigitsCounted(mask, 11);
    var t := PairsSummed(mask, 5);
    PowersAre();
    PopBounds(mask, 32);
    Residue(t, PopCount(mask));
  }

  lemma Residue(t: nat, c: nat)
    requires c < 63
    ensures (63 * t + c) % 63 == c
  {
  }

  lemma ThreesAre()
    ensures Threes(11) == THREES
  {
    assert Threes(4) == 0x6DB;
    assert Threes(8) == 0x6DB6DB;
  }

  lemma SevensAre()
    ensures Sevens(5) == SEVENS
  {
    assert Sevens(2) == 0x31C7;
  }

  lemma PowersAre()
    ensures Pow8(11) == 0x2_0000_0000 && Pow64(5) == 0x4000_0000 && Pow2(32) == 0x1_0000_0000
  {
    assert Pow8(4) == 0x1000 && Pow8(8) == 0x100_0000;
    assert Pow64(3) == 0x4_0000;
    assert Pow2(8) == 0x100 && Pow2(16) == 0x1_0000 && Pow2(24) == 0x100_0000;
  }
}
