/**
 Bit patterns as natural numbers.  Pixel values and plane masks are 32-bit words in the server; here
 they are naturals below the map size, so no operation on them wraps.
 */
module Bits {

  function Pow2(n: nat): (p: nat)
    ensures p > 0
  {
    if n == 0 then 1 else 2 * Pow2(n - 1)
  }

  /** a & b */
  function And(a: nat, b: nat): nat {
    if a == 0 then 0 else 2 * And(a / 2, b / 2) + if a % 2 == 1 && b % 2 == 1 then 1 else 0
  }

  /** a & ~b */
  function AndNot(a: nat, b: nat): nat {
    if a == 0 then 0 else 2 * AndNot(a / 2, b / 2) + if a % 2 == 1 && b % 2 == 0 then 1 else 0
  }

  /** a | b */
  function Or(a: nat, b: nat): nat {
    a + AndNot(b, a)
  }

  function PopCount(a: nat): nat {
    if a == 0 then 0 else PopCount(a / 2) + a % 2
  }

  /** s uses bits of m only. */
  predicate Sub(s: nat, m: nat) { And(s, m) == s }

  predicate Disjoint(a: nat, b: nat) { And(a, b) == 0 }

  /** x & (~x + 1) */
  function LowBit(x: nat): nat {
    if x == 0 then 0 else if x % 2 == 1 then 1 else 2 * LowBit(x / 2)
  }

  /** The i-th submask of m in increasing order: i counted in binary on the bits of m. */
  function Submask(i: nat, m: nat): (s: nat)
    ensures s <= m
  {
    if m == 0 then 0
    else if m % 2 == 0 then 2 * Submask(i, m / 2)
    else 2 * Submask(i / 2, m / 2) + i % 2
  }

  /** The position of a submask of m. */
  function Rank(s: nat, m: nat): nat
    decreases m
  {
    if m == 0 then 0
    else if m % 2 == 0 then Rank(s / 2, m / 2)
    else 2 * Rank(s / 2, m / 2) + s % 2
  }

  // ---------------------------------------------------------------- laws of & and submasks

  lemma {:induction false} AndBounds(a: nat, b: nat)
    ensures And(a, b) <= a && And(a, b) <= b && And(a, b) == And(b, a)
    decreases a + b
  {
    if a != 0 && b != 0 {
      AndBounds(a / 2, b / 2);
    } else if a == 0 && b != 0 {
      AndBounds(0, b / 2);
    } else if a != 0 {
      AndBounds(a / 2, 0);
    }
  }

  lemma {:induction false} AndZero(a: nat)
    ensures And(a, 0) == 0
  {
    if a != 0 { AndZero(a / 2); }
  }

  /** A value clear of the mask and a submask keep apart in their sum. */
  lemma {:induction false} Parts(b: nat, s: nat, m: nat)
    requires Disjoint(b, m) && Sub(s, m)
    ensures And(b + s, m) == s
    decreases m
  {
    if m == 0 {
      AndZero(s); AndZero(b + s);
    } else {
      AndZero(s); AndZero(b);
      AndBounds(s / 2, m / 2);
      assert And(b / 2, m / 2) == 0 && And(s / 2, m / 2) == s / 2 && (m % 2 == 1 ==> b % 2 == 0) && s % 2 <= m % 2;
      Parts(b / 2, s / 2, m / 2);
      assert (b + s) / 2 == b / 2 + s / 2 && (b + s) % 2 == b % 2 + s % 2;
    }
  }

  lemma {:induction false} SubSelf(m: nat)
    ensures Sub(m, m)
  {
    if m != 0 { SubSelf(m / 2); }
  }

  /** The macro's expression for the lowest set bit, in words of n bits. */
  lemma {:induction false} LowBitIsMacro(x: nat, n: nat)
    requires 0 < x < Pow2(n)
    ensures LowBit(x) == And(x, Pow2(n) - x)
  {
    var y := Pow2(n) - x;
    assert n > 0;
    if x % 2 == 0 {
      LowBitIsMacro(x / 2, n - 1);
      assert y / 2 == Pow2(n - 1) - x / 2;
    } else {
      ComplementDisjoint(x / 2, n - 1);
      assert y / 2 == Pow2(n - 1) - 1 - x / 2;
    }
  }

  lemma {:induction false} ComplementDisjoint(x: nat, n: nat)
    requires x < Pow2(n)
    ensures And(x, Pow2(n) - 1 - x) == 0
  {
    if x != 0 {
      ComplementDisjoint(x / 2, n - 1);
      assert (Pow2(n) - 1 - x) / 2 == Pow2(n - 1) - 1 - x / 2;
    }
  }

  /** Submask and Rank are inverse, increasing bijections between [0, 2^PopCount(m)) and the
      submasks of m; the last submask is m itself. */
  lemma {:induction false} SubmaskRank(i: nat, m: nat)
    requires i < Pow2(PopCount(m))
    ensures Sub(Submask(i, m), m) && Rank(Submask(i, m), m) == i
    ensures Submask(i, m) == m <==> i == Pow2(PopCount(m)) - 1
    decreases m
  {
    hide Submask, Rank, PopCount, Pow2, Sub;
    MaskHalves(i, Submask(i, m), m);
    if m != 0 { SubmaskRank(if m % 2 == 0 then i else i / 2, m / 2); }
  }

  /** The functions on submasks, one bit at a time. */
  lemma MaskHalves(i: nat, s: nat, m: nat)
    ensures m == 0 ==> Submask(i, m) == 0 && Rank(s, m) == 0 && Pow2(PopCount(m)) == 1
    ensures m != 0 && m % 2 == 0 ==> Submask(i, m) == 2 * Submask(i, m / 2) && Rank(s, m) == Rank(s / 2, m / 2)
    ensures m != 0 && m % 2 == 0 ==> Pow2(PopCount(m)) == Pow2(PopCount(m / 2))
    ensures m % 2 == 1 ==>
              Submask(i, m) == 2 * Submask(i / 2, m / 2) + i % 2 && Rank(s, m) == 2 * Rank(s / 2, m / 2) + s % 2
    ensures m % 2 == 1 ==> Pow2(PopCount(m)) == 2 * Pow2(PopCount(m / 2))
    ensures Sub(s, m) <==> Sub(s / 2, m / 2) && s % 2 <= m % 2
    ensures m == 0 ==> (Sub(s, m) <==> s == 0)
  {
    hide *;
    SubIffHalves(s, m);
    SubmaskHalves(i, s, m);
    PopHalves(m);
  }

  lemma SubIffHalves(s: nat, m: nat)
    ensures Sub(s, m) <==> Sub(s / 2, m / 2) && s % 2 <= m % 2
    ensures m == 0 ==> (Sub(s, m) <==> s == 0)
  {
    AndBounds(s / 2, m / 2);
    AndZero(s);
  }

  lemma PopHalves(m: nat)
    ensures m == 0 ==> Pow2(PopCount(m)) == 1
    ensures m != 0 && m % 2 == 0 ==> Pow2(PopCount(m)) == Pow2(PopCount(m / 2))
    ensures m % 2 == 1 ==> Pow2(PopCount(m)) == 2 * Pow2(PopCount(m / 2))
  {
    hide Pow2, PopCount;
    PopHalf(m);
    Pow2Next(PopCount(m / 2));
  }

  lemma PopHalf(m: nat)
    ensures PopCount(m) == PopCount(m / 2) + m % 2
    ensures PopCount(0) == 0
  {
  }

  lemma Pow2Next(n: nat)
    ensures Pow2(n + 1) == 2 * Pow2(n) && Pow2(0) == 1
  {
  }

  lemma SubmaskHalves(i: nat, s: nat, m: nat)
    ensures m == 0 ==> Submask(i, m) == 0 && Rank(s, m) == 0
    ensures m != 0 && m % 2 == 0 ==> Submask(i, m) == 2 * Submask(i, m / 2) && Rank(s, m) == Rank(s / 2, m / 2)
    ensures m % 2 == 1 ==>
              Submask(i, m) == 2 * Submask(i / 2, m / 2) + i % 2 && Rank(s, m) == 2 * Rank(s / 2, m / 2) + s % 2
  {
  }

  lemma {:induction false} RankSubmask(s: nat, m: nat)
    requires Sub(s, m)
    ensures Submask(Rank(s, m), m) == s && Rank(s, m) < Pow2(PopCount(m))
    decreases m
  {
    hide Submask, Rank, PopCount, Pow2, Sub;
    MaskHalves(Rank(s, m), s, m);
    if m != 0 { RankSubmask(s / 2, m / 2); }
  }

  lemma {:induction false} SubmaskIncreases(i: nat, j: nat, m: nat)
    requires i < j < Pow2(PopCount(m))
    ensures Submask(i, m) < Submask(j, m)
    decreases m
  {
    if m != 0 {
      if m % 2 == 0 {
        SubmaskIncreases(i, j, m / 2);
      } else {
        assert Pow2(PopCount(m)) == 2 * Pow2(PopCount(m / 2));
        if i / 2 < j / 2 { SubmaskIncreases(i / 2, j / 2, m / 2); }
      }
    }
  }

  // ---------------------------------------------------------------- GetNextBitsOrBreak

  lemma {:induction false} SubAndNot(s: nat, m: nat)
    ensures Sub(s, m) <==> AndNot(s, m) == 0
  {
    if s != 0 { AndBounds(s / 2, m / 2); SubAndNot(s / 2, m / 2); }
  }

  /** The submask after s. */
  function Next(s: nat, m: nat): nat {
    Submask(Rank(s, m) + 1, m)
  }

  lemma SubHalves(s: nat, m: nat)
    requires Sub(s, m)
    ensures Sub(s / 2, m / 2) && s % 2 <= m % 2
  {
    AndBounds(s / 2, m / 2);
    AndZero(s);
  }

  lemma NextHalves(s: nat, m: nat)
    requires Sub(s, m) && s != m
    ensures m > 0 && Sub(s / 2, m / 2) && s % 2 <= m % 2
    ensures m % 2 == s % 2 ==> s / 2 != m / 2 && Next(s, m) == 2 * Next(s / 2, m / 2)
    ensures m % 2 != s % 2 ==> Next(s, m) == s + 1 && Sub(s + 1, m)
  {
    SubHalves(s, m);
    AndZero(s);
    if m % 2 == 1 && s % 2 == 0 {
      RankSubmask(s / 2, m / 2);
      assert (s + 1) / 2 == s / 2;
      assert Rank(s, m) == 2 * Rank(s / 2, m / 2);
    }
  }

  /** While the carry travels, b is a submask plus one, possibly over trailing zeros, and t is the
      value the carry is going to settle at. */
  ghost predicate Carrying(b: nat, m: nat, t: nat)
    decreases m
  {
    m > 0 &&
    ((b > 0 && Sub(b - 1, m) && b - 1 != m && t == Next(b - 1, m)) ||
     (b % 2 == 0 && t % 2 == 0 && Carrying(b / 2, m / 2, t / 2)))
  }

  lemma {:induction false} CarryStarts(s: nat, m: nat)
    requires Sub(s, m) && s != m
    ensures Carrying(s + LowBit(m), m, Next(s, m))
    decreases m
  {
    hide Next, And, Sub;
    NextHalves(s, m);
    if m % 2 == 0 {
      CarryStarts(s / 2, m / 2);
      assert LowBit(m) == 2 * LowBit(m / 2);
      assert (s + LowBit(m)) / 2 == s / 2 + LowBit(m / 2) && Next(s, m) / 2 == Next(s / 2, m / 2);
    }
  }

  /** Adding one to a submask: the sum is the next submask, or the bits outside the mask are the
      carry. */
  lemma {:induction false} CarryLands(s: nat, m: nat)
    requires Sub(s, m) && s != m
    ensures s + 1 <= m
    ensures AndNot(s + 1, m) == 0 ==> s + 1 == Next(s, m)
    ensures AndNot(s + 1, m) != 0 ==> Carrying(s + 1 + AndNot(s + 1, m), m, Next(s, m))
    decreases m
  {
    hide Next, And;
    AndBounds(s, m);
    NextHalves(s, m);
    SubAndNot(s / 2, m / 2);
    if m % 2 == s % 2 {
      var h, n := s / 2, m / 2;
      if m % 2 == 0 {
        assert AndNot(s + 1, m) == 1;
        assert Carrying(h + 1, n, Next(h, n));
        CarryDoubles(h + 1, n, Next(h, n), m);
      } else {
        CarryLands(h, n);
        assert AndNot(s + 1, m) == 2 * AndNot(h + 1, n);
        if AndNot(h + 1, n) != 0 { CarryDoubles(h + 1 + AndNot(h + 1, n), n, Next(h, n), m); }
      }
    } else {
      SubAndNot(s + 1, m);
    }
  }

  lemma CarryDoubles(b: nat, n: nat, t: nat, m: nat)
    requires Carrying(b, n, t) && m / 2 == n
    ensures Carrying(2 * b, m, 2 * t)
  {
    hide Next, And;
    assert (2 * b) / 2 == b && (2 * t) / 2 == t;
  }

  /** One round of the inner loop: either the bits are settled, or adding the bits outside the mask
      moves the carry on without leaving the mask's range. */
  lemma {:induction false} CarryMoves(b: nat, m: nat, t: nat)
    requires Carrying(b, m, t)
    ensures b <= m
    ensures AndNot(b, m) == 0 ==> b == t
    ensures AndNot(b, m) != 0 ==> Carrying(b + AndNot(b, m), m, t)
    decreases m
  {
    hide Next, And, AndNot, Sub;
    if b > 0 && Sub(b - 1, m) && b - 1 != m && t == Next(b - 1, m) {
      CarryLands(b - 1, m);
    } else {
      CarryMoves(b / 2, m / 2, t / 2);
      AndNotEven(b, m);
      if AndNot(b, m) != 0 { CarryDoubles(b / 2 + AndNot(b / 2, m / 2), m / 2, t / 2, m); }
    }
  }

  lemma AndNotEven(b: nat, m: nat)
    requires b % 2 == 0
    ensures AndNot(b, m) == 2 * AndNot(b / 2, m / 2)
  {
  }

  /** From one submask of the mask to the next. */
  method GetNextBits(bits: nat, mask: nat, base: nat) returns (next: nat)
    requires Sub(bits, mask) && bits != mask && base == LowBit(mask)
    ensures next == Submask(Rank(bits, mask) + 1, mask)
    ensures Sub(next, mask) && Rank(next, mask) == Rank(bits, mask) + 1 && bits < next <= mask
  {
    hide And, AndNot, Carrying, Sub, Submask, Rank, LowBit, Pow2, PopCount;
    CarryStarts(bits, mask);
    next := bits + base;
    while AndNot(next, mask) != 0
      invariant Carrying(next, mask, Next(bits, mask))
      decreases mask - next
    {
      CarryMoves(next, mask, Next(bits, mask));
      CarryMoves(next + AndNot(next, mask), mask, Next(bits, mask));
      next := next + AndNot(next, mask);
    }
    CarryMoves(next, mask, Next(bits, mask));
    RankSubmask(bits, mask);
    SubmaskRank(Rank(bits, mask), mask);
    SubmaskRank(Rank(bits, mask) + 1, mask);
    SubmaskIncreases(Rank(bits, mask), Rank(bits, mask) + 1, mask);
  }

  /** Counting from 0, the macro visits every submask of the mask once, in increasing order, and
      stops at the mask after 2^PopCount(mask) values. */
  method VisitSubmasks(mask: nat) returns (visited: seq<nat>)
    ensures |visited| == Pow2(PopCount(mask)) && visited[0] == 0 && visited[|visited| - 1] == mask
    ensures forall i, j :: 0 <= i < j < |visited| ==> visited[i] < visited[j]
    ensures forall s: nat :: s in visited <==> Sub(s, mask)
  {
    var bits, base := 0, LowBit(mask);
    visited := [0];
    RankZero(mask);
    while bits != mask
      invariant Sub(bits, mask) && Rank(bits, mask) == |visited| - 1 && bits <= mask
      invariant |visited| <= Pow2(PopCount(mask)) && visited[|visited| - 1] == bits
      invariant forall i :: 0 <= i < |visited| ==> visited[i] == Submask(i, mask)
      decreases mask - bits
    {
      bits := GetNextBits(bits, mask, base);
      RankSubmask(bits, mask);
      visited := visited + [bits];
    }
    RankSubmask(mask, mask) by { SubSelf(mask); }
    SubmaskRank(Rank(mask, mask), mask);
    forall i, j | 0 <= i < j < |visited| ensures visited[i] < visited[j] { SubmaskIncreases(i, j, mask); }
    forall s: nat ensures s in visited <==> Sub(s, mask) {
      if Sub(s, mask) { RankSubmask(s, mask); assert visited[Rank(s, mask)] == s; }
      if s in visited { var i :| 0 <= i < |visited| && visited[i] == s; SubmaskRank(i, mask); }
    }
  }

  lemma {:induction false} RankZero(m: nat)
    ensures Rank(0, m) == 0 && Submask(0, m) == 0
  {
    if m != 0 { RankZero(m / 2); }
  }
}
