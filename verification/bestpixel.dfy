/**
 The nearest colour of a map, found with two-part numbers (dix/colormap.c, FindBestPixel).
 */
module BestPixel {
  import opened Cells

  const LOWER_SIZE := 0x100_0000  // BIGNUMLOWER
  const UPPER_SIZE := 0x1_0000    // BIGNUMUPPER
  const COLOUR_SIZE := 0x1_0000   // colours are unsigned shorts

  /** A number in two parts: 16 upper bits, kept in an unsigned short, and 24 lower bits. */
  datatype BigNum = BigNum(upper: nat, lower: nat) {
    predicate Valid() { upper < UPPER_SIZE && lower < LOWER_SIZE }

    function Value(): nat { upper * LOWER_SIZE + lower }

    predicate Greater(y: BigNum) { upper > y.upper || (upper == y.upper && lower > y.lower) }
  }

  const MAX_BIG_NUM := BigNum(UPPER_SIZE - 1, LOWER_SIZE - 1)

  function FromUnsigned(u: nat): BigNum { BigNum((u / LOWER_SIZE) % UPPER_SIZE, u % LOWER_SIZE) }

  datatype Components = All | RedOnly | GreenOnly | BlueOnly

  function Square(d: int): nat { Squares(d); d * d }

  lemma Squares(d: int)
    ensures d * d >= 0
  {
  }

  /** The squared distance of two colours over the components that the map has. */
  function Distance(a: RGB, b: RGB, which: Components): nat {
    (if which.All? || which.RedOnly? then Square(a.red - b.red) else 0) +
    (if which.All? || which.GreenOnly? then Square(a.green - b.green) else 0) +
    (if which.All? || which.BlueOnly? then Square(a.blue - b.blue) else 0)
  }

  /** The distance is a sum of squares. */
  lemma DistanceIs(a: RGB, b: RGB)
    ensures Distance(a, b, RedOnly) == (a.red - b.red) * (a.red - b.red)
    ensures Distance(a, b, GreenOnly) == (a.green - b.green) * (a.green - b.green)
    ensures Distance(a, b, BlueOnly) == (a.blue - b.blue) * (a.blue - b.blue)
    ensures Distance(a, b, All) == (a.red - b.red) * (a.red - b.red) + (a.green - b.green) * (a.green - b.green) +
                                   (a.blue - b.blue) * (a.blue - b.blue)
  {
  }

  predicate IsColour(c: RGB) { c.red < COLOUR_SIZE && c.green < COLOUR_SIZE && c.blue < COLOUR_SIZE }

  /** The two-part comparison is the comparison of the numbers. */
  lemma GreaterIsGreater(x: BigNum, y: BigNum)
    requires x.Valid() && y.Valid()
    ensures x.Greater(y) <==> x.Value() > y.Value()
  {
    if x.upper > y.upper {
      assert x.upper * LOWER_SIZE >= y.upper * LOWER_SIZE + LOWER_SIZE;
    } else if y.upper > x.upper {
      assert y.upper * LOWER_SIZE >= x.upper * LOWER_SIZE + LOWER_SIZE;
    }
  }

  /** Adds with a single carry: exact up to 40 bits. */
  method BigNumAdd(x: BigNum, y: BigNum) returns (r: BigNum)
    requires x.Valid() && y.Valid()
    ensures r.Valid() && r.Value() == (x.Value() + y.Value()) % (UPPER_SIZE * LOWER_SIZE)
    ensures x.Value() + y.Value() < 0x100_0000_0000 ==> r.Value() == x.Value() + y.Value()
  {
    var carry, lower := 0, x.lower + y.lower;
    if lower >= LOWER_SIZE {
      lower := lower - LOWER_SIZE;
      carry := 1;
    }
    var upper := x.upper + y.upper + carry;
    r := BigNum(upper % UPPER_SIZE, lower);
    WrapsAbove(upper, lower);
  }

  lemma WrapsAbove(upper: nat, lower: nat)
    requires upper < 2 * UPPER_SIZE && lower < LOWER_SIZE
    ensures BigNum(upper % UPPER_SIZE, lower).Value() == (upper * LOWER_SIZE + lower) % (UPPER_SIZE * LOWER_SIZE)
  {
    if upper >= UPPER_SIZE { assert upper % UPPER_SIZE == upper - UPPER_SIZE; }
  }

  lemma SquareFits(a: nat, b: nat)
    requires a < COLOUR_SIZE && b < COLOUR_SIZE
    ensures Square(a - b) <= 0xFFFE_0001
    ensures FromUnsigned(Square(a - b)).Valid() && FromUnsigned(Square(a - b)).Value() == Square(a - b)
  {
    var d := if a > b then a - b else b - a;
    assert d * d == (a - b) * (a - b);
    Increases(d, 0xFFFF);
    UnsignedFits(Square(a - b)) by { assert Square(a - b) == d * d; }
    hide FromUnsigned;
  }

  lemma UnsignedFits(u: nat)
    requires u < 0x1_0000_0000
    ensures FromUnsigned(u).Valid() && FromUnsigned(u).Value() == u
  {
    assert u / LOWER_SIZE < 0x100;
    assert (u / LOWER_SIZE) % UPPER_SIZE == u / LOWER_SIZE;
  }

  lemma Increases(d: nat, e: nat)
    requires d <= e
    ensures d * d <= e * e
  {
    Scale(d, d, e);
    Scale(e, d, e);
  }

  lemma {:induction false} Scale(k: nat, a: nat, b: nat)
    requires a <= b
    ensures k * a <= k * b
  {
    if k > 0 {
      Scale(k - 1, a, b);
      assert k * a == (k - 1) * a + a && k * b == (k - 1) * b + b;
    }
  }

  /** The distance of one cell, summed up in two-part numbers, is the exact distance, and smaller than
      the value the search starts with. */
  method Measure(e: RGB, rgb: RGB, which: Components) returns (sum: BigNum)
    requires IsColour(e) && IsColour(rgb)
    ensures sum.Valid() && sum.Value() == Distance(e, rgb, which) < MAX_BIG_NUM.Value()
  {
    hide Square, FromUnsigned, BigNum.Value, BigNum.Valid;
    MaxValue();
    var dr, dg, db := 0, 0, 0;
    match which {
      case All =>
        dg := e.green - rgb.green;
        db := e.blue - rgb.blue;
        dr := e.red - rgb.red;
      case RedOnly => dr := e.red - rgb.red;
      case GreenOnly => dg := e.green - rgb.green;
      case BlueOnly => db := e.blue - rgb.blue;
    }
    SquareFits(e.red, rgb.red);
    SquareFits(e.green, rgb.green);
    SquareFits(e.blue, rgb.blue);
    SquareFits(0, 0);
    SquareZero();
    sum := FromUnsigned(Square(dr));
    sum := BigNumAdd(sum, FromUnsigned(Square(dg)));
    sum := BigNumAdd(sum, FromUnsigned(Square(db)));
  }

  lemma SquareZero()
    ensures Square(0) == 0
  {
  }

  lemma MaxValue()
    ensures MAX_BIG_NUM.Value() == 0xFF_FFFF_FFFF
  {
  }

  /** The first pixel of the smallest distance. */
  method FindBestPixel(first: array<Entry>, size: nat, rgb: RGB, which: Components) returns (final: nat)
    requires 0 < size <= first.Length && IsColour(rgb) && forall i :: 0 <= i < size ==> IsColour(first[i].local)
    ensures final < size
    ensures forall i :: 0 <= i < size ==>
            Distance(first[final].local, rgb, which) <= Distance(first[i].local, rgb, which)
    ensures forall i :: 0 <= i < final ==>
            Distance(first[final].local, rgb, which) < Distance(first[i].local, rgb, which)
  {
    hide Distance;
    final := 0;
    var minval := MAX_BIG_NUM;
    for pixel := 0 to size
      invariant minval.Valid() && final < size
      invariant pixel == 0 ==> minval == MAX_BIG_NUM
      invariant pixel > 0 ==> final < pixel && minval.Value() == Distance(first[final].local, rgb, which)
      invariant forall i :: 0 <= i < pixel ==> minval.Value() <= Distance(first[i].local, rgb, which)
      invariant forall i :: 0 <= i < final ==> minval.Value() < Distance(first[i].local, rgb, which)
    {
      var sum := Measure(first[pixel].local, rgb, which);
      GreaterIsGreater(minval, sum);
      if minval.Greater(sum) {
        final, minval := pixel, sum;
      }
    }
  }
}
