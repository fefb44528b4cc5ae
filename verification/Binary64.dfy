/**
  Rounding to IEEE 754 binary64 of positive numbers in the normal range: to the nearest number
  with a 53-bit significand, ties to even.
 */
module Binary64 {
  import opened Bits

  function Nearest(x: real): int {
    var n := x.Floor;
    var d := x - n as real;
    if d < 0.5 || (d == 0.5 && n % 2 == 0) then n else n + 1
  }

  /** Zero in the binade from 2^52 to 2^53, where the spacing is 1; falls on the way there. */
  function Measure(x: real): int
    requires x > 0.0
  {
    if x >= 9007199254740992.0 then x.Floor
    else if x < 4503599627370496.0 then (9007199254740992.0 / x).Floor
    else 0
  }

  /** The binary64 number nearest to `x`. */
  function Round(x: real): real
    requires x > 0.0
    decreases Measure(x)
  {
    if x >= 9007199254740992.0 then
      HalfMeasure(x);
      2.0 * Round(x / 2.0)
    else if x < 4503599627370496.0 then
      DoubleMeasure(x);
      Round(2.0 * x) / 2.0
    else Nearest(x) as real
  }

  lemma HalfMeasure(x: real)
    requires x >= 9007199254740992.0
    ensures 0 <= Measure(x / 2.0) < Measure(x)
  {
  }

  lemma DoubleMeasure(x: real)
    requires 0.0 < x < 4503599627370496.0
    ensures 0 <= Measure(2.0 * x) < Measure(x)
  {
    var q, r := 9007199254740992.0 / x, 9007199254740992.0 / (2.0 * x);
    Ratio(q, r, x);
  }

  lemma Ratio(q: real, r: real, x: real)
    requires x > 0.0 && q * x == 9007199254740992.0 && r * (2.0 * x) == 9007199254740992.0
    requires x < 4503599627370496.0
    ensures q == 2.0 * r && r > 1.0
  {
    Same(q, 2.0 * r, x);
    if r <= 1.0 {
      Product(r, 1.0, 2.0 * x);
    }
  }

  lemma Product(a: real, b: real, x: real)
    requires a <= b && x >= 0.0
    ensures a * x <= b * x
  {
  }

  lemma Positive(x: real, p: real)
    requires x > 0.0 && p > 0.0
    ensures x * p > 0.0
  {
  }

  lemma Same(a: real, b: real, x: real)
    requires x > 0.0 && a * x == b * x
    ensures a == b
  {
    assert (a - b) * x == 0.0;
  }

  /** A binary64 number. */
  predicate IsDouble(x: real) {
    x > 0.0 && Round(x) == x
  }

  /** The whole number `n` is a binary64 number: it has at most 53 significant bits. */
  predicate Fits(n: nat) {
    n > 0 && IsDouble(n as real)
  }

  lemma RoundTwice(x: real)
    requires x > 0.0
    ensures Round(2.0 * x) == 2.0 * Round(x)
  {
    if x >= 4503599627370496.0 {
      assert 2.0 * x / 2.0 == x;
    }
  }

  /** `x` with its exponent raised by `n`. */
  function Shift(x: real, n: nat): real {
    if n == 0 then x else 2.0 * Shift(x, n - 1)
  }

  lemma {:induction false} ShiftIs(x: real, n: nat, p: real)
    requires p == Pow2(n) as real
    ensures Shift(x, n) == x * p
  {
    if n == 0 {
      assert x * 1.0 == x;
    } else {
      var h := Pow2(n - 1) as real;
      ShiftIs(x, n - 1, h);
      assert x * (2.0 * h) == 2.0 * (x * h);
    }
  }

  /** Between 2^52 and 2^53 it is the nearest whole number, the even one of two; other binades are shifts of that. */
  lemma RoundIsNearest(x: real)
    requires 4503599627370496.0 <= x < 9007199254740992.0
    ensures var n := Round(x).Floor;
            && Round(x) == n as real && -0.5 <= n as real - x <= 0.5
            && (n as real - x == 0.5 || n as real - x == -0.5 ==> n % 2 == 0)
    ensures Round(2.0 * x) == 2.0 * Round(x)
  {
    RoundTwice(x);
  }

  /** Rounding commutes with a shift of the exponent. */
  lemma {:induction false} RoundShift(x: real, n: nat)
    requires x > 0.0
    ensures Shift(x, n) > 0.0 && Round(Shift(x, n)) == Shift(Round(x), n)
  {
    if n != 0 {
      RoundShift(x, n - 1);
      RoundTwice(Shift(x, n - 1));
    }
  }

  lemma RoundScaled(x: real, n: nat, p: real, y: real)
    requires x > 0.0 && p == Pow2(n) as real && y == x * p
    ensures y > 0.0 && Round(y) == Shift(Round(x), n)
  {
    RoundShift(x, n);
    Shifted(x, n, p, y);
  }

  lemma Shifted(x: real, n: nat, p: real, y: real)
    requires p == Pow2(n) as real && y == x * p
    ensures Shift(x, n) == y
  {
    ShiftIs(x, n, p);
  }

  /** The relative error is at most 2^-53. */
  lemma {:induction false} RoundError(x: real)
    requires x > 0.0
    ensures 9007199254740991.0 * x <= 9007199254740992.0 * Round(x) <= 9007199254740993.0 * x
    ensures Round(x) > 0.0
    decreases Measure(x)
  {
    if x >= 9007199254740992.0 {
      HalfMeasure(x);
      RoundError(x / 2.0);
    } else if x < 4503599627370496.0 {
      DoubleMeasure(x);
      RoundError(2.0 * x);
    }
  }

  lemma {:induction false} WholeFits(n: nat)
    requires 0 < n <= 9007199254740992
    ensures Fits(n)
    decreases Measure(n as real)
  {
    if n == 9007199254740992 {
      assert Round(4503599627370496.0) == 4503599627370496.0;
    } else if n < 4503599627370496 {
      DoubleMeasure(n as real);
      assert (2 * n) as real == 2.0 * n as real;
      WholeFits(2 * n);
    }
  }

  /** What is rounded is a binary64 number. */
  lemma {:induction false} RoundIsDouble(x: real)
    requires x > 0.0
    ensures IsDouble(Round(x))
    decreases Measure(x)
  {
    RoundError(x);
    if x >= 9007199254740992.0 {
      HalfMeasure(x);
      RoundIsDouble(x / 2.0);
      RoundTwice(Round(x / 2.0));
    } else if x < 4503599627370496.0 {
      DoubleMeasure(x);
      RoundIsDouble(2.0 * x);
      RoundTwice(Round(x));
    } else {
      WholeFits(Nearest(x));
    }
  }

  lemma {:induction false} LargeIsWhole(x: real)
    requires x >= 4503599627370496.0
    ensures Round(x) == Round(x).Floor as real
    decreases Measure(x)
  {
    if x >= 9007199254740992.0 {
      HalfMeasure(x);
      LargeIsWhole(x / 2.0);
      var n := Round(x / 2.0).Floor;
      assert Round(x) == (2 * n) as real;
    }
  }

  /** Truncating a binary64 number to a whole number gives a binary64 number. */
  lemma TruncatedFits(x: real)
    requires x > 0.0 && Round(x).Floor > 0
    ensures Fits(Round(x).Floor)
  {
    if x >= 4503599627370496.0 {
      LargeIsWhole(x);
      RoundIsDouble(x);
    } else {
      RoundError(x);
      WholeFits(Round(x).Floor);
    }
  }

  /** The next binary64 number after 1 is 1 + 2^-52. */
  lemma AboveOne(d: real)
    requires IsDouble(d) && d > 1.0
    ensures 4503599627370496.0 * d >= 4503599627370497.0
  {
    if d < 2.0 {
      var x := d * 4503599627370496.0;
      Pow52();
      RoundScaled(d, 52, 4503599627370496.0, x);
      Shifted(d, 52, 4503599627370496.0, x);
      assert Nearest(x) as real == x;
    }
  }

  lemma Pow52()
    ensures Pow2(52) == 4503599627370496
  {
    Pow2Values();
    Pow2Add(24, 24);
    Pow2Add(48, 4);
    assert Pow2(4) == 16;
  }
}
