/**
  Exactly which targets survive `target_to_difficulty` and then `target_from_difficulty64`, as
  a condition in whole numbers on the high word.

  Both functions divide 2^64 and round.  Scaled to a significand `m` between 2^52 and 2^53,
  the first quotient is `There(m)`, 2^105 / m to the nearest, and the second 2^105 over that.
 */
module RoundTrip {
  import opened Arith
  import opened Bits
  import opened Bytes
  import opened Binary64
  import opened Jobs
  import opened TargetFormats
  import opened Difficulty64

  const TWO52: nat := 4503599627370496
  const TWO53: nat := 9007199254740992
  const TWO105: nat := 40564819207303340847894502572032
  const TWO106: nat := 81129638414606681695789005144064

  // ---- the condition ----

  /** At most 53 significant bits. */
  predicate Significant(hi: nat) {
    hi < TWO53 || (hi % 2 == 0 && Significant(hi / 2))
  }

  /** The high word shifted until it lies between 2^52 and 2^53. */
  function Significand(hi: nat): (m: nat)
    requires hi > 0
    ensures TWO52 <= m < TWO53
    decreases if hi < TWO52 then TWO52 - hi else if hi >= TWO53 then hi else 0
  {
    if hi < TWO52 then Significand(2 * hi) else if hi >= TWO53 then Significand(hi / 2) else hi
  }

  /** 2^105 / m, to the nearest whole number. */
  function There(m: nat): nat
    requires m > 0
  {
    (TWO106 + m) / (2 * m)
  }

  predicate Survives(hi: nat)
    requires hi > 0
  {
    || hi == MAX64
    || (&& Significant(hi)
        && var m := Significand(hi);
           && There(m) * (2 * m - 1) < TWO106
           && (hi >= TWO52 ==> There(m) * (2 * m + 1) > TWO106))
  }

  // ---- a 53-bit word is a binary64 number ----

  lemma {:induction false} FitsIff(n: nat)
    requires n > 0
    ensures Fits(n) <==> Significant(n)
  {
    if n < TWO53 {
      WholeFits(n);
    } else {
      if n % 2 == 0 {
        FitsHalf(n);
        FitsIff(n / 2);
      } else {
        OddDoesNotFit(n);
      }
    }
  }

  lemma FitsHalf(n: nat)
    requires n >= TWO53 && n % 2 == 0
    ensures Fits(n) <==> Fits(n / 2)
  {
    var x := (n / 2) as real;
    assert n as real == 2.0 * x;
    RoundTwice(x);
  }

  lemma OddDoesNotFit(n: nat)
    requires n >= TWO53 && n % 2 == 1
    ensures !Fits(n)
  {
    var k := RoundedEven(n as real, n as real / 2.0);
    OddIsNotTwice(n, k);
  }

  lemma RoundedEven(y: real, x: real) returns (k: int)
    requires y == 2.0 * x && x >= 4503599627370496.0
    ensures Round(y) == 2.0 * k as real
  {
    LargeIsWhole(x);
    RoundTwice(x);
    k := Round(x).Floor;
  }

  lemma OddIsNotTwice(n: int, k: int)
    requires n % 2 == 1
    ensures n as real != 2.0 * k as real
  {
    assert (2 * k) as real == 2.0 * k as real;
  }

  // ---- an odd number above 1 does not divide a power of two ----

  lemma {:induction false} OddDivisor(a: nat, b: nat, k: nat)
    requires a * b == Pow2(k) && b % 2 == 1
    ensures b == 1
  {
    if k == 0 {
      UnitProduct(a, b);
    } else {
      EvenFactor(a, b, Pow2(k - 1));
      OddDivisor(a / 2, b, k - 1);
    }
  }

  lemma UnitProduct(a: nat, b: nat)
    requires a * b == 1
    ensures b == 1
  {
    if a >= 2 && b >= 1 {
      MulMono(2, a, b);
    }
  }

  lemma EvenFactor(a: nat, b: nat, p: nat)
    requires a * b == 2 * p && b % 2 == 1
    ensures a % 2 == 0 && a / 2 * b == p
  {
    var c, d := a / 2, b / 2;
    MulAssoc(2, c, b);
    if a % 2 == 1 {
      MulDistrib(2 * c, 1, b);
    }
  }

  lemma Power106()
    ensures Pow2(106) == TWO106
  {
    Pow52();
    Pow2Add(52, 52);
    Pow2Add(104, 2);
    assert Pow2(2) == 4;
  }

  lemma NoTie(a: nat, b: nat)
    requires b % 2 == 1 && b > 1
    ensures a * b != TWO106
  {
    if a * b == TWO106 {
      Power106();
      OddDivisor(a, b, 106);
    }
  }

  // ---- the two rounded quotients ----

  lemma RoundMid(x: real)
    requires 4503599627370496.0 <= x <= 9007199254740992.0
    ensures Round(x) == Nearest(x) as real
  {
    if x == 9007199254740992.0 {
      WholeFits(TWO53);
    }
  }

  /** `y` = 2^105 / m lies in the binade, and its nearest whole number is never a tie. */
  lemma Ratio105(y: real, m: nat, k: nat)
    requires TWO52 <= m <= TWO53 && y * m as real == 40564819207303340847894502572032.0
    requires k == Nearest(y)
    ensures 4503599627370496.0 <= y <= 9007199254740992.0 && TWO52 <= k <= TWO53
    ensures (2 * k - 1) * m < TWO106 < (2 * k + 1) * m
  {
    RatioRange(y, m as real);
    NearestRange(y, k);
    Halves(y, m, k);
    NoTies(m, k);
  }

  lemma NearestRange(y: real, k: nat)
    requires 4503599627370496.0 <= y <= 9007199254740992.0 && k == Nearest(y)
    ensures TWO52 <= k <= TWO53
  {
  }

  lemma NoTies(m: nat, k: nat)
    requires k >= 2
    ensures (2 * k - 1) * m != TWO106 && (2 * k + 1) * m != TWO106
  {
    NoTie(m, 2 * k - 1);
    NoTie(m, 2 * k + 1);
    Commuted(m, 2 * k - 1);
    Commuted(m, 2 * k + 1);
  }

  lemma Commuted(a: int, b: int)
    ensures a * b == b * a
  {
  }

  lemma RatioRange(y: real, m: real)
    requires 4503599627370496.0 <= m <= 9007199254740992.0 && y * m == 40564819207303340847894502572032.0
    ensures 4503599627370496.0 <= y <= 9007199254740992.0
  {
    if y < 4503599627370496.0 {
      Below105(y, 4503599627370496.0, m);
    }
    if y > 9007199254740992.0 {
      Above105(y, 9007199254740992.0, m);
    }
  }

  lemma Below105(y: real, b: real, m: real)
    requires y < b && 0.0 < m <= 9007199254740992.0 && b > 0.0
    ensures y * m < b * 9007199254740992.0
  {
    Positive(b - y, m);
    assert (b - y) * m == b * m - y * m;
    Product(m, 9007199254740992.0, b);
  }

  lemma Above105(y: real, b: real, m: real)
    requires y > b && m >= 4503599627370496.0 && b > 0.0
    ensures y * m > b * 4503599627370496.0
  {
    Positive(y - b, m);
    assert (y - b) * m == y * m - b * m;
    Product(4503599627370496.0, m, b);
  }

  lemma Halves(y: real, m: nat, k: nat)
    requires m > 0 && k > 0 && y * m as real == 40564819207303340847894502572032.0 && k == Nearest(y)
    ensures (2 * k - 1) * m <= TWO106 <= (2 * k + 1) * m
  {
    Bracketed((2 * k - 1) as real, y, (2 * k + 1) as real, m as real);
    AsRealInt(2 * k - 1, m);
    AsRealInt(2 * k + 1, m);
  }

  lemma Bracketed(low: real, y: real, high: real, x: real)
    requires low <= 2.0 * y <= high && x > 0.0 && y * x == 40564819207303340847894502572032.0
    ensures low * x <= 81129638414606681695789005144064.0 <= high * x
  {
    Product(low, 2.0 * y, x);
    Product(2.0 * y, high, x);
    TwiceProduct(y, x);
  }

  lemma TwiceProduct(y: real, x: real)
    ensures 2.0 * y * x == 2.0 * (y * x)
  {
  }

  lemma AsRealInt(a: int, b: int)
    ensures (a * b) as real == a as real * b as real
  {
  }

  lemma ThereIs(m: nat, k: nat)
    requires m > 0 && (2 * k - 1) * m < TWO106 < (2 * k + 1) * m
    ensures There(m) == k
  {
    var r := TWO106 + m - k * (2 * m);
    assert (2 * k - 1) * m == k * (2 * m) - m && (2 * k + 1) * m == k * (2 * m) + m;
    DivUnique(TWO106 + m, 2 * m, k, r);
  }

  /** What comes back, before it is cut to a whole number. */
  function Back(x: real): real
    requires x > 0.0
  {
    Quotient(Quotient(x))
  }

  /** Doubling the divisor halves the rounded quotient. */
  lemma QuotientTwice(x: real)
    requires x > 0.0
    ensures Quotient(x) == 2.0 * Quotient(2.0 * x)
  {
    var q := Over(2.0 * x);
    HalvedOver(x, q, Over(x));
    RoundTwice(q);
  }

  lemma HalvedOver(x: real, q: real, r: real)
    requires x > 0.0 && q * (2.0 * x) == 18446744073709551616.0 == r * x
    ensures r == 2.0 * q
  {
    Same(r, 2.0 * q, x);
  }

  lemma BackTwice(x: real)
    requires x > 0.0
    ensures Back(2.0 * x) == 2.0 * Back(x)
  {
    QuotientTwice(x);
    QuotientTwice(Quotient(2.0 * x));
  }

  /** The quotient of a significand, scaled by 2^41, is `There`. */
  lemma FirstQuotient(m: nat)
    requires TWO52 <= m < TWO53
    ensures TWO52 <= There(m) <= TWO53 && Quotient(m as real) * 2199023255552.0 == There(m) as real
    ensures (2 * There(m) + 1) * m > TWO106
  {
    var x := Over(m as real);
    var y := x * 2199023255552.0;
    ScaledOver(x, y, m as real);
    Ratio105(y, m, Nearest(y));
    ThereIs(m, Nearest(y));
    RoundMid(y);
    Pow41();
    RoundScaled(x, 41, 2199023255552.0, y);
    ShiftIs(Round(x), 41, 2199023255552.0);
  }

  lemma ScaledOver(x: real, y: real, m: real)
    requires x * m == 18446744073709551616.0 && y == x * 2199023255552.0
    ensures y * m == 40564819207303340847894502572032.0
  {
    assert y * m == 2199023255552.0 * (x * m);
  }

  lemma Pow41()
    ensures Pow2(41) == 2199023255552
  {
    Pow2Values();
    assert Pow2(1) == 2;
    Pow2Add(1, 8);
    Pow2Add(9, 32);
  }

  /** A significand comes back as the whole number nearest to 2^105 / `There(m)`. */
  lemma SecondQuotient(m: nat) returns (q: nat)
    requires TWO52 <= m < TWO53
    ensures Back(m as real) == q as real
    ensures (2 * q - 1) * There(m) < TWO106 < (2 * q + 1) * There(m)
  {
    FirstQuotient(m);
    var d := Quotient(m as real);
    var z := Over(d);
    ScaledBack(z, d, There(m) as real);
    q := Nearest(z);
    Ratio105(z, There(m), q);
    RoundMid(z);
  }

  lemma ScaledBack(z: real, d: real, t: real)
    requires z * d == 18446744073709551616.0 && d * 2199023255552.0 == t
    ensures z * t == 40564819207303340847894502572032.0
  {
    assert z * t == 2199023255552.0 * (z * d);
  }

  // ---- the significand decides ----

  /** Whether it comes back too low, as it was, or too high, read off two products. */
  lemma Compared(m: nat, d: nat, q: nat)
    requires TWO52 <= m < TWO53 && TWO52 <= d && (2 * d + 1) * m > TWO106
    requires (2 * q - 1) * d < TWO106 < (2 * q + 1) * d
    ensures q >= m <==> d * (2 * m - 1) < TWO106
    ensures q <= m <==> d * (2 * m + 1) > TWO106
    ensures q <= m + 1
  {
    if q >= m {
      MulMono(2 * m - 1, 2 * q - 1, d);
    } else {
      MulMono(2 * q + 1, 2 * m - 1, d);
    }
    if q <= m {
      MulMono(2 * q + 1, 2 * m + 1, d);
    } else {
      MulMono(2 * m + 1, 2 * q - 1, d);
    }
    MulDistrib(2 * m, 3, d);
    MulDistrib(2 * d, 1, m);
    MulAssoc(2, m, d);
    MulAssoc(2, d, m);
    if q >= m + 2 {
      MulMono(2 * m + 3, 2 * q - 1, d);
    }
  }

  /** `f` commutes with doubling, as `Back` does. */
  predicate TwiceAt(f: real -> real, x: real) {
    f(2.0 * x) == 2.0 * f(x)
  }

  ghost predicate Doubling(f: real -> real) {
    forall x :: x > 0.0 ==> TwiceAt(f, x)
  }

  ghost function BackOf(): real -> real {
    x => if x > 0.0 then Back(x) else 0.0
  }

  lemma BackDoubles()
    ensures Doubling(BackOf())
  {
    forall x | x > 0.0
      ensures TwiceAt(BackOf(), x)
    {
      BackTwice(x);
    }
  }

  /** A word below 2^53 is its significand over a power of two, and so is what comes back. */
  lemma {:induction false} BackUp(f: real -> real, hi: nat) returns (p: nat)
    requires 0 < hi < TWO53 && Doubling(f)
    ensures p > 0 && Significand(hi) == hi * p && (p == 1 <==> hi >= TWO52)
    ensures f(hi as real) * p as real == f(Significand(hi) as real)
    decreases TWO53 - hi
  {
    if hi >= TWO52 {
      p := 1;
    } else {
      var r := BackUp(f, 2 * hi);
      p := 2 * r;
      MulAssoc(hi, 2, r);
      assert TwiceAt(f, hi as real) && (2 * hi) as real == 2.0 * hi as real;
      Regroup(f(hi as real), r as real, p as real);
    }
  }

  lemma Regroup(b: real, r: real, p: real)
    requires p == 2.0 * r
    ensures 2.0 * b * r == b * p == 2.0 * (b * r)
  {
  }

  /** A longer word of 53 significant bits is a multiple of its significand, and so is what comes back. */
  lemma {:induction false} BackDown(f: real -> real, hi: nat) returns (p: nat)
    requires hi >= TWO52 && Significant(hi) && Doubling(f)
    ensures p > 0 && hi == Significand(hi) * p
    ensures f(hi as real) == f(Significand(hi) as real) * p as real
  {
    if hi < TWO53 {
      p := 1;
    } else {
      var r := BackDown(f, hi / 2);
      var m := Significand(hi);
      p := 2 * r;
      MulAssoc(m, 2, r);
      MulAssoc(2, m, r);
      assert TwiceAt(f, (hi / 2) as real) && hi as real == 2.0 * (hi / 2) as real;
      Regroup(f(m as real), r as real, p as real);
    }
  }

  // ---- the difficulty is above 1 ----

  lemma {:induction false} Highest(hi: nat, k: nat)
    requires Significant(hi) && hi < TWO53 * Pow2(k)
    ensures hi <= (TWO53 - 1) * Pow2(k)
  {
    if k != 0 && hi >= TWO53 {
      var p := Pow2(k - 1);
      assert TWO53 * Pow2(k) == 2 * (TWO53 * p);
      Highest(hi / 2, k - 1);
      assert (TWO53 - 1) * Pow2(k) == 2 * ((TWO53 - 1) * p);
    } else {
      MulMono(1, Pow2(k), TWO53 - 1);
    }
  }

  lemma AboveOneHalfStep(x: real)
    requires 4503599627370496.0 * x > 4503599627370496.5
    ensures Round(x) > 1.0
  {
    if x < 2.0 {
      var y := x * 4503599627370496.0;
      Pow52();
      RoundScaled(x, 52, 4503599627370496.0, y);
      ShiftIs(Round(x), 52, 4503599627370496.0);
      assert Nearest(y) >= 4503599627370497;
    } else {
      RoundError(x);
    }
  }

  lemma DifficultyAboveOne(hi: nat)
    requires 0 < hi <= MAX64 && Significant(hi)
    ensures Quotient(hi as real) > 1.0
  {
    Pow2Values();
    assert Pow2(11) == 2048;
    Highest(hi, 11);
    var x := Over(hi as real);
    OverHighest(x, hi as real);
    AboveOneHalfStep(x);
  }

  lemma OverHighest(x: real, h: real)
    requires x > 0.0 && x * h == 18446744073709551616.0 && 0.0 < h <= 18446744073709549568.0
    ensures 4503599627370496.0 * x > 4503599627370496.5
  {
    Product(h, 18446744073709549568.0, x);
  }

  // ---- exactly which ----

  lemma TripIsBack(hi: nat)
    requires 0 < hi <= MAX64 && Significant(hi)
    ensures Trip(hi) == Back(hi as real).Floor
  {
    FitsIff(hi);
    DifficultyAboveOne(hi);
  }

  lemma CrossMultiplied(h: int, b: real, p: nat, q: nat)
    requires p > 0 && b * p as real == q as real
    ensures h as real <= b <==> h * p <= q
  {
    AsRealInt(h, p);
    if h as real <= b {
      Product(h as real, b, p as real);
    } else if h * p <= q {
      Divided(h as real, b, p as real);
    }
  }

  lemma FloorIs(b: real, hi: nat, p: nat, q: nat)
    requires p > 0 && b * p as real == q as real
    ensures b.Floor == hi <==> hi * p <= q < hi * p + p
  {
    CrossMultiplied(hi, b, p, q);
    CrossMultiplied(hi + 1, b, p, q);
    MulDistrib(hi, 1, p);
  }

  /** What `Trip` is, for any `f` that is `Back`. */
  lemma TripBy(hi: nat, f: real -> real) returns (q: nat)
    requires 0 < hi <= MAX64 && Significant(hi) && f == BackOf()
    ensures Doubling(f) && Trip(hi) == f(hi as real).Floor
    ensures f(Significand(hi) as real) == q as real && Returned(Significand(hi), q)
  {
    BackDoubles();
    TripIsBack(hi);
    q := SecondQuotient(Significand(hi));
  }

  lemma ShortFloor(hi: nat, f: real -> real, q: nat) returns (p: nat)
    requires 0 < hi < TWO53 && Doubling(f) && f(Significand(hi) as real) == q as real
    ensures p > 0 && Significand(hi) == hi * p && (p == 1 <==> hi >= TWO52)
    ensures f(hi as real).Floor == hi <==> hi * p <= q < hi * p + p
  {
    p := BackUp(f, hi);
    FloorIs(f(hi as real), hi, p, q);
  }

  lemma LongFloor(hi: nat, f: real -> real, q: nat)
    requires TWO53 <= hi && Significant(hi) && Doubling(f) && f(Significand(hi) as real) == q as real
    ensures f(hi as real).Floor == hi <==> q == Significand(hi)
  {
    var p := BackDown(f, hi);
    AsRealInt(q, p);
    SameMultiple(q, Significand(hi), p);
  }

  /** The significand `m` comes back as `q`. */
  predicate Returned(m: nat, q: nat)
    requires m > 0
  {
    (2 * q - 1) * There(m) < TWO106 < (2 * q + 1) * There(m)
  }

  /** Whether it does so unchanged is read off the two products. */
  lemma ReturnedIff(m: nat, q: nat)
    requires TWO52 <= m < TWO53 && Returned(m, q)
    ensures q >= m <==> There(m) * (2 * m - 1) < TWO106
    ensures q <= m <==> There(m) * (2 * m + 1) > TWO106
    ensures q <= m + 1
  {
    FirstQuotient(m);
    Compared(m, There(m), q);
  }

  lemma ShortWord(hi: nat)
    requires 0 < hi < TWO53
    ensures Trip(hi) == hi <==> Survives(hi)
  {
    var f := BackOf();
    var q := TripBy(hi, f);
    var p := ShortFloor(hi, f, q);
    ReturnedIff(Significand(hi), q);
  }

  lemma LongWord(hi: nat)
    requires TWO53 <= hi <= MAX64 && Significant(hi)
    ensures Trip(hi) == hi <==> Survives(hi)
  {
    var f := BackOf();
    var q := TripBy(hi, f);
    LongFloor(hi, f, q);
    ReturnedIff(Significand(hi), q);
    OnesAreLong();
  }

  lemma SameMultiple(q: nat, m: nat, p: nat)
    requires p > 0
    ensures q * p == m * p <==> q == m
  {
    if q < m {
      MulMono(q + 1, m, p);
      MulDistrib(q, 1, p);
    } else if m < q {
      MulMono(m + 1, q, p);
      MulDistrib(m, 1, p);
    }
  }

  lemma OnesAreLong()
    ensures !Significant(MAX64)
  {
    assert MAX64 % 2 == 1;
  }

  lemma TripIff(hi: nat)
    requires 0 < hi <= MAX64
    ensures Trip(hi) == hi <==> Survives(hi)
  {
    if hi == MAX64 {
      OnesTrip();
    } else if hi < TWO53 {
      ShortWord(hi);
    } else if Significant(hi) {
      LongWord(hi);
    } else {
      FitsIff(hi);
      if Trip(hi) == hi {
        TripFits(hi);
      }
    }
  }

  /**
    `target_from_difficulty64` undoes `target_to_difficulty` if and only if the low 24 bytes
    are zero and the high word, not zero, survives: it is all ones, or it has at most 53
    significant bits and two products of whole numbers lie on the right sides of 2^106.
   */
  lemma RoundTripIff(target: Hash256)
    ensures var hi := LeNat(target[24..]);
            HighTarget(HighOf(DifficultyOf(target))) == target <==>
            target[..24] == Zeros(24) && hi > 0 && Survives(hi)
  {
    var hi := LeNat(target[24..]);
    if target[..24] == Zeros(24) && hi > 0 {
      FourBytes(target[24..]);
      TripIsTrip(target);
      TripIff(hi);
    } else {
      RoundTripFails(target);
    }
  }
}
