/**
  The 64-bit difficulty of a target and its way back, as in src/pow/target.cpp, with the
  rounding of binary64: here the rounding decides which targets survive the round trip.

  The source writes 18446744073709551615.0 for the dividend; binary64 has no such number and
  the literal is 2^64.
 */
module Difficulty64 {
  import opened Bits
  import opened Bytes
  import opened Binary64
  import opened Jobs
  import opened TargetFormats

  /** 2^64 / d in exact arithmetic. */
  function Over(d: real): (q: real)
    requires d > 0.0
    ensures q * d == 18446744073709551616.0 && q > 0.0
  {
    OverPositive(18446744073709551616.0 / d, d);
    18446744073709551616.0 / d
  }

  lemma OverPositive(q: real, d: real)
    requires d > 0.0 && q * d == 18446744073709551616.0
    ensures q > 0.0
  {
    if q <= 0.0 {
      Product(q, 0.0, d);
    }
  }

  /** The same as the source computes it. */
  function Quotient(d: real): (q: real)
    requires d > 0.0
    ensures IsDouble(q)
  {
    RoundIsDouble(Over(d));
    Round(Over(d))
  }

  /** The difficulty of the nonzero high word `hi`, which is itself rounded first. */
  function WordDifficulty(hi: nat): (d: real)
    requires hi > 0
    ensures IsDouble(d)
  {
    RoundError(hi as real);
    Quotient(Round(hi as real))
  }

  function DifficultyOf(target: Hash256): (d: real)
    ensures d <= 1.0 || IsDouble(d)
  {
    var hi := LeNat(target[24..]);
    if hi == 0 then 0.0 else WordDifficulty(hi)
  }

  lemma DifficultyIsWord(target: Hash256)
    ensures LeNat(target[24..]) == 0 ==> DifficultyOf(target) == 0.0
    ensures LeNat(target[24..]) > 0 ==> DifficultyOf(target) == WordDifficulty(LeNat(target[24..]))
  {
  }

  /** 2^64 over the rounded high word, rounded: `q` is the exact quotient. */
  lemma WordLaw(hi: nat) returns (x: real, q: real)
    requires hi > 0
    ensures x == Round(hi as real) && q > 0.0 && q * x == 18446744073709551616.0 && WordDifficulty(hi) == Round(q)
  {
    RoundError(hi as real);
    x := Round(hi as real);
    q := Over(x);
  }

  method TargetToDifficulty(target: Hash256) returns (d: real)
    ensures d == DifficultyOf(target)
  {
    var hi := Accumulate(target[24..]);
    if hi == 0 {
      return 0.0;
    }
    RoundError(hi as real);
    var x := Round(hi as real);
    return Round(18446744073709551616.0 / x);
  }

  /** The high word for a difficulty; the conversion to `uint64_t` is always defined. */
  function HighOf(diff: real): (hi: nat)
    requires diff <= 1.0 || IsDouble(diff)
    ensures hi <= MAX64
  {
    if diff <= 1.0 then MAX64 else
      QuotientBelow(diff);
      Quotient(diff).Floor
  }

  lemma QuotientBelow(d: real)
    requires IsDouble(d) && d > 1.0
    ensures 0.0 < Quotient(d) < 18446744073709551616.0
  {
    AboveOne(d);
    RoundError(Over(d));
    OverBelow(Over(d), d);
  }

  lemma OverBelow(q: real, d: real)
    requires q > 0.0 && q * d == 18446744073709551616.0 && 4503599627370496.0 * d >= 4503599627370497.0
    ensures 4503599627370497.0 * q <= 18446744073709551616.0 * 4503599627370496.0
  {
    Product(4503599627370497.0, 4503599627370496.0 * d, q);
    assert 4503599627370496.0 * d * q == 4503599627370496.0 * (q * d);
  }

  /** The whole part of the rounded quotient of 2^64 by the difficulty. */
  lemma HighLaw(diff: real) returns (q: real)
    requires diff <= 1.0 || IsDouble(diff)
    ensures diff <= 1.0 ==> HighOf(diff) == 0xffff_ffff_ffff_ffff
    ensures diff > 1.0 ==> q > 0.0 && q * diff == 18446744073709551616.0 && HighOf(diff) == Round(q).Floor
  {
    q := if diff > 1.0 then Over(diff) else 0.0;
  }

  method TargetFromDifficulty64(diff: real) returns (t: Hash256)
    requires diff <= 1.0 || IsDouble(diff)
    ensures t == HighTarget(HighOf(diff))
  {
    var hi: nat := MAX64;
    if diff > 1.0 {
      QuotientBelow(diff);
      var q := Round(18446744073709551616.0 / diff);
      hi := q.Floor;
    }
    t := HighWord(hi);
  }

  // ---- the round trip ----

  /** What a nonzero high word becomes on the way to a difficulty and back. */
  function Trip(hi: nat): (r: nat)
    requires hi > 0
    ensures r <= MAX64
  {
    HighOf(WordDifficulty(hi))
  }

  /** Whatever comes back is all ones or has at most 53 significant bits. */
  lemma TripFits(hi: nat)
    requires hi > 0 && Trip(hi) > 0
    ensures Trip(hi) == MAX64 || Fits(Trip(hi))
  {
    var d := WordDifficulty(hi);
    if d > 1.0 {
      TruncatedFits(Over(d));
    }
  }

  /**
    The round trip fails whenever the low 24 bytes are not zero, or the high word is zero, or
    the high word has more than 53 significant bits and is not all ones.
   */
  lemma RoundTripFails(target: Hash256)
    requires var hi := LeNat(target[24..]);
             target[..24] != Zeros(24) || hi == 0 || (!Fits(hi) && hi != MAX64)
    ensures HighTarget(HighOf(DifficultyOf(target))) != target
  {
    var hi, r := LeNat(target[24..]), HighOf(DifficultyOf(target));
    HighTargetValue(r);
    assert HighTarget(r)[..24] == Zeros(24);
    if hi != 0 && r != 0 {
      TripFits(hi);
    }
  }

  lemma TripIsTrip(target: Hash256)
    requires LeNat(target[24..]) != 0 && target[..24] == Zeros(24)
    ensures HighTarget(HighOf(DifficultyOf(target))) == target <==> Trip(LeNat(target[24..])) == LeNat(target[24..])
  {
    var hi := LeNat(target[24..]);
    HighTargetValue(Trip(hi));
    ToLeLeNat(target[24..]);
    assert target == target[..24] + target[24..];
  }

  lemma OnesTrip()
    ensures Trip(MAX64) == MAX64
  {
    var y := 9007199254740991.99951171875;
    Pow2Values();
    assert Pow2(11) == 2048;
    RoundScaled(y, 11, 2048.0, MAX64 as real);
    Shifted(Round(y), 11, 2048.0, 18446744073709551616.0);
    Same(Over(18446744073709551616.0), 1.0, 18446744073709551616.0);
    WholeFits(1);
  }

  /**
    Whether or not it is the same, the word that comes back is near: off by at most one part in 2^51,
    and one for the truncation.
   */
  lemma RoundTripError(hi: nat)
    requires 0 < hi <= MAX64
    ensures Near(hi as real, Trip(hi))
  {
    var x := hi as real;
    RoundError(x);
    WordNear(x, Round(x), Trip(hi));
  }

  predicate Near(x: real, r: int) {
    && 2251799813685248.0 * (r as real - x) <= x
    && 2251799813685248.0 * (x - r as real) <= x + 2251799813685248.0
  }

  lemma WordNear(x: real, h: real, r: nat)
    requires 0.0 < x <= 18446744073709551615.0 && h > 0.0 && r == HighOf(Quotient(h))
    requires 9007199254740991.0 * x <= 9007199254740992.0 * h <= 9007199254740993.0 * x
    ensures Near(x, r)
  {
    var d := Quotient(h);
    var z := QuotientNear(h, d);
    if d > 1.0 {
      var q := Quotient(d);
      var y := QuotientNear(d, q);
      Reciprocal(z, h, d, y);
      TripNear(x, h, y, q, r);
    } else {
      CloseToOnes(x, h, z, d);
    }
  }

  lemma QuotientNear(d: real, q: real) returns (z: real)
    requires d > 0.0 && q == Quotient(d)
    ensures z > 0.0 && z * d == 18446744073709551616.0 && q > 0.0
    ensures 9007199254740991.0 * z <= 9007199254740992.0 * q <= 9007199254740993.0 * z
  {
    z := Over(d);
    RoundedNear(z, q);
  }

  lemma RoundedNear(z: real, q: real)
    requires z > 0.0 && q == Round(z)
    ensures q > 0.0
    ensures 9007199254740991.0 * z <= 9007199254740992.0 * q <= 9007199254740993.0 * z
  {
    RoundError(z);
  }

  lemma Reciprocal(z: real, h: real, d: real, y: real)
    requires z > 0.0 && z * h == 18446744073709551616.0 == y * d && y > 0.0
    requires 9007199254740991.0 * z <= 9007199254740992.0 * d <= 9007199254740993.0 * z
    ensures 9007199254740991.0 * y <= 9007199254740992.0 * h <= 9007199254740993.0 * y
  {
    Product(9007199254740991.0 * z, 9007199254740992.0 * d, y);
    Product(9007199254740992.0 * d, 9007199254740993.0 * z, y);
    Divided(9007199254740991.0 * y, 9007199254740992.0 * h, z);
    Divided(9007199254740992.0 * h, 9007199254740993.0 * y, z);
  }

  lemma Divided(a: real, b: real, z: real)
    requires z > 0.0 && a * z <= b * z
    ensures a <= b
  {
    if a > b {
      Positive(a - b, z);
    }
  }

  lemma TripNear(x: real, h: real, y: real, q: real, r: int)
    requires x > 0.0 && q > 0.0 && r == q.Floor
    requires 9007199254740991.0 * x <= 9007199254740992.0 * h <= 9007199254740993.0 * x
    requires 9007199254740991.0 * y <= 9007199254740992.0 * h <= 9007199254740993.0 * y
    requires 9007199254740991.0 * y <= 9007199254740992.0 * q <= 9007199254740993.0 * y
    ensures Near(x, r)
  {
  }

  lemma CloseToOnes(x: real, h: real, z: real, d: real)
    requires x > 0.0 && h > 0.0 && z * h == 18446744073709551616.0 && d <= 1.0
    requires 9007199254740992.0 * h <= 9007199254740993.0 * x
    requires 9007199254740991.0 * z <= 9007199254740992.0 * d
    ensures 2251799813685248.0 * (18446744073709551615.0 - x) <= x
  {
    Product(9007199254740991.0 * z, 9007199254740992.0, h);
    assert 9007199254740991.0 * z * h == 9007199254740991.0 * (z * h);
  }

  // ---- where the rounding bites ----

  /** A high word of 64 significant bits: 2^63 + 1 comes back as another. */
  lemma LongWordIsLost(target: Hash256)
    requires LeNat(target[24..]) == 0x8000_0000_0000_0001
    ensures HighTarget(HighOf(DifficultyOf(target))) != target
  {
    LongDoesNotFit();
    RoundTripFails(target);
  }

  lemma LongDoesNotFit()
    ensures !Fits(0x8000_0000_0000_0001)
  {
    var y := 4503599627370496.00048828125;
    Pow2Values();
    assert Pow2(11) == 2048;
    RoundScaled(y, 11, 2048.0, 9223372036854775809.0);
    Shifted(Round(y), 11, 2048.0, 9223372036854775808.0);
  }

  /** And one that fits easily: 93 comes back as 92, because both quotients are rounded. */
  lemma NinetyThreeBecomesNinetyTwo()
    ensures Fits(93) && Trip(93) == 92
  {
    WholeFits(93);
    QuotientOf93();
    QuotientBack();
  }

  lemma SmallWordIsLost(target: Hash256)
    requires target == HighTarget(93)
    ensures HighTarget(HighOf(DifficultyOf(target))) == HighTarget(92) != target
  {
    HighTargetValue(93);
    HighTargetValue(92);
    NinetyThreeBecomesNinetyTwo();
  }

  lemma QuotientOf93()
    ensures Quotient(93.0) == 198352086814081216.0
  {
    var x := Over(93.0);
    var y := x / 32.0;
    Pow2Values();
    assert Pow2(5) == 32;
    RoundScaled(y, 5, 32.0, x);
    assert Nearest(y) == 6198502712940038;
    Shifted(Round(y), 5, 32.0, 198352086814081216.0);
  }

  lemma QuotientBack()
    ensures Quotient(198352086814081216.0).Floor == 92
  {
    var x := Over(198352086814081216.0);
    var y := x * 70368744177664.0;
    Pow46();
    RoundScaled(x, 46, 70368744177664.0, y);
    RoundsTo(y);
    ShiftIs(Round(x), 46, 70368744177664.0);
    FloorOf(Round(x));
  }

  lemma RoundsTo(y: real)
    requires y * 198352086814081216.0 == 18446744073709551616.0 * 70368744177664.0
    ensures y > 0.0 && Round(y) == 6544293208522751.0
  {
    assert Nearest(y) == 6544293208522751;
  }

  lemma FloorOf(q: real)
    requires q * 70368744177664.0 == 6544293208522751.0
    ensures q.Floor == 92
  {
  }

  lemma Pow46()
    ensures Pow2(46) == 70368744177664
  {
    Pow2Values();
    assert Pow2(6) == 64;
    Pow2Add(6, 8);
    Pow2Add(14, 32);
  }
}
