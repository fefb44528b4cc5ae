/**
  Target arithmetic, as in src/pow/target.cpp: 256-bit little-endian targets, their
  comparison, and the target of a difficulty.  Difficulties are exact reals here.
 */
module Target {
  import opened Arith
  import opened Bytes
  import opened Jobs

  // ---- comparison ----

  /** The byte-wise comparison from the most significant end decides the numeric order. */
  method MeetsTarget(hash: Hash256, target: Hash256) returns (r: bool)
    ensures r <==> LeNat(hash) <= LeNat(target)
  {
    var i := 31;
    while i >= 0
      invariant -1 <= i < 32
      invariant forall j :: i < j < 32 ==> hash[j] == target[j]
    {
      if hash[i] != target[i] {
        assert hash[i + 1..] == target[i + 1..];
        Decided(hash, target, i);
      }
      if hash[i] < target[i] {
        return true;
      }
      if hash[i] > target[i] {
        return false;
      }
      i := i - 1;
    }
    assert hash == target;
    return true;
  }

  lemma Decided(a: Hash256, b: Hash256, i: nat)
    requires i < 32 && a[i + 1..] == b[i + 1..] && a[i] != b[i]
    ensures LeNat(a) < LeNat(b) <==> a[i] < b[i]
    ensures LeNat(a) != LeNat(b)
  {
    if a[i] < b[i] {
      LeNatCompare(a, b, i);
    } else {
      LeNatCompare(b, a, i);
    }
  }

  // ---- placing a number at a byte offset ----

  lemma PlacedValue(a: nat, s: seq<Byte>, b: nat)
    ensures LeNat(Zeros(a) + s + Zeros(b)) == Pow256(a) * LeNat(s)
  {
    LeNatConcat(Zeros(a) + s, Zeros(b));
    LeNatConcat(Zeros(a), s);
    LeNatZeros(a);
    LeNatZeros(b);
    assert Pow256(|Zeros(a) + s|) * 0 == 0;
  }

  /** `put_word`: four little-endian bytes at word index `word`. */
  method PutWord(t: array<Byte>, word: nat, v: nat)
    requires 4 * word + 4 <= t.Length
    modifies t
    ensures t[..] == old(t[..4 * word]) + ToLe(v, 4) + old(t[4 * word + 4..])
  {
    t[4 * word] := ByteAt(v, 0);
    t[4 * word + 1] := ByteAt(v, 1);
    t[4 * word + 2] := ByteAt(v, 2);
    t[4 * word + 3] := ByteAt(v, 3);
    ToLeAt(v, 4, 0);
    ToLeAt(v, 4, 1);
    ToLeAt(v, 4, 2);
    ToLeAt(v, 4, 3);
  }

  // ---- difficulty to target ----

  const BASE: nat := 0xffff_0000

  /** The exact target of a positive difficulty, 0xffff0000 * 2^(32 top) / diff; `top` is 6 in the source. */
  function Ideal(diff: real, top: nat): real
    requires diff > 0.0
  {
    4294901760.0 * Pow256(4 * top) as real / diff
  }

  /** The word index of an ideal target: 0xffff0000 * 2^(32 k) is at most it, and not for k + 1. */
  predicate IsLevel(e: real, k: nat) {
    && k <= 6
    && (k > 0 ==> e >= (BASE * Pow256(4 * k)) as real)
    && (k < 6 ==> e < (BASE * Pow256(4 * (k + 1))) as real)
  }

  /** `v` is `e` rounded down to a multiple of `unit`. */
  predicate RoundsDown(e: real, v: nat, unit: nat) {
    unit > 0 && v % unit == 0 && v as real <= e < (v + unit) as real
  }

  /** `v` is the number that the target of a positive difficulty encodes. */
  ghost predicate IsDifficultyTarget(diff: real, v: nat) {
    diff > 0.0 && exists k: nat :: IsLevel(Ideal(diff, 6), k) && RoundsDown(Ideal(diff, 6), v, Pow256(4 * k))
  }

  /** The source's conversion to `uint64_t` is defined exactly for these difficulties. */
  predicate Convertible(diff: real) {
    diff <= 0.0 || diff * 18446744073709551616.0 > 4294901760.0
  }

  method TargetFromDifficulty(diff: real) returns (t: Hash256)
    requires Convertible(diff)
    ensures IsTargetValue(diff, LeNat(t))
  {
    if diff <= 0.0 {
      t := seq(32, _ => 255);
      AllOnes(32);
      return;
    }
    var d, k, r := ScaleDown(diff, 6);
    var m := (4294901760.0 / d).Floor;
    ghost var q := QuotientOf(d);
    QuotientFacts(q, d);
    if m == 0 && k == 6 {
      // d is at most 1 here, so m is at least 0xffff0000
      assert false;
    }
    t := PlaceWords(k, m);
    SameIdeal(diff, d, k, q, r, 6);
    Encodes(Ideal(diff, 6), q, k, m, LeNat(t));
  }

  /** The scaling loop: divide by 2^32, and step down a word, while the value exceeds 1. */
  method ScaleDown(diff: real, top: nat) returns (d: real, k: nat, ghost r: real)
    requires diff > 0.0 && diff * 18446744073709551616.0 > 4294901760.0
    ensures k <= top && d > 0.0 && d * 18446744073709551616.0 > 4294901760.0
    ensures d * r == diff && r == Pow256(4 * (top - k)) as real
    ensures (k > 0 ==> d <= 1.0) && (k < top ==> d * 4294967296.0 > 1.0)
  {
    d, k, r := diff, top, 1.0;
    while k > 0 && d > 1.0
      invariant k <= top && d > 0.0 && d * 18446744073709551616.0 > 4294901760.0
      invariant d * r == diff && r == Pow256(4 * (top - k)) as real
      invariant k < top ==> d * 4294967296.0 > 1.0
      decreases k
    {
      ScaleStep(d, r, diff);
      WordUp(top - k);
      d, k, r := d / 4294967296.0, k - 1, r * 4294967296.0;
    }
  }

  lemma ScaleStep(d: real, r: real, diff: real)
    requires d > 1.0 && d * r == diff
    ensures var f := d / 4294967296.0;
            && f * (r * 4294967296.0) == diff
            && f > 0.0 && f * 4294967296.0 > 1.0 && f * 18446744073709551616.0 > 4294901760.0
  {
  }

  lemma WordUp(k: nat)
    ensures Pow256(4 * (k + 1)) as real == Pow256(4 * k) as real * 4294967296.0
  {
    Pow256Add(4 * k, 4);
    Pow256Values();
  }

  /** The unscaled quotient `q` at word `k` is the ideal target. */
  lemma SameIdeal(diff: real, d: real, k: nat, q: real, r: real, top: nat)
    requires k <= top && d > 0.0 && d * r == diff > 0.0 && r == Pow256(4 * (top - k)) as real
    requires q * d == 4294901760.0
    ensures q * Pow256(4 * k) as real == Ideal(diff, top)
  {
    var p, w := SplitPow(k, r, top);
    var e := IdealOf(diff, top, w);
    SameCore(q, d, p, r, 4294901760.0, diff, e, w);
  }

  lemma SplitPow(k: nat, r: real, top: nat) returns (p: real, w: real)
    requires k <= top && r == Pow256(4 * (top - k)) as real
    ensures p == Pow256(4 * k) as real && w == Pow256(4 * top) as real && p * r == w
  {
    p, w := Pow256(4 * k) as real, Pow256(4 * top) as real;
    RealPow(4 * k, 4 * (top - k));
    assert 4 * k + 4 * (top - k) == 4 * top;
  }

  lemma IdealOf(diff: real, top: nat, w: real) returns (e: real)
    requires diff > 0.0 && w == Pow256(4 * top) as real
    ensures e == Ideal(diff, top) && e * diff == 4294901760.0 * w
  {
    e := Ideal(diff, top);
  }

  lemma RealPow(a: nat, b: nat)
    ensures Pow256(a + b) as real == Pow256(a) as real * Pow256(b) as real
  {
    Pow256Add(a, b);
  }

  lemma SameCore(q: real, d: real, p: real, r: real, b: real, diff: real, e: real, w: real)
    requires q * d == b && d * r == diff > 0.0 && p * r == w && e * diff == b * w
    ensures q * p == e
  {
    assert (q * p) * (d * r) == (q * d) * (p * r);
    Cancel(q * p, e, diff);
  }

  lemma Cancel(x: real, y: real, d: real)
    requires d > 0.0 && x * d == y * d
    ensures x == y
  {
    if x < y {
      RealMonoStrict(x, y, d);
    } else if y < x {
      RealMonoStrict(y, x, d);
    }
  }

  lemma RealMono(a: real, b: real, c: real)
    requires a <= b && c >= 0.0
    ensures a * c <= b * c
  {
  }

  lemma RealMonoStrict(a: real, b: real, c: real)
    requires a < b && c > 0.0
    ensures a * c < b * c
  {
  }

  lemma QuotientOf(d: real) returns (q: real)
    requires d > 0.0
    ensures q == 4294901760.0 / d && q * d == 4294901760.0
  {
    q := 4294901760.0 / d;
  }

  lemma QuotientFacts(q: real, d: real)
    requires d > 0.0 && d * 18446744073709551616.0 > 4294901760.0 && q * d == 4294901760.0
    ensures 0 <= q.Floor < TWO64
    ensures d <= 1.0 ==> q >= 4294901760.0
    ensures d * 4294967296.0 > 1.0 ==> q < 18446462598732840960.0
  {
    Below(0.0, q, d, 4294901760.0);
    Above(q, 18446744073709551616.0, d, 4294901760.0);
    if d <= 1.0 {
      AtLeast(q, d, 4294901760.0);
    }
    if d * 4294967296.0 > 1.0 {
      Above(q, 18446462598732840960.0, d, 4294901760.0);
    }
  }

  lemma AtLeast(q: real, d: real, b: real)
    requires 0.0 < d <= 1.0 && q > 0.0 && q * d == b
    ensures q >= b
  {
    RealMono(d, 1.0, q);
  }

  lemma Below(x: real, q: real, d: real, b: real)
    requires d > 0.0 && q * d == b && x * d < b
    ensures x < q
  {
    if q <= x {
      RealMono(q, x, d);
    }
  }

  lemma Above(q: real, x: real, d: real, b: real)
    requires d > 0.0 && q * d == b && x * d > b
    ensures q < x
  {
    if x <= q {
      RealMono(x, q, d);
    }
  }

  /** The whole part of the quotient, placed at word `k`, rounds the ideal target down. */
  lemma Encodes(e: real, q: real, k: nat, m: nat, v: nat)
    requires k <= 6 && q * Pow256(4 * k) as real == e && m == q.Floor && v == m * Pow256(4 * k)
    requires (k > 0 ==> q >= 4294901760.0) && (k < 6 ==> q < 18446462598732840960.0)
    ensures IsLevel(e, k) && RoundsDown(e, v, Pow256(4 * k))
  {
    EncodesRounded(e, q, Pow256(4 * k), m);
    if k > 0 {
      RealMono(4294901760.0, q, Pow256(4 * k) as real);
    }
    if k < 6 {
      NextLevel(k);
      RealMonoStrict(q, 18446462598732840960.0, Pow256(4 * k) as real);
    }
  }

  lemma NextLevel(k: nat)
    ensures BASE * Pow256(4 * (k + 1)) == BASE * TWO32 * Pow256(4 * k)
  {
    Pow256Add(4 * k, 4);
    Pow256Values();
    MulAssoc(BASE, TWO32, Pow256(4 * k));
  }

  lemma EncodesRounded(e: real, q: real, p: nat, m: nat)
    requires p > 0 && q * p as real == e && m == q.Floor
    ensures RoundsDown(e, m * p, p)
  {
    AsReal(m, p);
    RoundCore(e, q, p as real, m as real);
    DivUnique(m * p, p, m, 0);
  }

  lemma RoundCore(e: real, q: real, p: real, m: real)
    requires p > 0.0 && q * p == e && m <= q < m + 1.0
    ensures m * p <= e < m * p + p
  {
    RoundLow(e, q, p, m);
    RoundHigh(e, q, p, m);
  }

  lemma RoundLow(e: real, q: real, p: real, m: real)
    requires p > 0.0 && q * p == e && m <= q
    ensures m * p <= e
  {
    RealMono(m, q, p);
  }

  lemma RoundHigh(e: real, q: real, p: real, m: real)
    requires p > 0.0 && q * p == e && q < m + 1.0
    ensures e < m * p + p
  {
    RealMonoStrict(q, m + 1.0, p);
  }

  lemma AsReal(a: nat, b: nat)
    ensures (a * b) as real == a as real * b as real
  {
  }

  /** A 64-bit number as two adjacent little-endian words of an otherwise zero target. */
  method PlaceWords(k: nat, m: nat) returns (t: Hash256)
    requires k <= 6 && m < TWO64
    ensures LeNat(t) == m * Pow256(4 * k)
  {
    var a := new Byte[32](_ => 0);
    ghost var lo, hi := ToLe(m % TWO32, 4), ToLe(m / TWO32, 4);
    PutWord(a, k, m % TWO32);
    assert a[..] == Zeros(4 * k) + lo + Zeros(28 - 4 * k);
    PutWord(a, k + 1, m / TWO32);
    t := a[..];
    assert t == Zeros(4 * k) + (lo + hi) + Zeros(24 - 4 * k);
    PlacedValue(4 * k, lo + hi, 24 - 4 * k);
    TwoWords(m);
  }

  lemma TwoWords(m: nat)
    requires m < TWO64
    ensures LeNat(ToLe(m % TWO32, 4) + ToLe(m / TWO32, 4)) == m
  {
    var lo, hi := m % TWO32, m / TWO32;
    Pow256Values();
    LeNatToLeExact(lo, 4);
    LeNatToLeExact(hi, 4);
    LeNatConcat(ToLe(lo, 4), ToLe(hi, 4));
  }

  lemma {:induction false} AllOnes(n: nat)
    ensures LeNat(seq(n, _ => 255 as Byte)) == Pow256(n) - 1
  {
    if n != 0 {
      AllOnes(n - 1);
      assert seq(n, _ => 255 as Byte)[1..] == seq(n - 1, _ => 255 as Byte);
    }
  }

  // ---- what the difficulty target means ----

  /**
    The encoded target is at most 0xffff0000 * 2^192 / diff and, up to difficulty 2^192,
    short of it by less than one part in 0xffff0000.
   */
  lemma DifficultyBracket(diff: real, v: nat)
    requires diff > 0.0 && IsDifficultyTarget(diff, v)
    ensures v as real <= Ideal(diff, 6)
    ensures diff <= Pow256(24) as real ==> 4294901760.0 * v as real > 4294901759.0 * Ideal(diff, 6)
  {
    var e := Ideal(diff, 6);
    var k: nat :| IsLevel(e, k) && RoundsDown(e, v, Pow256(4 * k));
    BracketAt(e, k, v);
    if diff <= Pow256(24) as real {
      IdealLarge(diff, 6);
    }
  }

  /**
    In full: the target is the multiple of 2^(32 k) next below 0xffff0000 * 2^192 / diff, where
    `k` is 6 for difficulties up to 1 and falls by one with each factor of 2^32, to 0 at the last.
   */
  lemma TargetLaw(diff: real, v: nat, w: real) returns (k: nat)
    requires diff > 0.0 && IsDifficultyTarget(diff, v) && w == Pow256(24) as real
    ensures k <= 6 && v % Pow256(4 * k) == 0
    ensures v as real * diff <= 4294901760.0 * w < (v + Pow256(4 * k)) as real * diff
    ensures k > 0 ==> Pow256(4 * k) as real * diff <= w
    ensures k < 6 ==> Pow256(4 * (k + 1)) as real * diff > w
  {
    var e := Ideal(diff, 6);
    k :| IsLevel(e, k) && RoundsDown(e, v, Pow256(4 * k));
    TimesDifficulty(diff, 6, e, w);
    TargetLawAt(e, diff, v, k, w);
  }

  lemma TimesDifficulty(diff: real, top: nat, e: real, w: real)
    requires diff > 0.0 && e == Ideal(diff, top) && w == Pow256(4 * top) as real
    ensures e * diff == 4294901760.0 * w
  {
    IdealTimes(diff, top);
  }

  lemma TargetLawAt(e: real, diff: real, v: nat, k: nat, w: real)
    requires diff > 0.0 && e * diff == 4294901760.0 * w && IsLevel(e, k) && RoundsDown(e, v, Pow256(4 * k))
    ensures v as real * diff <= 4294901760.0 * w < (v + Pow256(4 * k)) as real * diff
    ensures k > 0 ==> Pow256(4 * k) as real * diff <= w
    ensures k < 6 ==> Pow256(4 * (k + 1)) as real * diff > w
  {
    TargetBracket(e, diff, v, Pow256(4 * k), w);
    if k > 0 {
      LevelLow(e, diff, Pow256(4 * k), w);
    }
    if k < 6 {
      LevelHigh(e, diff, Pow256(4 * (k + 1)), w);
    }
  }

  lemma TargetBracket(e: real, diff: real, v: nat, unit: nat, w: real)
    requires diff > 0.0 && e * diff == 4294901760.0 * w && v as real <= e < (v + unit) as real
    ensures v as real * diff <= 4294901760.0 * w < (v + unit) as real * diff
  {
    RealMono(v as real, e, diff);
    RealMonoStrict(e, (v + unit) as real, diff);
  }

  lemma LevelLow(e: real, diff: real, u: nat, w: real)
    requires diff > 0.0 && e * diff == 4294901760.0 * w && e >= (BASE * u) as real
    ensures u as real * diff <= w
  {
    AsReal(BASE, u);
    RealMono((BASE * u) as real, e, diff);
    assert 4294901760.0 * u as real * diff == 4294901760.0 * (u as real * diff);
  }

  lemma LevelHigh(e: real, diff: real, u: nat, w: real)
    requires diff > 0.0 && e * diff == 4294901760.0 * w && e < (BASE * u) as real
    ensures u as real * diff > w
  {
    AsReal(BASE, u);
    RealMonoStrict(e, (BASE * u) as real, diff);
    assert 4294901760.0 * u as real * diff == 4294901760.0 * (u as real * diff);
  }

  lemma BracketAt(e: real, k: nat, v: nat)
    requires IsLevel(e, k) && RoundsDown(e, v, Pow256(4 * k))
    ensures v as real <= e
    ensures e >= 4294901760.0 ==> 4294901760.0 * v as real > 4294901759.0 * e
  {
    if e >= 4294901760.0 {
      AsReal(BASE, Pow256(4 * k));
      RelativeError(4294901760.0, v as real, e, Pow256(4 * k) as real);
    }
  }

  lemma RelativeError(b: real, v: real, e: real, u: real)
    requires b > 0.0 && e >= b * u && v > e - u
    ensures b * v > (b - 1.0) * e
  {
    RealMonoStrict(e - u, v, b);
  }

  lemma IdealTimes(diff: real, top: nat)
    requires diff > 0.0
    ensures Ideal(diff, top) * diff == 4294901760.0 * Pow256(4 * top) as real
  {
  }

  lemma IdealLarge(diff: real, top: nat)
    requires 0.0 < diff <= Pow256(4 * top) as real
    ensures Ideal(diff, top) >= 4294901760.0
  {
    IdealTimes(diff, top);
    RatioLarge(Ideal(diff, top), diff, 4294901760.0, Pow256(4 * top) as real);
  }

  lemma RatioLarge(e: real, d: real, b: real, r: real)
    requires b > 0.0 && 0.0 < d <= r && e * d == b * r
    ensures e >= b
  {
    RealMono(d, r, b);
    if e < b {
      RealMonoStrict(e, b, d);
    }
  }

  lemma IdealAntitone(diff1: real, diff2: real, top: nat)
    requires 0.0 < diff1 <= diff2
    ensures Ideal(diff1, top) >= Ideal(diff2, top) > 0.0
  {
    var n := 4294901760.0 * Pow256(4 * top) as real;
    IdealTimes(diff1, top);
    IdealTimes(diff2, top);
    Below(0.0, Ideal(diff2, top), diff2, n);
    RatioAntitone(Ideal(diff1, top), Ideal(diff2, top), diff1, diff2, n);
  }

  lemma RatioAntitone(e1: real, e2: real, d1: real, d2: real, n: real)
    requires 0.0 < d1 <= d2 && e2 > 0.0 && e1 * d1 == n && e2 * d2 == n
    ensures e1 >= e2
  {
    RealMono(d1, d2, e2);
    if e1 < e2 {
      RealMonoStrict(e1, e2, d1);
    }
  }

  lemma PowMono(a: nat, b: nat)
    requires a <= b
    ensures Pow256(a) <= Pow256(b)
  {
    Pow256Add(a, b - a);
    MulMono(1, Pow256(b - a), Pow256(a));
  }

  lemma LevelMono(e1: real, k1: nat, e2: real, k2: nat)
    requires e1 >= e2 && IsLevel(e1, k1) && IsLevel(e2, k2)
    ensures k1 >= k2
    ensures k1 > k2 ==> e2 < (BASE * Pow256(4 * k1)) as real <= e1
  {
    if k1 < k2 {
      PowMono(4 * (k1 + 1), 4 * k2);
    } else if k2 < k1 {
      PowMono(4 * (k2 + 1), 4 * k1);
    }
  }

  /** Rounding down to one unit is monotone, and keeps every multiple of it that it passes. */
  lemma RoundsDownMono(e: real, v: nat, unit: nat, w: nat)
    requires RoundsDown(e, v, unit) && w % unit == 0 && w as real <= e
    ensures w <= v
  {
    DivBounds(v, unit);
    DivBounds(w, unit);
    if w > v {
      if w / unit <= v / unit {
        MulMono(w / unit, v / unit, unit);
      } else {
        MulMono(v / unit + 1, w / unit, unit);
        MulDistrib(v / unit, 1, unit);
      }
      assert false;
    }
  }

  lemma RoundsDownTo(e: real, v: nat, unit: nat, b: nat)
    requires RoundsDown(e, v, unit) && (b * unit) as real <= e
    ensures b * unit <= v
  {
    DivUnique(b * unit, unit, b, 0);
    RoundsDownMono(e, v, unit, b * unit);
  }

  /** A higher difficulty never has a higher target, across every change of word index. */
  lemma DifficultyAntitone(diff1: real, v1: nat, diff2: real, v2: nat)
    requires 0.0 < diff1 <= diff2 && IsDifficultyTarget(diff1, v1) && IsDifficultyTarget(diff2, v2)
    ensures v1 >= v2
  {
    var e1, e2 := Ideal(diff1, 6), Ideal(diff2, 6);
    IdealAntitone(diff1, diff2, 6);
    var k1: nat :| IsLevel(e1, k1) && RoundsDown(e1, v1, Pow256(4 * k1));
    var k2: nat :| IsLevel(e2, k2) && RoundsDown(e2, v2, Pow256(4 * k2));
    AntitoneAt(e1, k1, v1, e2, k2, v2);
  }

  lemma AntitoneAt(e1: real, k1: nat, v1: nat, e2: real, k2: nat, v2: nat)
    requires e1 >= e2 && IsLevel(e1, k1) && IsLevel(e2, k2)
    requires RoundsDown(e1, v1, Pow256(4 * k1)) && RoundsDown(e2, v2, Pow256(4 * k2))
    ensures v1 >= v2
  {
    LevelMono(e1, k1, e2, k2);
    if k1 == k2 {
      RoundsDownMono(e1, v1, Pow256(4 * k1), v2);
    } else {
      RoundsDownTo(e1, v1, Pow256(4 * k1), BASE);
    }
  }

  /** `v` is the number that `TargetFromDifficulty` encodes; there is only one. */
  ghost predicate IsTargetValue(diff: real, v: nat) {
    if diff <= 0.0 then v == Pow256(32) - 1 else IsDifficultyTarget(diff, v)
  }

  lemma TargetValueUnique(diff: real, v: nat, w: nat)
    requires IsTargetValue(diff, v) && IsTargetValue(diff, w)
    ensures v == w
  {
    if diff > 0.0 {
      DifficultyAntitone(diff, v, diff, w);
      DifficultyAntitone(diff, w, diff, v);
    }
  }

  /** A hash accepted at one difficulty is accepted at every lower one, non-positive ones included. */
  lemma AcceptedAtLower(hash: Hash256, diff1: real, v1: nat, diff2: real, v2: nat)
    requires diff1 <= diff2 && IsTargetValue(diff1, v1) && IsTargetValue(diff2, v2)
    requires LeNat(hash) <= v2
    ensures LeNat(hash) <= v1
  {
    if diff1 <= 0.0 {
      LeNatBound(hash);
    } else {
      DifficultyAntitone(diff1, v1, diff2, v2);
    }
  }
}
