/**
  The constants of SHA-256, from their definition in sections 4.2.2 and 5.3.3 of FIPS 180-4:
  the fractional parts of the cube roots of the first 64 primes and of the square roots of the
  first eight.
 */
module ShaConstants {
  import opened Arith
  import opened Fips180

  // ---- the first primes ----

  predicate IsPrime(p: nat) {
    p >= 2 && forall d :: 2 <= d < p ==> p % d != 0
  }

  ghost predicate NoPrimeBetween(a: nat, b: nat) {
    forall n: nat :: a < n < b ==> !IsPrime(n)
  }

  /** `p` is prime number `t`, counting 2 as number 0. */
  ghost predicate IsNthPrime(p: nat, t: nat)
    decreases t
  {
    && IsPrime(p)
    && if t == 0 then NoPrimeBetween(0, p) else exists q: nat :: IsNthPrime(q, t - 1) && q < p && NoPrimeBetween(q, p)
  }

  const P0: seq<nat> := [2, 3, 5, 7, 11, 13, 17, 19]
  const P1: seq<nat> := [23, 29, 31, 37, 41, 43, 47, 53]
  const P2: seq<nat> := [59, 61, 67, 71, 73, 79, 83, 89]
  const P3: seq<nat> := [97, 101, 103, 107, 109, 113, 127, 131]
  const P4: seq<nat> := [137, 139, 149, 151, 157, 163, 167, 173]
  const P5: seq<nat> := [179, 181, 191, 193, 197, 199, 211, 223]
  const P6: seq<nat> := [227, 229, 233, 239, 241, 251, 257, 263]
  const P7: seq<nat> := [269, 271, 277, 281, 283, 293, 307, 311]

  /** The first 64 primes, in eight rows. */
  function PrimeAt(t: nat): nat
    requires t < 64
  {
    PrimeRows();
    if t < 8 then P0[t]
    else if t < 16 then P1[t - 8]
    else if t < 24 then P2[t - 16]
    else if t < 32 then P3[t - 24]
    else if t < 40 then P4[t - 32]
    else if t < 48 then P5[t - 40]
    else if t < 56 then P6[t - 48]
    else P7[t - 56]
  }

  lemma PrimeRows()
    ensures |P0| == 8 && |P1| == 8 && |P2| == 8 && |P3| == 8 && |P4| == 8 && |P5| == 8 && |P6| == 8 && |P7| == 8
  {
  }

  lemma ConstantRows()
    ensures |K0| == 8 && |K1| == 8 && |K2| == 8 && |K3| == 8 && |K4| == 8 && |K5| == 8 && |K6| == 8 && |K7| == 8
  {
  }

  /** The round constants, in the same rows. */
  function KAt(t: nat): Word
    requires t < 64
  {
    ConstantRows();
    if t < 8 then K0[t]
    else if t < 16 then K1[t - 8]
    else if t < 24 then K2[t - 16]
    else if t < 32 then K3[t - 24]
    else if t < 40 then K4[t - 32]
    else if t < 48 then K5[t - 40]
    else if t < 56 then K6[t - 48]
    else K7[t - 56]
  }

  lemma KIsInRows(t: nat)
    requires t < 64
    ensures |K| == 64 && K[t] == KAt(t)
  {
    ConstantRows();
  }

  predicate HasSmallFactor(n: nat) {
    || (n > 2 && n % 2 == 0) || (n > 3 && n % 3 == 0) || (n > 5 && n % 5 == 0) || (n > 7 && n % 7 == 0)
    || (n > 11 && n % 11 == 0) || (n > 13 && n % 13 == 0) || (n > 17 && n % 17 == 0)
  }

  lemma SmallFactorIsComposite(n: nat)
    requires HasSmallFactor(n)
    ensures !IsPrime(n)
  {
    var d :| 2 <= d < n && n % d == 0;
  }

  /** Below 19^2 a composite number has a divisor of at most 18. */
  lemma NoSmallFactorIsPrime(p: nat)
    requires 2 <= p < 361 && !HasSmallFactor(p)
    ensures IsPrime(p)
  {
    forall d | 2 <= d < p
      ensures p % d != 0
    {
      if p % d == 0 {
        var q := p / d;
        DivBounds(p, d);
        Smaller(p, q, d);
      }
    }
  }

  lemma Smaller(p: nat, q: nat, d: nat)
    requires p == q * d && 2 <= d < p < 361
    ensures HasSmallFactor(p)
  {
    if d <= 18 {
      SmallDivisor(p, q, d);
    } else {
      if q >= 19 {
        MulMono(19, q, d);
      }
      if q <= 1 {
        MulMono(q, 1, d);
      }
      SmallDivisor(p, d, q);
    }
  }

  lemma SmallDivisor(p: nat, q: nat, d: nat)
    requires p == q * d && 2 <= d <= 18 && d < p
    ensures HasSmallFactor(p)
  {
    forall e | e in {2, 3, 5, 7, 11, 13, 17} && d % e == 0
      ensures p % e == 0
    {
      Multiple(p, q, d, e);
    }
  }

  lemma Multiple(p: nat, q: nat, d: nat, e: nat)
    requires p == q * d && e > 0 && d % e == 0
    ensures p % e == 0
  {
    DivBounds(d, e);
    MulAssoc(q, d / e, e);
    DivUnique(p, e, q * (d / e), 0);
  }

  predicate AllHaveFactors(p: nat, q: nat)
    decreases q - p
  {
    p + 1 < q ==> HasSmallFactor(p + 1) && AllHaveFactors(p + 1, q)
  }

  /** `q` is the next prime after `p`, as small factors tell. */
  predicate Next(p: nat, q: nat) {
    p < q < 361 && !HasSmallFactor(q) && AllHaveFactors(p, q)
  }

  lemma {:induction false} FactorsBetween(p: nat, q: nat, n: nat)
    requires AllHaveFactors(p, q) && p < n < q
    ensures HasSmallFactor(n)
    decreases q - p
  {
    if n != p + 1 {
      FactorsBetween(p + 1, q, n);
    }
  }

  lemma NextIsPrime(p: nat, q: nat)
    requires p >= 1 && Next(p, q)
    ensures IsPrime(q) && NoPrimeBetween(p, q)
  {
    NoSmallFactorIsPrime(q);
    forall n: nat | p < n < q
      ensures !IsPrime(n)
    {
      FactorsBetween(p, q, n);
      SmallFactorIsComposite(n);
    }
  }

  // ---- the roots ----

  function Cube(x: nat): nat { x * x * x }
  function Square(x: nat): nat { x * x }

  /** `k` is the first 32 bits of the fractional part of the cube root of `p`; `n` is the whole part. */
  predicate CubeRootBits(k: nat, p: nat, n: nat) {
    k < 0x1_0000_0000 &&
    Cube(n * 0x1_0000_0000 + k) <= p * 0x1_0000_0000_0000_0000_0000_0000 < Cube(n * 0x1_0000_0000 + k + 1)
  }

  predicate SquareRootBits(k: nat, p: nat, n: nat) {
    k < 0x1_0000_0000 &&
    Square(n * 0x1_0000_0000 + k) <= p * 0x1_0000_0000_0000_0000 < Square(n * 0x1_0000_0000 + k + 1)
  }

  /** Constant `t` belongs to prime `t`: it is the root of that prime, the next after prime `t - 1`. */
  ghost predicate ConstantAt(t: nat)
    requires t < 64
  {
    && (if t == 0 then PrimeAt(t) == 2 else Next(PrimeAt(t - 1), PrimeAt(t)))
    && exists n: nat :: CubeRootBits(KAt(t), PrimeAt(t), n)
  }

  /** `q` is prime `t`, `p` the one before, `k` its constant and `n` the whole part of its cube root. */
  lemma Entry(t: nat, p: nat, q: nat, k: nat, n: nat)
    requires t < 64 && PrimeAt(t) == q && KAt(t) == k
    requires if t == 0 then q == 2 else PrimeAt(t - 1) == p && Next(p, q)
    requires CubeRootBits(k, q, n)
    ensures ConstantAt(t)
  {
  }

  lemma Row0(t: nat)
    requires 0 <= t < 4
    ensures ConstantAt(t)
  {
    Entry(0, 1, 2, 0x428a2f98, 1);
    Entry(1, 2, 3, 0x71374491, 1);
    Entry(2, 3, 5, 0xb5c0fbcf, 1);
    Entry(3, 5, 7, 0xe9b5dba5, 1);
  }

  lemma Row4(t: nat)
    requires 4 <= t < 8
    ensures ConstantAt(t)
  {
    Entry(4, 7, 11, 0x3956c25b, 2);
    Entry(5, 11, 13, 0x59f111f1, 2);
    Entry(6, 13, 17, 0x923f82a4, 2);
    Entry(7, 17, 19, 0xab1c5ed5, 2);
  }

  lemma Row8(t: nat)
    requires 8 <= t < 12
    ensures ConstantAt(t)
  {
    Entry(8, 19, 23, 0xd807aa98, 2);
    Entry(9, 23, 29, 0x12835b01, 3);
    Entry(10, 29, 31, 0x243185be, 3);
    Entry(11, 31, 37, 0x550c7dc3, 3);
  }

  lemma Row12(t: nat)
    requires 12 <= t < 16
    ensures ConstantAt(t)
  {
    Entry(12, 37, 41, 0x72be5d74, 3);
    Entry(13, 41, 43, 0x80deb1fe, 3);
    Entry(14, 43, 47, 0x9bdc06a7, 3);
    Entry(15, 47, 53, 0xc19bf174, 3);
  }

  lemma Row16(t: nat)
    requires 16 <= t < 20
    ensures ConstantAt(t)
  {
    Entry(16, 53, 59, 0xe49b69c1, 3);
    Entry(17, 59, 61, 0xefbe4786, 3);
    Entry(18, 61, 67, 0x0fc19dc6, 4);
    Entry(19, 67, 71, 0x240ca1cc, 4);
  }

  lemma Row20(t: nat)
    requires 20 <= t < 24
    ensures ConstantAt(t)
  {
    Entry(20, 71, 73, 0x2de92c6f, 4);
    Entry(21, 73, 79, 0x4a7484aa, 4);
    Entry(22, 79, 83, 0x5cb0a9dc, 4);
    Entry(23, 83, 89, 0x76f988da, 4);
  }

  lemma Row24(t: nat)
    requires 24 <= t < 28
    ensures ConstantAt(t)
  {
    Entry(24, 89, 97, 0x983e5152, 4);
    Entry(25, 97, 101, 0xa831c66d, 4);
    Entry(26, 101, 103, 0xb00327c8, 4);
    Entry(27, 103, 107, 0xbf597fc7, 4);
  }

  lemma Row28(t: nat)
    requires 28 <= t < 32
    ensures ConstantAt(t)
  {
    Entry(28, 107, 109, 0xc6e00bf3, 4);
    Entry(29, 109, 113, 0xd5a79147, 4);
    Entry(30, 113, 127, 0x06ca6351, 5);
    Entry(31, 127, 131, 0x14292967, 5);
  }

  lemma Row32(t: nat)
    requires 32 <= t < 36
    ensures ConstantAt(t)
  {
    Entry(32, 131, 137, 0x27b70a85, 5);
    Entry(33, 137, 139, 0x2e1b2138, 5);
    Entry(34, 139, 149, 0x4d2c6dfc, 5);
    Entry(35, 149, 151, 0x53380d13, 5);
  }

  lemma Row36(t: nat)
    requires 36 <= t < 40
    ensures ConstantAt(t)
  {
    Entry(36, 151, 157, 0x650a7354, 5);
    Entry(37, 157, 163, 0x766a0abb, 5);
    Entry(38, 163, 167, 0x81c2c92e, 5);
    Entry(39, 167, 173, 0x92722c85, 5);
  }

  lemma Row40(t: nat)
    requires 40 <= t < 44
    ensures ConstantAt(t)
  {
    Entry(40, 173, 179, 0xa2bfe8a1, 5);
    Entry(41, 179, 181, 0xa81a664b, 5);
    Entry(42, 181, 191, 0xc24b8b70, 5);
    Entry(43, 191, 193, 0xc76c51a3, 5);
  }

  lemma Row44(t: nat)
    requires 44 <= t < 48
    ensures ConstantAt(t)
  {
    Entry(44, 193, 197, 0xd192e819, 5);
    Entry(45, 197, 199, 0xd6990624, 5);
    Entry(46, 199, 211, 0xf40e3585, 5);
    Entry(47, 211, 223, 0x106aa070, 6);
  }

  lemma Row48(t: nat)
    requires 48 <= t < 52
    ensures ConstantAt(t)
  {
    Entry(48, 223, 227, 0x19a4c116, 6);
    Entry(49, 227, 229, 0x1e376c08, 6);
    Entry(50, 229, 233, 0x2748774c, 6);
    Entry(51, 233, 239, 0x34b0bcb5, 6);
  }

  lemma Row52(t: nat)
    requires 52 <= t < 56
    ensures ConstantAt(t)
  {
    Entry(52, 239, 241, 0x391c0cb3, 6);
    Entry(53, 241, 251, 0x4ed8aa4a, 6);
    Entry(54, 251, 257, 0x5b9cca4f, 6);
    Entry(55, 257, 263, 0x682e6ff3, 6);
  }

  lemma Row56(t: nat)
    requires 56 <= t < 60
    ensures ConstantAt(t)
  {
    Entry(56, 263, 269, 0x748f82ee, 6);
    Entry(57, 269, 271, 0x78a5636f, 6);
    Entry(58, 271, 277, 0x84c87814, 6);
    Entry(59, 277, 281, 0x8cc70208, 6);
  }

  lemma Row60(t: nat)
    requires 60 <= t < 64
    ensures ConstantAt(t)
  {
    Entry(60, 281, 283, 0x90befffa, 6);
    Entry(61, 283, 293, 0xa4506ceb, 6);
    Entry(62, 293, 307, 0xbef9a3f7, 6);
    Entry(63, 307, 311, 0xc67178f2, 6);
  }

  lemma ConstantIs(t: nat)
    requires t < 64
    ensures ConstantAt(t)
  {
    match t / 4
    case 0 => Row0(t);
    case 1 => Row4(t);
    case 2 => Row8(t);
    case 3 => Row12(t);
    case 4 => Row16(t);
    case 5 => Row20(t);
    case 6 => Row24(t);
    case 7 => Row28(t);
    case 8 => Row32(t);
    case 9 => Row36(t);
    case 10 => Row40(t);
    case 11 => Row44(t);
    case 12 => Row48(t);
    case 13 => Row52(t);
    case 14 => Row56(t);
    case _ => Row60(t);
  }

  lemma {:induction false} PrimeIs(t: nat)
    requires t < 64
    ensures IsNthPrime(PrimeAt(t), t)
  {
    ConstantIs(t);
    if t == 0 {
      SecondIsFirst(PrimeAt(0));
    } else {
      var q := PrimeAt(t - 1);
      PrimeIs(t - 1);
      NextIsPrime(q, PrimeAt(t));
      assert IsNthPrime(q, t - 1) && q < PrimeAt(t) && NoPrimeBetween(q, PrimeAt(t));
    }
  }

  lemma SecondIsFirst(p: nat)
    requires p == 2
    ensures IsPrime(p) && NoPrimeBetween(0, p)
  {
  }

  /** Section 4.2.2: each round constant is the first 32 fraction bits of the cube root of its prime. */
  lemma RoundConstantsAreCubeRoots(t: nat) returns (p: nat, n: nat)
    requires t < 64
    ensures |K| == 64 && RoundConstant(t) == K[t] && IsNthPrime(p, t)
    ensures Cube(n * 0x1_0000_0000 + K[t]) <= p * 0x1_0000_0000_0000_0000_0000_0000
            < Cube(n * 0x1_0000_0000 + K[t] + 1)
  {
    ConstantIs(t);
    PrimeIs(t);
    KIsInRows(t);
    p := PrimeAt(t);
    n :| CubeRootBits(KAt(t), p, n);
  }

  function WordAt(h: Words, t: nat): Word {
    match t
    case 0 => h.a
    case 1 => h.b
    case 2 => h.c
    case 3 => h.d
    case 4 => h.e
    case 5 => h.f
    case 6 => h.g
    case _ => h.h
  }

  lemma InitialBits(t: nat, p: nat) returns (n: nat)
    requires t < 8 && p == PrimeAt(t)
    ensures SquareRootBits(WordAt(INITIAL, t), p, n)
  {
    n := if t < 2 then 1 else if t < 4 then 2 else if t < 6 then 3 else 4;
    assert PrimeAt(0) == 2 && SquareRootBits(0x6a09e667, 2, 1);
    assert PrimeAt(1) == 3 && SquareRootBits(0xbb67ae85, 3, 1);
    assert PrimeAt(2) == 5 && SquareRootBits(0x3c6ef372, 5, 2);
    assert PrimeAt(3) == 7 && SquareRootBits(0xa54ff53a, 7, 2);
    assert PrimeAt(4) == 11 && SquareRootBits(0x510e527f, 11, 3);
    assert PrimeAt(5) == 13 && SquareRootBits(0x9b05688c, 13, 3);
    assert PrimeAt(6) == 17 && SquareRootBits(0x1f83d9ab, 17, 4);
    assert PrimeAt(7) == 19 && SquareRootBits(0x5be0cd19, 19, 4);
  }

  /** Section 5.3.3: the initial hash value, in the same way from square roots. */
  lemma InitialWordsAreSquareRoots(t: nat) returns (p: nat, n: nat)
    requires t < 8
    ensures IsNthPrime(p, t)
    ensures Square(n * 0x1_0000_0000 + WordAt(INITIAL, t)) <= p * 0x1_0000_0000_0000_0000
            < Square(n * 0x1_0000_0000 + WordAt(INITIAL, t) + 1)
  {
    PrimeIs(t);
    p := PrimeAt(t);
    n := InitialBits(t, p);
  }
}
