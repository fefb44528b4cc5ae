/** The bitwise operations on unsigned numbers, and when a union of bits is a sum. */
module Bits {
  import opened Arith
  import opened Bytes

  function Pow2(n: nat): (p: nat)
    ensures p > 0
  {
    if n == 0 then 1 else 2 * Pow2(n - 1)
  }

  function XorBits(x: nat, y: nat): nat
    decreases x + y
  {
    if x == 0 && y == 0 then 0 else (if x % 2 != y % 2 then 1 else 0) + 2 * XorBits(x / 2, y / 2)
  }

  function AndBits(x: nat, y: nat): nat
    decreases x + y
  {
    if x == 0 && y == 0 then 0 else (if x % 2 == 1 && y % 2 == 1 then 1 else 0) + 2 * AndBits(x / 2, y / 2)
  }

  function OrBits(x: nat, y: nat): nat
    decreases x + y
  {
    if x == 0 && y == 0 then 0 else (if x % 2 == 1 || y % 2 == 1 then 1 else 0) + 2 * OrBits(x / 2, y / 2)
  }

  lemma {:induction false} BitsBound(x: nat, y: nat, n: nat)
    requires x < Pow2(n) && y < Pow2(n)
    ensures XorBits(x, y) < Pow2(n) && AndBits(x, y) < Pow2(n) && OrBits(x, y) < Pow2(n)
  {
    if n != 0 {
      BitsBound(x / 2, y / 2, n - 1);
    }
  }

  lemma {:induction false} Pow2Add(a: nat, b: nat)
    ensures Pow2(a + b) == Pow2(a) * Pow2(b)
  {
    if a != 0 {
      Pow2Add(a - 1, b);
      MulAssoc(2, Pow2(a - 1), Pow2(b));
    }
  }

  lemma Pow2Values()
    ensures Pow2(8) == 0x100 && Pow2(16) == 0x1_0000 && Pow2(24) == 0x100_0000 && Pow2(32) == 0x1_0000_0000
  {
    assert Pow2(2) == 4 && Pow2(4) == 4 * Pow2(2);
    Pow2Add(4, 4);
    Pow2Add(8, 8);
    Pow2Add(8, 16);
    Pow2Add(16, 16);
  }

  lemma {:induction false} Pow2OfBytes(n: nat)
    ensures Pow2(8 * n) == Pow256(n)
  {
    if n != 0 {
      Pow2OfBytes(n - 1);
      Pow2Values();
      Pow2Add(8, 8 * (n - 1));
    }
  }

  lemma {:induction false} OrZero(a: nat)
    ensures OrBits(a, 0) == a
  {
    if a != 0 {
      OrZero(a / 2);
    }
  }

  lemma {:induction false} OrCommutes(a: nat, b: nat)
    ensures OrBits(a, b) == OrBits(b, a)
    decreases a + b
  {
    if a != 0 || b != 0 {
      OrCommutes(a / 2, b / 2);
    }
  }

  /** A number shifted by `k` bits shares no bit with one of `k` bits: their union is their sum. */
  lemma {:induction false} OrDisjoint(a: nat, k: nat, b: nat)
    requires b < Pow2(k)
    ensures a * Pow2(k) >= 0 && OrBits(a * Pow2(k), b) == a * Pow2(k) + b
  {
    MulMono(0, a, Pow2(k));
    if k == 0 {
      OrZero(a);
    } else {
      var x := a * Pow2(k - 1);
      Halved(a, Pow2(k - 1), Pow2(k));
      OrDisjoint(a, k - 1, b / 2);
      if x != 0 || b != 0 {
        assert OrBits(2 * x, b) == b % 2 + 2 * OrBits(x, b / 2);
      }
    }
  }

  lemma Halved(a: nat, p: nat, q: nat)
    requires q == 2 * p
    ensures a * q == 2 * (a * p) && a * p >= 0
  {
    MulMono(0, a, p);
  }

  /** Four bytes shifted into place, the way the source reads a big-endian word. */
  function JoinBytes(b0: Byte, b1: Byte, b2: Byte, b3: Byte): nat {
    OrBits(OrBits(OrBits(b0 * 0x100_0000, b1 * 0x1_0000), b2 * 0x100), b3)
  }

  lemma JoinIsSum(b0: Byte, b1: Byte, b2: Byte, b3: Byte)
    ensures JoinBytes(b0, b1, b2, b3) == b0 * 0x100_0000 + b1 * 0x1_0000 + b2 * 0x100 + b3
  {
    Pow2Values();
    OrDisjoint(b0, 24, b1 * 0x1_0000);
    OrDisjoint(b0 * 0x100 + b1, 16, b2 * 0x100);
    OrDisjoint(b0 * 0x1_0000 + b1 * 0x100 + b2, 8, b3);
  }

  // ---- bit by bit ----

  /** Bit `i` of a number, the least significant being bit 0. */
  function Bit(x: nat, i: nat): nat {
    x / Pow2(i) % 2
  }

  lemma BitNext(x: nat, i: nat)
    ensures Bit(x, i + 1) == Bit(x / 2, i)
  {
    DivDiv(x, 2, Pow2(i));
  }

  /** What the three operations do to each bit. */
  lemma {:induction false} OpsAt(x: nat, y: nat, i: nat)
    ensures Bit(XorBits(x, y), i) == (Bit(x, i) + Bit(y, i)) % 2
    ensures Bit(AndBits(x, y), i) == if Bit(x, i) == 1 && Bit(y, i) == 1 then 1 else 0
    ensures Bit(OrBits(x, y), i) == if Bit(x, i) == 0 && Bit(y, i) == 0 then 0 else 1
  {
    if i == 0 {
      LowestBits(x, y);
    } else {
      OpsAt(x / 2, y / 2, i - 1);
      OpsNext(x, y);
      BitNext(x, i - 1);
      BitNext(y, i - 1);
      BitNext(XorBits(x, y), i - 1);
      BitNext(AndBits(x, y), i - 1);
      BitNext(OrBits(x, y), i - 1);
    }
  }

  lemma LowestBits(x: nat, y: nat)
    ensures Bit(XorBits(x, y), 0) == (Bit(x, 0) + Bit(y, 0)) % 2
    ensures Bit(AndBits(x, y), 0) == if Bit(x, 0) == 1 && Bit(y, 0) == 1 then 1 else 0
    ensures Bit(OrBits(x, y), 0) == if Bit(x, 0) == 0 && Bit(y, 0) == 0 then 0 else 1
  {
    Parities(x, y);
    BitZero(x);
    BitZero(y);
    BitZero(XorBits(x, y));
    BitZero(AndBits(x, y));
    BitZero(OrBits(x, y));
  }

  lemma Parities(x: nat, y: nat)
    ensures XorBits(x, y) % 2 == (x % 2 + y % 2) % 2
    ensures AndBits(x, y) % 2 == if x % 2 == 1 && y % 2 == 1 then 1 else 0
    ensures OrBits(x, y) % 2 == if x % 2 == 0 && y % 2 == 0 then 0 else 1
  {
    EvenPlus(XorBits(x / 2, y / 2));
    EvenPlus(AndBits(x / 2, y / 2));
    EvenPlus(OrBits(x / 2, y / 2));
  }

  lemma EvenPlus(n: nat)
    ensures 2 * n % 2 == 0 && (1 + 2 * n) % 2 == 1
  {
  }

  lemma BitZero(x: nat)
    ensures Bit(x, 0) == x % 2
  {
  }

  lemma OpsNext(x: nat, y: nat)
    ensures XorBits(x, y) / 2 == XorBits(x / 2, y / 2)
    ensures AndBits(x, y) / 2 == AndBits(x / 2, y / 2)
    ensures OrBits(x, y) / 2 == OrBits(x / 2, y / 2)
  {
  }

  /** A number is its bits. */
  lemma {:induction false} SameBits(x: nat, y: nat, n: nat)
    requires x < Pow2(n) && y < Pow2(n) && forall i :: 0 <= i < n ==> Bit(x, i) == Bit(y, i)
    ensures x == y
  {
    if n != 0 {
      BitZero(x);
      BitZero(y);
      assert Bit(x, 0) == Bit(y, 0);
      forall i | 0 <= i < n - 1
        ensures Bit(x / 2, i) == Bit(y / 2, i)
      {
        BitNext(x, i);
        BitNext(y, i);
        assert Bit(x, i + 1) == Bit(y, i + 1);
      }
      SameBits(x / 2, y / 2, n - 1);
    }
  }

  lemma {:induction false} NotAt(x: nat, n: nat, i: nat)
    requires x < Pow2(n) && i < n
    ensures Bit(Pow2(n) - 1 - x, i) == 1 - Bit(x, i)
  {
    var y := Pow2(n) - 1 - x;
    if i == 0 {
      BitZero(x);
      BitZero(y);
    } else {
      assert y / 2 == Pow2(n - 1) - 1 - x / 2;
      NotAt(x / 2, n - 1, i - 1);
      BitNext(x, i - 1);
      BitNext(y, i - 1);
    }
  }

  lemma ShiftedDownAt(x: nat, n: nat, i: nat)
    ensures x / Pow2(n) >= 0 && Bit(x / Pow2(n), i) == Bit(x, i + n)
  {
    DivLe(x, Pow2(n));
    DivDiv(x, Pow2(n), Pow2(i));
    Pow2Add(n, i);
  }

  lemma {:induction false} ShiftedUpAt(x: nat, n: nat, i: nat)
    ensures x * Pow2(n) >= 0 && Bit(x * Pow2(n), i) == if i < n then 0 else Bit(x, i - n)
  {
    MulMono(0, x, Pow2(n));
    if n != 0 {
      var y := x * Pow2(n - 1);
      Halved(x, Pow2(n - 1), Pow2(n));
      if i == 0 {
        BitZero(2 * y);
      } else {
        BitNext(2 * y, i - 1);
        ShiftedUpAt(x, n - 1, i - 1);
      }
    }
  }

  /** Reduction modulo 2^n keeps the low `n` bits. */
  lemma LowBitsAt(x: nat, n: nat, i: nat)
    requires i < n
    ensures Bit(x % Pow2(n), i) == Bit(x, i)
  {
    PowSplit(n, i);
    LowBitsOf(x, Pow2(n), Pow2(i), Pow2(n - 1 - i));
  }

  lemma PowSplit(n: nat, i: nat)
    requires i < n
    ensures Pow2(n) == Pow2(i) * (2 * Pow2(n - 1 - i))
  {
    Pow2Add(i, n - i);
  }

  lemma LowBitsOf(x: nat, m: nat, a: nat, p: nat)
    requires a > 0 && p > 0 && m > 0 && m == a * (2 * p)
    ensures x % m / a % 2 == x / a % 2
  {
    var q, r := x / m, x % m;
    DivBounds(x, m);
    DivBounds(r, a);
    Regrouped(q, m, a, p);
    MulDistrib(q * (2 * p), r / a, a);
    MulMono(0, q, 2 * p);
    DivUnique(x, a, q * (2 * p) + r / a, r % a);
    MulAssoc(2, q, p);
    EvenPart(q * p, r / a);
  }

  lemma Regrouped(q: nat, m: nat, a: nat, p: nat)
    requires m == a * (2 * p)
    ensures q * m == q * (2 * p) * a && q * (2 * p) == 2 * (q * p)
  {
    MulAssoc(q, 2 * p, a);
  }

  lemma EvenPart(n: int, k: int)
    ensures (2 * n + k) % 2 == k % 2
  {
  }

  /** Past its width a number has no bits. */
  lemma NoBitAt(x: nat, n: nat, i: nat)
    requires x < Pow2(n) && n <= i
    ensures Bit(x, i) == 0
  {
    Pow2Add(n, i - n);
    MulMono(1, Pow2(i - n), Pow2(n));
    DivUnique(x, Pow2(i), 0, x);
  }
}
