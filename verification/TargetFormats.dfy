/**
  The compact target encodings of src/pow/target.cpp: nBits and Monero's hexadecimal targets.
 */
module TargetFormats {
  import opened Arith
  import opened Bits
  import opened Bytes
  import opened Jobs
  import opened Target
  import Hex

  // ---- nBits ----

  /** The number that a compact nBits word stands for: the 23-bit mantissa, shifted by whole bytes. */
  function CompactValue(bits: nat): nat
    requires bits < TWO32
  {
    var exp, mant := bits / 0x100_0000, bits % 0x80_0000;
    CompactAt(exp, mant)
  }

  function CompactAt(exp: nat, mant: nat): nat {
    if exp <= 3 then
      DivLe(mant, Pow256(3 - exp));
      mant / Pow256(3 - exp)
    else
      MulMono(0, mant, Pow256(exp - 3));
      Kept(mant * Pow256(exp - 3), 32)
  }

  /** The part of a number that fits `width` bytes. */
  function Kept(v: nat, width: nat): nat {
    v % Pow256(width)
  }

  /** The same in full: exponent in the top byte, 23 bits of mantissa. */
  lemma CompactLaw(bits: nat)
    requires bits < TWO32
    ensures var exp, mant := bits / 0x100_0000, bits % 0x80_0000;
            && exp < 256
            && (exp <= 3 ==> CompactValue(bits) == mant / Pow256(3 - exp))
            && (exp > 3 ==> CompactValue(bits) == mant * Pow256(exp - 3) % Pow256(32))
  {
  }

  method TargetFromCompact(bits: nat) returns (le: Hash256)
    requires bits < TWO32
    ensures LeNat(le) == CompactValue(bits)
  {
    var exp := bits / 0x100_0000;
    var mant := bits % 0x80_0000;
    var be := new Byte[32](_ => 0);
    if exp <= 3 {
      ShrinksBy(mant, 3 - exp);
      var m := mant / Pow256(3 - exp);
      FillLow(be, m);
      le := Flip(be);
      LowPlaced(le, m);
    } else {
      ghost var shift, n := FillShifted(be, mant, exp - 3);
      le := Flip(be);
      Placed(le, shift, n, mant);
      Truncated(mant, exp - 3, shift, n);
    }
    assert LeNat(le) == CompactAt(exp, mant);
  }

  lemma LowPlaced(le: seq<Byte>, m: nat)
    requires |le| >= 3 && m < Pow256(3)
    requires forall j :: 0 <= j < |le| ==> le[j] == if j < 3 then ByteAt(m, j) else 0
    ensures LeNat(le) == m
  {
    Placed(le, 0, 3, m);
    LeNatToLeExact(m, 3);
  }

  /** Lines 49-51. */
  method FillLow(be: array<Byte>, m: nat)
    requires be.Length == 32 && forall p :: 0 <= p < 32 ==> be[p] == 0
    modifies be
    ensures forall p :: 0 <= p < 32 ==> be[p] == if 31 - p < 3 then ByteAt(m, 31 - p) else 0
  {
    be[31] := ByteAt(m, 0);
    be[30] := ByteAt(m, 1);
    be[29] := ByteAt(m, 2);
  }

  /** The `n` mantissa bytes that still fall inside the buffer, from byte `shift` on. */
  predicate Window(sh: nat, shift: nat, n: nat) {
    if sh <= 29 then shift == sh && n == 3
    else if sh <= 32 then shift == sh && n == 32 - sh
    else shift == 32 && n == 0
  }

  /** Lines 53-57: the mantissa bytes that still fall inside the buffer. */
  method FillShifted(be: array<Byte>, mant: nat, sh: nat) returns (ghost shift: nat, ghost n: nat)
    requires be.Length == 32 && forall p :: 0 <= p < 32 ==> be[p] == 0
    modifies be
    ensures Window(sh, shift, n)
    ensures forall p :: 0 <= p < 32 ==> be[p] == if shift <= 31 - p < shift + n then ByteAt(mant, 31 - p - shift) else 0
  {
    shift, n := if sh <= 32 then sh else 32, if sh <= 29 then 3 else if sh <= 32 then 32 - sh else 0;
    for i := 0 to 3
      invariant forall p :: 0 <= p < 32 ==> be[p] == CompactByte(mant, sh, i, p)
    {
      var pos := 32 - sh - 3 + i;
      if 0 <= pos < 32 {
        be[pos] := ByteAt(mant, 2 - i);
      }
    }
  }

  /** Byte `p` of the big-endian buffer after `i` turns of the mantissa loop. */
  function CompactByte(mant: nat, sh: nat, i: nat, p: nat): Byte {
    var turn := p - (29 - sh);
    if 0 <= turn < i && turn < 3 then ByteAt(mant, 2 - turn) else 0
  }

  lemma ShrinksBy(mant: nat, n: nat)
    requires mant < 0x80_0000
    ensures mant / Pow256(n) <= mant < Pow256(3)
  {
    DivLe(mant, Pow256(n));
    ThreeBytes();
  }

  lemma ThreeBytes()
    ensures Pow256(3) == 0x100_0000
  {
    Pow256Values();
  }

  method Flip(be: array<Byte>) returns (le: Hash256)
    requires be.Length == 32
    ensures forall j :: 0 <= j < 32 ==> le[j] == be[31 - j]
  {
    var a := new Byte[32](_ => 0);
    for i := 0 to 32
      invariant forall j :: 0 <= j < i ==> a[j] == be[31 - j]
    {
      a[i] := be[31 - i];
    }
    le := a[..];
  }

  /** `n` little-endian bytes of `v` at byte `shift`, zeros elsewhere. */
  lemma Placed(le: seq<Byte>, shift: nat, n: nat, v: nat)
    requires shift + n <= |le|
    requires forall j :: 0 <= j < |le| ==> le[j] == if shift <= j < shift + n then ByteAt(v, j - shift) else 0
    ensures LeNat(le) == Pow256(shift) * LeNat(ToLe(v, n))
  {
    var mid := le[shift..shift + n];
    forall j | 0 <= j < n
      ensures ToLe(v, n)[j] == mid[j]
    {
      ToLeAt(v, n, j);
    }
    assert mid == ToLe(v, n);
    Surrounded(le, shift, n);
    PlacedValue(shift, mid, |le| - shift - n);
  }

  lemma Surrounded(le: seq<Byte>, shift: nat, n: nat)
    requires shift + n <= |le|
    requires forall j :: 0 <= j < |le| && !(shift <= j < shift + n) ==> le[j] == 0
    ensures le == Zeros(shift) + le[shift..shift + n] + Zeros(|le| - shift - n)
  {
  }

  /** Bytes shifted past the top are dropped: that is reduction modulo 2^256. */
  lemma Truncated(mant: nat, sh: nat, shift: nat, n: nat)
    requires mant < 0x80_0000
    requires Window(sh, shift, n)
    ensures Pow256(shift) * LeNat(ToLe(mant, n)) == Kept(mant * Pow256(sh), 32)
  {
    LeNatToLe(mant, n);
    if sh <= 29 {
      ShrinksBy(mant, 0);
      LeNatToLeExact(mant, 3);
      FitsShifted(mant, sh, 32);
    } else if sh <= 32 {
      Pow256Add(sh, n);
      ModScale(mant, Pow256(sh), Pow256(n));
    } else {
      ShiftedOut(mant, sh, 32);
    }
  }

  lemma ShiftedOut(mant: nat, sh: nat, width: nat)
    requires sh >= width
    ensures Kept(mant * Pow256(sh), width) == 0
  {
    Pow256Add(sh - width, width);
    MulAssoc(mant, Pow256(sh - width), Pow256(width));
    DivUnique(mant * Pow256(sh), Pow256(width), mant * Pow256(sh - width), 0);
  }

  lemma FitsShifted(mant: nat, sh: nat, width: nat)
    requires mant < Pow256(3) && sh + 3 <= width
    ensures Kept(mant * Pow256(sh), width) == mant * Pow256(sh)
  {
    Pow256Add(3, sh);
    PowMono(3 + sh, width);
    SmallProduct(mant, Pow256(3), Pow256(sh), Pow256(width));
  }

  lemma SmallProduct(m: nat, a: nat, b: nat, c: nat)
    requires m < a && a * b <= c && b > 0
    ensures c > 0 && m * b % c == m * b
  {
    MulMono(m + 1, a, b);
    MulDistrib(m, 1, b);
    DivUnique(m * b, c, 0, m * b);
  }

  lemma ModScale(v: nat, a: nat, b: nat)
    requires a > 0 && b > 0
    ensures a * b > 0 && a * (v % b) == v * a % (a * b)
  {
    DivBounds(v, b);
    var q, r := v / b, v % b;
    MulPos(a, b);
    MulDistrib(q * b, r, a);
    MulAssoc(q, b, a);
    MulMono(r + 1, b, a);
    MulDistrib(r, 1, a);
    assert b * a == a * b && r * a == a * r;
    DivUnique(v * a, a * b, q, r * a);
  }

  lemma DifficultyOne(v: nat)
    requires v == BASE * Pow256(24)
    ensures IsTargetValue(1.0, v)
  {
    AsReal(BASE, Pow256(24));
    DivUnique(v, Pow256(24), BASE, 0);
    assert Ideal(1.0, 6) == v as real;
    assert IsLevel(Ideal(1.0, 6), 6) && RoundsDown(Ideal(1.0, 6), v, Pow256(4 * 6));
  }

  lemma MantissaShifted(p: nat)
    requires p == Pow256(24)
    ensures 0xffff * Pow256(26) == BASE * p
  {
    Pow256Add(2, 24);
    Pow256Values();
  }

  lemma CompactOneValue()
    ensures CompactAt(29, 0xffff) == BASE * Pow256(24)
  {
    ThreeBytes();
    FitsShifted(0xffff, 26, 32);
    MantissaShifted(Pow256(24));
  }

  lemma CompactOneBits(bits: nat)
    requires bits == 0x1d00ffff
    ensures CompactValue(bits) == BASE * Pow256(24)
  {
    CompactOneFields(bits);
    CompactOneValue();
  }

  lemma CompactOneFields(bits: nat)
    requires bits == 0x1d00ffff
    ensures bits / 0x100_0000 == 29 && bits % 0x80_0000 == 0xffff
  {
  }

  /** 0x1d00ffff is the target of difficulty 1. */
  lemma CompactIsDifficultyOne(bits: nat)
    requires bits == 0x1d00ffff
    ensures IsTargetValue(1.0, CompactValue(bits))
  {
    CompactOneBits(bits);
    DifficultyOne(CompactValue(bits));
  }

  // ---- Monero targets ----

  const MAX64: nat := TWO64 - 1
  const MAX32: nat := TWO32 - 1

  /** The high word of a nonzero compact target: the reciprocal of a reciprocal. */
  function Expand(c: nat): nat
    requires 0 < c < TWO32
  {
    CompactDivisor(c);
    MAX64 / (MAX32 / c)
  }

  /** The inner quotient is never zero, so the expansion never divides by zero. */
  lemma CompactDivisor(c: nat)
    requires 0 < c < TWO32
    ensures 1 <= MAX32 / c <= MAX32
  {
    DivBounds(MAX32, c);
    if MAX32 / c == 0 {
      assert false;
    }
    MulMono(1, c, MAX32 / c);
  }

  /** A larger compact value is an easier target. */
  lemma ExpandMonotone(c1: nat, c2: nat)
    requires 0 < c1 <= c2 < TWO32
    ensures Expand(c1) <= Expand(c2)
  {
    CompactDivisor(c1);
    CompactDivisor(c2);
    DivAntitone(MAX32, c1, c2);
    DivAntitone(MAX64, MAX32 / c2, MAX32 / c1);
  }

  lemma DivAntitone(v: nat, a: nat, b: nat)
    requires 0 < a <= b
    ensures v / b <= v / a
  {
    DivBounds(v, a);
    DivBounds(v, b);
    if v / b > v / a {
      MulMono(v / a + 1, v / b, a);
      MulDistrib(v / a, 1, a);
      MulMono(a, b, v / b);
      assert false;
    }
  }

  /** The expansion is at least the exact 64-bit scaling c * (2^32 + 1). */
  lemma ExpandAtLeast(c: nat)
    requires 0 < c < TWO32
    ensures Expand(c) >= c * (TWO32 + 1)
  {
    CompactDivisor(c);
    var q := MAX32 / c;
    DivBounds(MAX32, c);
    MulMono(c * q, MAX32, TWO32 + 1);
    assert c * q == q * c;
    var x := c * (TWO32 + 1);
    assert x * q == (c * q) * (TWO32 + 1);
    assert MAX32 * (TWO32 + 1) == MAX64;
    DivAtLeast(MAX64, q, x);
  }

  lemma DivAtLeast(v: nat, d: nat, x: nat)
    requires d > 0 && x * d <= v
    ensures v / d >= x
  {
    DivBounds(v, d);
    if v / d < x {
      MulMono(v / d + 1, x, d);
      MulDistrib(v / d, 1, d);
      assert false;
    }
  }

  /** The expansion inverts exactly: the 64-bit difficulty is the 32-bit one. */
  lemma ExpandInverts(c: nat)
    requires 0 < c < TWO32
    ensures Expand(c) > 0 && MAX64 / Expand(c) == MAX32 / c
  {
    CompactDivisor(c);
    ExpandAtLeast(c);
    var q, hi := MAX32 / c, Expand(c);
    DivBounds(MAX64, q);
    MulMono(1, c, TWO32 + 1);
    assert hi > q;
    DivUnique(MAX64, hi, q, MAX64 - hi * q);
  }

  /**
    The expansion is the largest 64-bit word whose 64-bit difficulty is that of the compact
    value, so the two laws together determine it.
   */
  lemma ExpandIsLargest(c: nat, h: nat)
    requires 0 < c < TWO32 && h > 0
    ensures MAX64 / h >= MAX32 / c <==> h <= Expand(c)
  {
    CompactDivisor(c);
    var q := MAX32 / c;
    SwapDivisors(MAX64, h, q);
  }

  lemma SwapDivisors(v: nat, a: nat, b: nat)
    requires a > 0 && b > 0
    ensures v / a >= b <==> a <= v / b
  {
    DivBounds(v, a);
    DivBounds(v, b);
    assert a * b == b * a;
    if v / a >= b {
      MulMono(b, v / a, a);
      DivAtLeast(v, b, a);
    } else if a <= v / b {
      MulMono(a, v / b, b);
      DivAtLeast(v, a, b);
    }
  }

  /** The largest 64-bit word with the 64-bit difficulty of the compact value `c`. */
  ghost predicate IsExpansion(c: nat, h: nat)
    requires c > 0
  {
    && h > 0 && 0xffff_ffff_ffff_ffff / h == 0xffff_ffff / c
    && forall g: nat :: g > h ==> 0xffff_ffff_ffff_ffff / g < 0xffff_ffff / c
  }

  lemma ExpandIsExpansion(c: nat)
    requires 0 < c < TWO32
    ensures IsExpansion(c, Expand(c))
  {
    ExpandInverts(c);
    forall g: nat | g > Expand(c)
      ensures 0xffff_ffff_ffff_ffff / g < 0xffff_ffff / c
    {
      ExpandIsLargest(c, g);
    }
  }

  /** The target with the given high 64 bits and all other bits zero. */
  function HighTarget(hi: nat): Hash256 {
    Zeros(24) + ToLe(hi, 8)
  }

  lemma HighTargetValue(hi: nat)
    requires hi < TWO64
    ensures LeNat(HighTarget(hi)) == Pow256(24) * hi
    ensures HighTarget(hi)[24..] == ToLe(hi, 8) && LeNat(HighTarget(hi)[24..]) == hi
  {
    Pow256Values();
    LeNatToLeExact(hi, 8);
    PlacedValue(24, ToLe(hi, 8), 0);
    assert HighTarget(hi) == Zeros(24) + ToLe(hi, 8) + Zeros(0);
  }

  /** What a decoded target field of each admitted length stands for. */
  function MoneroTarget(b: seq<Byte>): Hash256
    requires |b| == 32 || |b| == 8 || |b| == 4
  {
    if |b| == 32 then b
    else if |b| == 8 then HighTarget(LeNat(b))
    else (
      FourBytes(b);
      if LeNat(b) == 0 then seq(32, _ => 255) else HighTarget(Expand(LeNat(b)))
    )
  }

  lemma FourBytes(b: seq<Byte>)
    ensures |b| == 4 ==> LeNat(b) < TWO32
    ensures |b| == 8 ==> LeNat(b) < TWO64
  {
    LeNatBound(b);
    Pow256Values();
  }

  /** The number that each form encodes. */
  lemma MoneroTargetLaw(b: seq<Byte>)
    ensures |b| == 32 ==> MoneroTarget(b) == b
    ensures |b| == 8 ==> LeNat(MoneroTarget(b)) == Pow256(24) * LeNat(b)
    ensures |b| == 4 && LeNat(b) == 0 ==> LeNat(MoneroTarget(b)) == Pow256(32) - 1
    ensures |b| == 4 && LeNat(b) > 0 ==>
              exists h: nat :: LeNat(MoneroTarget(b)) == Pow256(24) * h && IsExpansion(LeNat(b), h)
  {
    FourBytes(b);
    if |b| == 8 {
      HighTargetValue(LeNat(b));
    } else if |b| == 4 {
      if LeNat(b) == 0 {
        AllOnes(32);
      } else {
        CompactForm(LeNat(b));
      }
    }
  }

  lemma CompactForm(c: nat)
    requires 0 < c < TWO32
    ensures LeNat(HighTarget(Expand(c))) == Pow256(24) * Expand(c) && IsExpansion(c, Expand(c))
  {
    CompactDivisor(c);
    DivLe(MAX64, MAX32 / c);
    HighTargetValue(Expand(c));
    ExpandIsExpansion(c);
  }

  method MoneroTargetFromHex(hex: string) returns (r: Hex.Result<Hash256>)
    ensures r.Ok? <==> Hex.IsHex(hex) && (|hex| == 64 || |hex| == 16 || |hex| == 8)
    ensures r.Ok? ==> r.value == MoneroTarget(Hex.Decoded(hex))
    ensures r.Ok? && |hex| == 64 ==> LeNat(r.value) == LeNat(Hex.Decoded(hex))
    ensures r.Ok? && |hex| == 16 ==> LeNat(r.value) == Pow256(24) * LeNat(Hex.Decoded(hex))
    ensures r.Ok? && |hex| == 8 && LeNat(Hex.Decoded(hex)) == 0 ==> LeNat(r.value) == Pow256(32) - 1
    ensures r.Ok? && |hex| == 8 && LeNat(Hex.Decoded(hex)) > 0 ==>
              exists h: nat :: LeNat(r.value) == Pow256(24) * h && IsExpansion(LeNat(Hex.Decoded(hex)), h)
  {
    var d := Hex.FromHex(hex);
    if d.Err? {
      return Hex.Err(d.error);
    }
    var b := d.value;
    MoneroTargetLaw(b);
    if |b| == 32 {
      return Hex.Ok(b);
    }
    var hi := 0;
    if |b| == 4 {
      var compact := Accumulate(b);
      FourBytes(b);
      if compact == 0 {
        return Hex.Ok(seq(32, _ => 255));
      }
      CompactDivisor(compact);
      hi := MAX64 / (MAX32 / compact);
    } else if |b| == 8 {
      hi := Accumulate(b);
    } else {
      return Hex.Err("monero_target_from_hex: unexpected length");
    }
    var t := HighWord(hi);
    return Hex.Ok(t);
  }

  /** `v |= b[i] << (8 * i)` for each byte in turn. */
  method Accumulate(b: seq<Byte>) returns (v: nat)
    ensures v == LeNat(b)
  {
    v := 0;
    for i := 0 to |b|
      invariant v == LeNat(b[..i])
    {
      AccumulateStep(b, i);
      v := OrBits(v, b[i] * Pow256(i));
    }
    assert b[..|b|] == b;
  }

  lemma AccumulateStep(b: seq<Byte>, i: nat)
    requires i < |b|
    ensures b[i] * Pow256(i) >= 0 && OrBits(LeNat(b[..i]), b[i] * Pow256(i)) == LeNat(b[..i + 1])
  {
    LeNatBound(b[..i]);
    PlaceByte(LeNat(b[..i]), b[i], i);
    LeNatConcat(b[..i], [b[i]]);
    assert b[..i + 1] == b[..i] + [b[i]];
    assert LeNat([b[i]]) == b[i];
  }

  lemma PlaceByte(v: nat, x: nat, i: nat)
    requires v < Pow256(i)
    ensures x * Pow256(i) >= 0 && OrBits(v, x * Pow256(i)) == v + Pow256(i) * x
  {
    Pow2OfBytes(i);
    OrDisjoint(x, 8 * i, v);
    OrCommutes(v, x * Pow256(i));
  }

  method HighWord(hi: nat) returns (t: Hash256)
    ensures t == HighTarget(hi)
  {
    var a := new Byte[32](_ => 0);
    for i := 0 to 8
      invariant forall j :: 0 <= j < 32 ==> a[j] == if 24 <= j < 24 + i then ByteAt(hi, j - 24) else 0
    {
      a[24 + i] := ByteAt(hi, i);
    }
    forall j | 0 <= j < 8
      ensures ToLe(hi, 8)[j] == a[24 + j]
    {
      ToLeAt(hi, 8, j);
    }
    t := a[..];
  }
}
