/**
  SHA-256 as FIPS 180-4 defines it: the functions of section 4.1.2, the constants of
  sections 4.2.2 and 5.3.3, the padding of section 5.1.1 and the computation of section 6.2.2.
 */
module Fips180 {
  import opened Arith
  import opened Bits
  import opened Bytes

  /** A 32-bit word, with the unsigned operations of the standard and of the source on it. */
  type Word = x: int | 0 <= x < 0x1_0000_0000

  function Add(x: Word, y: Word): Word { (x + y) % 0x1_0000_0000 }
  function Shr(x: Word, n: nat): Word { DivLe(x, Pow2(n)); x / Pow2(n) }
  function Shl(x: Word, n: nat): Word { x * Pow2(n) % 0x1_0000_0000 }

  lemma WordBits(x: Word, y: Word)
    ensures XorBits(x, y) < 0x1_0000_0000 && AndBits(x, y) < 0x1_0000_0000 && OrBits(x, y) < 0x1_0000_0000
  {
    Pow2Values();
    BitsBound(x, y, 32);
  }

  function Xor(x: Word, y: Word): Word { WordBits(x, y); XorBits(x, y) }
  function And(x: Word, y: Word): Word { WordBits(x, y); AndBits(x, y) }
  function Or(x: Word, y: Word): Word { WordBits(x, y); OrBits(x, y) }
  function Not(x: Word): Word { 0xffff_ffff - x }

  const K0: seq<Word> := [
    0x428a2f98, 0x71374491, 0xb5c0fbcf, 0xe9b5dba5, 0x3956c25b, 0x59f111f1, 0x923f82a4, 0xab1c5ed5]

  const K1: seq<Word> := [
    0xd807aa98, 0x12835b01, 0x243185be, 0x550c7dc3, 0x72be5d74, 0x80deb1fe, 0x9bdc06a7, 0xc19bf174]

  const K2: seq<Word> := [
    0xe49b69c1, 0xefbe4786, 0x0fc19dc6, 0x240ca1cc, 0x2de92c6f, 0x4a7484aa, 0x5cb0a9dc, 0x76f988da]

  const K3: seq<Word> := [
    0x983e5152, 0xa831c66d, 0xb00327c8, 0xbf597fc7, 0xc6e00bf3, 0xd5a79147, 0x06ca6351, 0x14292967]

  const K4: seq<Word> := [
    0x27b70a85, 0x2e1b2138, 0x4d2c6dfc, 0x53380d13, 0x650a7354, 0x766a0abb, 0x81c2c92e, 0x92722c85]

  const K5: seq<Word> := [
    0xa2bfe8a1, 0xa81a664b, 0xc24b8b70, 0xc76c51a3, 0xd192e819, 0xd6990624, 0xf40e3585, 0x106aa070]

  const K6: seq<Word> := [
    0x19a4c116, 0x1e376c08, 0x2748774c, 0x34b0bcb5, 0x391c0cb3, 0x4ed8aa4a, 0x5b9cca4f, 0x682e6ff3]

  const K7: seq<Word> := [
    0x748f82ee, 0x78a5636f, 0x84c87814, 0x8cc70208, 0x90befffa, 0xa4506ceb, 0xbef9a3f7, 0xc67178f2]

  /** The round constants of section 4.2.2. */
  const K: seq<Word> := K0 + K1 + K2 + K3 + K4 + K5 + K6 + K7

  function RoundConstant(t: nat): Word
    requires t < 64
  {
    assert |K| == 64;
    K[t]
  }

  /** The eight working variables, which are also the eight words of a hash value. */
  datatype Words = Words(a: Word, b: Word, c: Word, d: Word, e: Word, f: Word, g: Word, h: Word)

  const INITIAL: Words := Words(
    0x6a09e667, 0xbb67ae85, 0x3c6ef372, 0xa54ff53a, 0x510e527f, 0x9b05688c, 0x1f83d9ab, 0x5be0cd19)

  function Rotr(x: Word, n: nat): Word
    requires n <= 32
  {
    Or(Shr(x, n), Shl(x, 32 - n))
  }

  function Ch(x: Word, y: Word, z: Word): Word { Xor(And(x, y), And(Not(x), z)) }
  function Maj(x: Word, y: Word, z: Word): Word { Xor(Xor(And(x, y), And(x, z)), And(y, z)) }
  function BigSigma0(x: Word): Word { Xor(Xor(Rotr(x, 2), Rotr(x, 13)), Rotr(x, 22)) }
  function BigSigma1(x: Word): Word { Xor(Xor(Rotr(x, 6), Rotr(x, 11)), Rotr(x, 25)) }
  function SmallSigma0(x: Word): Word { Xor(Xor(Rotr(x, 7), Rotr(x, 18)), Shr(x, 3)) }
  function SmallSigma1(x: Word): Word { Xor(Xor(Rotr(x, 17), Rotr(x, 19)), Shr(x, 10)) }

  type Block = s: seq<Byte> | |s| == 64 witness seq(64, _ => 0)

  /** Word `t` of a block, most significant byte first. */
  function BlockWord(block: Block, t: nat): Word
    requires t < 16
  {
    BeWord(block[4 * t], block[4 * t + 1], block[4 * t + 2], block[4 * t + 3])
  }

  function BeWord(b0: int, b1: int, b2: int, b3: int): Word
    requires 0 <= b0 < 256 && 0 <= b1 < 256 && 0 <= b2 < 256 && 0 <= b3 < 256
  {
    b0 * 0x100_0000 + b1 * 0x1_0000 + b2 * 0x100 + b3
  }

  function NextWord(w2: Word, w7: Word, w15: Word, w16: Word): Word {
    Add(Add(Add(SmallSigma1(w2), w7), SmallSigma0(w15)), w16)
  }

  /** The message schedule. */
  function Schedule(block: Block, t: nat): Word
    requires t < 64
  {
    if t < 16 then BlockWord(block, t)
    else NextWord(Schedule(block, t - 2), Schedule(block, t - 7), Schedule(block, t - 15), Schedule(block, t - 16))
  }

  function ScheduleOf(block: Block): (ws: seq<Word>)
    ensures |ws| == 64
    ensures forall t :: 0 <= t < 64 ==> ws[t] == Schedule(block, t)
  {
    seq(64, t requires 0 <= t < 64 => Schedule(block, t))
  }

  function T1(v: Words, k: Word, w: Word): Word {
    Add(Add(Add(Add(v.h, BigSigma1(v.e)), Ch(v.e, v.f, v.g)), k), w)
  }

  function T2(v: Words): Word {
    Add(BigSigma0(v.a), Maj(v.a, v.b, v.c))
  }

  /** One round: T1, T2 and the rotation of the working variables. */
  function Round(v: Words, k: Word, w: Word): Words {
    Words(Add(T1(v, k, w), T2(v)), v.a, v.b, v.c, Add(v.d, T1(v, k, w)), v.e, v.f, v.g)
  }

  /** The working variables after the rounds that use the schedule words `ws`. */
  function Rounds(v: Words, ws: seq<Word>): Words
    requires |ws| <= 64
  {
    if ws == [] then v
    else
      var t := |ws| - 1;
      Round(Rounds(v, ws[..t]), RoundConstant(t), ws[t])
  }

  function AddWords(x: Words, y: Words): Words {
    Words(Add(x.a, y.a), Add(x.b, y.b), Add(x.c, y.c), Add(x.d, y.d),
          Add(x.e, y.e), Add(x.f, y.f), Add(x.g, y.g), Add(x.h, y.h))
  }

  /** The intermediate hash value after one more block. */
  function Compress(h: Words, block: Block): Words {
    AddWords(h, Rounds(h, ScheduleOf(block)))
  }

  type Compression = (Words, Block) -> Words

  /** The hash value after all the blocks of `data`, by the compression function `f`. */
  function Absorb(f: Compression, data: seq<Byte>): Words
    requires |data| % 64 == 0
  {
    if data == [] then INITIAL
    else f(Absorb(f, data[..|data| - 64]), data[|data| - 64..])
  }

  /** The number of zero bytes in the padding of an `n`-byte message. */
  function ZeroBytes(n: nat): nat {
    (119 - n % 64) % 64
  }

  /** The message, the bit 1, zeros, and the 64-bit length in bits (modulo 2^64). */
  function Pad(m: seq<Byte>): (p: seq<Byte>)
    ensures |p| % 64 == 0
  {
    m + PadBytes(|m|)
  }

  /** What is appended to a message of `n` bytes. */
  function PadBytes(n: nat): (p: seq<Byte>)
    ensures |p| == 9 + ZeroBytes(n) && (n + |p|) % 64 == 0
  {
    ZeroBytesFill(n);
    [0x80] + Zeros(ZeroBytes(n)) + LengthBytes(8 * n)
  }

  lemma ZeroBytesFill(n: nat)
    ensures (n + 9 + ZeroBytes(n)) % 64 == 0
  {
  }

  /** The length in bits, modulo 2^64, as eight bytes, the most significant first. */
  function LengthBytes(bits: nat): (s: seq<Byte>)
    ensures |s| == 8
  {
    seq(8, i requires 0 <= i < 8 => ByteAt(bits % TWO64, 7 - i))
  }

  function WordBytes(w: Word): (s: seq<Byte>)
    ensures |s| == 4
  {
    ToBe(w, 4)
  }

  function DigestBytes(h: Words): (s: seq<Byte>)
    ensures |s| == 32
  {
    WordBytes(h.a) + WordBytes(h.b) + WordBytes(h.c) + WordBytes(h.d) +
    WordBytes(h.e) + WordBytes(h.f) + WordBytes(h.g) + WordBytes(h.h)
  }

  /** SHA-256 of a message. */
  function Digest(m: seq<Byte>): (s: seq<Byte>)
    ensures |s| == 32
  {
    DigestBytes(Absorb(Compress, Pad(m)))
  }

  /** Bitcoin's double hash. */
  function DoubleDigest(m: seq<Byte>): (s: seq<Byte>)
    ensures |s| == 32
  {
    Digest(Digest(m))
  }

  /** The padding is the shortest: fewer zero bytes never fill a whole number of blocks. */
  lemma PadIsMinimal(n: nat, k: nat)
    requires (n + 1 + k + 8) % 64 == 0
    ensures ZeroBytes(n) <= k
    ensures (n + 1 + ZeroBytes(n) + 8) % 64 == 0 && ZeroBytes(n) < 64
  {
    ZeroBytesFill(n);
    SameResidue(n + 9, k, ZeroBytes(n));
  }

  lemma SameResidue(a: nat, k: nat, z: nat)
    requires (a + k) % 64 == 0 && (a + z) % 64 == 0 && z < 64
    ensures z <= k
  {
  }

  /** Padding loses nothing: distinct messages of lengths below 2^61 bytes stay distinct. */
  lemma PadInjective(m1: seq<Byte>, m2: seq<Byte>)
    requires 8 * |m1| < TWO64 && 8 * |m2| < TWO64 && Pad(m1) == Pad(m2)
    ensures m1 == m2
  {
    PadEnds(m1);
    PadEnds(m2);
    assert m1 == Pad(m1)[..|m1|] && m2 == Pad(m2)[..|m2|];
  }

  lemma LengthField(n: nat)
    requires n < TWO64
    ensures BeNat(LengthBytes(n)) == n
  {
    Pow256Values();
    FieldReads(n, LengthBytes(n));
  }

  lemma FieldReads(v: nat, field: seq<Byte>)
    requires v < Pow256(|field|) && forall i :: 0 <= i < |field| ==> field[i] == ByteAt(v, |field| - 1 - i)
    ensures BeNat(field) == v
  {
    var width := |field|;
    forall i | 0 <= i < width
      ensures field[i] == ToBe(v, width)[i]
    {
      ToBeAt(v, width, i);
    }
    assert field == ToBe(v, width);
    BeNatToBe(v, width);
    DivUnique(v, Pow256(width), 0, v);
  }

  lemma PadEnds(m: seq<Byte>)
    requires 8 * |m| < TWO64
    ensures |Pad(m)| >= |m| + 8 && Pad(m)[..|m|] == m
    ensures BeNat(Pad(m)[|Pad(m)| - 8..]) == 8 * |m|
  {
    var front, field := [0x80] + Zeros(ZeroBytes(|m|)), LengthBytes(8 * |m|);
    LengthField(8 * |m|);
    FieldIsLast(m, front, field);
    assert PadBytes(|m|) == front + field;
  }

  lemma FieldIsLast(m: seq<Byte>, front: seq<Byte>, field: seq<Byte>)
    ensures var p := m + (front + field); p[..|m|] == m && p[|p| - |field|..] == field
  {
  }
}
