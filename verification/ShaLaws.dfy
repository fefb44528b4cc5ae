/**
  What the functions of `Fips180` compute, said without them: each operation bit by bit, each
  step by its sums, and the message as bytes.
 */
module ShaLaws {
  import opened Bits
  import opened Bytes
  import opened Fips180
  import Hex

  // ---- the operations of section 4.1.2, bit by bit ----

  lemma XorAt(x: Word, y: Word, i: nat)
    ensures Bit(Xor(x, y), i) == (Bit(x, i) + Bit(y, i)) % 2
  {
    OpsAt(x, y, i);
  }

  lemma AndAt(x: Word, y: Word, i: nat)
    ensures Bit(And(x, y), i) == if Bit(x, i) == 1 && Bit(y, i) == 1 then 1 else 0
  {
    OpsAt(x, y, i);
  }

  lemma NotAt(x: Word, i: nat)
    requires i < 32
    ensures Bit(Not(x), i) == 1 - Bit(x, i)
  {
    Pow2Values();
    Bits.NotAt(x, 32, i);
  }

  lemma ShrAt(x: Word, n: nat, i: nat)
    ensures Bit(Shr(x, n), i) == Bit(x, i + n)
  {
    ShiftedDownAt(x, n, i);
  }

  lemma ShlAt(x: Word, n: nat, i: nat)
    requires i < 32
    ensures Bit(Shl(x, n), i) == if i < n then 0 else Bit(x, i - n)
  {
    Pow2Values();
    ShiftedUpAt(x, n, i);
    LowBitsAt(x * Pow2(n), 32, i);
  }

  /** Rotation to the right by `n`. */
  lemma RotrAt(x: Word, n: nat, i: nat)
    requires n < 32 && i < 32
    ensures Bit(Rotr(x, n), i) == Bit(x, (i + n) % 32)
  {
    ShrAt(x, n, i);
    ShlAt(x, 32 - n, i);
    if i + n >= 32 {
      Pow2Values();
      NoBitAt(x, 32, i + n);
    }
    OrAt(Shr(x, n), Shl(x, 32 - n), i);
    Wrapped(x, n, i);
  }

  lemma OrAt(x: Word, y: Word, i: nat)
    ensures Bit(Or(x, y), i) == if Bit(x, i) == 0 && Bit(y, i) == 0 then 0 else 1
  {
    OpsAt(x, y, i);
  }

  lemma Wrapped(x: Word, n: nat, i: nat)
    requires n < 32 && i < 32
    ensures (i + n) % 32 == if i < 32 - n then i + n else i - (32 - n)
  {
  }

  /** Each bit of the first word chooses between the other two. */
  lemma ChAt(x: Word, y: Word, z: Word, i: nat)
    requires i < 32
    ensures Bit(Ch(x, y, z), i) == if Bit(x, i) == 1 then Bit(y, i) else Bit(z, i)
  {
    XorAt(And(x, y), And(Not(x), z), i);
    AndAt(x, y, i);
    AndAt(Not(x), z, i);
    NotAt(x, i);
  }

  lemma MajAt(x: Word, y: Word, z: Word, i: nat)
    ensures Bit(Maj(x, y, z), i) == if Bit(x, i) + Bit(y, i) + Bit(z, i) >= 2 then 1 else 0
  {
    XorAt(Xor(And(x, y), And(x, z)), And(y, z), i);
    XorAt(And(x, y), And(x, z), i);
    AndAt(x, y, i);
    AndAt(x, z, i);
    AndAt(y, z, i);
  }

  lemma Xor3At(x: Word, y: Word, z: Word, i: nat)
    ensures Bit(Xor(Xor(x, y), z), i) == (Bit(x, i) + Bit(y, i) + Bit(z, i)) % 2
  {
    XorAt(Xor(x, y), z, i);
    XorAt(x, y, i);
  }

  lemma BigSigmasAt(x: Word, i: nat)
    requires i < 32
    ensures Bit(BigSigma0(x), i) == (Bit(x, (i + 2) % 32) + Bit(x, (i + 13) % 32) + Bit(x, (i + 22) % 32)) % 2
    ensures Bit(BigSigma1(x), i) == (Bit(x, (i + 6) % 32) + Bit(x, (i + 11) % 32) + Bit(x, (i + 25) % 32)) % 2
  {
    Xor3At(Rotr(x, 2), Rotr(x, 13), Rotr(x, 22), i);
    Xor3At(Rotr(x, 6), Rotr(x, 11), Rotr(x, 25), i);
    RotrAt(x, 2, i);
    RotrAt(x, 13, i);
    RotrAt(x, 22, i);
    RotrAt(x, 6, i);
    RotrAt(x, 11, i);
    RotrAt(x, 25, i);
  }

  lemma SmallSigmasAt(x: Word, i: nat)
    requires i < 32
    ensures Bit(SmallSigma0(x), i) == (Bit(x, (i + 7) % 32) + Bit(x, (i + 18) % 32) + Bit(x, i + 3)) % 2
    ensures Bit(SmallSigma1(x), i) == (Bit(x, (i + 17) % 32) + Bit(x, (i + 19) % 32) + Bit(x, i + 10)) % 2
  {
    Xor3At(Rotr(x, 7), Rotr(x, 18), Shr(x, 3), i);
    Xor3At(Rotr(x, 17), Rotr(x, 19), Shr(x, 10), i);
    RotrAt(x, 7, i);
    RotrAt(x, 18, i);
    ShrAt(x, 3, i);
    RotrAt(x, 17, i);
    RotrAt(x, 19, i);
    ShrAt(x, 10, i);
  }

  // ---- the computation of section 6.2.2, by its sums ----

  lemma T1Sum(v: Words, k: Word, w: Word)
    ensures T1(v, k, w) == (v.h + BigSigma1(v.e) + Ch(v.e, v.f, v.g) + k + w) % 0x1_0000_0000
  {
    FiveSum(v.h, BigSigma1(v.e), Ch(v.e, v.f, v.g), k, w);
  }

  lemma FiveSum(a: Word, b: Word, c: Word, d: Word, e: Word)
    ensures Add(Add(Add(Add(a, b), c), d), e) == (a + b + c + d + e) % 0x1_0000_0000
  {
    FourSum(a, b, c, d);
    AddSum(a + b + c + d, e);
  }

  lemma T2Sum(v: Words)
    ensures T2(v) == (BigSigma0(v.a) + Maj(v.a, v.b, v.c)) % 0x1_0000_0000
  {
  }

  /** The eight working variables after one round, in the sums T1 and T2. */
  lemma RoundLaw(v: Words, k: Word, w: Word)
    ensures var r := Round(v, k, w);
            && r.a == (T1(v, k, w) + T2(v)) % 0x1_0000_0000 && r.b == v.a && r.c == v.b && r.d == v.c
            && r.e == (v.d + T1(v, k, w)) % 0x1_0000_0000 && r.f == v.e && r.g == v.f && r.h == v.g
  {
    AddIs(T1(v, k, w), T2(v));
    AddIs(v.d, T1(v, k, w));
  }

  lemma AddIs(x: Word, y: Word)
    ensures Add(x, y) == (x + y) % 0x1_0000_0000
  {
  }

  /** The first sixteen schedule words are the block, read big-endian; the others follow the recurrence. */
  lemma ScheduleLaw(block: Block, t: nat)
    requires t < 64
    ensures t < 16 ==> Schedule(block, t) == BeNat(block[4 * t..4 * t + 4])
    ensures t >= 16 ==>
              Schedule(block, t) ==
              (SmallSigma1(Schedule(block, t - 2)) + Schedule(block, t - 7) +
               SmallSigma0(Schedule(block, t - 15)) + Schedule(block, t - 16)) % 0x1_0000_0000
  {
    if t < 16 {
      BlockWordIs(block, t);
    } else {
      NextWordSum(Schedule(block, t - 2), Schedule(block, t - 7), Schedule(block, t - 15), Schedule(block, t - 16));
    }
  }

  lemma BlockWordIs(block: Block, t: nat)
    requires t < 16
    ensures BlockWord(block, t) == BeNat(block[4 * t..4 * t + 4])
  {
    Hex.Be32Value(block[4 * t..4 * t + 4]);
  }

  lemma NextWordSum(w2: Word, w7: Word, w15: Word, w16: Word)
    ensures NextWord(w2, w7, w15, w16) == (SmallSigma1(w2) + w7 + SmallSigma0(w15) + w16) % 0x1_0000_0000
  {
    FourSum(SmallSigma1(w2), w7, SmallSigma0(w15), w16);
  }

  lemma FourSum(a: Word, b: Word, c: Word, d: Word)
    ensures Add(Add(Add(a, b), c), d) == (a + b + c + d) % 0x1_0000_0000
  {
    AddSum(a + b, c);
    AddSum(a + b + c, d);
  }

  /** Adding to a sum that is already reduced. */
  lemma AddSum(s: nat, x: Word)
    ensures Add(s % 0x1_0000_0000, x) == (s + x) % 0x1_0000_0000
  {
  }

  /** The rounds take the constants and the schedule words in turn. */
  lemma RoundsLaw(v: Words, ws: seq<Word>, w: Word)
    requires |ws| < 64
    ensures Rounds(v, []) == v
    ensures Rounds(v, ws + [w]) == Round(Rounds(v, ws), K[|ws|], w)
  {
    assert (ws + [w])[..|ws|] == ws;
  }

  /** The working variables start as the hash value and are added to it. */
  lemma CompressLaw(h: Words, block: Block, ws: seq<Word>)
    requires |ws| == 64 && forall t :: 0 <= t < 64 ==> ws[t] == Schedule(block, t)
    ensures WordSums(h, Rounds(h, ws), Compress(h, block))
  {
    assert ws == ScheduleOf(block);
    Sums(h, Rounds(h, ws));
  }

  predicate WordSums(x: Words, y: Words, r: Words) {
    && r.a == (x.a + y.a) % 0x1_0000_0000 && r.b == (x.b + y.b) % 0x1_0000_0000
    && r.c == (x.c + y.c) % 0x1_0000_0000 && r.d == (x.d + y.d) % 0x1_0000_0000
    && r.e == (x.e + y.e) % 0x1_0000_0000 && r.f == (x.f + y.f) % 0x1_0000_0000
    && r.g == (x.g + y.g) % 0x1_0000_0000 && r.h == (x.h + y.h) % 0x1_0000_0000
  }

  lemma Sums(x: Words, y: Words)
    ensures WordSums(x, y, AddWords(x, y))
  {
  }

  // ---- the message and the digest ----

  /** Section 5.1.1: the message, the byte 0x80, the fewest zeros, and the length in bits. */
  lemma PadLaw(m: seq<Byte>)
    ensures var p := Pad(m);
            && |p| % 64 == 0 && |m| + 9 <= |p| < |m| + 73
            && p[..|m|] == m && p[|m|] == 0x80
            && (forall i :: |m| < i < |p| - 8 ==> p[i] == 0)
            && BeNat(p[|p| - 8..]) == 8 * |m| % 0x1_0000_0000_0000_0000
  {
    var front, field := [0x80] + Zeros(ZeroBytes(|m|)), LengthBytes(8 * |m|);
    assert Pad(m) == m + (front + field);
    FieldIsLast(m, front, field);
    FieldOf(8 * |m|);
    forall i | |m| < i < |Pad(m)| - 8
      ensures Pad(m)[i] == 0
    {
      assert Pad(m)[i] == Zeros(ZeroBytes(|m|))[i - |m| - 1];
    }
  }

  lemma FieldOf(bits: nat)
    ensures BeNat(LengthBytes(bits)) == bits % 0x1_0000_0000_0000_0000
  {
    Pow256Values();
    FieldReads(bits % TWO64, LengthBytes(bits));
  }

  /** The hash value starts at the initial one and takes the blocks in order. */
  lemma AbsorbLaw(f: Compression, whole: seq<Byte>, block: Block)
    requires |whole| % 64 == 0
    ensures Absorb(f, []) == INITIAL
    ensures |whole + block| % 64 == 0 && Absorb(f, whole + block) == f(Absorb(f, whole), block)
  {
    var d := whole + block;
    assert d[..|d| - 64] == whole && d[|d| - 64..] == block;
  }

  /** The digest is the final hash value, each word big-endian. */
  lemma DigestLaw(m: seq<Byte>)
    ensures var h, d := Absorb(Compress, Pad(m)), Digest(m);
            && BeNat(d[0..4]) == h.a && BeNat(d[4..8]) == h.b && BeNat(d[8..12]) == h.c && BeNat(d[12..16]) == h.d
            && BeNat(d[16..20]) == h.e && BeNat(d[20..24]) == h.f && BeNat(d[24..28]) == h.g && BeNat(d[28..32]) == h.h
  {
    DigestBytesLaw(Absorb(Compress, Pad(m)));
  }

  lemma DigestBytesLaw(h: Words)
    ensures var d := DigestBytes(h);
            && BeNat(d[0..4]) == h.a && BeNat(d[4..8]) == h.b && BeNat(d[8..12]) == h.c && BeNat(d[12..16]) == h.d
            && BeNat(d[16..20]) == h.e && BeNat(d[20..24]) == h.f && BeNat(d[24..28]) == h.g && BeNat(d[28..32]) == h.h
  {
    EightParts(WordBytes(h.a), WordBytes(h.b), WordBytes(h.c), WordBytes(h.d),
               WordBytes(h.e), WordBytes(h.f), WordBytes(h.g), WordBytes(h.h));
    WordReads(h.a);
    WordReads(h.b);
    WordReads(h.c);
    WordReads(h.d);
    WordReads(h.e);
    WordReads(h.f);
    WordReads(h.g);
    WordReads(h.h);
  }

  lemma WordReads(w: Word)
    ensures BeNat(WordBytes(w)) == w
  {
    BeNatToBe(w, 4);
    Pow256Values();
  }

  lemma EightParts(a: seq<Byte>, b: seq<Byte>, c: seq<Byte>, d: seq<Byte>,
                   e: seq<Byte>, f: seq<Byte>, g: seq<Byte>, h: seq<Byte>)
    requires |a| == 4 && |b| == 4 && |c| == 4 && |d| == 4 && |e| == 4 && |f| == 4 && |g| == 4 && |h| == 4
    ensures var s := a + b + c + d + e + f + g + h;
            && s[0..4] == a && s[4..8] == b && s[8..12] == c && s[12..16] == d
            && s[16..20] == e && s[20..24] == f && s[24..28] == g && s[28..32] == h
  {
  }
}
