/** The streaming SHA-256 of src/pow/sha256.cpp, proved against `Fips180`. */
module Sha256 {
  import opened Bits
  import opened Bytes
  import opened Fips180
  import opened Streaming

  class Hasher {
    var state: array<Word>
    var bitlen: nat
    var buf: array<Byte>
    var buflen: nat

    ghost predicate Valid()
      reads this
    {
      state.Length == 8 && buf.Length == 64 && buflen < 64
    }

    /** The abstract stream state held in the four fields. */
    ghost function View(): Stream
      requires Valid()
      reads this, state, buf
    {
      Stream(WordsOf(state[..]), buf[..buflen], bitlen)
    }

    constructor ()
      ensures Valid() && View() == START && fresh(state) && fresh(buf)
    {
      state := new Word[8](_ => 0);
      buf := new Byte[64](_ => 0);
      new;
      Reset();
    }

    method Reset()
      requires state.Length == 8 && buf.Length == 64
      modifies this, state
      ensures Valid() && View() == START && state == old(state) && buf == old(buf)
    {
      SetInitial();
      bitlen := 0;
      buflen := 0;
    }

    method SetInitial()
      requires state.Length == 8
      modifies state
      ensures WordsOf(state[..]) == INITIAL
    {
      state[0] := 0x6a09e667;
      state[1] := 0xbb67ae85;
      state[2] := 0x3c6ef372;
      state[3] := 0xa54ff53a;
      state[4] := 0x510e527f;
      state[5] := 0x9b05688c;
      state[6] := 0x1f83d9ab;
      state[7] := 0x5be0cd19;
    }

    method Transform(block: Block)
      requires state.Length == 8
      modifies state
      ensures WordsOf(state[..]) == Compress(WordsOf(old(state[..])), block)
    {
      ghost var v0 := WordsOf(state[..]);
      var m := BuildSchedule(block);
      var v := RunRounds(Words(state[0], state[1], state[2], state[3], state[4], state[5], state[6], state[7]), m);
      assert v == Rounds(v0, ScheduleOf(block));
      AddInto(v);
    }

    /** One turn of the loop in `update`. */
    method Put(x: Byte)
      requires Valid()
      modifies this, state, buf
      ensures Valid() && state == old(state) && buf == old(buf)
      ensures View() == Feed(Compress, old(View()), x)
      ensures buflen == (old(buflen) + 1) % 64
    {
      NextLength(buflen);
      Store(x);
      ghost var s, tail := old(View()), buf[..buflen];
      assert tail == s.tail + [x];
      if buflen == 64 {
        FlushBlock();
        assert View() == Stream(Compress(s.h, tail), [], (s.bits + 512) % TWO64);
      } else {
        assert View() == s.(tail := tail);
      }
    }

    /** Line 82. */
    method Store(x: Byte)
      requires Valid()
      modifies this`buflen, buf
      ensures buflen == old(buflen) + 1 && buf[..buflen] == old(buf[..buflen]) + [x]
    {
      buf[buflen] := x;
      buflen := buflen + 1;
    }

    /** Lines 84-86: the buffer is a whole block. */
    method FlushBlock()
      requires state.Length == 8 && buf.Length == 64 && buflen == 64
      modifies this`bitlen, this`buflen, state
      ensures buflen == 0 && bitlen == (old(bitlen) + 512) % TWO64
      ensures WordsOf(state[..]) == Compress(WordsOf(old(state[..])), old(buf[..buflen]))
    {
      ghost var h := Compress(WordsOf(state[..]), buf[..buflen]);
      Transform(buf[..buflen]);
      assert WordsOf(state[..]) == h;
      bitlen := (bitlen + 512) % TWO64;
      buflen := 0;
    }

    method Update(data: seq<Byte>)
      requires Valid()
      modifies this, state, buf
      ensures Valid() && state == old(state) && buf == old(buf)
      ensures View() == FeedAll(Compress, old(View()), data)
    {
      for i := 0 to |data|
        invariant Valid() && state == old(state) && buf == old(buf)
        invariant View() == FeedAll(Compress, old(View()), data[..i])
      {
        Put(data[i]);
        assert data[..i + 1][..i] == data[..i];
      }
      assert data[..|data|] == data;
    }

    /** Pads, and writes out the digest of everything fed so far. */
    method Finish() returns (out: seq<Byte>)
      requires Valid()
      modifies this, state, buf
      ensures Valid() && state == old(state) && buf == old(buf)
      ensures View() == FeedAll(Compress, old(View()), Padding(old(View())))
      ensures out == DigestBytes(View().h)
    {
      ghost var s := View();
      var bits := (bitlen + 8 * buflen) % TWO64;
      Put(0x80);
      FillZeros(s);
      var lenbuf := LengthField8(bits);
      PaddingInTurn(Compress, s, lenbuf);
      Update(lenbuf);
      out := Emit();
    }

    /** Line 97: zeros until the block has room for the length only. */
    method FillZeros(ghost s: Stream)
      requires Valid() && |s.tail| < 64 && View() == Feed(Compress, s, 0x80) && buflen == (|s.tail| + 1) % 64
      modifies this, state, buf
      ensures Valid() && state == old(state) && buf == old(buf)
      ensures View() == Zeroed(Compress, s, ZeroBytes(|s.tail|))
    {
      ghost var n, total := 0, ZeroBytes(|s.tail|);
      ZeroedFirst(Compress, s);
      FirstLeft(|s.tail|);
      while buflen != 56
        invariant Valid() && state == old(state) && buf == old(buf)
        invariant View() == Zeroed(Compress, s, n)
        invariant n + ZerosLeft(buflen) == total
        decreases ZerosLeft(buflen)
      {
        LeftStep(buflen);
        ZeroedNext(Compress, s, n);
        Put(0);
        n := n + 1;
      }
    }

    /** Lines 103-108. */
    method Emit() returns (out: seq<Byte>)
      requires state.Length == 8
      ensures out == DigestBytes(WordsOf(state[..]))
    {
      out := [];
      var a := WordOut(state[0]);
      var b := WordOut(state[1]);
      var c := WordOut(state[2]);
      var d := WordOut(state[3]);
      var e := WordOut(state[4]);
      var f := WordOut(state[5]);
      var g := WordOut(state[6]);
      var h := WordOut(state[7]);
      out := a + b + c + d + e + f + g + h;
    }

    /** Lines 70-77. */
    method AddInto(v: Words)
      requires state.Length == 8
      modifies state
      ensures WordsOf(state[..]) == AddWords(WordsOf(old(state[..])), v)
    {
      state[0] := Add(state[0], v.a);
      state[1] := Add(state[1], v.b);
      state[2] := Add(state[2], v.c);
      state[3] := Add(state[3], v.d);
      state[4] := Add(state[4], v.e);
      state[5] := Add(state[5], v.f);
      state[6] := Add(state[6], v.g);
      state[7] := Add(state[7], v.h);
    }
  }

  /** Zero bytes still to come before the block has room for the length only. */
  ghost function ZerosLeft(len: nat): nat {
    (56 - len) % 64
  }

  lemma NextLength(len: nat)
    requires len < 64
    ensures (len + 1) % 64 == if len == 63 then 0 else len + 1
  {
  }

  lemma LeftStep(len: nat)
    requires len < 64 && len != 56
    ensures ZerosLeft(len) > 0 && ZerosLeft((len + 1) % 64) == ZerosLeft(len) - 1
  {
  }

  lemma FirstLeft(len: nat)
    requires len < 64
    ensures ZerosLeft((len + 1) % 64) == ZeroBytes(len)
  {
  }

  method WordOut(w: Word) returns (s: seq<Byte>)
    ensures s == WordBytes(w)
  {
    s := [ByteAt(w, 3), ByteAt(w, 2), ByteAt(w, 1), ByteAt(w, 0)];
    forall i | 0 <= i < 4
      ensures s[i] == ToBe(w, 4)[i]
    {
      ToBeAt(w, 4, i);
    }
  }

  /** Lines 99-100. */
  method LengthField8(bits: nat) returns (s: seq<Byte>)
    requires bits < TWO64
    ensures s == LengthBytes(bits)
  {
    var a := new Byte[8](_ => 0);
    for i := 0 to 8
      invariant forall k :: 0 <= k < i ==> a[k] == ByteAt(bits, 7 - k)
    {
      a[i] := ByteAt(bits, 7 - i);
    }
    s := a[..];
  }

  ghost function WordsOf(s: seq<Word>): Words
    requires |s| == 8
  {
    Words(s[0], s[1], s[2], s[3], s[4], s[5], s[6], s[7])
  }

  /** Lines 50-68. */
  method RunRounds(v0: Words, m: array<Word>) returns (v: Words)
    requires m.Length == 64
    ensures v == Rounds(v0, m[..])
  {
    var Words(a, b, c, d, e, f, g, h) := v0;
    for i := 0 to 64
      invariant Words(a, b, c, d, e, f, g, h) == Rounds(v0, m[..i])
    {
      assert m[..i + 1][..i] == m[..i];
      var t1, t2 := Temporaries(Words(a, b, c, d, e, f, g, h), RoundConstant(i), m[i]);
      h := g;
      g := f;
      f := e;
      e := Add(d, t1);
      d := c;
      c := b;
      b := a;
      a := Add(t1, t2);
    }
    assert m[..64] == m[..];
    v := Words(a, b, c, d, e, f, g, h);
  }

  /** Lines 54-59. */
  method Temporaries(v: Words, k: Word, w: Word) returns (t1: Word, t2: Word)
    ensures t1 == T1(v, k, w) && t2 == T2(v)
  {
    var s1 := Xor(Xor(Rotr(v.e, 6), Rotr(v.e, 11)), Rotr(v.e, 25));
    var ch := Xor(And(v.e, v.f), And(Not(v.e), v.g));
    t1 := Add(Add(Add(Add(v.h, s1), ch), k), w);
    var s0 := Xor(Xor(Rotr(v.a, 2), Rotr(v.a, 13)), Rotr(v.a, 22));
    var maj := Xor(Xor(And(v.a, v.b), And(v.a, v.c)), And(v.b, v.c));
    t2 := Add(s0, maj);
  }

  /** Entry `t` satisfies the recurrence of the schedule. */
  ghost predicate ExtendedAt(ws: seq<Word>, t: nat)
    requires 16 <= t < |ws|
  {
    ws[t] == NextWord(ws[t - 2], ws[t - 7], ws[t - 15], ws[t - 16])
  }

  ghost predicate Extended(ws: seq<Word>) {
    |ws| == 64 && forall t :: 16 <= t < 64 ==> ExtendedAt(ws, t)
  }

  lemma ScheduleExtends(block: Block)
    ensures Extended(ScheduleOf(block))
  {
    var ws := ScheduleOf(block);
    forall t | 16 <= t < 64
      ensures ExtendedAt(ws, t)
    {
      ScheduleAt(block, ws, t);
    }
  }

  lemma ScheduleAt(block: Block, ws: seq<Word>, t: nat)
    requires ws == ScheduleOf(block) && 16 <= t < 64
    ensures ExtendedAt(ws, t)
  {
    ScheduleWordAt(block, t, ws[t - 2], ws[t - 7], ws[t - 15], ws[t - 16]);
  }

  lemma ScheduleWordAt(block: Block, t: nat, w2: Word, w7: Word, w15: Word, w16: Word)
    requires 16 <= t < 64 && w2 == Schedule(block, t - 2) && w7 == Schedule(block, t - 7)
    requires w15 == Schedule(block, t - 15) && w16 == Schedule(block, t - 16)
    ensures Schedule(block, t) == NextWord(w2, w7, w15, w16)
  {
  }

  /** Lines 37-48: sixteen words read from the block, forty-eight computed. */
  method BuildSchedule(block: Block) returns (m: array<Word>)
    ensures fresh(m) && m.Length == 64 && m[..] == ScheduleOf(block)
  {
    m := new Word[64](_ => 0);
    ReadBlock(block, m);
    ScheduleExtends(block);
    Extend(m, ScheduleOf(block));
  }

  /** Lines 38-43. */
  method ReadBlock(block: Block, m: array<Word>)
    requires m.Length == 64
    modifies m
    ensures forall t :: 0 <= t < 16 ==> m[t] == BlockWord(block, t)
  {
    for i := 0 to 16
      invariant forall t :: 0 <= t < i ==> m[t] == BlockWord(block, t)
    {
      m[i] := ReadWord(block[4 * i], block[4 * i + 1], block[4 * i + 2], block[4 * i + 3]);
    }
  }

  /** Lines 44-48. */
  method Extend(m: array<Word>, ghost ws: seq<Word>)
    requires m.Length == 64 && Extended(ws) && forall t :: 0 <= t < 16 ==> m[t] == ws[t]
    modifies m
    ensures m[..] == ws
  {
    for i := 16 to 64
      invariant forall t :: 0 <= t < i ==> m[t] == ws[t]
    {
      assert ExtendedAt(ws, i);
      m[i] := ScheduleWord(m[i - 16], m[i - 15], m[i - 7], m[i - 2]);
    }
  }

  /** Lines 39-42. */
  method ReadWord(b0: Byte, b1: Byte, b2: Byte, b3: Byte) returns (w: Word)
    ensures w == BeWord(b0, b1, b2, b3)
  {
    JoinIsSum(b0, b1, b2, b3);
    w := JoinBytes(b0, b1, b2, b3);
  }

  /** Lines 45-47. */
  method ScheduleWord(w16: Word, w15: Word, w7: Word, w2: Word) returns (w: Word)
    ensures w == NextWord(w2, w7, w15, w16)
  {
    var s0 := Xor(Xor(Rotr(w15, 7), Rotr(w15, 18)), Shr(w15, 3));
    var s1 := Xor(Xor(Rotr(w2, 17), Rotr(w2, 19)), Shr(w2, 10));
    w := Add(Add(Add(w16, s0), w7), s1);
    AddReorder(w16, s0, w7, s1);
  }

  lemma AddAgain(x: nat, y: nat)
    ensures (x % 0x1_0000_0000 + y) % 0x1_0000_0000 == (x + y) % 0x1_0000_0000
  {
  }

  lemma Add4(a: Word, b: Word, c: Word, d: Word)
    ensures Add(Add(Add(a, b), c), d) == (a + b + c + d) % 0x1_0000_0000
  {
    AddAgain(a + b, c);
    AddAgain(a + b + c, d);
  }

  /** The source adds the four terms in the opposite order. */
  lemma AddReorder(a: Word, b: Word, c: Word, d: Word)
    ensures Add(Add(Add(a, b), c), d) == Add(Add(Add(d, c), b), a)
  {
    Add4(a, b, c, d);
    Add4(d, c, b, a);
  }

  /** The bytes of all the pieces, in order. */
  function Flatten(chunks: seq<seq<Byte>>): seq<Byte> {
    if chunks == [] then [] else Flatten(chunks[..|chunks| - 1]) + chunks[|chunks| - 1]
  }

  /** Any sequence of `update` calls, then `finish`: the FIPS 180-4 digest of the concatenation. */
  method HashChunks(chunks: seq<seq<Byte>>) returns (out: seq<Byte>)
    ensures out == Digest(Flatten(chunks))
  {
    var h := new Hasher();
    for i := 0 to |chunks|
      invariant h.Valid() && fresh(h) && fresh(h.state) && fresh(h.buf)
      invariant h.View() == FeedAll(Compress, START, Flatten(chunks[..i]))
    {
      h.Update(chunks[i]);
      ChunkFed(Compress, chunks, i);
    }
    assert chunks[..|chunks|] == chunks;
    out := h.Finish();
    FedAndPadded(Flatten(chunks));
  }

  lemma ChunkFed(f: Compression, chunks: seq<seq<Byte>>, i: nat)
    requires i < |chunks|
    ensures FeedAll(f, FeedAll(f, START, Flatten(chunks[..i])), chunks[i]) ==
            FeedAll(f, START, Flatten(chunks[..i + 1]))
  {
    assert chunks[..i + 1][..i] == chunks[..i];
    FeedAllConcat(f, START, Flatten(chunks[..i]), chunks[i]);
  }

  lemma FedAndPadded(m: seq<Byte>)
    ensures var s := FeedAll(Compress, START, m);
            DigestBytes(FeedAll(Compress, s, Padding(s)).h) == Digest(m)
  {
    StreamingIsHashing(Compress, m);
  }

  /** `sha256`. */
  method OneShot(data: seq<Byte>) returns (out: seq<Byte>)
    ensures out == Digest(data)
  {
    out := HashChunks([data]);
    assert [data][..0] == [] && [] + data == data;
  }

  /** `sha256d`. */
  method Double(data: seq<Byte>) returns (out: seq<Byte>)
    ensures out == DoubleDigest(data)
  {
    var tmp := OneShot(data);
    out := OneShot(tmp);
  }
}
