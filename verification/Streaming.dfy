/**
  Block streaming, for any compression function: the state that src/pow/sha256.cpp keeps
  between calls, what one byte does to it, and why padding it byte by byte is padding the
  whole message.
 */
module Streaming {
  import opened Bytes
  import opened Fips180

  /** The hash value so far, the bytes of the unfinished block, and the bits hashed (modulo 2^64). */
  datatype Stream = Stream(h: Words, tail: seq<Byte>, bits: nat)

  const START: Stream := Stream(INITIAL, [], 0)

  function Feed(f: Compression, s: Stream, x: Byte): Stream {
    if |s.tail| == 63 then Stream(f(s.h, s.tail + [x]), [], (s.bits + 512) % TWO64)
    else s.(tail := s.tail + [x])
  }

  function FeedAll(f: Compression, s: Stream, data: seq<Byte>): Stream {
    if data == [] then s else Feed(f, FeedAll(f, s, data[..|data| - 1]), data[|data| - 1])
  }

  /** How much of a message is whole blocks. */
  function WholeOf(m: seq<Byte>): (n: nat)
    ensures n <= |m| && n % 64 == 0 && |m| - n < 64
  {
    |m| - |m| % 64
  }

  /** The stream state that stands for the message `m`. */
  predicate Represents(f: Compression, s: Stream, m: seq<Byte>) {
    var n := WholeOf(m);
    && s.tail == m[n..]
    && s.bits == 8 * n % TWO64
    && s.h == Absorb(f, m[..n])
  }

  lemma FeedRepresents(f: Compression, s: Stream, m: seq<Byte>, x: Byte)
    requires Represents(f, s, m)
    ensures Represents(f, Feed(f, s, x), m + [x])
  {
    if |s.tail| == 63 {
      FeedBlock(f, s, m, x);
    } else {
      var n, m' := WholeOf(m), m + [x];
      SameWhole(|m|);
      assert m'[..n] == m[..n] && m'[n..] == m[n..] + [x];
    }
  }

  lemma SameWhole(len: nat)
    requires len % 64 != 63
    ensures len + 1 - (len + 1) % 64 == len - len % 64
  {
  }

  lemma FeedBlock(f: Compression, s: Stream, m: seq<Byte>, x: Byte)
    requires Represents(f, s, m) && |s.tail| == 63
    ensures Represents(f, Feed(f, s, x), m + [x])
  {
    var n, block := WholeOf(m), s.tail + [x];
    assert m + [x] == m[..n] + block;
    AbsorbBlock(f, m[..n], block);
    BitsGrow(n);
    assert (m + [x])[..n + 64] == m + [x];
  }

  lemma AbsorbBlock(f: Compression, whole: seq<Byte>, block: Block)
    requires |whole| % 64 == 0
    ensures |whole + block| % 64 == 0 && Absorb(f, whole + block) == f(Absorb(f, whole), block)
  {
    var d := whole + block;
    assert d[..|d| - 64] == whole && d[|d| - 64..] == block;
  }

  lemma BitsGrow(n: nat)
    ensures (8 * n % TWO64 + 512) % TWO64 == 8 * (n + 64) % TWO64
  {
  }

  /** Feeding bytes, in whatever pieces, represents their concatenation. */
  lemma FeedAllRepresents(f: Compression, s: Stream, m: seq<Byte>, data: seq<Byte>)
    requires Represents(f, s, m)
    ensures Represents(f, FeedAll(f, s, data), m + data)
  {
    var p := (s: Stream, m: seq<Byte>) => Represents(f, s, m);
    forall s, m, x: Byte | p(s, m)
      ensures p(Feed(f, s, x), m + [x])
    {
      FeedRepresents(f, s, m, x);
    }
    FeedAllKeeps(f, p, s, m, data);
  }

  /** A relation of stream to message that each byte keeps is kept by any number of bytes. */
  lemma {:induction false} FeedAllKeeps(
    f: Compression, p: (Stream, seq<Byte>) -> bool, s: Stream, m: seq<Byte>, data: seq<Byte>)
    requires p(s, m) && forall s, m, x: Byte :: p(s, m) ==> p(Feed(f, s, x), m + [x])
    ensures p(FeedAll(f, s, data), m + data)
  {
    if data == [] {
      assert m + data == m;
    } else {
      var front, last := data[..|data| - 1], data[|data| - 1];
      FeedAllKeeps(f, p, s, m, front);
      assert m + front + [last] == m + data;
    }
  }

  lemma {:induction false} FeedAllConcat(f: Compression, s: Stream, a: seq<Byte>, b: seq<Byte>)
    ensures FeedAll(f, s, a + b) == FeedAll(f, FeedAll(f, s, a), b)
  {
    if b == [] {
      assert a + b == a;
    } else {
      assert (a + b)[..|a + b| - 1] == a + b[..|b| - 1];
      FeedAllConcat(f, s, a, b[..|b| - 1]);
    }
  }

  /** What `finish` has fed after `n` zeros. */
  function Zeroed(f: Compression, s: Stream, n: nat): Stream {
    FeedAll(f, s, [0x80] + Zeros(n))
  }

  lemma ZeroedNext(f: Compression, s: Stream, n: nat)
    ensures Zeroed(f, s, n + 1) == Feed(f, Zeroed(f, s, n), 0)
  {
    var fed := [0x80] + Zeros(n + 1);
    assert fed[..|fed| - 1] == [0x80] + Zeros(n);
  }

  lemma ZeroedFirst(f: Compression, s: Stream)
    ensures Zeroed(f, s, 0) == Feed(f, s, 0x80)
  {
    var one: seq<Byte> := [0x80];
    assert one + Zeros(0) == one && one[..0] == [];
    assert FeedAll(f, s, one) == Feed(f, FeedAll(f, s, one[..0]), one[0]);
  }

  /** Everything `finish` feeds, from the state it finds. */
  function Padding(s: Stream): seq<Byte> {
    [0x80] + Zeros(ZeroBytes(|s.tail|)) + LengthBytes(s.bits + 8 * |s.tail|)
  }

  /** The mark, the zeros and then the length field are the whole padding. */
  lemma PaddingInTurn(f: Compression, s: Stream, field: seq<Byte>)
    requires field == LengthBytes((s.bits + 8 * |s.tail|) % TWO64)
    ensures FeedAll(f, Zeroed(f, s, ZeroBytes(|s.tail|)), field) == FeedAll(f, s, Padding(s))
  {
    var k := s.bits + 8 * |s.tail|;
    SameField(k % TWO64, k);
    FeedAllConcat(f, s, [0x80] + Zeros(ZeroBytes(|s.tail|)), field);
  }

  lemma PaddingIsStandard(f: Compression, s: Stream, m: seq<Byte>)
    requires Represents(f, s, m)
    ensures Padding(s) == PadBytes(|m|)
  {
    var n, k := WholeOf(m), |s.tail|;
    BitsOfLength(n, k);
    TailZeros(n, k);
    SameField(s.bits + 8 * k, 8 * |m|);
  }

  lemma TailZeros(n: nat, k: nat)
    requires n % 64 == 0
    ensures ZeroBytes(k) == ZeroBytes(n + k)
  {
  }

  lemma SameField(a: nat, b: nat)
    requires a % TWO64 == b % TWO64
    ensures LengthBytes(a) == LengthBytes(b)
  {
  }

  lemma BitsOfLength(n: nat, k: nat)
    ensures (8 * n % TWO64 + 8 * k) % TWO64 == 8 * (n + k) % TWO64
  {
  }

  /**
    Feeding a message in any pieces and then the padding computed from the state leaves the
    hash value of the padded message.
   */
  lemma StreamingIsHashing(f: Compression, m: seq<Byte>)
    ensures var s := FeedAll(f, START, m);
            FeedAll(f, s, Padding(s)).h == Absorb(f, Pad(m))
  {
    var s := FeedAll(f, START, m);
    assert Represents(f, START, []);
    FeedAllRepresents(f, START, [], m);
    assert [] + m == m;
    PaddingIsStandard(f, s, m);
    FeedAllRepresents(f, s, m, PadBytes(|m|));
    assert m + PadBytes(|m|) == Pad(m) && Pad(m)[..|Pad(m)|] == Pad(m);
  }
}
