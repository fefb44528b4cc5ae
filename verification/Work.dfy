/**
  Work assembly, as in src/stratum/work.cpp: the coinbase, the Merkle fold and the 80-byte
  block header.  The double hash is a parameter here; `Sha256.Double` computes it.
 */
module Work {
  import opened Arith
  import opened Bytes
  import opened Jobs
  import opened Target
  import Hex
  import Merkle

  /** A mining.notify payload, fields kept as received. */
  datatype StratumJob = StratumJob(
    jobId: string,
    prevhash: string,
    coinb1: string,
    coinb2: string,
    merkleBranch: seq<string>,
    version: string,
    nbits: string,
    ntime: string,
    cleanJobs: bool)

  type Hash = Merkle.NodeHash

  predicate IsHexOf(s: string, bytes: nat) {
    Hex.IsHex(s) && |s| == 2 * bytes
  }

  predicate BranchOk(branch: seq<string>) {
    forall i :: 0 <= i < |branch| ==> IsHexOf(branch[i], 32)
  }

  /** Every field decodes and has the length the header needs. */
  predicate WellFormed(j: StratumJob, xn1: string, xn2: string) {
    && Hex.IsHex(j.coinb1) && Hex.IsHex(j.coinb2) && Hex.IsHex(xn1) && Hex.IsHex(xn2)
    && BranchOk(j.merkleBranch)
    && IsHexOf(j.version, 4) && IsHexOf(j.nbits, 4) && IsHexOf(j.ntime, 4)
    && IsHexOf(j.prevhash, 32)
  }

  function Coinbase(j: StratumJob, xn1: string, xn2: string): seq<Byte>
    requires Hex.IsHex(j.coinb1) && Hex.IsHex(j.coinb2) && Hex.IsHex(xn1) && Hex.IsHex(xn2)
  {
    Hex.Decoded(j.coinb1) + Hex.Decoded(xn1) + Hex.Decoded(xn2) + Hex.Decoded(j.coinb2)
  }

  /** First part, extranonce1, extranonce2, second part. */
  lemma CoinbaseLaw(j: StratumJob, xn1: string, xn2: string)
    requires Hex.IsHex(j.coinb1) && Hex.IsHex(j.coinb2) && Hex.IsHex(xn1) && Hex.IsHex(xn2)
    ensures var c := Coinbase(j, xn1, xn2);
            var a := |j.coinb1| / 2;
            var b := a + |xn1| / 2;
            var d := b + |xn2| / 2;
            && |c| == d + |j.coinb2| / 2
            && c[..a] == Hex.Decoded(j.coinb1) && c[a..b] == Hex.Decoded(xn1)
            && c[b..d] == Hex.Decoded(xn2) && c[d..] == Hex.Decoded(j.coinb2)
  {
    FourParts(Hex.Decoded(j.coinb1), Hex.Decoded(xn1), Hex.Decoded(xn2), Hex.Decoded(j.coinb2));
  }

  lemma FourParts(p: seq<Byte>, q: seq<Byte>, r: seq<Byte>, s: seq<Byte>)
    ensures var c := p + q + r + s;
            && c[..|p|] == p && c[|p|..|p| + |q|] == q
            && c[|p| + |q|..|p| + |q| + |r|] == r && c[|p| + |q| + |r|..] == s
  {
  }

  function DecodedBranch(branch: seq<string>): (b: seq<seq<Byte>>)
    requires BranchOk(branch)
    ensures |b| == |branch|
  {
    seq(|branch|, i requires 0 <= i < |branch| => Hex.Decoded(branch[i]))
  }

  function MerkleRoot(h: Hash, j: StratumJob, xn1: string, xn2: string): seq<Byte>
    requires WellFormed(j, xn1, xn2)
  {
    Merkle.Fold(h, h(Coinbase(j, xn1, xn2)), DecodedBranch(j.merkleBranch))
  }

  // ---- the block header ----

  datatype Header = Header(
    version: nat, prevHash: seq<Byte>, merkleRoot: seq<Byte>, time: nat, bits: nat, nonce: nat)

  /** How a Bitcoin node reads the 80 bytes. */
  function DecodeHeader(b: seq<Byte>): Header
    requires |b| == 80
  {
    Header(LeNat(b[0..4]), b[4..36], b[36..68], LeNat(b[68..72]), LeNat(b[72..76]), LeNat(b[76..80]))
  }

  /** Each 32-bit word of the pool's previous hash, byte-reversed. */
  function WordSwapped(p: seq<Byte>): (r: seq<Byte>)
    requires |p| == 32
    ensures |r| == 32
  {
    seq(32, i requires 0 <= i < 32 => p[i / 4 * 4 + (3 - i % 4)])
  }

  /** Each word of the header's hash, read little-endian, is the pool's word read big-endian. */
  lemma WordSwappedReads(p: seq<Byte>, w: nat)
    requires |p| == 32 && w < 8
    ensures LeNat(WordSwapped(p)[4 * w..4 * w + 4]) == BeNat(p[4 * w..4 * w + 4])
  {
    var a, b := WordSwapped(p)[4 * w..4 * w + 4], p[4 * w..4 * w + 4];
    forall k | 0 <= k < 4
      ensures a[k] == Reverse(b)[k]
    {
      WordSwappedAt(p, w, k);
    }
    assert a == Reverse(b);
    BeIsReversedLe(b);
  }

  lemma WordSwappedAt(p: seq<Byte>, w: nat, k: nat)
    requires |p| == 32 && w < 8 && k < 4
    ensures WordSwapped(p)[4 * w + k] == p[4 * w + 3 - k]
  {
  }

  /** Swapping twice gives the pool's bytes back. */
  lemma WordSwappedTwice(p: seq<Byte>)
    requires |p| == 32
    ensures WordSwapped(WordSwapped(p)) == p
  {
  }

  function Layout(version: nat, prev: seq<Byte>, root: seq<Byte>, time: nat, bits: nat): (b: seq<Byte>)
    requires |prev| == 32 && |root| == 32
    ensures |b| == 80
  {
    ToLe(version, 4) + WordSwapped(prev) + root + ToLe(time, 4) + ToLe(bits, 4) + Zeros(4)
  }

  /** The decoder recovers every field that was laid out, and a zero nonce. */
  lemma DecodeLayout(version: nat, prev: seq<Byte>, root: seq<Byte>, time: nat, bits: nat)
    requires |prev| == 32 && |root| == 32 && version < TWO32 && time < TWO32 && bits < TWO32
    ensures DecodeHeader(Layout(version, prev, root, time, bits)) ==
            Header(version, WordSwapped(prev), root, time, bits, 0)
  {
    Slices(ToLe(version, 4), WordSwapped(prev), root, ToLe(time, 4), ToLe(bits, 4), Zeros(4));
    FourByteField(version);
    FourByteField(time);
    FourByteField(bits);
    LeNatZeros(4);
  }

  lemma FourByteField(v: nat)
    requires v < TWO32
    ensures LeNat(ToLe(v, 4)) == v
  {
    Pow256Values();
    LeNatToLeExact(v, 4);
  }

  lemma Slices(a: seq<Byte>, b: seq<Byte>, c: seq<Byte>, d: seq<Byte>, e: seq<Byte>, f: seq<Byte>)
    requires |a| == 4 && |b| == 32 && |c| == 32 && |d| == 4 && |e| == 4 && |f| == 4
    ensures var s := a + b + c + d + e + f;
            && s[0..4] == a && s[4..36] == b && s[36..68] == c
            && s[68..72] == d && s[72..76] == e && s[76..80] == f
  {
  }

  /** Splicing a nonce into the header changes the decoded nonce and no other field. */
  lemma SplicedHeader(b: seq<Byte>, nonce: nat)
    requires |b| == 80 && nonce < TWO32
    ensures DecodeHeader(Splice(b, 76, nonce)) == DecodeHeader(b).(nonce := nonce)
  {
    var s := Splice(b, 76, nonce);
    assert s[0..4] == b[0..4] && s[4..36] == b[4..36] && s[36..68] == b[36..68];
    assert s[68..72] == b[68..72] && s[72..76] == b[72..76];
    SpliceReadsBack(b, 76, nonce);
  }

  /** Lines 62-67. */
  method PutSwapped(h: array<Byte>, prev: seq<Byte>)
    requires h.Length == 80 && |prev| == 32
    modifies h
    ensures h[..] == old(h[..4]) + WordSwapped(prev) + old(h[36..])
  {
    for w := 0 to 8
      invariant forall i :: 0 <= i < 4 ==> h[i] == old(h[i])
      invariant forall i :: 4 <= i < 4 + 4 * w ==> h[i] == WordSwapped(prev)[i - 4]
      invariant forall i :: 36 <= i < 80 ==> h[i] == old(h[i])
    {
      h[4 + w * 4] := prev[w * 4 + 3];
      h[4 + w * 4 + 1] := prev[w * 4 + 2];
      h[4 + w * 4 + 2] := prev[w * 4 + 1];
      h[4 + w * 4 + 3] := prev[w * 4];
    }
  }

  /** `memcpy` of `src` to offset `off`. */
  method PutBytes(h: array<Byte>, off: nat, src: seq<Byte>)
    requires off + |src| <= h.Length
    modifies h
    ensures h[..] == old(h[..off]) + src + old(h[off + |src|..])
  {
    for i := 0 to |src|
      invariant forall k :: 0 <= k < h.Length && !(off <= k < off + i) ==> h[k] == old(h[k])
      invariant forall k :: off <= k < off + i ==> h[k] == src[k - off]
    {
      h[off + i] := src[i];
    }
  }

  method FillHeader(version: nat, prev: seq<Byte>, root: seq<Byte>, time: nat, bits: nat) returns (b: seq<Byte>)
    requires |prev| == 32 && |root| == 32
    ensures b == Layout(version, prev, root, time, bits)
  {
    var h := new Byte[80](_ => 0);
    ghost var v, p, t, n := ToLe(version, 4), WordSwapped(prev), ToLe(time, 4), ToLe(bits, 4);
    PutWord(h, 0, version);
    assert h[..] == v + Zeros(76);
    PutSwapped(h, prev);
    assert h[..] == v + p + Zeros(44);
    PutBytes(h, 36, root);
    assert h[..] == v + p + root + Zeros(12);
    PutWord(h, 17, time);
    assert h[..] == v + p + root + t + Zeros(8);
    PutWord(h, 18, bits);
    assert h[..] == v + p + root + t + n + Zeros(4);
    b := h[..];
  }

  /** What the decoded fields say of the 80 bytes, offset by offset. */
  lemma HeaderLaw(b: seq<Byte>, version: nat, prev: seq<Byte>, root: seq<Byte>, time: nat, bits: nat, nonce: nat)
    requires |b| == 80 && |prev| == 32
    requires DecodeHeader(b) == Header(version, WordSwapped(prev), root, time, bits, nonce)
    ensures LeNat(b[0..4]) == version
    ensures forall w: nat :: w < 8 ==> LeNat(b[4 + 4 * w..8 + 4 * w]) == BeNat(prev[4 * w..4 * w + 4])
    ensures b[36..68] == root && LeNat(b[68..72]) == time && LeNat(b[72..76]) == bits && LeNat(b[76..80]) == nonce
  {
    forall w: nat | w < 8
      ensures LeNat(b[4 + 4 * w..8 + 4 * w]) == BeNat(prev[4 * w..4 * w + 4])
    {
      assert b[4 + 4 * w..8 + 4 * w] == b[4..36][4 * w..4 * w + 4];
      WordSwappedReads(prev, w);
    }
  }

  // ---- build_work ----

  /** The fold loop; stops at the first branch node that is not 32 bytes of hex. */
  method FoldBranch(h: Hash, start: Hash256, branch: seq<string>) returns (r: Option<Hash256>)
    ensures r.Some? <==> BranchOk(branch)
    ensures r.Some? ==> r.value == Merkle.Fold(h, start, DecodedBranch(branch))
  {
    var merkle := start;
    for i := 0 to |branch|
      invariant BranchOk(branch[..i])
      invariant merkle == Merkle.Fold(h, start, DecodedBranch(branch[..i]))
    {
      var nb := Hex.FromHex(branch[i]);
      if nb.Err? {
        return None;
      }
      if |nb.value| != 32 {
        return None;
      }
      merkle := h(merkle + nb.value);
      assert branch[..i + 1] == branch[..i] + [branch[i]];
      ghost var db := DecodedBranch(branch[..i + 1]);
      assert db[..i] == DecodedBranch(branch[..i]) && db[i] == nb.value;
    }
    assert branch[..|branch|] == branch;
    return Some(merkle);
  }

  /** Everything `build_work` writes into its out-parameter on success. */
  predicate Built(h: Hash, j: StratumJob, xn1: string, xn2: string, prior: MiningJob, out: MiningJob)
    requires WellFormed(j, xn1, xn2)
  {
    && out == prior.(blob := out.blob, nonceOffset := 76, target := out.target, jobId := j.jobId,
                     extranonce2Hex := xn2, ntimeHex := j.ntime)
    && |out.blob| == 80
    && DecodeHeader(out.blob) == Header(
         BeNat(Hex.Decoded(j.version)), WordSwapped(Hex.Decoded(j.prevhash)), MerkleRoot(h, j, xn1, xn2),
         BeNat(Hex.Decoded(j.ntime)), BeNat(Hex.Decoded(j.nbits)), 0)
  }

  method BuildWork(h: Hash, j: StratumJob, xn1: string, xn2: string, diff: real, prior: MiningJob)
    returns (ok: bool, out: MiningJob)
    requires Convertible(diff)
    ensures ok <==>
            && Hex.IsHex(j.coinb1) && Hex.IsHex(j.coinb2) && Hex.IsHex(xn1) && Hex.IsHex(xn2)
            && (forall i :: 0 <= i < |j.merkleBranch| ==> Hex.IsHex(j.merkleBranch[i]) && |j.merkleBranch[i]| == 64)
            && Hex.IsHex(j.version) && |j.version| == 8 && Hex.IsHex(j.nbits) && |j.nbits| == 8
            && Hex.IsHex(j.ntime) && |j.ntime| == 8 && Hex.IsHex(j.prevhash) && |j.prevhash| == 64
    ensures ok <==> WellFormed(j, xn1, xn2)
    ensures !ok ==> out == prior
    ensures ok ==> Built(h, j, xn1, xn2, prior, out) && IsTargetValue(diff, LeNat(out.target))
  {
    ok, out := false, prior;
    var coinb1 := Hex.FromHex(j.coinb1);
    var coinb2 := Hex.FromHex(j.coinb2);
    var xn1b := Hex.FromHex(xn1);
    var xn2b := Hex.FromHex(xn2);
    if coinb1.Err? || coinb2.Err? || xn1b.Err? || xn2b.Err? {
      return;
    }
    var coinbase := coinb1.value + xn1b.value + xn2b.value + coinb2.value;
    var merkle := FoldBranch(h, h(coinbase), j.merkleBranch);
    if merkle.None? {
      return;
    }
    var version := Hex.Be32FromHex(j.version);
    var nbits := Hex.Be32FromHex(j.nbits);
    var ntime := Hex.Be32FromHex(j.ntime);
    var prevhash := Hex.FromHex(j.prevhash);
    if version.Err? || nbits.Err? || ntime.Err? || prevhash.Err? {
      return;
    }
    if |prevhash.value| != 32 {
      return;
    }
    var blob := FillHeader(version.value, prevhash.value, merkle.value, ntime.value, nbits.value);
    DecodeLayout(version.value, prevhash.value, merkle.value, ntime.value, nbits.value);
    var target := TargetFromDifficulty(diff);
    ok := true;
    out := prior.(blob := blob, nonceOffset := 76, target := target, jobId := j.jobId,
                  extranonce2Hex := xn2, ntimeHex := j.ntime);
  }

  // ---- extranonce2 ----

  method EncodeExtranonce2(value: nat, size: nat) returns (s: string)
    requires value < TWO64 && size <= 8
    ensures s == Extranonce2(value, size)
  {
    var b := new Byte[size](_ => 0);
    for i := 0 to size
      invariant forall k :: 0 <= k < i ==> b[k] == ByteAt(value, size - 1 - k)
    {
      b[i] := ByteAt(value, size - 1 - i);
    }
    forall k | 0 <= k < size
      ensures b[k] == ToBe(value, size)[k]
    {
      ToBeAt(value, size, k);
    }
    assert b[..] == ToBe(value, size);
    s := Hex.ToHex(b[..]);
  }

  function Extranonce2(value: nat, size: nat): string {
    Hex.Encoded(ToBe(value, size))
  }

  /** It reads back as the counter, big-endian, in `size` bytes. */
  lemma Extranonce2Law(value: nat, size: nat)
    ensures var s := Extranonce2(value, size);
            |s| == 2 * size && Hex.IsHex(s) && BeNat(Hex.Decoded(s)) == value % Pow256(size)
  {
    Hex.DecodeEncode(ToBe(value, size));
    BeNatToBe(value, size);
  }

  /** Two counter values that differ modulo 256^size give different coinbases. */
  lemma CoinbasesDiffer(j: StratumJob, xn1: string, size: nat, a: nat, b: nat)
    requires Hex.IsHex(j.coinb1) && Hex.IsHex(j.coinb2) && Hex.IsHex(xn1)
    requires a % Pow256(size) != b % Pow256(size)
    ensures Hex.IsHex(Extranonce2(a, size)) && Hex.IsHex(Extranonce2(b, size))
    ensures Coinbase(j, xn1, Extranonce2(a, size)) != Coinbase(j, xn1, Extranonce2(b, size))
  {
    var x, y := ToBe(a, size), ToBe(b, size);
    Hex.DecodeEncode(x);
    Hex.DecodeEncode(y);
    BeNatToBe(a, size);
    BeNatToBe(b, size);
    MiddleDiffers(Hex.Decoded(j.coinb1) + Hex.Decoded(xn1), x, y, Hex.Decoded(j.coinb2));
  }

  lemma MiddleDiffers(p: seq<Byte>, x: seq<Byte>, y: seq<Byte>, q: seq<Byte>)
    requires |x| == |y| && x != y
    ensures p + x + q != p + y + q
  {
    assert (p + x + q)[|p|..|p| + |x|] == x;
    assert (p + y + q)[|p|..|p| + |x|] == y;
  }

  /** Counters fewer than 256^size steps apart, taken modulo 2^64, never coincide modulo 256^size. */
  lemma CountersDiffer(start: nat, i: nat, k: nat, size: nat)
    requires size <= 8 && i < k < i + Pow256(size)
    ensures (start + i) % TWO64 % Pow256(size) != (start + k) % TWO64 % Pow256(size)
  {
    var p := Pow256(size);
    Pow256Add(size, 8 - size);
    Pow256Values();
    ModOfMod(start + i, p, Pow256(8 - size));
    ModOfMod(start + k, p, Pow256(8 - size));
    CloseResidues(start + i, start + k, p);
  }

  lemma ModOfMod(v: nat, p: nat, q: nat)
    requires p > 0 && q > 0
    ensures p * q > 0 && v % (p * q) % p == v % p
  {
    MulPos(p, q);
    DivBounds(v, p * q);
    ModOfRest(v, v / (p * q), v % (p * q), p, q);
  }

  lemma ModOfRest(v: nat, a: nat, w: nat, p: nat, q: nat)
    requires p > 0 && v == a * (p * q) + w
    ensures w % p == v % p
  {
    DivBounds(w, p);
    var b, r := w / p, w % p;
    Nested(v, a, b, r, p, q);
    MulMono(0, a, q);
    DivUnique(v, p, a * q + b, r);
  }

  lemma Nested(v: nat, a: nat, b: nat, r: nat, p: nat, q: nat)
    requires v == a * (p * q) + (b * p + r)
    ensures v == (a * q + b) * p + r
  {
    MulAssoc(a, q, p);
    MulDistrib(a * q, b, p);
  }

  lemma CloseResidues(a: nat, b: nat, p: nat)
    requires p > 0 && a < b < a + p
    ensures a % p != b % p
  {
    DivBounds(a, p);
    DivBounds(b, p);
    if a % p == b % p {
      var x, y := a / p, b / p;
      if y <= x {
        MulMono(y, x, p);
      } else {
        MulMono(x + 1, y, p);
        MulDistrib(x, 1, p);
      }
    }
  }
}
