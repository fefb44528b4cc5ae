/** The unit of work that the pool clients hand to the miner. */
module Jobs {
  import opened Bytes

  datatype Option<+T> = None | Some(value: T)

  /** A 256-bit value stored little-endian: index 0 is the least significant byte. */
  type Hash256 = s: seq<Byte> | |s| == 32 witness seq(32, _ => 0)

  datatype MiningJob = MiningJob(
    blob: seq<Byte>,
    nonceOffset: nat,
    target: Hash256,
    jobId: string,
    generation: nat,
    extranonce2Hex: string,
    ntimeHex: string)

  function EmptyJob(): MiningJob {
    MiningJob([], 0, seq(32, _ => 0), "", 0, "", "")
  }

  /** What a digest must satisfy to be a share: it is at most the target, as a number. */
  predicate Meets(hash: Hash256, target: Hash256) {
    LeNat(hash) <= LeNat(target)
  }

  /** The job's blob with the four nonce bytes at `off` replaced and nothing else touched. */
  function Splice(blob: seq<Byte>, off: nat, nonce: nat): (r: seq<Byte>)
    requires off + 4 <= |blob|
    ensures |r| == |blob|
  {
    blob[..off] + ToLe(nonce, 4) + blob[off + 4..]
  }

  /** Two blobs of one length that can differ only in the nonce window. */
  predicate AgreeOutside(a: seq<Byte>, b: seq<Byte>, off: nat) {
    && |a| == |b|
    && forall k :: 0 <= k < |a| && !(off <= k < off + 4) ==> a[k] == b[k]
  }

  /** Whatever earlier nonces a blob carries, splicing depends only on the job's own bytes. */
  lemma SpliceAgrees(a: seq<Byte>, b: seq<Byte>, off: nat, nonce: nat)
    requires AgreeOutside(a, b, off) && off + 4 <= |a|
    ensures Splice(a, off, nonce) == Splice(b, off, nonce)
    ensures AgreeOutside(Splice(a, off, nonce), b, off)
  {
    assert a[..off] == b[..off];
    assert a[off + 4..] == b[off + 4..];
  }

  /** The four stores of a nonce are its little-endian bytes. */
  lemma NonceBytes(nonce: nat)
    ensures ToLe(nonce, 4) == [ByteAt(nonce, 0), ByteAt(nonce, 1), ByteAt(nonce, 2), ByteAt(nonce, 3)]
  {
    forall k: nat | k < 4
      ensures ToLe(nonce, 4)[k] == ByteAt(nonce, k)
    {
      ToLeAt(nonce, 4, k);
    }
  }

  /** Reading the four bytes back gives the nonce. */
  lemma SpliceReadsBack(blob: seq<Byte>, off: nat, nonce: nat)
    requires off + 4 <= |blob| && nonce < TWO32
    ensures LeNat(Splice(blob, off, nonce)[off..off + 4]) == nonce
  {
    assert Splice(blob, off, nonce)[off..off + 4] == ToLe(nonce, 4);
    LeNatToLe(nonce, 4);
    Pow256Values();
  }
}
