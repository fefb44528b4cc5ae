/**
  From a pool's message to a share and back, along every run of the worker pool: what a share
  says about the job message it answers, and when it satisfies the check that the pool itself
  would make.
 */
module EndToEnd {
  import opened Bytes
  import opened Jobs
  import opened MinerPool
  import opened PoolWork
  import opened PoolTheorems
  import opened PoolKeys
  import Fips180
  import Hex
  import Merkle
  import Monero
  import Stratum
  import Target
  import TargetFormats
  import Work

  // ---- every published job is one that a client handed out ----

  /** A property of a job and its seed, as handed to `on_job`. */
  type Origin = (MiningJob, seq<Byte>) -> bool

  /** The publication number does not affect it. */
  ghost predicate IgnoresGeneration(ok: Origin) {
    forall job, seed, g: nat :: ok(job, seed) ==> ok(job.(generation := g), seed)
  }

  predicate Supplied(ok: Origin, acts: seq<Action>) {
    forall k :: 0 <= k < |acts| ==> SuppliedBy(ok, acts[k])
  }

  predicate SuppliedBy(ok: Origin, a: Action) {
    a.C? && a.cmd.OnJob? ==> ok(a.cmd.job, a.cmd.seed)
  }

  predicate Holds(ok: Origin, job: Option<MiningJob>, seed: seq<Byte>) {
    job.Some? ==> ok(job.value, seed)
  }

  predicate Carries(ok: Origin, s: State) {
    && Holds(ok, s.ctl.job, s.ctl.seed) && |s.stamps| == |s.log|
    && forall k :: 0 <= k < |s.log| ==> Holds(ok, s.log[k], s.stamps[k].seed)
  }

  /** What a step can do to the publications and to the job in the controller's hands. */
  predicate LogFrame(s: State, a: Action, t: State) {
    && (|| (t.log == s.log && t.stamps == s.stamps)
        || (&& t.log == s.log + [Stamped(s.ctl.job, s.sh.workGen + 1)]
            && t.stamps == s.stamps + [Stamp(s.sh.epoch, if s.ctl.job.Some? then s.ctl.seed else [])]))
    && (|| (t.ctl.job == s.ctl.job && t.ctl.seed == s.ctl.seed)
        || t.ctl.job.None?
        || (a.C? && a.cmd.OnJob? && t.ctl.job == Some(a.cmd.job) && t.ctl.seed == a.cmd.seed))
  }

  lemma LogFramesWorker(c: Config, s: State, i: nat)
    requires i < |s.ws|
    ensures LogFrame(s, W(i), WorkerNext(c, s, i))
  {
  }

  lemma LogFramesController(c: Config, s: State, cmd: Command)
    ensures LogFrame(s, C(cmd), CtlNext(c, s, cmd))
  {
  }

  lemma LogFrames(c: Config, s: State, a: Action)
    ensures LogFrame(s, a, Next(c, s, a))
  {
    match a
    case W(i) =>
      if i < |s.ws| {
        LogFramesWorker(c, s, i);
      }
    case C(cmd) =>
      LogFramesController(c, s, cmd);
  }

  lemma CarriesStep(ok: Origin, s: State, a: Action, t: State)
    requires IgnoresGeneration(ok) && Carries(ok, s) && SuppliedBy(ok, a) && LogFrame(s, a, t)
    ensures Carries(ok, t)
  {
    forall k | 0 <= k < |t.log|
      ensures Holds(ok, t.log[k], t.stamps[k].seed)
    {
      assert k < |s.log| ==> Holds(ok, s.log[k], s.stamps[k].seed);
    }
  }

  lemma {:induction false} CarriesRun(ok: Origin, c: Config, s: State, acts: seq<Action>)
    requires IgnoresGeneration(ok) && Carries(ok, s) && Supplied(ok, acts)
    ensures Carries(ok, Run(c, s, acts))
    decreases |acts|
  {
    if acts != [] {
      LogFrames(c, s, acts[0]);
      assert SuppliedBy(ok, acts[0]);
      CarriesStep(ok, s, acts[0], Next(c, s, acts[0]));
      forall k | 0 <= k < |acts[1..]|
        ensures SuppliedBy(ok, acts[1..][k])
      {
        assert acts[1..][k] == acts[k + 1];
      }
      CarriesRun(ok, c, Next(c, s, acts[0]), acts[1..]);
    }
  }

  /** Each share of a run is genuine, meets its target, and is on a job with the property. */
  lemma SharesOfSupplied(ok: Origin, c: Config, acts: seq<Action>, a: Attempt)
    requires ValidConfig(c) && ValidActions(acts) && IgnoresGeneration(ok) && Supplied(ok, acts)
    requires a in Run(c, Init(), acts).shares
    ensures var s := Run(c, Init(), acts);
            a.pub < |s.stamps| == |s.log| && ok(a.job, s.stamps[a.pub].seed)
    ensures Meets(a.digest, a.job.target) && a.nonce < TWO32
    ensures a.job.nonceOffset + 4 <= |a.job.blob|
    ensures a.digest == c.hash(a.key, a.epoch, Splice(a.job.blob, a.job.nonceOffset, a.nonce))
  {
    var s := Run(c, Init(), acts);
    assert Reachable(c, s);
    SharesAreGenuineAndComplete(c, s);
    CarriesRun(ok, c, Init(), acts);
    assert Genuine(c, s.log, a) && Holds(ok, s.log[a.pub], s.stamps[a.pub].seed);
  }

  // ---- Monero ----

  /** The job was handed out by `apply_job` for the fields `f`. */
  predicate FromFields(job: MiningJob, f: Monero.JobFields) {
    Monero.Acceptable(f) && job == Monero.JobOf(f).(generation := job.generation)
  }

  ghost predicate FromMonero(job: MiningJob, seed: seq<Byte>) {
    exists f :: FromFields(job, f) && seed == Monero.SeedOf(f)
  }

  /** What the Monero client hands to `on_job` is such a job, with its seed. */
  lemma MoneroHandsOut(f: Monero.JobFields, cb: Monero.Callback)
    requires Monero.HandsOut(f, cb) && cb.OnJob?
    ensures FromMonero(cb.job, cb.seed)
  {
    assert FromFields(cb.job, f);
  }

  /** The pool's check of a submit against the job message it had sent, under its own hash. */
  predicate PoolAccepts(hash: seq<Byte> -> Hash256, f: Monero.JobFields, m: Monero.SubmitMessage) {
    && Monero.Readable(f) && Monero.Decodable(m)
    && m.jobId == f.jobId.value
    && hash(Monero.PoolBlob(Hex.Decoded(f.blob.value), m)) == Hex.Decoded(m.result)
    && LeNat(Hex.Decoded(m.result)) <= LeNat(Monero.TargetOf(f))
  }

  /** Hashing by seed and blob, as RandomX defines it. */
  type SeedHash = (seq<Byte>, seq<Byte>) -> Hash256

  /**
    A hasher built for the cache as it stands hashes with the seed of its re-key.  Nothing is
    said of one that was built before a later re-key.
   */
  ghost predicate KeyedBy(c: Config, rx: SeedHash, s: State) {
    forall e, b :: 0 <= e < |s.seeds| ==> c.hash(e, e, b) == rx(s.seeds[e], b)
  }

  /** The blob whose hash is the share's digest. */
  function ShareBlob(a: Attempt): seq<Byte>
    requires a.job.nonceOffset + 4 <= |a.job.blob|
  {
    Splice(a.job.blob, a.job.nonceOffset, a.nonce)
  }

  lemma AcceptsShareIff(hash: seq<Byte> -> Hash256, f: Monero.JobFields, id: int, rpcId: string, a: Attempt)
    requires FromFields(a.job, f) && Meets(a.digest, a.job.target)
    ensures PoolAccepts(hash, f, Monero.Sent(id, rpcId, a.job, a.nonce, a.digest)) <==>
            hash(ShareBlob(a)) == a.digest
  {
    Monero.SubmitRebuildsShare(id, rpcId, a.job, a.nonce, a.digest);
  }

  lemma MoneroIgnoresGeneration()
    ensures IgnoresGeneration(FromMonero)
  {
    forall job: MiningJob, seed, g: nat | FromMonero(job, seed)
      ensures FromMonero(job.(generation := g), seed)
    {
      var f :| FromFields(job, f) && seed == Monero.SeedOf(f);
      assert FromFields(job.(generation := g), f);
    }
  }

  /**
    Along every run fed with jobs of the Monero client: the pool that sent the job hashes with
    that job's seed, and accepts the share if and only if that is what the worker's hasher
    computed.
   */
  lemma MoneroShareAcceptedIff(c: Config, rx: SeedHash, acts: seq<Action>, a: Attempt, id: int, rpcId: string)
    returns (f: Monero.JobFields, seed: seq<Byte>)
    requires ValidConfig(c) && ValidActions(acts) && Supplied(FromMonero, acts)
    requires a in Run(c, Init(), acts).shares
    ensures var s := Run(c, Init(), acts);
            && a.pub < |s.stamps| && s.stamps[a.pub].epoch < |s.seeds|
            && seed == s.seeds[s.stamps[a.pub].epoch]
            && FromFields(a.job, f)
            && (f.seedHash.Some? && f.seedHash.value != "" ==> seed == Hex.Decoded(f.seedHash.value))
            && (PoolAccepts(b => rx(seed, b), f, Monero.Sent(id, rpcId, a.job, a.nonce, a.digest)) <==>
                rx(seed, ShareBlob(a)) == c.hash(a.key, a.epoch, ShareBlob(a)))
  {
    var s := Run(c, Init(), acts);
    MoneroIgnoresGeneration();
    SharesOfSupplied(FromMonero, c, acts, a);
    f :| FromFields(a.job, f) && s.stamps[a.pub].seed == Monero.SeedOf(f);
    assert Reachable(c, s);
    PublishedUnderItsSeed(c, s, C(Wait));
    assert StampOk(s.seeds, s.stamps[a.pub]);
    seed := s.seeds[s.stamps[a.pub].epoch];
    AcceptsShareIff(b => rx(seed, b), f, id, rpcId, a);
  }

  /**
    In particular every share hashed with hasher, cache and publication of one epoch passes the
    pool's check with the seed that the job message names.
   */
  lemma MoneroSharesPassPoolCheck(c: Config, rx: SeedHash, acts: seq<Action>, a: Attempt, id: int, rpcId: string)
    returns (f: Monero.JobFields, seed: seq<Byte>)
    requires ValidConfig(c) && ValidActions(acts) && Supplied(FromMonero, acts)
    requires a in Run(c, Init(), acts).shares && KeyedBy(c, rx, Run(c, Init(), acts))
    requires var s := Run(c, Init(), acts); a.pub < |s.stamps| ==> Agree(a.key, a.epoch, s.stamps[a.pub])
    ensures FromFields(a.job, f)
    ensures f.seedHash.Some? && f.seedHash.value != "" ==> seed == Hex.Decoded(f.seedHash.value)
    ensures var m := Monero.Sent(id, rpcId, a.job, a.nonce, a.digest);
            var blob := Hex.Decoded(f.blob.value);
            && m.jobId == f.jobId.value && |blob| >= 43
            && Hex.IsHex(m.nonce) && |m.nonce| == 8 && Hex.IsHex(m.result) && |m.result| == 64
            && Hex.Decoded(m.result) == rx(seed, blob[..39] + Hex.Decoded(m.nonce) + blob[43..])
            && LeNat(Hex.Decoded(m.result)) <= LeNat(TargetFormats.MoneroTarget(Hex.Decoded(f.target.value)))
    ensures PoolAccepts(b => rx(seed, b), f, Monero.Sent(id, rpcId, a.job, a.nonce, a.digest))
  {
    f, seed := MoneroShareAcceptedIff(c, rx, acts, a, id, rpcId);
  }

  // ---- Stratum ----

  /** The session up to a rebuild: the notify payload, the two extranonces and the difficulty it had come to. */
  datatype Source = Source(
    session: seq<Stratum.Event>, job: Work.StratumJob, xn1: string, xn2: string, difficulty: real)

  /** The last job, the last name and the last difficulty of the session. */
  predicate FromSession(src: Source) {
    && src.job == Stratum.LastJob(src.session) && src.xn1 == Stratum.LastName(src.session)
    && src.difficulty == Stratum.LastDifficulty(src.session)
  }

  ghost predicate BuiltFrom(h: Work.Hash, job: MiningJob, src: Source) {
    && FromSession(src)
    && Work.WellFormed(src.job, src.xn1, src.xn2)
    && Work.Built(h, src.job, src.xn1, src.xn2, EmptyJob().(generation := job.generation), job)
    && Target.IsTargetValue(src.difficulty, LeNat(job.target))
  }

  /** A Stratum job comes without a seed. */
  ghost function FromStratum(h: Work.Hash): Origin {
    (job: MiningJob, seed: seq<Byte>) => seed == [] && exists src :: BuiltFrom(h, job, src)
  }

  /** What the Stratum client hands to `on_job`, always with an empty seed, is such a job. */
  lemma StratumHandsOut(h: Work.Hash, es: seq<Stratum.Event>, m: Stratum.Message, cb: Stratum.Callback)
    returns (src: Source)
    requires Stratum.Rebuilds(m) && Stratum.CanRebuild(Stratum.Received(Stratum.Played(es).s, m))
    requires Stratum.HandsOut(h, Stratum.Received(Stratum.Played(es).s, m), cb) && cb.OnJob?
    ensures src.session == es + [Stratum.Receive(m)]
    ensures BuiltFrom(h, cb.job, src) && FromStratum(h)(cb.job, [])
  {
    Stratum.RebuildsFrom(es, m);
    src := HandedOut(h, es + [Stratum.Receive(m)], Stratum.Received(Stratum.Played(es).s, m), cb);
    FromSource(h, cb.job, src);
  }

  lemma FromSource(h: Work.Hash, job: MiningJob, src: Source)
    requires BuiltFrom(h, job, src)
    ensures FromStratum(h)(job, [])
  {
  }

  lemma HandedOut(h: Work.Hash, es: seq<Stratum.Event>, s: Stratum.Session, cb: Stratum.Callback)
    returns (src: Source)
    requires Stratum.CanRebuild(s) && Stratum.HandsOut(h, s, cb) && cb.OnJob?
    requires s.job == Stratum.LastJob(es) && s.extranonce1 == Stratum.LastName(es)
    requires s.difficulty == Stratum.LastDifficulty(es)
    ensures src.session == es && BuiltFrom(h, cb.job, src)
  {
    src := Source(es, s.job, s.extranonce1, Work.Extranonce2(s.counter, s.extranonce2Size), s.difficulty);
    assert cb.job.generation == EmptyJob().generation;
  }

  /** The header that a node reads from the share: the fields of the notify, the folded root, the nonce. */
  function ShareHeader(h: Work.Hash, src: Source, nonce: nat): Work.Header
    requires Work.WellFormed(src.job, src.xn1, src.xn2)
  {
    Work.Header(
      BeNat(Hex.Decoded(src.job.version)), Work.WordSwapped(Hex.Decoded(src.job.prevhash)),
      Work.MerkleRoot(h, src.job, src.xn1, src.xn2),
      BeNat(Hex.Decoded(src.job.ntime)), BeNat(Hex.Decoded(src.job.nbits)), nonce)
  }

  lemma StratumIgnoresGeneration(h: Work.Hash)
    ensures IgnoresGeneration(FromStratum(h))
  {
    forall job: MiningJob, seed, g: nat | FromStratum(h)(job, seed)
      ensures FromStratum(h)(job.(generation := g), seed)
    {
      var src :| BuiltFrom(h, job, src);
      RestampedBuilt(h, job, src, g);
    }
  }

  lemma RestampedBuilt(h: Work.Hash, job: MiningJob, src: Source, g: nat)
    requires BuiltFrom(h, job, src)
    ensures BuiltFrom(h, job.(generation := g), src)
  {
  }

  lemma HeaderOfShare(h: Work.Hash, job: MiningJob, src: Source, nonce: nat)
    requires BuiltFrom(h, job, src) && nonce < TWO32
    ensures |job.blob| == 80 && job.nonceOffset == 76
    ensures Work.DecodeHeader(Splice(job.blob, 76, nonce)) == ShareHeader(h, src, nonce)
    ensures job.jobId == src.job.jobId && job.extranonce2Hex == src.xn2 && job.ntimeHex == src.job.ntime
  {
    Work.SplicedHeader(job.blob, nonce);
  }

  /**
    Along every run fed with jobs of the Stratum client and hashed by `h`, every share is an
    80-byte header that decodes to the notify's fields, the folded Merkle root and the nonce;
    its digest is the hash of that header and is at most the target of the difficulty in
    force; and the share's job carries the ids that the submit echoes.
   */
  lemma StratumSharesAreBlocksBelowTarget(h: Work.Hash, c: Config, acts: seq<Action>, a: Attempt)
    returns (src: Source, header: seq<Byte>)
    requires ValidConfig(c) && ValidActions(acts) && Supplied(FromStratum(h), acts)
    requires forall key, e, b :: c.hash(key, e, b) == h(b)
    requires a in Run(c, Init(), acts).shares
    ensures FromSession(src) && Work.WellFormed(src.job, src.xn1, src.xn2)
    ensures |header| == 80 && Work.DecodeHeader(header) == ShareHeader(h, src, a.nonce)
    ensures LeNat(header[0..4]) == BeNat(Hex.Decoded(src.job.version))
    ensures forall w: nat :: w < 8 ==>
              LeNat(header[4 + 4 * w..8 + 4 * w]) == BeNat(Hex.Decoded(src.job.prevhash)[4 * w..4 * w + 4])
    ensures header[36..68] == Work.MerkleRoot(h, src.job, src.xn1, src.xn2)
    ensures LeNat(header[68..72]) == BeNat(Hex.Decoded(src.job.ntime))
    ensures LeNat(header[72..76]) == BeNat(Hex.Decoded(src.job.nbits)) && LeNat(header[76..80]) == a.nonce
    ensures a.digest == h(header)
    ensures exists v: nat :: Target.IsTargetValue(src.difficulty, v) && LeNat(a.digest) <= v
    ensures a.job.jobId == src.job.jobId && a.job.extranonce2Hex == src.xn2 && a.job.ntimeHex == src.job.ntime
  {
    StratumIgnoresGeneration(h);
    SharesOfSupplied(FromStratum(h), c, acts, a);
    src :| BuiltFrom(h, a.job, src);
    HeaderOfShare(h, a.job, src, a.nonce);
    header := Splice(a.job.blob, 76, a.nonce);
    ShareHeaderLaw(h, src, header, a.nonce);
  }

  lemma ShareHeaderLaw(h: Work.Hash, src: Source, header: seq<Byte>, nonce: nat)
    requires Work.WellFormed(src.job, src.xn1, src.xn2)
    requires |header| == 80 && Work.DecodeHeader(header) == ShareHeader(h, src, nonce)
    ensures LeNat(header[0..4]) == BeNat(Hex.Decoded(src.job.version))
    ensures forall w: nat :: w < 8 ==>
              LeNat(header[4 + 4 * w..8 + 4 * w]) == BeNat(Hex.Decoded(src.job.prevhash)[4 * w..4 * w + 4])
    ensures header[36..68] == Work.MerkleRoot(h, src.job, src.xn1, src.xn2)
    ensures LeNat(header[68..72]) == BeNat(Hex.Decoded(src.job.ntime))
    ensures LeNat(header[72..76]) == BeNat(Hex.Decoded(src.job.nbits)) && LeNat(header[76..80]) == nonce
  {
    Work.HeaderLaw(
      header, BeNat(Hex.Decoded(src.job.version)), Hex.Decoded(src.job.prevhash),
      Work.MerkleRoot(h, src.job, src.xn1, src.xn2),
      BeNat(Hex.Decoded(src.job.ntime)), BeNat(Hex.Decoded(src.job.nbits)), nonce);
  }

  /** `sha256d`; `Sha256.Double` computes it. */
  function Sha256d(m: seq<Byte>): Hash256 {
    Fips180.DoubleDigest(m)
  }

  /** The pool as set up for Bitcoin: every hasher is `sha256d`, whatever its key. */
  function BitcoinConfig(threads: nat): Config {
    Config(threads, (key: nat, epoch: nat, b: seq<Byte>) => Sha256d(b))
  }

  lemma BitcoinSharesAreBlocksBelowTarget(threads: nat, acts: seq<Action>, a: Attempt)
    returns (src: Source, header: seq<Byte>)
    requires 1 <= threads < TWO32 && ValidActions(acts) && Supplied(FromStratum(Sha256d), acts)
    requires a in Run(BitcoinConfig(threads), Init(), acts).shares
    ensures FromSession(src) && Work.WellFormed(src.job, src.xn1, src.xn2)
    ensures |header| == 80 && Work.DecodeHeader(header) == ShareHeader(Sha256d, src, a.nonce)
    ensures LeNat(header[0..4]) == BeNat(Hex.Decoded(src.job.version))
    ensures forall w: nat :: w < 8 ==>
              LeNat(header[4 + 4 * w..8 + 4 * w]) == BeNat(Hex.Decoded(src.job.prevhash)[4 * w..4 * w + 4])
    ensures header[36..68] == Work.MerkleRoot(Sha256d, src.job, src.xn1, src.xn2)
    ensures LeNat(header[68..72]) == BeNat(Hex.Decoded(src.job.ntime))
    ensures LeNat(header[72..76]) == BeNat(Hex.Decoded(src.job.nbits)) && LeNat(header[76..80]) == a.nonce
    ensures a.digest == Fips180.DoubleDigest(header)
    ensures exists v: nat :: Target.IsTargetValue(src.difficulty, v) && LeNat(a.digest) <= v
  {
    src, header := StratumSharesAreBlocksBelowTarget(Sha256d, BitcoinConfig(threads), acts, a);
  }

  /** If the branch is the sibling path of the block's first transaction, the header commits to that block. */
  lemma HeaderCommitsToBlock(h: Work.Hash, src: Source, nonce: nat, txids: seq<Merkle.Node>)
    requires Work.WellFormed(src.job, src.xn1, src.xn2) && txids != []
    requires Work.DecodedBranch(src.job.merkleBranch) == Merkle.Path(h, txids)
    ensures ShareHeader(h, src, nonce).merkleRoot ==
            Merkle.Root(h, txids[0 := h(Work.Coinbase(src.job, src.xn1, src.xn2))])
  {
    Merkle.BranchFoldsToRoot(h, txids, h(Work.Coinbase(src.job, src.xn1, src.xn2)));
  }
}
