/**
  What every step of the worker pool keeps about the work itself: the order of
  publications, the strided nonce scan, and what an attempt and a share are.
 */
module PoolWork {
  import opened Bytes
  import opened Jobs
  import opened MinerPool

  // ---- publications ----

  predicate Fits(job: Option<MiningJob>) {
    job.Some? ==> job.value.nonceOffset + 4 < TWO32
  }

  /** Publication `k` of the log: a published job carries its number as its generation. */
  predicate Entry(job: Option<MiningJob>, k: nat) {
    Fits(job) && (job.Some? ==> k > 0 && job.value.generation == k)
  }

  predicate Published(s: State) {
    var g := s.sh.workGen;
    && |s.log| == g + 1
    && (forall k :: 0 <= k <= g ==> Entry(s.log[k], k))
    && s.sh.work.pub == (if s.ctl.pc.Install? then g - 1 else g)
    && s.sh.work.job == s.log[s.sh.work.pub]
    && (s.ctl.pc.Install? ==> s.log[g] == Stamped(s.ctl.job, g))
    && Fits(s.ctl.job)
  }

  /** A worker's view of the publications. */
  predicate Follows(log: seq<Option<MiningJob>>, sh: Shared, w: Worker) {
    && w.local.pub < |log| && w.local.job == log[w.local.pub]
    && w.local.pub <= sh.work.pub
    && w.workGen <= w.local.pub + 1
    && w.workGen <= sh.workGen
    && (w.pc.CopyWork? ==> w.workGen < w.gen <= sh.workGen)
    && w.hasherGen <= sh.hasherGen && w.key <= sh.epoch
  }

  predicate AllFollow(s: State) {
    forall i :: 0 <= i < |s.ws| ==> Follows(s.log, s.sh, s.ws[i])
  }

  lemma PublishedWorker(c: Config, s: State, i: nat)
    requires Published(s) && i < |s.ws|
    ensures Published(WorkerNext(c, s, i))
  {
  }

  /** What a controller step can do to the publications. */
  predicate PublishFrame(s: State, t: State, cmd: Command) {
    var g, job := s.sh.workGen, s.ctl.job;
    match s.ctl.pc
    case Bump =>
      && t.sh.workGen == g + 1 && t.log == s.log + [Stamped(job, g + 1)]
      && t.sh.work == s.sh.work && t.ctl.job == job && t.ctl.pc.Install?
    case Install =>
      && t.sh.workGen == g && t.log == s.log && t.sh.work == Slot(g, Stamped(job, g))
      && t.ctl.job == job && !t.ctl.pc.Install?
    case _ =>
      && t.sh.workGen == g && t.log == s.log && t.sh.work == s.sh.work && !t.ctl.pc.Install?
      && (t.ctl.job == job || t.ctl.job == None || (cmd.OnJob? && t.ctl.job == Some(cmd.job)))
  }

  lemma PublishFrames(c: Config, s: State, cmd: Command)
    ensures PublishFrame(s, CtlNext(c, s, cmd), cmd)
  {
  }

  lemma PublishedFrame(s: State, t: State, cmd: Command)
    requires Published(s) && ValidAction(C(cmd)) && PublishFrame(s, t, cmd)
    ensures Published(t)
  {
  }

  lemma PublishedController(c: Config, s: State, cmd: Command)
    requires Published(s) && ValidAction(C(cmd))
    ensures Published(CtlNext(c, s, cmd))
  {
    PublishFrames(c, s, cmd);
    PublishedFrame(s, CtlNext(c, s, cmd), cmd);
  }

  /** What a worker step can do to the worker's view of the publications and of the keys. */
  predicate ViewFrame(sh: Shared, w: Worker, v: Worker) {
    JobFrame(sh, w, v) && KeyFrame(sh, w, v)
  }

  predicate JobFrame(sh: Shared, w: Worker, v: Worker) {
    && (if w.pc.CopyWork? then v.local == sh.work && v.workGen == w.gen
        else v.local == w.local && v.workGen == w.workGen)
    && (v.pc.CopyWork? ==> w.pc.LoadWork? && v.gen == sh.workGen != w.workGen)
  }

  predicate KeyFrame(sh: Shared, w: Worker, v: Worker) {
    && (v.key == w.key || v.key == sh.epoch)
    && (v.hasherGen == w.hasherGen || v.hasherGen == sh.hasherGen)
  }

  lemma JobFrames(c: Config, i: nat, sh: Shared, w: Worker)
    ensures JobFrame(sh, w, StepWorker(c, i, sh, w))
  {
  }

  lemma KeyFrames(c: Config, i: nat, sh: Shared, w: Worker)
    ensures KeyFrame(sh, w, StepWorker(c, i, sh, w))
  {
  }

  lemma ViewFrames(c: Config, i: nat, sh: Shared, w: Worker)
    ensures ViewFrame(sh, w, StepWorker(c, i, sh, w))
    ensures StepShared(sh, w) == sh.(inFlight := StepShared(sh, w).inFlight, hashes := StepShared(sh, w).hashes)
  {
    JobFrames(c, i, sh, w);
    KeyFrames(c, i, sh, w);
  }

  lemma FollowsFrameOf(s: State, sh: Shared, w: Worker, v: Worker)
    requires Published(s) && Follows(s.log, s.sh, w) && ViewFrame(s.sh, w, v)
    requires sh == s.sh.(inFlight := sh.inFlight, hashes := sh.hashes)
    ensures Follows(s.log, sh, v)
  {
  }

  lemma FollowsStep(c: Config, i: nat, s: State, w: Worker)
    requires Published(s) && Follows(s.log, s.sh, w)
    ensures Follows(s.log, StepShared(s.sh, w), StepWorker(c, i, s.sh, w))
  {
    ViewFrames(c, i, s.sh, w);
    FollowsFrameOf(s, StepShared(s.sh, w), w, StepWorker(c, i, s.sh, w));
  }

  lemma FollowsFrame(c: Config, s: State, cmd: Command, w: Worker)
    requires Published(s) && Follows(s.log, s.sh, w)
    ensures Follows(CtlNext(c, s, cmd).log, CtlNext(c, s, cmd).sh, w)
  {
  }

  lemma FollowWorker(c: Config, s: State, i: nat)
    requires Published(s) && AllFollow(s) && i < |s.ws|
    ensures AllFollow(WorkerNext(c, s, i))
  {
    var t := WorkerNext(c, s, i);
    FollowsStep(c, i, s, s.ws[i]);
    forall j | 0 <= j < |t.ws|
      ensures Follows(t.log, t.sh, t.ws[j])
    {
      assert Follows(s.log, s.sh, s.ws[j]);
      assert j != i ==> t.ws[j] == s.ws[j];
    }
  }

  lemma FollowController(c: Config, s: State, cmd: Command)
    requires Published(s) && AllFollow(s)
    ensures AllFollow(CtlNext(c, s, cmd))
  {
    var t := CtlNext(c, s, cmd);
    forall j | 0 <= j < |t.ws|
      ensures Follows(t.log, t.sh, t.ws[j])
    {
      if j < |s.ws| {
        assert Follows(s.log, s.sh, s.ws[j]);
        FollowsFrame(c, s, cmd, s.ws[j]);
      }
    }
  }

  // ---- the nonce scan ----

  /**
    The first pass of worker `i`: it has tried i, i + T, i + 2T, ... and, until the first
    wrap, stands at the next of them; at the wrap the next one would not fit 32 bits.
   */
  predicate Pass(c: Config, i: nat, w: Worker) {
    && (forall k :: 0 <= k < |w.pass| ==> w.pass[k] == i + k * c.threads < TWO32)
    && (if w.wrapped then i + |w.pass| * c.threads >= TWO32
        else w.nonce == i + |w.pass| * c.threads)
  }

  predicate Scans(c: Config, i: nat, w: Worker) {
    && (w.local.job.Some? ==>
          && AgreeOutside(w.blob, w.local.job.value.blob, w.local.job.value.nonceOffset)
          && w.nonce < TWO32
          && Pass(c, i, w))
    && (w.pc.Enter? || w.pc.Recheck? || w.pc.Withdraw? || w.pc.Hash? ==> HasRoom(w))
    && (w.pc.Hash? ==> w.done < CHUNK)
    && (w.pc.Leave? || w.pc.Flush? ==> 1 <= w.done <= CHUNK)
  }

  predicate AllScan(c: Config, s: State) {
    forall i :: 0 <= i < |s.ws| ==> Scans(c, i, s.ws[i])
  }

  lemma WriteIsSplice(a: seq<Byte>, b: seq<Byte>, off: nat, nonce: nat)
    requires AgreeOutside(a, b, off) && off + 4 <= |a|
    ensures WriteNonce(a, off, nonce) == Splice(b, off, nonce)
    ensures AgreeOutside(WriteNonce(a, off, nonce), b, off)
  {
    ToLeAt(nonce, 4, 0);
    ToLeAt(nonce, 4, 1);
    ToLeAt(nonce, 4, 2);
    ToLeAt(nonce, 4, 3);
    SpliceAgrees(a, b, off, nonce);
    assert WriteNonce(a, off, nonce) == Splice(a, off, nonce);
  }

  /** The wrap test fires exactly on 32-bit overflow. */
  lemma WrapTest(nonce: nat, threads: nat)
    requires nonce < TWO32 && 1 <= threads < TWO32
    ensures (nonce + threads) % TWO32 < threads <==> nonce + threads >= TWO32
    ensures nonce + threads < TWO32 ==> (nonce + threads) % TWO32 == nonce + threads
  {
  }

  lemma PassTurn(c: Config, i: nat, w: Worker)
    requires ValidConfig(c) && HasRoom(w) && w.nonce < TWO32 && Pass(c, i, w)
    ensures Pass(c, i, HashTurn(c, w))
  {
    WrapTest(w.nonce, c.threads);
    assert (|w.pass| + 1) * c.threads == |w.pass| * c.threads + c.threads;
  }

  lemma ScansTurn(c: Config, i: nat, w: Worker)
    requires ValidConfig(c) && w.pc.Hash? && Scans(c, i, w)
    ensures Scans(c, i, HashTurn(c, w))
  {
    var job := w.local.job.value;
    PassTurn(c, i, w);
    WriteIsSplice(w.blob, job.blob, job.nonceOffset, w.nonce);
  }

  lemma ScansRefresh(c: Config, i: nat, work: Slot, w: Worker)
    requires ValidConfig(c) && i < c.threads && Scans(c, i, w)
    ensures Scans(c, i, Refresh(i, work, w))
  {
    var v := Refresh(i, work, w);
    if work.job.Some? {
      assert Pass(c, i, v);
    }
  }

  predicate SameScan(w: Worker, v: Worker) {
    && v.local == w.local && v.blob == w.blob && v.nonce == w.nonce
    && v.pass == w.pass && v.wrapped == w.wrapped
  }

  lemma ScansFrame(c: Config, i: nat, w: Worker, v: Worker)
    requires Scans(c, i, w) && SameScan(w, v)
    requires v.pc.Enter? || v.pc.Recheck? || v.pc.Withdraw? || v.pc.Hash? ==> HasRoom(v)
    requires v.pc.Hash? ==> v.done < CHUNK
    requires v.pc.Leave? || v.pc.Flush? ==> 1 <= v.done <= CHUNK
    ensures Scans(c, i, v)
  {
    assert w.local.job.Some? ==> Pass(c, i, v) == Pass(c, i, w);
  }

  /** The guard at line 94 does what it means: no later store can miss the blob. */
  lemma RoomChecked(w: Worker)
    requires Fits(w.local.job)
    ensures Mineable(w.local.job, w.blob) <==> HasRoom(w)
  {
  }

  lemma OtherSame(c: Config, i: nat, sh: Shared, w: Worker)
    requires !w.pc.Hash? && !w.pc.CopyWork?
    ensures SameScan(w, StepWorker(c, i, sh, w))
    ensures var v := StepWorker(c, i, sh, w);
            && (v.pc.Enter? ==> Mineable(w.local.job, w.blob))
            && (v.pc.Recheck? ==> w.pc.Enter?)
            && (v.pc.Withdraw? || v.pc.Hash? ==> w.pc.Recheck?)
            && (v.pc.Hash? ==> v.done == 0)
            && !v.pc.Leave?
            && (v.pc.Flush? ==> w.pc.Leave? && v.done == w.done)
  {
  }

  lemma OtherSteps(c: Config, i: nat, sh: Shared, w: Worker)
    requires Scans(c, i, w) && Fits(w.local.job) && !w.pc.Hash? && !w.pc.CopyWork?
    ensures Scans(c, i, StepWorker(c, i, sh, w))
  {
    RoomChecked(w);
    OtherSame(c, i, sh, w);
    ScansFrame(c, i, w, StepWorker(c, i, sh, w));
  }

  lemma ScansStep(c: Config, i: nat, sh: Shared, w: Worker)
    requires ValidConfig(c) && i < c.threads && Scans(c, i, w) && Fits(w.local.job)
    ensures Scans(c, i, StepWorker(c, i, sh, w))
  {
    if w.pc.Hash? {
      ScansTurn(c, i, w);
      assert StepWorker(c, i, sh, w) == HashTurn(c, w);
    } else if w.pc.CopyWork? {
      ScansRefresh(c, i, sh.work, w);
      assert StepWorker(c, i, sh, w) == Refresh(i, sh.work, w);
    } else {
      OtherSteps(c, i, sh, w);
    }
  }

  lemma ScanWorker(c: Config, s: State, i: nat)
    requires ValidConfig(c) && |s.ws| <= c.threads && i < |s.ws|
    requires Published(s) && AllFollow(s) && AllScan(c, s)
    ensures AllScan(c, WorkerNext(c, s, i))
  {
    var w := s.ws[i];
    assert Follows(s.log, s.sh, w) && Scans(c, i, w);
    assert Entry(s.log[w.local.pub], w.local.pub);
    ScansStep(c, i, s.sh, w);
  }

  lemma ScanController(c: Config, s: State, cmd: Command)
    requires AllScan(c, s)
    ensures AllScan(c, CtlNext(c, s, cmd))
  {
  }

  // ---- attempts and shares ----

  /**
    An attempt is on a published job, and its digest is the hash of that job's blob with
    only the four nonce bytes replaced.
   */
  predicate Genuine(c: Config, log: seq<Option<MiningJob>>, a: Attempt) {
    && 0 < a.pub < |log| && log[a.pub] == Some(a.job) && a.job.generation == a.pub
    && a.nonce < TWO32
    && a.job.nonceOffset + 4 <= |a.job.blob|
    && a.digest == c.hash(a.key, a.epoch, Splice(a.job.blob, a.job.nonceOffset, a.nonce))
  }

  /** The attempts that meet their job's target, in order. */
  function Winners(tries: seq<Attempt>): seq<Attempt> {
    if tries == [] then []
    else
      var a := tries[|tries| - 1];
      Winners(tries[..|tries| - 1]) + Reports(a)
  }

  predicate Reported(c: Config, s: State) {
    && (forall k :: 0 <= k < |s.tries| ==> Genuine(c, s.log, s.tries[k]))
    && s.shares == Winners(s.tries)
  }

  lemma AttemptGenuine(c: Config, i: nat, s: State, w: Worker)
    requires Published(s) && Follows(s.log, s.sh, w) && Scans(c, i, w) && w.pc.Hash?
    ensures Genuine(c, s.log, AttemptOf(c, i, s.sh.epoch, w))
  {
    var job := w.local.job.value;
    assert Entry(s.log[w.local.pub], w.local.pub);
    WriteIsSplice(w.blob, job.blob, job.nonceOffset, w.nonce);
  }

  lemma ReportedWorker(c: Config, s: State, i: nat)
    requires Published(s) && AllFollow(s) && AllScan(c, s) && Reported(c, s) && i < |s.ws|
    ensures Reported(c, WorkerNext(c, s, i))
  {
    var w := s.ws[i];
    assert Follows(s.log, s.sh, w) && Scans(c, i, w);
    HistoryStep(c, s, i);
    if w.pc.Hash? {
      AttemptGenuine(c, i, s, w);
      ReportedTurn(c, s, WorkerNext(c, s, i), AttemptOf(c, i, s.sh.epoch, w));
    }
  }

  function Reports(a: Attempt): seq<Attempt> {
    if Meets(a.digest, a.job.target) then [a] else []
  }

  /** What a worker step adds to the history. */
  lemma HistoryStep(c: Config, s: State, i: nat)
    requires i < |s.ws|
    ensures var t, w := WorkerNext(c, s, i), s.ws[i];
            && t.log == s.log
            && (if w.pc.Hash? && HasRoom(w)
                then
                  var a := AttemptOf(c, i, s.sh.epoch, w);
                  t.tries == s.tries + [a] && t.shares == s.shares + Reports(a)
                else t.tries == s.tries && t.shares == s.shares)
  {
  }

  lemma ReportedTurn(c: Config, s: State, t: State, a: Attempt)
    requires Reported(c, s) && Genuine(c, s.log, a)
    requires t.log == s.log && t.tries == s.tries + [a] && t.shares == s.shares + Reports(a)
    ensures Reported(c, t)
  {
    assert t.tries[..|s.tries|] == s.tries;
  }

  lemma ReportedController(c: Config, s: State, cmd: Command)
    requires Reported(c, s)
    ensures Reported(c, CtlNext(c, s, cmd))
  {
    var t := CtlNext(c, s, cmd);
    assert t.tries == s.tries && t.shares == s.shares && s.log <= t.log;
    forall k | 0 <= k < |s.tries|
      ensures Genuine(c, t.log, s.tries[k])
    {
      assert Genuine(c, s.log, s.tries[k]);
    }
  }

  lemma {:induction false} WinnersAre(tries: seq<Attempt>)
    ensures forall a :: a in Winners(tries) <==> a in tries && Meets(a.digest, a.job.target)
  {
    if tries != [] {
      var front, last := tries[..|tries| - 1], tries[|tries| - 1];
      WinnersAre(front);
      assert tries == front + [last];
    }
  }
}
