/**
  What the pool comes to, in every fair run in which no further publication begins: each worker
  takes up the installed job, unless it copied it between bump and install, and together they
  try every nonce on it; or, if the publication is that of `clear_work`, they stop hashing.
 */
module PoolProgress {
  import opened Bytes
  import opened Jobs
  import opened MinerPool
  import opened PoolWork
  import opened PoolTheorems
  import opened PoolHashers
  import opened PoolLiveness

  /** The worker holds publication `p`, or has yet to read its generation. */
  predicate OnCourse(w: Worker, p: nat) {
    w.local.pub == p || w.workGen < p
  }

  // ---- how far a worker is from the end of its first pass ----

  /** Steps to the copy that records generation `p`. */
  function ToCopy(w: Worker, p: nat): nat {
    match w.pc
    case CopyWork => if w.gen == p then 1 else 29
    case LoadWork => 2
    case RecordRebuilt => 3
    case Rebuild => 4
    case CheckHasher => 5
    case CheckPaused => 6
    case Top => 7
    case RecordBuilt => 8
    case Build => 9
    case Withdraw => 8
    case Flush => 8
    case Leave => 9
    case Hash => if w.done < CHUNK then 9 + (CHUNK - w.done) else 10
    case Recheck => 26
    case Enter => 27
    case CheckLocal => 28
    case Exited => 0
  }

  /** Steps to the next hash, with the job at hand. */
  function ToHash(pc: Pc): nat {
    match pc
    case Hash => 0
    case Recheck => 1
    case Enter => 2
    case CheckLocal => 3
    case LoadWork => 4
    case RecordRebuilt => 5
    case Rebuild => 6
    case CheckHasher => 7
    case CheckPaused => 8
    case Top => 9
    case RecordBuilt => 10
    case Withdraw => 10
    case Flush => 10
    case Build => 11
    case Leave => 11
    case CopyWork => 12
    case Exited => 12
  }

  function NoncesLeft(w: Worker): nat {
    if w.nonce < TWO32 then TWO32 - w.nonce else 0
  }

  /** What a worker is on the way to: recording generation `p`, or the end of its first pass over it. */
  datatype Goal = TakeUp | WrapAround

  /** Falls with every step of the worker, to zero when the goal is reached. */
  function Left(g: Goal, w: Worker, p: nat): nat {
    if w.workGen != p then 16 * TWO32 + 16 + ToCopy(w, p)
    else if g.TakeUp? || w.wrapped then 0
    else 1 + 16 * NoncesLeft(w) + ToHash(w.pc)
  }

  /** The pool runs, unpaused, with publication `p` installed and nothing under way. */
  predicate Steady(s: State, p: nat) {
    s.ctl.pc.Idle? && s.sh.running && s.sh.workGen == p
  }

  predicate Ready(g: Goal, s: State, i: nat, p: nat) {
    Steady(s, p) && (g.WrapAround? ==> Workable(s.sh.work)) && i < |s.ws| && OnCourse(s.ws[i], p)
  }

  lemma ReadyFacts(g: Goal, c: Config, s: State, i: nat, p: nat)
    requires Inv(c, s) && Ready(g, s, i, p)
    ensures var w := s.ws[i];
            && !s.sh.paused && !w.pc.Exited? && s.sh.work.pub == p
            && w.workGen <= p && (w.pc.CopyWork? ==> w.workGen < w.gen <= p)
            && (w.pc.Hash? ==> HasRoom(w) && w.done < CHUNK)
            && (g.WrapAround? && w.workGen == p ==> Mineable(w.local.job, w.blob) && w.nonce < TWO32)
  {
    var w := s.ws[i];
    assert Follows(s.log, s.sh, w) && Scans(c, i, w);
  }

  /** Before generation `p` is recorded. */
  lemma CopyNearer(c: Config, i: nat, sh: Shared, w: Worker, p: nat)
    requires sh.running && !sh.paused && sh.workGen == p && sh.work.pub == p && !w.pc.Exited?
    requires w.workGen < p && (w.pc.CopyWork? ==> w.gen <= p) && (w.pc.Hash? ==> HasRoom(w) && w.done < CHUNK)
    ensures var v := StepWorker(c, i, sh, w);
            OnCourse(v, p) && (v.workGen == p || (v.workGen < p && ToCopy(v, p) < ToCopy(w, p)))
  {
  }

  /** And after. */
  lemma HashNearer(c: Config, i: nat, sh: Shared, w: Worker, p: nat)
    requires sh.running && !sh.paused && sh.workGen == p && !w.pc.Exited? && !w.pc.CopyWork? && !w.pc.Hash?
    requires w.workGen == p && Mineable(w.local.job, w.blob)
    ensures var v := StepWorker(c, i, sh, w);
            && v.workGen == p && v.local == w.local && v.nonce == w.nonce && v.wrapped == w.wrapped
            && ToHash(v.pc) < ToHash(w.pc)
  {
  }

  lemma TurnNearer(c: Config, w: Worker)
    requires ValidConfig(c) && HasRoom(w) && w.nonce < TWO32
    ensures var v := HashTurn(c, w);
            && v.workGen == w.workGen && v.local == w.local && (w.wrapped ==> v.wrapped)
            && (v.wrapped || NoncesLeft(v) < NoncesLeft(w)) && ToHash(v.pc) <= 11
  {
    WrapTest(w.nonce, c.threads);
  }

  lemma CopyIsFar(g: Goal, w: Worker, v: Worker, p: nat)
    requires w.workGen != p && v.workGen == p
    ensures Left(g, v, p) < Left(g, w, p)
  {
  }

  lemma LeftStep(g: Goal, c: Config, s: State, i: nat, p: nat)
    requires ValidConfig(c) && Inv(c, s) && Ready(g, s, i, p)
    ensures var w := s.ws[i];
            var v := StepWorker(c, i, s.sh, w);
            OnCourse(v, p) && if Left(g, w, p) == 0 then Left(g, v, p) == 0 else Left(g, v, p) < Left(g, w, p)
  {
    var w := s.ws[i];
    var v := StepWorker(c, i, s.sh, w);
    ReadyFacts(g, c, s, i, p);
    if w.workGen < p {
      CopyNearer(c, i, s.sh, w, p);
      if v.workGen == p {
        CopyIsFar(g, w, v, p);
      }
    } else if g.TakeUp? {
      JobFrames(c, i, s.sh, w);
    } else if w.pc.Hash? {
      TurnNearer(c, w);
      assert v == HashTurn(c, w);
    } else {
      HashNearer(c, i, s.sh, w, p);
    }
  }

  // ---- along a run ----

  /** From time `n` on the controller has nothing to do. */
  ghost predicate Calm(run: nat -> State, n: nat) {
    forall m: nat :: m >= n ==> run(m).ctl.pc.Idle? && run(m).sh.running
  }

  /** An idle controller leaves publications and threads alone. */
  lemma CalmStep(c: Config, s: State, a: Action)
    requires s.ctl.pc.Idle? && Next(c, s, a).ctl.pc.Idle?
    ensures var t := Next(c, s, a);
            t.sh.workGen == s.sh.workGen && t.sh.work == s.sh.work && |t.ws| == |s.ws| && (a.C? ==> t == s)
  {
  }

  lemma {:induction false} CalmRun(c: Config, acts: nat -> Action, run: nat -> State, n: nat, m: nat)
    requires Execution(c, acts, run) && Calm(run, n) && n <= m
    ensures |run(m).ws| == |run(n).ws|
    ensures run(m).sh.workGen == run(n).sh.workGen && run(m).sh.work == run(n).sh.work
    decreases m - n
  {
    if n < m {
      CalmRun(c, acts, run, n, m - 1);
      assert Turn(c, acts, run, m - 1);
      CalmStep(c, run(m - 1), acts(m - 1));
    }
  }

  lemma AllThreads(c: Config, acts: nat -> Action, run: nat -> State, n: nat)
    requires ValidConfig(c) && Execution(c, acts, run) && run(n).ctl.pc.Idle? && run(n).sh.running
    ensures |run(n).ws| == c.threads
  {
    InvAt(c, acts, run, n);
  }

  lemma LeftNext(g: Goal, c: Config, s: State, a: Action, i: nat, p: nat)
    requires ValidConfig(c) && Inv(c, s) && Ready(g, s, i, p)
    requires Next(c, s, a).ctl.pc.Idle? && Next(c, s, a).sh.running
    ensures var t := Next(c, s, a);
            && Ready(g, t, i, p) && Left(g, t.ws[i], p) <= Left(g, s.ws[i], p)
            && (a == W(i) && Left(g, s.ws[i], p) > 0 ==> Left(g, t.ws[i], p) < Left(g, s.ws[i], p))
  {
    CalmStep(c, s, a);
    if a == W(i) {
      OwnStep(c, s, i);
      LeftStep(g, c, s, i, p);
    } else {
      ReadyFacts(g, c, s, i, p);
      OthersKept(c, s, a, i);
    }
  }

  lemma LeftAt(g: Goal, c: Config, acts: nat -> Action, run: nat -> State, n: nat, m: nat, i: nat, p: nat)
    requires ValidConfig(c) && Execution(c, acts, run) && Calm(run, n) && n <= m && Ready(g, run(m), i, p)
    ensures Ready(g, run(m + 1), i, p) && Left(g, run(m + 1).ws[i], p) <= Left(g, run(m).ws[i], p)
    ensures acts(m) == W(i) && Left(g, run(m).ws[i], p) > 0 ==> Left(g, run(m + 1).ws[i], p) < Left(g, run(m).ws[i], p)
  {
    assert Turn(c, acts, run, m);
    InvAt(c, acts, run, m);
    LeftNext(g, c, run(m), acts(m), i, p);
  }

  lemma {:induction false} LeftFalls(
    g: Goal, c: Config, acts: nat -> Action, run: nat -> State, n: nat, m: nat, i: nat, p: nat)
    requires ValidConfig(c) && Execution(c, acts, run) && Calm(run, n) && n <= m && Ready(g, run(n), i, p)
    ensures Ready(g, run(m), i, p) && Left(g, run(m).ws[i], p) <= Left(g, run(n).ws[i], p)
    decreases m - n
  {
    if n < m {
      LeftFalls(g, c, acts, run, n, m - 1, i, p);
      LeftAt(g, c, acts, run, n, m - 1, i, p);
    }
  }

  /** One worker finishes its first pass. */
  lemma {:induction false} Finishes(g: Goal, c: Config, acts: nat -> Action, run: nat -> State, n: nat, i: nat, p: nat)
    returns (m: nat)
    requires ValidConfig(c) && Execution(c, acts, run) && Fair(c, acts) && Calm(run, n)
    requires Ready(g, run(n), i, p) && i < c.threads
    ensures m >= n && Ready(g, run(m), i, p) && Left(g, run(m).ws[i], p) == 0
    decreases Left(g, run(n).ws[i], p)
  {
    if Left(g, run(n).ws[i], p) == 0 {
      m := n;
    } else {
      var k := TurnOf(c, acts, n, i);
      LeftFalls(g, c, acts, run, n, k, i, p);
      if Left(g, run(k).ws[i], p) == 0 {
        m := k;
      } else {
        LeftAt(g, c, acts, run, n, k, i, p);
        m := Finishes(g, c, acts, run, k + 1, i, p);
      }
    }
  }

  lemma TurnOf(c: Config, acts: nat -> Action, n: nat, i: nat) returns (k: nat)
    requires Fair(c, acts) && i < c.threads
    ensures k >= n && acts(k) == W(i)
  {
    assert WorkerAfter(acts, n, i);
    k :| k >= n && acts(k) == W(i);
  }

  predicate AllReady(g: Goal, c: Config, s: State, p: nat) {
    forall i :: 0 <= i < c.threads ==> Ready(g, s, i, p)
  }

  lemma {:induction false} AllFinish(g: Goal, c: Config, acts: nat -> Action, run: nat -> State, n: nat, j: nat, p: nat)
    returns (m: nat)
    requires ValidConfig(c) && Execution(c, acts, run) && Fair(c, acts) && Calm(run, n)
    requires AllReady(g, c, run(n), p) && j <= c.threads
    ensures m >= n && AllReady(g, c, run(m), p)
    ensures forall i :: 0 <= i < j ==> Ready(g, run(m), i, p) && Left(g, run(m).ws[i], p) == 0
    decreases j
  {
    if j == 0 {
      m := n;
    } else {
      var k := AllFinish(g, c, acts, run, n, j - 1, p);
      m := Finishes(g, c, acts, run, k, j - 1, p);
      forall i | 0 <= i < c.threads
        ensures Ready(g, run(m), i, p) && (i < j - 1 ==> Left(g, run(m).ws[i], p) == 0)
      {
        assert Ready(g, run(k), i, p);
        LeftFalls(g, c, acts, run, k, m, i, p);
      }
    }
  }

  lemma {:induction false} RunIsReachable(c: Config, acts: nat -> Action, run: nat -> State, n: nat)
    requires Execution(c, acts, run)
    ensures Reachable(c, run(n))
  {
    if n == 0 {
      assert ValidActions([]) && Run(c, Init(), []) == Init();
    } else {
      RunIsReachable(c, acts, run, n - 1);
      assert Turn(c, acts, run, n - 1);
      var pre :| ValidActions(pre) && run(n - 1) == Run(c, Init(), pre);
      var a := acts(n - 1);
      RunConcat(c, Init(), pre, [a]);
      assert [a][1..] == [];
      assert Run(c, run(n - 1), [a]) == Run(c, Next(c, run(n - 1), a), []);
      assert ValidActions(pre + [a]);
    }
  }

  // ---- no bump means an idle controller ----

  /** From time `n` on the pool runs and no publication begins. */
  ghost predicate Unpublished(run: nat -> State, n: nat) {
    forall m: nat :: m >= n ==> run(m).sh.running && run(m).sh.workGen == run(n).sh.workGen
  }

  /** Steps of the controller up to the bump. */
  function ToBump(pc: CtlPc): nat {
    match pc
    case PauseStore => 9
    case PauseLoad => 8
    case PauseWait => 7
    case Quiesced => 6
    case Rekeying => 5
    case BumpHasher => 4
    case Resume => 3
    case StartCheck => 2
    case Bump => 1
    case _ => 0
  }

  /** Neither stopping nor starting, nor past the bump. */
  predicate BeforeBump(pc: CtlPc) {
    pc.Idle? || ToBump(pc) > 0
  }

  lemma ToBumpStep(c: Config, s: State, a: Action)
    requires s.sh.running && BeforeBump(s.ctl.pc)
    requires Next(c, s, a).sh.running && Next(c, s, a).sh.workGen == s.sh.workGen
    ensures var t := Next(c, s, a);
            && BeforeBump(t.ctl.pc)
            && (!s.ctl.pc.Idle? ==> !t.ctl.pc.Idle? && ToBump(t.ctl.pc) <= ToBump(s.ctl.pc))
            && (a.C? && !s.ctl.pc.Idle? && !s.ctl.pc.PauseWait? ==> ToBump(t.ctl.pc) < ToBump(s.ctl.pc))
  {
  }

  lemma {:induction false} StaysBefore(c: Config, acts: nat -> Action, run: nat -> State, n: nat, m: nat)
    requires Execution(c, acts, run) && Unpublished(run, n) && n <= m && BeforeBump(run(n).ctl.pc)
    ensures BeforeBump(run(m).ctl.pc)
    ensures !run(n).ctl.pc.Idle? ==> !run(m).ctl.pc.Idle? && ToBump(run(m).ctl.pc) <= ToBump(run(n).ctl.pc)
    decreases m - n
  {
    if n < m {
      StaysBefore(c, acts, run, n, m - 1);
      assert Turn(c, acts, run, m - 1);
      ToBumpStep(c, run(m - 1), acts(m - 1));
    }
  }

  lemma LaterUnpublished(run: nat -> State, n: nat, m: nat)
    requires Unpublished(run, n) && n <= m
    ensures Unpublished(run, m)
  {
    forall k: nat | k >= m
      ensures run(k).sh.running && run(k).sh.workGen == run(m).sh.workGen
    {
      assert k >= n && run(m).sh.workGen == run(n).sh.workGen;
    }
  }

  /** A command once taken up leads, in a fair run, to a bump. */
  lemma {:induction false} BumpComes(c: Config, acts: nat -> Action, run: nat -> State, n: nat)
    requires ValidConfig(c) && Execution(c, acts, run) && Fair(c, acts)
    requires BeforeBump(run(n).ctl.pc) && !run(n).ctl.pc.Idle?
    ensures !Unpublished(run, n)
    decreases ToBump(run(n).ctl.pc)
  {
    if Unpublished(run, n) {
      var m := NearerBump(c, acts, run, n);
      LaterUnpublished(run, n, m);
      BumpComes(c, acts, run, m);
    }
  }

  lemma NearerBump(c: Config, acts: nat -> Action, run: nat -> State, n: nat) returns (m: nat)
    requires ValidConfig(c) && Execution(c, acts, run) && Fair(c, acts) && Unpublished(run, n)
    requires BeforeBump(run(n).ctl.pc) && !run(n).ctl.pc.Idle?
    ensures m >= n && BeforeBump(run(m).ctl.pc) && !run(m).ctl.pc.Idle?
    ensures ToBump(run(m).ctl.pc) < ToBump(run(n).ctl.pc)
  {
    if run(n).ctl.pc.PauseWait? {
      PauseReturns(c, acts, run, n);
      m :| n <= m && run(m).ctl.pc.Quiesced?;
    } else {
      assert ControllerAfter(acts, n);
      var k: nat :| k >= n && acts(k).C?;
      StaysBefore(c, acts, run, n, k);
      assert Turn(c, acts, run, k);
      assert run(k + 1).sh.running && run(k + 1).sh.workGen == run(k).sh.workGen;
      ToBumpStep(c, run(k), acts(k));
      m := if ToBump(run(k).ctl.pc) < ToBump(run(n).ctl.pc) then k else k + 1;
    }
  }

  lemma UnpublishedIsCalm(c: Config, acts: nat -> Action, run: nat -> State, n: nat)
    requires ValidConfig(c) && Execution(c, acts, run) && Fair(c, acts)
    requires Unpublished(run, n) && run(n).ctl.pc.Idle?
    ensures Calm(run, n)
  {
    forall m: nat | m >= n
      ensures run(m).ctl.pc.Idle? && run(m).sh.running
    {
      StaysBefore(c, acts, run, n, m);
      if !run(m).ctl.pc.Idle? {
        LaterUnpublished(run, n, m);
        BumpComes(c, acts, run, m);
      }
    }
  }

  // ---- what the pool comes to ----

  /** Worker `i` holds publication `p` and has recorded it. */
  predicate TakenUp(s: State, i: nat, p: nat) {
    i < |s.ws| && s.ws[i].local.pub == p && s.ws[i].workGen == p
  }

  lemma StaleNext(c: Config, s: State, a: Action, i: nat)
    requires ValidConfig(c) && Inv(c, s) && i < |s.ws| && s.ws[i].workGen == s.sh.workGen
    requires s.ctl.pc.Idle? && Next(c, s, a).ctl.pc.Idle?
    ensures var t := Next(c, s, a);
            i < |t.ws| && t.ws[i].local == s.ws[i].local && t.ws[i].workGen == s.ws[i].workGen == t.sh.workGen
  {
    CalmStep(c, s, a);
    JobSticksStep(c, s, a, i);
  }

  lemma {:induction false} StaysStale(c: Config, acts: nat -> Action, run: nat -> State, n: nat, m: nat, i: nat)
    requires ValidConfig(c) && Execution(c, acts, run) && Calm(run, n) && n <= m
    requires i < |run(n).ws| && run(n).ws[i].workGen == run(n).sh.workGen
    ensures i < |run(m).ws| && run(m).ws[i].local == run(n).ws[i].local
    ensures run(m).ws[i].workGen == run(m).sh.workGen
    decreases m - n
  {
    if n < m {
      StaysStale(c, acts, run, n, m - 1, i);
      assert Turn(c, acts, run, m - 1);
      InvAt(c, acts, run, m - 1);
      StaleNext(c, run(m - 1), acts(m - 1), i);
    }
  }

  /**
    In every fair run in which the pool keeps running and no publication begins after one was
    installed, worker `i` comes to hold that one if and only if it was not left with an older
    one by a copy between bump and install.
   */
  lemma WorkIsTakenUpIff(c: Config, acts: nat -> Action, run: nat -> State, n: nat, i: nat, p: nat)
    requires ValidConfig(c) && Execution(c, acts, run) && Fair(c, acts) && Unpublished(run, n)
    requires Steady(run(n), p) && i < c.threads
    ensures i < |run(n).ws|
    ensures (exists m: nat :: m >= n && TakenUp(run(m), i, p)) <==> OnCourse(run(n).ws[i], p)
  {
    UnpublishedIsCalm(c, acts, run, n);
    AllThreads(c, acts, run, n);
    InvAt(c, acts, run, n);
    assert Follows(run(n).log, run(n).sh, run(n).ws[i]);
    if OnCourse(run(n).ws[i], p) {
      var m := Finishes(TakeUp, c, acts, run, n, i, p);
      assert TakenUp(run(m), i, p);
    } else {
      forall m: nat | m >= n
        ensures !TakenUp(run(m), i, p)
      {
        StaysStale(c, acts, run, n, m, i);
      }
    }
  }

  /**
    And if all workers do, and it is a job with room, there comes a time when every 32-bit nonce
    has been tried on it, and each is among the shares exactly if its digest meets the target.
   */
  lemma EveryNonceComesUp(c: Config, acts: nat -> Action, run: nat -> State, n: nat, p: nat) returns (m: nat)
    requires ValidConfig(c) && Execution(c, acts, run) && Fair(c, acts) && Unpublished(run, n)
    requires Steady(run(n), p) && Workable(run(n).sh.work)
    requires forall i :: 0 <= i < |run(n).ws| ==> OnCourse(run(n).ws[i], p)
    ensures m >= n
    ensures forall nonce: nat :: nonce < TWO32 ==> Settled(c, run(m), p, nonce)
  {
    UnpublishedIsCalm(c, acts, run, n);
    AllThreads(c, acts, run, n);
    m := AllFinish(WrapAround, c, acts, run, n, c.threads, p);
    CalmRun(c, acts, run, n, m);
    RunIsReachable(c, acts, run, m);
    InvAt(c, acts, run, m);
    forall i | 0 <= i < c.threads
      ensures PassOver(run(m).ws[i], p)
    {
      assert Ready(WrapAround, run(m), i, p);
      ReadyFacts(WrapAround, c, run(m), i, p);
    }
    forall nonce: nat | nonce < TWO32
      ensures Settled(c, run(m), p, nonce)
    {
      var a := EveryNonceIsTried(c, run(m), p, nonce);
    }
  }

  predicate PassOver(w: Worker, p: nat) {
    w.local.pub == p && w.local.job.Some? && w.wrapped
  }

  /** The nonce was tried on publication `p`, and reported exactly if it is a share. */
  ghost predicate Settled(c: Config, s: State, p: nat, nonce: nat) {
    exists a :: && a in s.tries && a.pub == p && a.nonce == nonce && Genuine(c, s.log, a)
                && (a in s.shares <==> LeNat(a.digest) <= LeNat(a.job.target))
  }

  // ---- who stops hashing ----

  /** From some time on worker `i` makes no hash call. */
  ghost predicate StopsHashing(run: nat -> State, n: nat, i: nat) {
    exists m: nat :: m >= n && HashesNoMore(run, m, i)
  }

  ghost predicate HashesNoMore(run: nat -> State, m: nat, i: nat) {
    forall k: nat :: k >= m ==> i < |run(k).ws| && !run(k).ws[i].pc.Hash?
  }

  /** Without a job that can be hashed no worker is in the loop. */
  lemma NoWorkNoHash(c: Config, s: State, i: nat)
    requires Inv(c, s) && i < |s.ws| && !Workable(s.ws[i].local)
    ensures !s.ws[i].pc.Hash?
  {
    var w := s.ws[i];
    assert Follows(s.log, s.sh, w) && Scans(c, i, w);
    assert Entry(s.log[w.local.pub], w.local.pub);
    RoomChecked(w);
  }

  lemma IdleFrom(c: Config, acts: nat -> Action, run: nat -> State, n: nat, m: nat, i: nat)
    requires ValidConfig(c) && Execution(c, acts, run) && Calm(run, n) && n <= m
    requires i < |run(m).ws| && run(m).ws[i].workGen == run(m).sh.workGen && !Workable(run(m).ws[i].local)
    ensures HashesNoMore(run, m, i)
  {
    LaterCalm(run, n, m);
    forall k: nat | k >= m
      ensures i < |run(k).ws| && !run(k).ws[i].pc.Hash?
    {
      StaysStale(c, acts, run, m, k, i);
      InvAt(c, acts, run, k);
      NoWorkNoHash(c, run(k), i);
    }
  }

  lemma LaterCalm(run: nat -> State, n: nat, m: nat)
    requires Calm(run, n) && n <= m
    ensures Calm(run, m)
  {
  }

  /** A worker that has recorded the generation and can hash its job, however old. */
  predicate KeepsAtIt(s: State, i: nat) {
    && s.ctl.pc.Idle? && s.sh.running && i < |s.ws|
    && s.ws[i].workGen == s.sh.workGen && Workable(s.ws[i].local)
  }

  lemma HashNearerAt(c: Config, s: State, a: Action, i: nat)
    requires ValidConfig(c) && Inv(c, s) && KeepsAtIt(s, i) && !s.ws[i].pc.Hash?
    requires Next(c, s, a).ctl.pc.Idle? && Next(c, s, a).sh.running
    ensures var t := Next(c, s, a);
            && KeepsAtIt(t, i) && ToHash(t.ws[i].pc) <= ToHash(s.ws[i].pc)
            && (a == W(i) ==> ToHash(t.ws[i].pc) < ToHash(s.ws[i].pc))
  {
    var w := s.ws[i];
    assert Follows(s.log, s.sh, w) && Scans(c, i, w);
    assert Entry(s.log[w.local.pub], w.local.pub);
    CalmStep(c, s, a);
    if a == W(i) {
      OwnStep(c, s, i);
      RoomChecked(w);
      HashNearer(c, i, s.sh, w, s.sh.workGen);
    } else {
      OthersKept(c, s, a, i);
    }
  }

  ghost predicate HashesBetween(run: nat -> State, n: nat, m: nat, i: nat) {
    exists k: nat :: n <= k <= m && i < |run(k).ws| && run(k).ws[i].pc.Hash?
  }

  lemma {:induction false} HashComes(c: Config, acts: nat -> Action, run: nat -> State, n: nat, m: nat, i: nat)
    requires ValidConfig(c) && Execution(c, acts, run) && Calm(run, n) && n <= m && KeepsAtIt(run(n), i)
    ensures HashesBetween(run, n, m, i) || (KeepsAtIt(run(m), i) && ToHash(run(m).ws[i].pc) <= ToHash(run(n).ws[i].pc))
    decreases m - n
  {
    if run(n).ws[i].pc.Hash? {
      assert HashesBetween(run, n, m, i);
    } else if n < m {
      NearerAt(c, acts, run, n, i);
      LaterCalm(run, n, n + 1);
      HashComes(c, acts, run, n + 1, m, i);
      if HashesBetween(run, n + 1, m, i) {
        var k: nat :| n + 1 <= k <= m && i < |run(k).ws| && run(k).ws[i].pc.Hash?;
        assert HashesBetween(run, n, m, i);
      }
    }
  }

  lemma NearerAt(c: Config, acts: nat -> Action, run: nat -> State, n: nat, i: nat)
    requires ValidConfig(c) && Execution(c, acts, run) && Calm(run, n)
    requires KeepsAtIt(run(n), i) && !run(n).ws[i].pc.Hash?
    ensures KeepsAtIt(run(n + 1), i) && ToHash(run(n + 1).ws[i].pc) <= ToHash(run(n).ws[i].pc)
    ensures acts(n) == W(i) ==> ToHash(run(n + 1).ws[i].pc) < ToHash(run(n).ws[i].pc)
  {
    assert Turn(c, acts, run, n);
    InvAt(c, acts, run, n);
    HashNearerAt(c, run(n), acts(n), i);
  }

  lemma {:induction false} HashesAgain(c: Config, acts: nat -> Action, run: nat -> State, n: nat, i: nat)
    returns (k: nat)
    requires ValidConfig(c) && Execution(c, acts, run) && Fair(c, acts) && Calm(run, n) && i < c.threads
    requires KeepsAtIt(run(n), i)
    ensures k >= n && i < |run(k).ws| && run(k).ws[i].pc.Hash?
    decreases ToHash(run(n).ws[i].pc)
  {
    var m := TurnOf(c, acts, n, i);
    HashComes(c, acts, run, n, m, i);
    if HashesBetween(run, n, m, i) {
      k :| n <= k <= m && i < |run(k).ws| && run(k).ws[i].pc.Hash?;
    } else {
      assert !run(m).ws[i].pc.Hash?;
      LaterCalm(run, n, m);
      NearerAt(c, acts, run, m, i);
      LaterCalm(run, n, m + 1);
      k := HashesAgain(c, acts, run, m + 1, i);
    }
  }

  lemma StaleStaysAtIt(c: Config, acts: nat -> Action, run: nat -> State, n: nat, m: nat, i: nat)
    requires ValidConfig(c) && Execution(c, acts, run) && Calm(run, n) && n <= m && KeepsAtIt(run(n), i)
    ensures KeepsAtIt(run(m), i)
  {
    StaysStale(c, acts, run, n, m, i);
  }

  /**
    After `clear_work`, in every fair run in which the pool keeps running and nothing more is
    published, worker `i` stops hashing for good if and only if it was not left with an older
    job, one it can hash, by a copy between bump and install.
   */
  lemma ClearedWorkerStopsIff(c: Config, acts: nat -> Action, run: nat -> State, n: nat, i: nat, p: nat)
    requires ValidConfig(c) && Execution(c, acts, run) && Fair(c, acts) && Unpublished(run, n)
    requires Steady(run(n), p) && run(n).sh.work.job == None && i < c.threads
    ensures i < |run(n).ws|
    ensures StopsHashing(run, n, i) <==> OnCourse(run(n).ws[i], p) || !Workable(run(n).ws[i].local)
  {
    UnpublishedIsCalm(c, acts, run, n);
    AllThreads(c, acts, run, n);
    InvAt(c, acts, run, n);
    assert Follows(run(n).log, run(n).sh, run(n).ws[i]);
    if OnCourse(run(n).ws[i], p) {
      var m := Finishes(TakeUp, c, acts, run, n, i, p);
      HoldsNothing(c, acts, run, n, m, i, p);
      IdleFrom(c, acts, run, n, m, i);
      assert HashesNoMore(run, m, i);
    } else if !Workable(run(n).ws[i].local) {
      IdleFrom(c, acts, run, n, n, i);
      assert HashesNoMore(run, n, i);
    } else {
      forall m: nat | m >= n
        ensures !HashesNoMore(run, m, i)
      {
        StaleStaysAtIt(c, acts, run, n, m, i);
        LaterCalm(run, n, m);
        var k := HashesAgain(c, acts, run, m, i);
      }
    }
  }

  lemma HoldsNothing(c: Config, acts: nat -> Action, run: nat -> State, n: nat, m: nat, i: nat, p: nat)
    requires ValidConfig(c) && Execution(c, acts, run) && Calm(run, n) && n <= m
    requires run(n).sh.work.job == None && run(n).sh.workGen == p && TakenUp(run(m), i, p)
    ensures run(m).ws[i].workGen == run(m).sh.workGen && !Workable(run(m).ws[i].local)
  {
    CalmRun(c, acts, run, n, m);
    InvAt(c, acts, run, m);
    assert Follows(run(m).log, run(m).sh, run(m).ws[i]);
  }
}
