/** `pause()` and `stop()` return: what each worker can still do, and why the two waits end. */
module PoolLiveness {
  import opened MinerPool
  import opened PoolSafety
  import opened PoolWork
  import opened PoolTheorems

  // ---- bounded work after the store ----

  /** How often the worker can still increment `in_flight_` before parking. */
  function EnterBudget(w: Worker): nat {
    match w.pc
    case CheckHasher => 1
    case Rebuild => 1
    case RecordRebuilt => 1
    case LoadWork => 1
    case CopyWork => 1
    case CheckLocal => 1
    case Enter => 1
    case _ => 0
  }

  /** How many hashes it can still do before parking. */
  function HashBudget(w: Worker): nat {
    if w.pc.Hash? && w.done < CHUNK then CHUNK - w.done else 0
  }

  lemma BudgetStep(c: Config, i: nat, sh: Shared, w: Worker)
    requires sh.paused && (w.pc.Hash? ==> HasRoom(w) && w.done < CHUNK)
    ensures var v := StepWorker(c, i, sh, w);
            && EnterBudget(v) + (if w.pc.Enter? then 1 else 0) <= EnterBudget(w)
            && HashBudget(v) + (if w.pc.Hash? then 1 else 0) <= HashBudget(w)
  {
  }

  predicate Steps(s: State, a: Action, i: nat) {
    a == W(i) && i < |s.ws|
  }

  /** How often worker `i` increments `in_flight_`, and how many hashes it does, along a run. */
  function Enters(c: Config, s: State, acts: seq<Action>, i: nat): nat
    decreases |acts|
  {
    if acts == [] then 0
    else (if Steps(s, acts[0], i) && s.ws[i].pc.Enter? then 1 else 0) + Enters(c, Next(c, s, acts[0]), acts[1..], i)
  }

  function HashCalls(c: Config, s: State, acts: seq<Action>, i: nat): nat
    decreases |acts|
  {
    if acts == [] then 0
    else (if Steps(s, acts[0], i) && s.ws[i].pc.Hash? then 1 else 0) + HashCalls(c, Next(c, s, acts[0]), acts[1..], i)
  }

  predicate StaysPaused(c: Config, s: State, acts: seq<Action>)
    decreases |acts|
  {
    acts != [] ==> s.sh.paused && StaysPaused(c, Next(c, s, acts[0]), acts[1..])
  }

  /**
    From the store to `paused_` until it is cleared, each worker increments `in_flight_` at
    most once more and does at most 16 more hashes, whatever the interleaving.
   */
  lemma {:induction false} PausedWorkIsBounded(c: Config, s: State, acts: seq<Action>, i: nat)
    requires ValidConfig(c) && ValidActions(acts) && Inv(c, s) && StaysPaused(c, s, acts) && i < |s.ws|
    ensures Enters(c, s, acts, i) <= EnterBudget(s.ws[i]) <= 1
    ensures HashCalls(c, s, acts, i) <= HashBudget(s.ws[i]) <= CHUNK
    decreases |acts|
  {
    if acts != [] {
      var a, t := acts[0], Next(c, s, acts[0]);
      InvNext(c, s, a);
      assert Scans(c, i, s.ws[i]);
      if a == W(i) {
        OwnStep(c, s, i);
        BudgetStep(c, i, s.sh, s.ws[i]);
      } else {
        OthersKept(c, s, a, i);
        assert !s.ws[i].pc.Exited?;
      }
      PausedWorkIsBounded(c, t, acts[1..], i);
    }
  }

  // ---- the waits end in every fair run ----

  /** Steps left until the worker is parked, while `paused_` is set. */
  function Rank(w: Worker): nat {
    match w.pc
    case Top => 0
    case CheckPaused => 0
    case Exited => 0
    case RecordBuilt => 1
    case Build => 2
    case Withdraw => 1
    case Flush => 1
    case Leave => 2
    case Hash => if w.done < CHUNK then 2 + (CHUNK - w.done) else 3
    case Recheck => 2
    case Enter => 3
    case CheckLocal => 4
    case CopyWork => 5
    case LoadWork => 6
    case RecordRebuilt => 7
    case Rebuild => 8
    case CheckHasher => 9
  }

  lemma RankStep(c: Config, i: nat, sh: Shared, w: Worker)
    requires sh.paused && sh.running && (w.pc.Hash? ==> HasRoom(w) && w.done < CHUNK)
    ensures var v := StepWorker(c, i, sh, w);
            if Rank(w) == 0 then Rank(v) == 0 else Rank(v) < Rank(w)
  {
  }

  /** Steps left until the worker's thread ends, once `running_` is cleared. */
  function ExitRank(w: Worker): nat {
    match w.pc
    case Exited => 0
    case Top => 1
    case RecordBuilt => 2
    case Build => 3
    case Withdraw => 2
    case Flush => 2
    case Leave => 3
    case Hash => if w.done < CHUNK then 3 + (CHUNK - w.done) else 4
    case Recheck => 20
    case Enter => 21
    case CheckLocal => 22
    case CopyWork => 23
    case LoadWork => 24
    case RecordRebuilt => 25
    case Rebuild => 26
    case CheckHasher => 27
    case CheckPaused => 28
  }

  lemma ExitRankStep(c: Config, i: nat, sh: Shared, w: Worker)
    requires !sh.running && (w.pc.Hash? ==> HasRoom(w) && w.done < CHUNK)
    ensures var v := StepWorker(c, i, sh, w);
            if ExitRank(w) == 0 then ExitRank(v) == 0 else ExitRank(v) < ExitRank(w)
  {
  }

  /** The two waits: for the in-flight count in `pause()`, and for the threads in `stop()`. */
  datatype Blocking = OfPause | OfStop

  predicate Blocked(k: Blocking, s: State) {
    if k.OfPause? then s.ctl.pc.PauseWait? else s.ctl.pc.Joining?
  }

  predicate Released(k: Blocking, s: State) {
    if k.OfPause? then s.ctl.pc.Quiesced? else s.ctl.pc.Idle? && s.ws == []
  }

  function RankOf(k: Blocking): Worker -> nat {
    if k.OfPause? then Rank else ExitRank
  }

  lemma RankOfStep(k: Blocking, c: Config, i: nat, s: State)
    requires Inv(c, s) && Blocked(k, s) && i < |s.ws|
    ensures var v, rank := StepWorker(c, i, s.sh, s.ws[i]), RankOf(k);
            if rank(s.ws[i]) == 0 then rank(v) == 0 else rank(v) < rank(s.ws[i])
  {
    assert Scans(c, i, s.ws[i]);
    if k.OfPause? {
      RankStep(c, i, s.sh, s.ws[i]);
    } else {
      ExitRankStep(c, i, s.sh, s.ws[i]);
    }
  }

  ghost predicate Turn(c: Config, acts: nat -> Action, run: nat -> State, n: nat) {
    run(n + 1) == Next(c, run(n), acts(n))
  }

  /** `run` is the infinite run of the pool under the schedule `acts`. */
  ghost predicate Execution(c: Config, acts: nat -> Action, run: nat -> State) {
    run(0) == Init() && forall n: nat :: ValidAction(acts(n)) && Turn(c, acts, run, n)
  }

  ghost predicate WorkerAfter(acts: nat -> Action, n: nat, i: nat) {
    exists m: nat :: m >= n && acts(m) == W(i)
  }

  ghost predicate ControllerAfter(acts: nat -> Action, n: nat) {
    exists m: nat :: m >= n && acts(m).C?
  }

  /** Every thread is scheduled again and again. */
  ghost predicate Fair(c: Config, acts: nat -> Action) {
    && (forall n: nat, i: nat :: i < c.threads ==> WorkerAfter(acts, n, i))
    && (forall n: nat :: ControllerAfter(acts, n))
  }

  lemma {:induction false} InvAt(c: Config, acts: nat -> Action, run: nat -> State, n: nat)
    requires ValidConfig(c) && Execution(c, acts, run)
    ensures Inv(c, run(n))
  {
    if n == 0 {
      InvRun(c, Init(), []);
    } else {
      InvAt(c, acts, run, n - 1);
      assert Turn(c, acts, run, n - 1);
      InvNext(c, run(n - 1), acts(n - 1));
    }
  }

  ghost predicate ReturnsBetween(k: Blocking, run: nat -> State, n: nat, m: nat) {
    exists j: nat :: n <= j <= m && Released(k, run(j))
  }

  predicate NoHigher(rank: Worker -> nat, s: State, t: State) {
    && |t.ws| == |s.ws|
    && Sum(t.ws, rank) <= Sum(s.ws, rank)
    && (Sum(t.ws, rank) == Sum(s.ws, rank) ==> forall j :: 0 <= j < |s.ws| ==> rank(t.ws[j]) == rank(s.ws[j]))
  }

  predicate WaitsOn(k: Blocking, s: State, t: State) {
    Blocked(k, t) && NoHigher(RankOf(k), s, t)
  }

  lemma WaitsTrans(k: Blocking, s: State, t: State, u: State)
    requires WaitsOn(k, s, t) && WaitsOn(k, t, u)
    ensures WaitsOn(k, s, u)
  {
  }

  /** A controller step of a wait either ends it or changes nothing. */
  lemma BlockedController(k: Blocking, c: Config, s: State, cmd: Command)
    requires Blocked(k, s)
    ensures var t := CtlNext(c, s, cmd); Released(k, t) || t == s
  {
  }

  lemma BlockedWorker(k: Blocking, c: Config, s: State, i: nat)
    requires Blocked(k, s) && i < |s.ws|
    ensures var t := Next(c, s, W(i)); Blocked(k, t) && t.ws == s.ws[i := StepWorker(c, i, s.sh, s.ws[i])]
  {
  }

  /** One step of the wait: the total rank never grows, and drops when a worker with steps left moves. */
  lemma WaitStep(k: Blocking, c: Config, s: State, a: Action)
    requires Inv(c, s) && Blocked(k, s)
    ensures var t := Next(c, s, a); Released(k, t) || WaitsOn(k, s, t)
    ensures a.W? && a.i < |s.ws| && RankOf(k)(s.ws[a.i]) > 0 ==>
              Sum(Next(c, s, a).ws, RankOf(k)) < Sum(s.ws, RankOf(k))
  {
    match a
    case W(i) =>
      if i < |s.ws| {
        BlockedWorker(k, c, s, i);
        RankOfStep(k, c, i, s);
        SumUpdate(s.ws, RankOf(k), i, StepWorker(c, i, s.sh, s.ws[i]));
      }
    case C(cmd) =>
      BlockedController(k, c, s, cmd);
  }

  /** When no worker has steps left, the controller's next step ends the wait. */
  lemma RankZeroReleases(k: Blocking, c: Config, s: State, cmd: Command)
    requires Inv(c, s) && Blocked(k, s) && Sum(s.ws, RankOf(k)) == 0
    ensures Released(k, CtlNext(c, s, cmd))
  {
    if k.OfPause? {
      RankZeroIsIdle(s);
    } else {
      RankZeroIsExited(s);
    }
  }

  lemma RankZeroIsIdle(s: State)
    requires Handshake(s) && Sum(s.ws, Rank) == 0
    ensures s.sh.inFlight == 0
  {
    SumZero(s.ws, Rank);
    SumZero(s.ws, InFlightBit);
    assert forall i :: 0 <= i < |s.ws| ==> Rank(s.ws[i]) == 0 && InFlightBit(s.ws[i]) == 0;
  }

  lemma RankZeroIsExited(s: State)
    requires Sum(s.ws, ExitRank) == 0
    ensures forall i :: 0 <= i < |s.ws| ==> s.ws[i].pc == Exited
  {
    SumZero(s.ws, ExitRank);
    assert forall i :: 0 <= i < |s.ws| ==> ExitRank(s.ws[i]) == 0;
  }

  lemma WaitAt(k: Blocking, c: Config, acts: nat -> Action, run: nat -> State, m: nat)
    requires ValidConfig(c) && Execution(c, acts, run) && Blocked(k, run(m))
    ensures var s, t := run(m), run(m + 1);
            && (Released(k, t) || WaitsOn(k, s, t))
            && (acts(m).W? && acts(m).i < |s.ws| && RankOf(k)(s.ws[acts(m).i]) > 0 ==>
                  Sum(t.ws, RankOf(k)) < Sum(s.ws, RankOf(k)))
            && (acts(m).C? && Sum(s.ws, RankOf(k)) == 0 ==> Released(k, t))
  {
    var s := run(m);
    InvAt(c, acts, run, m);
    WaitStep(k, c, s, acts(m));
    assert Turn(c, acts, run, m);
    if acts(m).C? && Sum(s.ws, RankOf(k)) == 0 {
      RankZeroReleases(k, c, s, acts(m).cmd);
    }
  }

  lemma {:induction false} Waiting(k: Blocking, c: Config, acts: nat -> Action, run: nat -> State, n: nat, m: nat)
    requires ValidConfig(c) && Execution(c, acts, run) && n <= m && Blocked(k, run(n))
    ensures ReturnsBetween(k, run, n, m) || WaitsOn(k, run(n), run(m))
    decreases m - n
  {
    if n < m {
      WaitAt(k, c, acts, run, n);
      if Released(k, run(n + 1)) {
        assert ReturnsBetween(k, run, n, m);
      } else {
        Waiting(k, c, acts, run, n + 1, m);
        if ReturnsBetween(k, run, n + 1, m) {
          var j: nat :| n + 1 <= j <= m && Released(k, run(j));
          assert ReturnsBetween(k, run, n, m);
        } else {
          WaitsTrans(k, run(n), run(n + 1), run(m));
        }
      }
    }
  }

  /** The next moment of the schedule at which the wait must make progress. */
  lemma NextProgress(rank: Worker -> nat, c: Config, acts: nat -> Action, n: nat, s: State) returns (m: nat)
    requires Fair(c, acts) && |s.ws| <= c.threads
    ensures m >= n
    ensures if Sum(s.ws, rank) == 0 then acts(m).C?
            else acts(m).W? && acts(m).i < |s.ws| && rank(s.ws[acts(m).i]) > 0
  {
    if Sum(s.ws, rank) == 0 {
      assert ControllerAfter(acts, n);
      m :| m >= n && acts(m).C?;
    } else {
      SumZero(s.ws, rank);
      var i: nat :| i < |s.ws| && rank(s.ws[i]) != 0;
      assert WorkerAfter(acts, n, i);
      m :| m >= n && acts(m) == W(i);
    }
  }

  lemma ProgressFrom(k: Blocking, c: Config, acts: nat -> Action, run: nat -> State, n: nat) returns (m: nat)
    requires ValidConfig(c) && Execution(c, acts, run) && Fair(c, acts) && Blocked(k, run(n))
    ensures m > n
    ensures || ReturnsBetween(k, run, n, m)
            || (Blocked(k, run(m)) && Sum(run(m).ws, RankOf(k)) < Sum(run(n).ws, RankOf(k)))
  {
    ThreadsAt(c, acts, run, n);
    var j := NextProgress(RankOf(k), c, acts, n, run(n));
    m := j + 1;
    Waiting(k, c, acts, run, n, j);
    if ReturnsBetween(k, run, n, j) {
      var i: nat :| n <= i <= j && Released(k, run(i));
      assert ReturnsBetween(k, run, n, m);
    } else {
      WaitAt(k, c, acts, run, j);
      if Released(k, run(m)) {
        assert ReturnsBetween(k, run, n, m);
      }
    }
  }

  lemma ThreadsAt(c: Config, acts: nat -> Action, run: nat -> State, n: nat)
    requires ValidConfig(c) && Execution(c, acts, run)
    ensures |run(n).ws| <= c.threads
  {
    InvAt(c, acts, run, n);
  }

  lemma {:induction false} WaitEnds(k: Blocking, c: Config, acts: nat -> Action, run: nat -> State, n: nat)
    requires ValidConfig(c) && Execution(c, acts, run) && Fair(c, acts) && Blocked(k, run(n))
    ensures exists m: nat :: n <= m && Released(k, run(m))
    decreases Sum(run(n).ws, RankOf(k))
  {
    var m := ProgressFrom(k, c, acts, run, n);
    if ReturnsBetween(k, run, n, m) {
      var j: nat :| n <= j <= m && Released(k, run(j));
    } else {
      WaitEnds(k, c, acts, run, m);
    }
  }

  /** In every fair run the wait loop of `pause()` ends. */
  lemma PauseReturns(c: Config, acts: nat -> Action, run: nat -> State, n: nat)
    requires ValidConfig(c) && Execution(c, acts, run) && Fair(c, acts) && run(n).ctl.pc.PauseWait?
    ensures exists m: nat :: n <= m && run(m).ctl.pc.Quiesced?
  {
    WaitEnds(OfPause, c, acts, run, n);
    var m: nat :| n <= m && Released(OfPause, run(m));
    assert run(m).ctl.pc.Quiesced?;
  }

  /** In every fair run the join of `stop()` ends, with every thread gone. */
  lemma StopReturns(c: Config, acts: nat -> Action, run: nat -> State, n: nat)
    requires ValidConfig(c) && Execution(c, acts, run) && Fair(c, acts) && run(n).ctl.pc.Joining?
    ensures exists m: nat :: n <= m && run(m).ctl.pc.Idle? && run(m).ws == []
  {
    WaitEnds(OfStop, c, acts, run, n);
    var m: nat :| n <= m && Released(OfStop, run(m));
    assert run(m).ctl.pc.Idle? && run(m).ws == [];
  }
}
