/**
  What each command of the controller comes to: `on_job`, `clear_work` and `stop`, from the idle
  state in which it is given to the next idle state, whatever the workers do meanwhile; and that
  in every fair run there is one.
 */
module PoolCommands {
  import opened Bytes
  import opened Jobs
  import opened MinerPool
  import opened PoolSafety
  import opened PoolTheorems
  import opened PoolLiveness

  // ---- the state of a command under way ----

  predicate SamePublications(s: State, t: State) {
    t.sh.workGen == s.sh.workGen && t.sh.work == s.sh.work && t.log == s.log
  }

  /** One more publication, of `job` as `set_work` stamps it or of none, not necessarily installed. */
  predicate OneMoreBegun(s: State, t: State, job: Option<MiningJob>) {
    var g := s.sh.workGen + 1;
    t.sh.workGen == g && t.log == s.log + [if job.None? then None else Some(job.value.(generation := g))]
  }

  predicate OneMore(s: State, t: State, job: Option<MiningJob>) {
    var g := s.sh.workGen + 1;
    && OneMoreBegun(s, t, job)
    && t.sh.work == Slot(g, if job.None? then None else Some(job.value.(generation := g)))
  }

  predicate SameKeys(s: State, t: State) {
    t.sh.epoch == s.sh.epoch && t.sh.hasherGen == s.sh.hasherGen && t.ctl.currentSeed == s.ctl.currentSeed
  }

  /** The job comes with a seed, and not the current one. */
  predicate Rekeys(s: State, cmd: Command) {
    cmd.OnJob? && cmd.seed != [] && cmd.seed != s.ctl.currentSeed
  }

  predicate KeysAfter(s: State, cmd: Command, t: State) {
    if Rekeys(s, cmd) then
      && t.sh.epoch == s.sh.epoch + 1 && t.ctl.currentSeed == cmd.seed
      && t.sh.hasherGen == if s.sh.running then s.sh.hasherGen + 1 else s.sh.hasherGen
    else SameKeys(s, t)
  }

  predicate Carrying(cmd: Command, t: State) {
    cmd.OnJob? && t.ctl.job == Some(cmd.job) && t.ctl.seed == cmd.seed
  }

  /** The command is done. */
  predicate Effect(s: State, cmd: Command, t: State) {
    match cmd
    case OnJob(job, seed) => KeysAfter(s, cmd, t) && OneMore(s, t, Some(job)) && t.sh.running
    case ClearWork => SameKeys(s, t) && OneMore(s, t, None) && t.sh.running == s.sh.running
    case StopPool => SameKeys(s, t) && SamePublications(s, t) && !t.sh.running
    case Wait => SameKeys(s, t) && SamePublications(s, t) && t.sh.running == s.sh.running
  }

  /** Where the controller stands with it. */
  predicate Underway(s: State, cmd: Command, t: State) {
    var pc := t.ctl.pc;
    && (Pausing(pc) || pc.Quiesced? || pc.Rekeying? ==>
          && Rekeys(s, cmd) && Carrying(cmd, t) && SameKeys(s, t) && SamePublications(s, t)
          && t.sh.running == s.sh.running && t.ctl.wasRunning == s.sh.running)
    && (pc.BumpHasher? ==>
          && Rekeys(s, cmd) && Carrying(cmd, t) && SamePublications(s, t) && s.sh.running && t.sh.running
          && t.sh.epoch == s.sh.epoch + 1 && t.ctl.currentSeed == cmd.seed && t.sh.hasherGen == s.sh.hasherGen)
    && (pc.Resume? || pc.StartCheck? ==>
          Carrying(cmd, t) && KeysAfter(s, cmd, t) && SamePublications(s, t) && t.sh.running == s.sh.running)
    && (pc.Spawning? ==> Carrying(cmd, t) && KeysAfter(s, cmd, t) && SamePublications(s, t) && t.sh.running)
    && (pc.Bump? ==> SamePublications(s, t) && Announcing(s, cmd, t))
    && (pc.Install? ==> OneMoreBegun(s, t, t.ctl.job) && Announcing(s, cmd, t))
    && (pc.StopUnpause? || pc.Joining? ==>
          cmd.StopPool? && SameKeys(s, t) && SamePublications(s, t) && !t.sh.running)
    && (pc.Idle? ==> Effect(s, cmd, t))
  }

  /** About to publish the job of the command, or none. */
  predicate Announcing(s: State, cmd: Command, t: State) {
    || (cmd.ClearWork? && t.ctl.job == None && SameKeys(s, t) && t.sh.running == s.sh.running)
    || (Carrying(cmd, t) && KeysAfter(s, cmd, t) && t.sh.running)
  }

  lemma Begins(c: Config, s: State, cmd: Command)
    requires s.ctl.pc.Idle?
    ensures Underway(s, cmd, Next(c, s, C(cmd)))
  {
  }

  /** A worker's step leaves all of that alone. */
  lemma WorkerApart(c: Config, t: State, i: nat)
    ensures var u := Next(c, t, W(i));
            && u.ctl == t.ctl && u.log == t.log && |u.ws| == |t.ws|
            && u.sh == t.sh.(inFlight := u.sh.inFlight, hashes := u.sh.hashes)
  {
  }

  lemma GoesOnRekeying(c: Config, s: State, cmd: Command, t: State, x: Command)
    requires Underway(s, cmd, t)
    requires Pausing(t.ctl.pc) || t.ctl.pc.Quiesced? || t.ctl.pc.Rekeying? || t.ctl.pc.BumpHasher?
    ensures Underway(s, cmd, CtlNext(c, t, x))
  {
  }

  lemma GoesOnPublishing(c: Config, s: State, cmd: Command, t: State, x: Command)
    requires Underway(s, cmd, t) && !t.ctl.pc.Idle?
    requires !Pausing(t.ctl.pc) && !t.ctl.pc.Quiesced? && !t.ctl.pc.Rekeying? && !t.ctl.pc.BumpHasher?
    ensures Underway(s, cmd, CtlNext(c, t, x))
  {
  }

  lemma GoesOn(c: Config, s: State, cmd: Command, t: State, a: Action)
    requires Underway(s, cmd, t) && !t.ctl.pc.Idle?
    ensures Underway(s, cmd, Next(c, t, a))
  {
    match a
    case W(i) =>
      WorkerApart(c, t, i);
    case C(x) =>
      if Pausing(t.ctl.pc) || t.ctl.pc.Quiesced? || t.ctl.pc.Rekeying? || t.ctl.pc.BumpHasher? {
        GoesOnRekeying(c, s, cmd, t, x);
      } else {
        GoesOnPublishing(c, s, cmd, t, x);
      }
  }

  // ---- from idle to idle ----

  /** `acts` take the controller from `t` to its next idle state and no further. */
  predicate ToIdle(c: Config, t: State, acts: seq<Action>)
    decreases |acts|
  {
    if t.ctl.pc.Idle? then acts == [] else acts != [] && ToIdle(c, Next(c, t, acts[0]), acts[1..])
  }

  lemma {:induction false} EffectAtIdle(c: Config, s: State, cmd: Command, t: State, acts: seq<Action>)
    requires Underway(s, cmd, t) && ToIdle(c, t, acts)
    ensures Effect(s, cmd, Run(c, t, acts)) && Run(c, t, acts).ctl.pc.Idle?
    decreases |acts|
  {
    if !t.ctl.pc.Idle? {
      GoesOn(c, s, cmd, t, acts[0]);
      EffectAtIdle(c, s, cmd, Next(c, t, acts[0]), acts[1..]);
    }
  }

  /** The state a command leaves, when it is given in the idle state `s` and `acts` follow up to the next. */
  function Done(c: Config, s: State, cmd: Command, acts: seq<Action>): State {
    Run(c, Next(c, s, C(cmd)), acts)
  }

  lemma CommandTakesEffect(c: Config, s: State, cmd: Command, acts: seq<Action>)
    requires ValidConfig(c) && Reachable(c, s) && s.ctl.pc.Idle? && ValidAction(C(cmd)) && ValidActions(acts)
    requires ToIdle(c, Next(c, s, C(cmd)), acts)
    ensures var t := Done(c, s, cmd, acts);
            && Inv(c, t) && t.ctl.pc.Idle? && Effect(s, cmd, t) && !t.sh.paused
            && |t.ws| == if t.sh.running then c.threads else 0
  {
    InvReachable(c, s);
    InvNext(c, s, C(cmd));
    InvRun(c, Next(c, s, C(cmd)), acts);
    Begins(c, s, cmd);
    EffectAtIdle(c, s, cmd, Next(c, s, C(cmd)), acts);
    IdleLifetime(c, Done(c, s, cmd, acts));
  }

  lemma IdleLifetime(c: Config, t: State)
    requires Inv(c, t) && t.ctl.pc.Idle?
    ensures !t.sh.paused && |t.ws| == if t.sh.running then c.threads else 0
  {
  }

  /** `clear_work`: a new generation, with no job under it. */
  lemma ClearWorkTakesEffect(c: Config, s: State, acts: seq<Action>)
    requires ValidConfig(c) && Reachable(c, s) && s.ctl.pc.Idle? && ValidActions(acts)
    requires ToIdle(c, Next(c, s, C(ClearWork)), acts)
    ensures var t := Done(c, s, ClearWork, acts);
            && t.ctl.pc.Idle? && t.sh.workGen == s.sh.workGen + 1 && t.log == s.log + [None]
            && t.sh.work.job == None && t.sh.work.pub == t.sh.workGen
            && t.sh.running == s.sh.running && t.sh.epoch == s.sh.epoch && t.sh.hasherGen == s.sh.hasherGen
  {
    CommandTakesEffect(c, s, ClearWork, acts);
  }

  /** `stop`: no thread is left, and the count of hashes is exact. */
  lemma StopTakesEffect(c: Config, s: State, acts: seq<Action>)
    requires ValidConfig(c) && Reachable(c, s) && s.ctl.pc.Idle? && ValidActions(acts)
    requires ToIdle(c, Next(c, s, C(StopPool)), acts)
    ensures s.sh.running ==> var m := Next(c, s, C(StopPool)); !m.sh.running && !m.ctl.pc.Idle?
    ensures var t := Done(c, s, StopPool, acts);
            && t.ctl.pc.Idle? && !t.sh.running && !t.sh.paused && t.ws == []
            && |t.tries| % 0x1_0000_0000_0000_0000 == t.sh.hashes % 0x1_0000_0000_0000_0000
            && t.sh.workGen == s.sh.workGen && t.sh.work == s.sh.work && t.log == s.log
  {
    CommandTakesEffect(c, s, StopPool, acts);
  }

  /**
    `on_job`: the job is published under a new generation, to a running pool; the cache is
    re-keyed and the hashers are told exactly if the job names a seed that is not the current one.
   */
  lemma JobTakesEffect(c: Config, s: State, job: MiningJob, seed: seq<Byte>, acts: seq<Action>)
    requires ValidConfig(c) && Reachable(c, s) && s.ctl.pc.Idle? && ValidActions(acts)
    requires job.nonceOffset + 4 < 0x1_0000_0000 && ToIdle(c, Next(c, s, C(OnJob(job, seed))), acts)
    ensures var t, g := Done(c, s, OnJob(job, seed), acts), s.sh.workGen + 1;
            && t.ctl.pc.Idle? && t.sh.running && !t.sh.paused && |t.ws| == c.threads
            && t.sh.workGen == g && t.sh.work == Slot(g, Some(job.(generation := g)))
            && t.log == s.log + [Some(job.(generation := g))]
            && (if seed != [] && seed != s.ctl.currentSeed
                then
                  && t.sh.epoch == s.sh.epoch + 1 && t.ctl.currentSeed == seed
                  && t.sh.hasherGen == (if s.sh.running then s.sh.hasherGen + 1 else s.sh.hasherGen)
                else
                  && t.sh.epoch == s.sh.epoch && t.ctl.currentSeed == s.ctl.currentSeed
                  && t.sh.hasherGen == s.sh.hasherGen)
  {
    CommandTakesEffect(c, s, OnJob(job, seed), acts);
  }

  // ---- and idle again it becomes ----

  /** Steps of the controller to its next idle state; `missing` threads are still to be started. */
  function StepsToIdle(pc: CtlPc, missing: nat): nat {
    match pc
    case Idle => 0
    case Install => 1
    case Bump => 2
    case Spawning => 3 + missing
    case StartCheck => 4 + missing
    case Resume => 5 + missing
    case BumpHasher => 6 + missing
    case Rekeying => 7 + missing
    case Quiesced => 8 + missing
    case PauseWait => 9 + missing
    case PauseLoad => 10 + missing
    case PauseStore => 11 + missing
    case Joining => 1
    case StopUnpause => 2
  }

  function Missing(c: Config, s: State): nat {
    if |s.ws| < c.threads then c.threads - |s.ws| else 0
  }

  function Far(c: Config, s: State): nat {
    StepsToIdle(s.ctl.pc, Missing(c, s))
  }

  /** The controller's step, outside the two waits, brings it nearer. */
  lemma NearerIdle(c: Config, s: State, cmd: Command)
    requires Lifetime(c, s) && !s.ctl.pc.Idle? && !s.ctl.pc.PauseWait? && !s.ctl.pc.Joining?
    ensures Far(c, CtlNext(c, s, cmd)) < Far(c, s)
  {
  }

  lemma NoFarther(c: Config, s: State, a: Action)
    requires Lifetime(c, s) && !s.ctl.pc.Idle?
    ensures Far(c, Next(c, s, a)) <= Far(c, s)
  {
    match a
    case W(i) =>
      WorkerApart(c, s, i);
    case C(cmd) =>
      if s.ctl.pc.PauseWait? || s.ctl.pc.Joining? {
        WaitsNoFarther(c, s, cmd);
      } else {
        NearerIdle(c, s, cmd);
      }
  }

  lemma WaitsNoFarther(c: Config, s: State, cmd: Command)
    requires s.ctl.pc.PauseWait? || s.ctl.pc.Joining?
    ensures Far(c, CtlNext(c, s, cmd)) <= Far(c, s)
  {
  }

  /** From time `n` to `m` the command stays under way, or it is done on the way. */
  ghost predicate DoneBetween(s: State, cmd: Command, run: nat -> State, n: nat, m: nat) {
    exists k: nat :: n <= k <= m && run(k).ctl.pc.Idle? && Effect(s, cmd, run(k))
  }

  lemma {:induction false} WalksOn(
    c: Config, acts: nat -> Action, run: nat -> State, s: State, cmd: Command, n: nat, m: nat)
    requires ValidConfig(c) && Execution(c, acts, run) && n <= m && Underway(s, cmd, run(n))
    ensures DoneBetween(s, cmd, run, n, m) ||
            (Underway(s, cmd, run(m)) && !run(m).ctl.pc.Idle? && Far(c, run(m)) <= Far(c, run(n)))
    decreases m - n
  {
    if run(n).ctl.pc.Idle? {
      assert DoneBetween(s, cmd, run, n, m);
    } else if n < m {
      OneStepOn(c, acts, run, s, cmd, n);
      WalksOn(c, acts, run, s, cmd, n + 1, m);
      if DoneBetween(s, cmd, run, n + 1, m) {
        var k: nat :| n + 1 <= k <= m && run(k).ctl.pc.Idle? && Effect(s, cmd, run(k));
        assert DoneBetween(s, cmd, run, n, m);
      }
    }
  }

  lemma OneStepOn(c: Config, acts: nat -> Action, run: nat -> State, s: State, cmd: Command, n: nat)
    requires ValidConfig(c) && Execution(c, acts, run) && Underway(s, cmd, run(n)) && !run(n).ctl.pc.Idle?
    ensures Underway(s, cmd, run(n + 1)) && Far(c, run(n + 1)) <= Far(c, run(n))
    ensures acts(n).C? && !run(n).ctl.pc.PauseWait? && !run(n).ctl.pc.Joining? ==> Far(c, run(n + 1)) < Far(c, run(n))
  {
    assert Turn(c, acts, run, n);
    LifetimeAt(c, acts, run, n);
    GoesOn(c, s, cmd, run(n), acts(n));
    NoFarther(c, run(n), acts(n));
    if acts(n).C? && !run(n).ctl.pc.PauseWait? && !run(n).ctl.pc.Joining? {
      NearerIdle(c, run(n), acts(n).cmd);
    }
  }

  lemma LifetimeAt(c: Config, acts: nat -> Action, run: nat -> State, n: nat)
    requires ValidConfig(c) && Execution(c, acts, run)
    ensures Lifetime(c, run(n))
  {
    InvAt(c, acts, run, n);
  }

  predicate Waits(pc: CtlPc) {
    pc.PauseWait? || pc.Joining?
  }

  /** The two waits end. */
  lemma WaitNearer(c: Config, acts: nat -> Action, run: nat -> State, s: State, cmd: Command, n: nat)
    returns (m: nat)
    requires ValidConfig(c) && Execution(c, acts, run) && Fair(c, acts)
    requires Underway(s, cmd, run(n)) && Waits(run(n).ctl.pc)
    ensures m >= n
    ensures DoneBetween(s, cmd, run, n, m) || (Underway(s, cmd, run(m)) && Far(c, run(m)) < Far(c, run(n)))
  {
    if run(n).ctl.pc.PauseWait? {
      PauseReturns(c, acts, run, n);
      m :| n <= m && run(m).ctl.pc.Quiesced?;
      WalksOn(c, acts, run, s, cmd, n, m);
      NoneMissing(c, acts, run, n);
      NoneMissing(c, acts, run, m);
    } else {
      StopReturns(c, acts, run, n);
      m :| n <= m && run(m).ctl.pc.Idle? && run(m).ws == [];
      WalksOn(c, acts, run, s, cmd, n, m);
    }
  }

  /** A later moment at which less is left to do, or nothing. */
  lemma LaterNearer(c: Config, acts: nat -> Action, run: nat -> State, s: State, cmd: Command, n: nat)
    returns (m: nat)
    requires ValidConfig(c) && Execution(c, acts, run) && Fair(c, acts)
    requires Underway(s, cmd, run(n)) && !run(n).ctl.pc.Idle?
    ensures m >= n
    ensures DoneBetween(s, cmd, run, n, m) || (Underway(s, cmd, run(m)) && Far(c, run(m)) < Far(c, run(n)))
  {
    var k := ControllerTurn(c, acts, n);
    WalksOn(c, acts, run, s, cmd, n, k);
    if DoneBetween(s, cmd, run, n, k) || Far(c, run(k)) < Far(c, run(n)) {
      m := k;
    } else if Waits(run(k).ctl.pc) {
      m := WaitNearer(c, acts, run, s, cmd, k);
      if DoneBetween(s, cmd, run, k, m) {
        var j: nat :| k <= j <= m && run(j).ctl.pc.Idle? && Effect(s, cmd, run(j));
        assert DoneBetween(s, cmd, run, n, m);
      }
    } else {
      m := k + 1;
      OneStepOn(c, acts, run, s, cmd, k);
    }
  }

  lemma ControllerTurn(c: Config, acts: nat -> Action, n: nat) returns (k: nat)
    requires Fair(c, acts)
    ensures k >= n && acts(k).C?
  {
    assert ControllerAfter(acts, n);
    k :| k >= n && acts(k).C?;
  }

  lemma NoneMissing(c: Config, acts: nat -> Action, run: nat -> State, n: nat)
    requires ValidConfig(c) && Execution(c, acts, run) && (run(n).ctl.pc.PauseWait? || run(n).ctl.pc.Quiesced?)
    ensures Missing(c, run(n)) == 0
  {
    LifetimeAt(c, acts, run, n);
  }

  lemma {:induction false} GetsDone(c: Config, acts: nat -> Action, run: nat -> State, s: State, cmd: Command, n: nat)
    returns (m: nat)
    requires ValidConfig(c) && Execution(c, acts, run) && Fair(c, acts) && Underway(s, cmd, run(n))
    ensures m >= n && run(m).ctl.pc.Idle? && Effect(s, cmd, run(m))
    decreases Far(c, run(n))
  {
    if run(n).ctl.pc.Idle? {
      m := n;
    } else {
      var k := LaterNearer(c, acts, run, s, cmd, n);
      if DoneBetween(s, cmd, run, n, k) {
        m :| n <= m <= k && run(m).ctl.pc.Idle? && Effect(s, cmd, run(m));
      } else {
        m := GetsDone(c, acts, run, s, cmd, k);
      }
    }
  }

  /** In every fair run each command is carried out. */
  lemma CommandIsCarriedOut(c: Config, acts: nat -> Action, run: nat -> State, n: nat) returns (m: nat)
    requires ValidConfig(c) && Execution(c, acts, run) && Fair(c, acts) && run(n).ctl.pc.Idle? && acts(n).C?
    ensures m > n && run(m).ctl.pc.Idle? && Effect(run(n), acts(n).cmd, run(m))
  {
    assert Turn(c, acts, run, n);
    Begins(c, run(n), acts(n).cmd);
    m := GetsDone(c, acts, run, run(n), acts(n).cmd, n + 1);
  }

  /** So in every fair run `stop` comes to a state with no thread, and `hashes_` is exact there. */
  lemma StopComesToRest(c: Config, acts: nat -> Action, run: nat -> State, n: nat) returns (m: nat)
    requires ValidConfig(c) && Execution(c, acts, run) && Fair(c, acts)
    requires run(n).ctl.pc.Idle? && acts(n) == C(StopPool)
    ensures m > n && run(m).ctl.pc.Idle? && !run(m).sh.running && run(m).ws == []
    ensures |run(m).tries| % 0x1_0000_0000_0000_0000 == run(m).sh.hashes % 0x1_0000_0000_0000_0000
  {
    m := CommandIsCarriedOut(c, acts, run, n);
    InvAt(c, acts, run, m);
    IdleLifetime(c, run(m));
  }
}
