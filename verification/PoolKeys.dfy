/**
  Keys and publications: which seed a job is published under, and when a worker can hash a
  publication with a hasher keyed for another one.

  `on_job` re-keys, rebuilds and resumes before it publishes, so besides the caught workers of
  `PoolHashers` there are workers that rebuild in time and go on with the job of the old key.
 */
module PoolKeys {
  import opened Bytes
  import opened MinerPool
  import opened PoolSafety
  import opened PoolWork
  import opened PoolTheorems
  import opened PoolHashers
  import opened PoolLiveness

  // ---- seeds ----

  /** The seed of the job in hand against the seed of the last completed re-key, line by line of `on_job`. */
  predicate Keyed(ctl: Controller) {
    var pc := ctl.pc;
    && (Pausing(pc) || pc.Quiesced? || pc.Rekeying? ==> ctl.seed != [] && ctl.seed != ctl.currentSeed)
    && (pc.BumpHasher? || pc.Resume? ==> ctl.currentSeed == ctl.seed)
    && (pc.StartCheck? || pc.Spawning? || pc.Bump? || pc.Install? ==>
          ctl.job.Some? && ctl.seed != [] ==> ctl.currentSeed == ctl.seed)
  }

  lemma KeyedCommand(s: State, cmd: Command)
    requires s.ctl.pc.Idle?
    ensures Keyed(Command0(s, cmd).ctl)
  {
  }

  lemma KeyedController(c: Config, s: State, cmd: Command)
    requires Keyed(s.ctl)
    ensures Keyed(CtlNext(c, s, cmd).ctl)
  {
    if s.ctl.pc.Idle? {
      KeyedCommand(s, cmd);
      assert CtlNext(c, s, cmd) == Command0(s, cmd);
    } else {
      SeedFrames(c, s, cmd);
    }
  }

  /** What a step inside `on_job` does to the seeds. */
  lemma SeedFrames(c: Config, s: State, cmd: Command)
    requires !s.ctl.pc.Idle?
    ensures var t, u := s.ctl, CtlNext(c, s, cmd).ctl;
            && u.seed == t.seed && u.job == t.job
            && u.currentSeed == (if t.pc.Rekeying? then t.seed else t.currentSeed)
            && (Pausing(u.pc) || u.pc.Quiesced? ==> Pausing(t.pc))
            && (u.pc.Rekeying? ==> t.pc.Quiesced?)
            && (u.pc.BumpHasher? || u.pc.Resume? ==> t.pc.Rekeying? || t.pc.BumpHasher?)
            && (u.pc.StartCheck? ==> t.pc.Rekeying? || t.pc.Resume?)
            && (u.pc.Spawning? || u.pc.Bump? || u.pc.Install? ==> t.pc.StartCheck? || t.pc.Spawning? || t.pc.Bump?)
  {
  }

  /** The cache is re-keyed by that one line of `on_job`. */
  lemma EpochNext(c: Config, s: State, a: Action)
    ensures Next(c, s, a).sh.epoch == if a.C? && s.ctl.pc.Rekeying? then s.sh.epoch + 1 else s.sh.epoch
    ensures a.C? && s.ctl.pc.Rekeying? ==> Next(c, s, a).ctl.currentSeed == s.ctl.seed
    ensures a.W? ==> Next(c, s, a).ctl == s.ctl
  {
  }

  lemma KeyedNext(c: Config, s: State, a: Action)
    requires Keyed(s.ctl)
    ensures Keyed(Next(c, s, a).ctl)
  {
    EpochNext(c, s, a);
    if a.C? {
      KeyedController(c, s, a.cmd);
    }
  }

  lemma {:induction false} KeyedRun(c: Config, s: State, acts: seq<Action>)
    requires Keyed(s.ctl)
    ensures Keyed(Run(c, s, acts).ctl)
    decreases |acts|
  {
    if acts != [] {
      KeyedNext(c, s, acts[0]);
      KeyedRun(c, Next(c, s, acts[0]), acts[1..]);
    }
  }

  // ---- the history of keys ----

  /** A publication that came with a seed was made under the re-key for that seed. */
  predicate StampOk(seeds: seq<seq<Byte>>, p: Stamp) {
    p.epoch < |seeds| && (p.seed != [] ==> seeds[p.epoch] == p.seed)
  }

  predicate KeyHistory(s: State) {
    && |s.seeds| == s.sh.epoch + 1 && s.seeds[s.sh.epoch] == s.ctl.currentSeed
    && |s.stamps| == |s.log|
    && (forall k :: 0 <= k < |s.stamps| ==> StampOk(s.seeds, s.stamps[k]))
    && (s.ctl.pc.BumpHasher? || s.ctl.pc.Resume? ==>
          forall k :: 0 <= k < |s.stamps| ==> s.stamps[k].epoch < s.sh.epoch)
  }

  /** What a step can do to the history of keys: re-key, publish, or neither. */
  predicate KeyStep(s: State, t: State) {
    var p := Stamp(s.sh.epoch, if s.ctl.job.Some? then s.ctl.seed else []);
    || (&& t.seeds == s.seeds + [s.ctl.seed] && t.sh.epoch == s.sh.epoch + 1 && t.ctl.currentSeed == s.ctl.seed
        && t.stamps == s.stamps && |t.log| == |s.log|)
    || (&& t.seeds == s.seeds && t.sh.epoch == s.sh.epoch && t.ctl.currentSeed == s.ctl.currentSeed
        && s.ctl.pc.Bump? && t.ctl.pc.Install? && t.stamps == s.stamps + [p] && |t.log| == |s.log| + 1)
    || (&& t.seeds == s.seeds && t.sh.epoch == s.sh.epoch && t.ctl.currentSeed == s.ctl.currentSeed
        && (t.ctl.pc.BumpHasher? || t.ctl.pc.Resume? ==> s.ctl.pc.BumpHasher? || s.ctl.pc.Resume?)
        && t.stamps == s.stamps && |t.log| == |s.log|)
  }

  lemma KeyStepsWorker(c: Config, s: State, i: nat)
    requires i < |s.ws|
    ensures KeyStep(s, WorkerNext(c, s, i))
  {
  }

  lemma KeyStepsController(c: Config, s: State, cmd: Command)
    ensures KeyStep(s, CtlNext(c, s, cmd))
  {
  }

  lemma KeySteps(c: Config, s: State, a: Action)
    ensures KeyStep(s, Next(c, s, a))
  {
    match a
    case W(i) =>
      if i < |s.ws| {
        KeyStepsWorker(c, s, i);
      }
    case C(cmd) =>
      KeyStepsController(c, s, cmd);
  }

  lemma KeyHistoryStep(s: State, t: State)
    requires Keyed(s.ctl) && KeyHistory(s) && KeyStep(s, t)
    ensures KeyHistory(t)
  {
    forall k | 0 <= k < |t.stamps|
      ensures StampOk(t.seeds, t.stamps[k])
    {
      assert k < |s.stamps| ==> StampOk(s.seeds, s.stamps[k]);
    }
  }

  lemma {:induction false} KeyHistoryRun(c: Config, s: State, acts: seq<Action>)
    requires Keyed(s.ctl) && KeyHistory(s)
    ensures Keyed(Run(c, s, acts).ctl) && KeyHistory(Run(c, s, acts))
    decreases |acts|
  {
    if acts != [] {
      var t := Next(c, s, acts[0]);
      KeyedNext(c, s, acts[0]);
      KeySteps(c, s, acts[0]);
      KeyHistoryStep(s, t);
      KeyHistoryRun(c, t, acts[1..]);
    }
  }

  lemma KeyHistoryReachable(c: Config, s: State)
    requires Reachable(c, s)
    ensures Keyed(s.ctl) && KeyHistory(s)
  {
    var acts :| ValidActions(acts) && s == Run(c, Init(), acts);
    KeyHistoryRun(c, Init(), acts);
  }

  /**
    Every publication that came with a seed was made under the re-key for that very seed, and
    a re-key is made only for a seed that differs from the current one.
   */
  lemma PublishedUnderItsSeed(c: Config, s: State, a: Action)
    requires Reachable(c, s)
    ensures |s.stamps| == |s.log|
    ensures forall k :: 0 <= k < |s.stamps| ==> StampOk(s.seeds, s.stamps[k])
    ensures Next(c, s, a).sh.epoch != s.sh.epoch ==>
              s.ctl.seed != [] && s.ctl.seed != s.ctl.currentSeed && Next(c, s, a).ctl.currentSeed == s.ctl.seed
  {
    KeyHistoryReachable(c, s);
    EpochNext(c, s, a);
  }

  // ---- what a continuation adds ----

  /** Publications are never re-stamped, and those made since `s`, short of a further re-key, are under its epoch. */
  predicate Since(s: State, t: State) {
    && s.stamps <= t.stamps && s.sh.epoch <= t.sh.epoch
    && (t.sh.epoch == s.sh.epoch ==>
          forall k :: |s.stamps| <= k < |t.stamps| ==> t.stamps[k].epoch == s.sh.epoch)
  }

  lemma SinceStep(s: State, t: State, u: State)
    requires Since(s, t) && KeyStep(t, u)
    ensures Since(s, u)
  {
  }

  lemma {:induction false} SinceRun(c: Config, s: State, t: State, acts: seq<Action>)
    requires Since(s, t)
    ensures Since(s, Run(c, t, acts))
    decreases |acts|
  {
    if acts != [] {
      KeySteps(c, t, acts[0]);
      SinceStep(s, t, Next(c, t, acts[0]));
      SinceRun(c, s, Next(c, t, acts[0]), acts[1..]);
    }
  }

  // ---- hashing under another epoch's key ----

  /** The hasher at hand, the cache as it is, and the publication are all of one epoch. */
  predicate Agree(key: nat, epoch: nat, p: Stamp) {
    key == epoch == p.epoch
  }

  /** Worker `w` is about to hash, and they are not. */
  predicate Mixed(s: State, w: Worker) {
    w.pc.Hash? && w.local.pub < |s.stamps| && !Agree(w.key, s.sh.epoch, s.stamps[w.local.pub])
  }

  /** In `acts`, with no further re-key, worker `i` comes to do so. */
  ghost predicate Mixes(c: Config, s: State, acts: seq<Action>, i: nat) {
    var t := Run(c, s, acts);
    ValidActions(acts) && t.sh.epoch == s.sh.epoch && i < |t.ws| && Mixed(t, t.ws[i])
  }

  /** The worker has, or can still copy, a job of the old key that it could hash. */
  predicate HoldsOld(sh: Shared, w: Worker) {
    (w.workGen == sh.workGen && HasRoom(w)) || Workable(sh.work)
  }

  /** Past line 94 or at it, with a job it can hash. */
  predicate Bound(w: Worker) {
    (w.pc.CheckLocal? || w.pc.Enter? || w.pc.Recheck? || w.pc.Hash?) && HasRoom(w)
  }

  /**
    The workers that a re-key leaves free to hash under a wrong key: those with an earlier job
    at hand, those caught before the copy with an older hasher, and those on their way into
    the loop with an earlier job.
   */
  predicate CanMix(s: State, w: Worker) {
    || HoldsOld(s.sh, w)
    || (CopiesAnew(w.pc) && w.key < s.sh.epoch)
    || Bound(w)
  }

  // ---- the other workers never do ----

  /** Before its next hash of a new publication the worker has key `e`. */
  predicate KeyComing(sh: Shared, w: Worker, e: nat) {
    || w.key == e || w.pc.Build? || w.pc.Rebuild? || w.pc.Exited?
    || (w.hasherGen < sh.hasherGen && !CopiesAnew(w.pc))
  }

  /** With `b` publications before the re-key to epoch `e`: the worker cannot mix. */
  predicate Sound(stamps: seq<Stamp>, sh: Shared, w: Worker, b: nat, e: nat) {
    && KeyComing(sh, w, e)
    && (w.local.pub >= b || !HasRoom(w) || w.workGen < sh.workGen)
    && (Bound(w) ==> w.local.pub < |stamps| && Agree(w.key, e, stamps[w.local.pub]))
  }

  predicate NoOldWork(sh: Shared, b: nat) {
    sh.work.pub < b ==> !Workable(sh.work)
  }

  lemma KeyComingStep(c: Config, i: nat, sh: Shared, w: Worker, e: nat)
    requires KeyComing(sh, w, e) && sh.epoch == e && w.hasherGen <= sh.hasherGen
    ensures KeyComing(StepShared(sh, w), StepWorker(c, i, sh, w), e)
  {
  }

  predicate NewAre(stamps: seq<Stamp>, b: nat, e: nat) {
    forall k :: b <= k < |stamps| ==> stamps[k].epoch == e
  }

  /** The copy at line 84 brings a new publication or one that cannot be hashed. */
  lemma SoundCopy(i: nat, stamps: seq<Stamp>, sh: Shared, w: Worker, b: nat, e: nat)
    requires w.pc.CopyWork? && w.key == e && NewAre(stamps, b, e) && NoOldWork(sh, b)
    requires Fits(sh.work.job) && sh.work.pub < |stamps|
    ensures Sound(stamps, sh, Refresh(i, sh.work, w), b, e)
  {
    RoomChecked(Refresh(i, sh.work, w));
  }

  lemma SoundLoad(stamps: seq<Stamp>, sh: Shared, w: Worker, v: Worker, b: nat, e: nat)
    requires w.pc.LoadWork? && Sound(stamps, sh, w, b, e) && NewAre(stamps, b, e)
    requires w.local.pub < |stamps| && w.workGen <= sh.workGen
    requires v == w.(gen := sh.workGen, pc := if sh.workGen != w.workGen then CopyWork else CheckLocal)
    ensures Sound(stamps, sh, v, b, e)
  {
  }

  /** The steps that touch neither the job nor its place in the order of publications. */
  predicate Passing(w: Worker, v: Worker) {
    && v.local == w.local && v.workGen == w.workGen && |v.blob| == |w.blob|
    && (Bound(v) ==> Bound(w) && v.key == w.key)
  }

  lemma PassingSteps(c: Config, i: nat, sh: Shared, w: Worker)
    requires !w.pc.CopyWork? && !w.pc.LoadWork? && Fits(w.local.job)
    ensures Passing(w, StepWorker(c, i, sh, w))
  {
    RoomChecked(w);
  }

  lemma SoundStep(c: Config, i: nat, s: State, w: Worker, b: nat, e: nat)
    requires Published(s) && Follows(s.log, s.sh, w) && |s.stamps| == |s.log| && s.sh.epoch == e
    requires NewAre(s.stamps, b, e) && NoOldWork(s.sh, b) && Sound(s.stamps, s.sh, w, b, e)
    ensures Sound(s.stamps, StepShared(s.sh, w), StepWorker(c, i, s.sh, w), b, e)
  {
    assert Entry(s.log[w.local.pub], w.local.pub) && Entry(s.log[s.sh.work.pub], s.sh.work.pub);
    var v := StepWorker(c, i, s.sh, w);
    if w.pc.CopyWork? {
      SoundCopy(i, s.stamps, s.sh, w, b, e);
    } else if w.pc.LoadWork? {
      SoundLoad(s.stamps, s.sh, w, v, b, e);
    } else {
      KeyComingStep(c, i, s.sh, w, e);
      PassingSteps(c, i, s.sh, w);
    }
  }

  /** The whole state is such that worker `i` cannot mix until a further re-key. */
  predicate Safe(s: State, t: State, i: nat) {
    t.sh.epoch == s.sh.epoch ==>
      && NoOldWork(t.sh, |s.stamps|)
      && (i < |t.ws| ==> Sound(t.stamps, t.sh, t.ws[i], |s.stamps|, s.sh.epoch))
  }

  /** What other threads can do to a worker's position. */
  predicate Advance(t: State, u: State) {
    && t.sh.workGen <= u.sh.workGen && t.sh.hasherGen <= u.sh.hasherGen && t.stamps <= u.stamps
    && (u.sh.work == t.sh.work || u.sh.work.pub == u.sh.workGen)
  }

  lemma Advances(c: Config, t: State, a: Action)
    ensures Advance(t, Next(c, t, a))
  {
  }

  lemma SoundAdvance(t: State, u: State, w: Worker, b: nat, e: nat)
    requires Advance(t, u) && Sound(t.stamps, t.sh, w, b, e)
    ensures Sound(u.stamps, u.sh, w, b, e)
  {
  }

  lemma SafeNext(c: Config, s: State, t: State, a: Action, i: nat)
    requires ValidConfig(c) && Inv(c, t) && |t.stamps| == |t.log| && |s.stamps| <= |t.stamps|
    requires Since(s, t) && Safe(s, t, i) && (t.ctl.pc.Install? ==> t.sh.workGen >= |s.stamps|)
    ensures Safe(s, Next(c, t, a), i)
  {
    var u, b, e := Next(c, t, a), |s.stamps|, s.sh.epoch;
    KeySteps(c, t, a);
    if u.sh.epoch == e {
      WorkKept(c, t, a);
      if i < |u.ws| {
        SafeWorker(c, s, t, a, i);
      }
    }
  }

  /** Only an install changes the published slot. */
  lemma WorkKept(c: Config, t: State, a: Action)
    ensures Next(c, t, a).sh.work == t.sh.work ||
            (t.ctl.pc.Install? && Next(c, t, a).sh.work.pub == t.sh.workGen)
  {
  }

  lemma SafeWorker(c: Config, s: State, t: State, a: Action, i: nat)
    requires ValidConfig(c) && Inv(c, t) && |t.stamps| == |t.log| && Since(s, t) && Safe(s, t, i)
    requires t.sh.epoch == s.sh.epoch && i < |Next(c, t, a).ws|
    ensures var u := Next(c, t, a); Sound(u.stamps, u.sh, u.ws[i], |s.stamps|, s.sh.epoch)
  {
    var u, b, e := Next(c, t, a), |s.stamps|, s.sh.epoch;
    Advances(c, t, a);
    if i >= |t.ws| {
      Spawns(c, t, a, i);
    } else if a == W(i) {
      OwnStep(c, t, i);
      SameKeysStep(c, t, i);
      assert Follows(t.log, t.sh, t.ws[i]);
      SoundStep(c, i, t, t.ws[i], b, e);
    } else {
      OthersKept(c, t, a, i);
      SoundAdvance(t, u, t.ws[i], b, e);
    }
  }

  lemma Spawns(c: Config, t: State, a: Action, i: nat)
    requires |t.ws| <= i < |Next(c, t, a).ws|
    ensures Next(c, t, a).ws[i] == FRESH
  {
    if a.C? {
      CtlFrames(c, t, a.cmd);
    }
  }

  /** The re-key is over and its publication not yet begun, or begun and not made, or made. */
  predicate Placed(s: State, t: State) {
    |s.stamps| <= |t.stamps| == |t.log| && (t.ctl.pc.Install? ==> |t.log| > |s.stamps|)
  }

  lemma PlacedNext(c: Config, s: State, t: State, a: Action)
    requires Placed(s, t)
    ensures Placed(s, Next(c, t, a))
  {
    KeySteps(c, t, a);
    InstallAfterBump(c, t, a);
  }

  lemma InstallAfterBump(c: Config, t: State, a: Action)
    ensures var u := Next(c, t, a);
            u.ctl.pc.Install? ==> |u.log| == |t.log| + 1 || (u.log == t.log && t.ctl.pc.Install?)
  {
  }

  lemma {:induction false} SafeRun(c: Config, s: State, t: State, acts: seq<Action>, i: nat)
    requires ValidConfig(c) && ValidActions(acts) && Inv(c, t) && Placed(s, t) && Since(s, t) && Safe(s, t, i)
    ensures Safe(s, Run(c, t, acts), i)
    decreases |acts|
  {
    if acts != [] {
      var u := Next(c, t, acts[0]);
      InvNext(c, t, acts[0]);
      KeySteps(c, t, acts[0]);
      SinceStep(s, t, u);
      PlacedNext(c, s, t, acts[0]);
      SafeNext(c, s, t, acts[0], i);
      SafeRun(c, s, u, acts[1..], i);
    }
  }

  lemma SafeNeverMixes(c: Config, s: State, acts: seq<Action>, i: nat)
    requires ValidConfig(c) && ValidActions(acts) && Inv(c, s) && Placed(s, s) && Safe(s, s, i)
    ensures !Mixes(c, s, acts, i)
  {
    SafeRun(c, s, s, acts, i);
    InvRun(c, s, acts);
    var t := Run(c, s, acts);
    assert i < |t.ws| ==> Scans(c, i, t.ws[i]);
  }

  // ---- and these do ----

  predicate KeyInv(c: Config, s: State) {
    Inv(c, s) && Keyed(s.ctl) && KeyHistory(s)
  }

  lemma KeyInvRun(c: Config, s: State, acts: seq<Action>)
    requires ValidConfig(c) && ValidActions(acts) && KeyInv(c, s)
    ensures KeyInv(c, Run(c, s, acts))
  {
    InvRun(c, s, acts);
    KeyHistoryRun(c, s, acts);
  }

  lemma KeyInvNext(c: Config, s: State, a: Action)
    requires ValidConfig(c) && ValidAction(a) && KeyInv(c, s)
    ensures KeyInv(c, Next(c, s, a))
  {
    InvNext(c, s, a);
    KeyedNext(c, s, a);
    KeySteps(c, s, a);
    KeyHistoryStep(s, Next(c, s, a));
  }

  /** Worker `i` is about to hash under an older key than the publication's, or under a newer one. */
  predicate OlderKey(t: State, i: nat) {
    i < |t.ws| && t.ws[i].pc.Hash? && t.ws[i].local.pub < |t.stamps| && t.ws[i].key < t.stamps[t.ws[i].local.pub].epoch
  }

  predicate NewerKey(t: State, i: nat) {
    i < |t.ws| && t.ws[i].pc.Hash? && t.ws[i].local.pub < |t.stamps| && t.ws[i].key > t.stamps[t.ws[i].local.pub].epoch
  }

  /** Caught before the copy: the next publication is hashed with the older hasher. */
  lemma OlderKeyRun(c: Config, s: State, i: nat) returns (acts: seq<Action>)
    requires ValidConfig(c) && KeyInv(c, s) && s.ctl.pc.BumpHasher? && i < |s.ws|
    requires CopiesAnew(s.ws[i].pc) && s.ws[i].key < s.sh.epoch
    ensures ValidActions(acts)
    ensures var t := Run(c, Next(c, s, C(Wait)), acts); t.sh.epoch == s.sh.epoch && OlderKey(t, i)
  {
    acts := StaleRun(c, s, i);
    var s0 := Next(c, s, C(Wait));
    var t := Run(c, s0, acts);
    KeyInvNext(c, s, C(Wait));
    KeyInvRun(c, s0, acts);
    SinceRun(c, s0, s0, acts);
    assert Follows(t.log, t.sh, t.ws[i]);
    assert s0.sh.epoch == s.sh.epoch && |s0.stamps| == s.sh.workGen + 1;
  }

  /** Already under a wrong key on the way into the loop: it gets there. */
  lemma BoundRun(c: Config, s: State, i: nat) returns (acts: seq<Action>)
    requires ValidConfig(c) && KeyInv(c, s) && s.ctl.pc.Resume? && i < |s.ws| && Bound(s.ws[i])
    ensures ValidActions(acts)
    ensures var t := Run(c, s, acts);
            && t.sh.epoch == s.sh.epoch && t.stamps == s.stamps && i < |t.ws| && t.ws[i].pc.Hash?
            && t.ws[i].local == s.ws[i].local && t.ws[i].key == s.ws[i].key
  {
    var w := s.ws[i];
    var s1 := Next(c, s, C(Wait));
    assert Follows(s.log, s.sh, w) && Entry(s.log[w.local.pub], w.local.pub);
    RoomChecked(w);
    var rest := ReachHash(c, s1, i, 0);
    acts := [C(Wait)] + rest;
    assert acts[1..] == rest;
  }

  /** While the pool is paused, an idle worker walks to the top of its loop. */
  predicate Parking(sh: Shared, w: Worker) {
    && sh.paused && sh.running && !w.pc.Hash? && !w.pc.Leave? && !w.pc.Exited?
    && w.workGen <= sh.workGen && (w.pc.CopyWork? ==> w.workGen < w.gen <= sh.workGen)
  }

  lemma ParkStep(c: Config, i: nat, sh: Shared, w: Worker)
    requires Parking(sh, w) && !w.pc.Top?
    ensures var v := StepWorker(c, i, sh, w);
            Parking(StepShared(sh, w), v) && (v.pc.Top? || Rank(v) < Rank(w))
  {
  }

  lemma HoldsOldStep(c: Config, i: nat, sh: Shared, w: Worker)
    requires Parking(sh, w) && HoldsOld(sh, w)
    ensures HoldsOld(StepShared(sh, w), StepWorker(c, i, sh, w))
  {
  }

  lemma {:induction false} Park(c: Config, s: State, i: nat, e: nat) returns (acts: seq<Action>)
    requires i < |s.ws| && Parking(s.sh, s.ws[i]) && s.sh.epoch == e && HoldsOld(s.sh, s.ws[i])
    requires KeyComing(s.sh, s.ws[i], e) && s.ws[i].hasherGen <= s.sh.hasherGen
    ensures ValidActions(acts)
    ensures var t := Run(c, s, acts);
            && SameKeys(s, t) && i < |t.ws| && t.ws[i].pc.Top? && HoldsOld(t.sh, t.ws[i])
            && KeyComing(t.sh, t.ws[i], e) && t.ws[i].hasherGen <= t.sh.hasherGen
    decreases if s.ws[i].pc.Top? then 0 else 1 + Rank(s.ws[i])
  {
    if s.ws[i].pc.Top? {
      acts := [];
    } else {
      OwnStep(c, s, i);
      ParkStep(c, i, s.sh, s.ws[i]);
      HoldsOldStep(c, i, s.sh, s.ws[i]);
      SameKeysStep(c, s, i);
      KeyFrames(c, i, s.sh, s.ws[i]);
      KeyComingStep(c, i, s.sh, s.ws[i], e);
      var rest := Park(c, Next(c, s, W(i)), i, e);
      acts := [W(i)] + rest;
      assert acts[1..] == rest;
    }
  }

  /** From the top of its loop after `resume()`, a worker with an old job at hand hashes it with the new key. */
  lemma NewerFromTop(c: Config, s: State, i: nat) returns (acts: seq<Action>)
    requires s.ctl.pc.Resume? && s.sh.running && i < |s.ws| && s.ws[i].pc.Top? && HoldsOld(s.sh, s.ws[i])
    requires Published(s) && Follows(s.log, s.sh, s.ws[i]) && KeyComing(s.sh, s.ws[i], s.sh.epoch)
    ensures ValidActions(acts)
    ensures var t := Run(c, s, acts);
            && t.sh.epoch == s.sh.epoch && s.stamps <= t.stamps && i < |t.ws| && t.ws[i].pc.Hash?
            && t.ws[i].local.pub < |s.log| && t.ws[i].key >= s.sh.epoch
  {
    var w := s.ws[i];
    var s1 := Next(c, s, C(Wait));
    assert Entry(s.log[w.local.pub], w.local.pub);
    RoomChecked(w);
    if w.workGen == s.sh.workGen && HasRoom(w) {
      var rest := ReachHash(c, s1, i, s.sh.epoch);
      acts := [C(Wait)] + rest;
      RunFrom(c, s, C(Wait), rest);
    } else {
      var first := ToInstall(c, s);
      var s3 := Run(c, s, first);
      var rest := ReachHash(c, s3, i, s.sh.epoch);
      acts := first + rest;
      RunConcat(c, s, first, rest);
    }
  }

  /** `resume()`, no start, and the bump: the next job is announced and not installed. */
  lemma ToInstall(c: Config, s: State) returns (acts: seq<Action>)
    requires s.ctl.pc.Resume? && s.sh.running
    ensures ValidActions(acts)
    ensures var t := Run(c, s, acts);
            && t.ws == s.ws && t.sh == s.sh.(paused := false, workGen := s.sh.workGen + 1) && s.stamps <= t.stamps
  {
    acts := [C(Wait), C(Wait), C(Wait)];
    var s1 := Next(c, s, C(Wait));
    var s2 := Next(c, s1, C(Wait));
    RunFrom(c, s, C(Wait), [C(Wait), C(Wait)]);
    RunFrom(c, s1, C(Wait), [C(Wait)]);
    RunFrom(c, s2, C(Wait), []);
    assert acts == [C(Wait)] + [C(Wait), C(Wait)] && [C(Wait), C(Wait)] == [C(Wait)] + [C(Wait)];
    assert [C(Wait)] == [C(Wait)] + [];
  }

  lemma RunFrom(c: Config, s: State, a: Action, rest: seq<Action>)
    ensures Run(c, s, [a] + rest) == Run(c, Next(c, s, a), rest)
  {
    assert ([a] + rest)[1..] == rest;
  }

  lemma NewerKeyRun(c: Config, s: State, i: nat) returns (acts: seq<Action>)
    requires ValidConfig(c) && KeyInv(c, s) && s.ctl.pc.Resume? && i < |s.ws|
    requires HoldsOld(s.sh, s.ws[i]) && KeyComing(s.sh, s.ws[i], s.sh.epoch)
    ensures ValidActions(acts)
    ensures var t := Run(c, s, acts); t.sh.epoch == s.sh.epoch && NewerKey(t, i)
  {
    assert Follows(s.log, s.sh, s.ws[i]);
    var a1 := Park(c, s, i, s.sh.epoch);
    var m := Run(c, s, a1);
    KeyInvRun(c, s, a1);
    assert Follows(m.log, m.sh, m.ws[i]);
    var a2 := NewerFromTop(c, m, i);
    acts := a1 + a2;
    RunConcat(c, s, a1, a2);
    var t := Run(c, s, acts);
    assert t.stamps[t.ws[i].local.pub] == m.stamps[t.ws[i].local.pub];
  }

  // ---- exactly which ----

  lemma KeyComingUnlessCaught(s: State, w: Worker)
    requires Follows(s.log, s.sh, w) && !(CopiesAnew(w.pc) && w.key < s.sh.epoch)
    ensures KeyComing(s.sh.(hasherGen := s.sh.hasherGen + 1), w, s.sh.epoch)
  {
  }

  lemma MixRun(c: Config, s: State, i: nat) returns (acts: seq<Action>)
    requires ValidConfig(c) && KeyInv(c, s) && s.ctl.pc.BumpHasher? && i < |s.ws| && CanMix(s, s.ws[i])
    ensures Mixes(c, Next(c, s, C(Wait)), acts, i)
  {
    var s0, w := Next(c, s, C(Wait)), s.ws[i];
    KeyInvNext(c, s, C(Wait));
    assert s0.ws == s.ws && s0.ctl.pc.Resume? && s0.stamps == s.stamps;
    assert s0.sh == s.sh.(hasherGen := s.sh.hasherGen + 1);
    assert Follows(s.log, s.sh, w);
    if CopiesAnew(w.pc) && w.key < s.sh.epoch {
      acts := OlderKeyRun(c, s, i);
    } else if HoldsOld(s.sh, w) {
      KeyComingUnlessCaught(s, w);
      acts := NewerKeyRun(c, s0, i);
    } else {
      acts := BoundRun(c, s0, i);
    }
  }

  lemma SafeAfterRebuild(c: Config, s: State, i: nat)
    requires ValidConfig(c) && KeyInv(c, s) && s.ctl.pc.BumpHasher? && i < |s.ws| && !CanMix(s, s.ws[i])
    ensures var s0 := Next(c, s, C(Wait)); Placed(s0, s0) && Safe(s0, s0, i)
  {
    assert Follows(s.log, s.sh, s.ws[i]);
    KeyComingUnlessCaught(s, s.ws[i]);
  }

  /**
    "Every hash is made with hasher, cache and publication of one epoch" is false, and this is
    exactly when a re-key of a running pool makes it fail: some continuation without a further
    re-key has worker `i` hash with them at odds if and only if `CanMix` holds of it when
    `rebuild_hashers` is called.
   */
  lemma KeyMixIff(c: Config, s: State, i: nat)
    requires ValidConfig(c) && Reachable(c, s) && s.ctl.pc.BumpHasher? && i < |s.ws|
    ensures (exists acts :: Mixes(c, Next(c, s, C(Wait)), acts, i)) <==> CanMix(s, s.ws[i])
  {
    InvReachable(c, s);
    KeyHistoryReachable(c, s);
    if CanMix(s, s.ws[i]) {
      var acts := MixRun(c, s, i);
    } else {
      SafeAfterRebuild(c, s, i);
      InvNext(c, s, C(Wait));
      forall acts | ValidActions(acts)
        ensures !Mixes(c, Next(c, s, C(Wait)), acts, i)
      {
        SafeNeverMixes(c, Next(c, s, C(Wait)), acts, i);
      }
    }
  }

  // ---- a re-key of a stopped pool ----

  lemma {:induction false} SpawnAll(c: Config, s: State) returns (acts: seq<Action>)
    requires s.ctl.pc.Spawning? && |s.ws| <= c.threads
    requires forall i :: 0 <= i < |s.ws| ==> s.ws[i] == FRESH
    ensures ValidActions(acts)
    ensures var t := Run(c, s, acts); t == s.(ws := t.ws) && |t.ws| == c.threads
    ensures forall i :: 0 <= i < c.threads ==> Run(c, s, acts).ws[i] == FRESH
    decreases c.threads - |s.ws|
  {
    if |s.ws| == c.threads {
      acts := [];
    } else {
      var rest := SpawnAll(c, Next(c, s, C(Wait)));
      acts := [C(Wait)] + rest;
      RunFrom(c, s, C(Wait), rest);
    }
  }

  /** The threads start before the job is published, and find the old one. */
  lemma RestartRun(c: Config, s: State, i: nat) returns (acts: seq<Action>)
    requires ValidConfig(c) && KeyInv(c, s) && s.ctl.pc.StartCheck? && !s.sh.running && i < c.threads
    requires Workable(s.sh.work) && forall k :: 0 <= k < |s.stamps| ==> s.stamps[k].epoch < s.sh.epoch
    ensures Mixes(c, s, acts, i)
  {
    var s1 := Next(c, s, C(Wait));
    assert s1.ctl.pc.Spawning? && s1.ws == [] && s1.sh == s.sh.(running := true);
    var a1 := SpawnAll(c, s1);
    var s2 := Run(c, s1, a1);
    assert Entry(s.log[s.sh.work.pub], s.sh.work.pub);
    var a2 := ReachHash(c, s2, i, s.sh.epoch);
    acts := [C(Wait)] + (a1 + a2);
    RunFrom(c, s, C(Wait), a1 + a2);
    RunConcat(c, s1, a1, a2);
  }

  /**
    The same for a re-key made while the pool is stopped: the threads started afterwards can
    hash under a wrong key if and only if a job that can be hashed is still installed.
   */
  lemma RestartMixIff(c: Config, s: State, i: nat)
    requires ValidConfig(c) && Reachable(c, s) && s.ctl.pc.Rekeying? && !s.sh.running && i < c.threads
    ensures (exists acts :: Mixes(c, Next(c, s, C(Wait)), acts, i)) <==> Workable(s.sh.work)
  {
    InvReachable(c, s);
    KeyHistoryReachable(c, s);
    KeyInvNext(c, s, C(Wait));
    var s0 := Next(c, s, C(Wait));
    assert s0.sh == s.sh.(epoch := s.sh.epoch + 1) && s0.ws == [] && s0.stamps == s.stamps;
    forall k | 0 <= k < |s0.stamps|
      ensures s0.stamps[k].epoch < s0.sh.epoch
    {
      assert StampOk(s.seeds, s.stamps[k]);
    }
    if Workable(s.sh.work) {
      var acts := RestartRun(c, s0, i);
    } else {
      forall acts | ValidActions(acts)
        ensures !Mixes(c, s0, acts, i)
      {
        SafeNeverMixes(c, s0, acts, i);
      }
    }
  }
}
