/**
  Hasher rebuilding: which workers a call of `rebuild_hashers` reaches.

  The generation check at line 76 lies outside the in-flight region, so a worker that has
  passed it can still hash with its old hasher after `resume()`.  `Caught` names exactly
  those workers.
 */
module PoolHashers {
  import opened Jobs
  import opened MinerPool
  import opened PoolSafety
  import opened PoolWork
  import opened PoolTheorems

  /** Past the generation check and not yet hashing, or between building a hasher and recording its generation. */
  predicate Caught(pc: Pc) {
    || pc.RecordBuilt? || pc.RecordRebuilt?
    || pc.LoadWork? || pc.CopyWork? || pc.CheckLocal? || pc.Enter? || pc.Recheck?
  }

  /** A caught worker that will turn back at line 94 for want of a job is reached after all. */
  predicate Escapes(w: Worker) {
    Caught(w.pc) && (w.pc.CheckLocal? ==> HasRoom(w))
  }

  /** The worker holds, or must build before its next hash, a hasher of key `e` or later. */
  predicate Due(sh: Shared, w: Worker, e: nat) {
    || w.key >= e
    || w.pc.Build? || w.pc.Rebuild? || w.pc.Exited?
    || (&& w.hasherGen < sh.hasherGen
        && (|| w.pc.Top? || w.pc.CheckPaused? || w.pc.CheckHasher? || w.pc.Withdraw? || w.pc.Leave? || w.pc.Flush?
            || (w.pc.CheckLocal? && !Mineable(w.local.job, w.blob))))
  }

  lemma DueStep(c: Config, i: nat, sh: Shared, w: Worker, e: nat)
    requires Due(sh, w, e) && e <= sh.epoch && w.hasherGen <= sh.hasherGen
    ensures Due(StepShared(sh, w), StepWorker(c, i, sh, w), e)
  {
  }

  lemma CtlKeys(c: Config, s: State, cmd: Command)
    ensures s.sh.epoch <= CtlNext(c, s, cmd).sh.epoch
    ensures s.sh.hasherGen <= CtlNext(c, s, cmd).sh.hasherGen
  {
  }

  predicate DueAt(s: State, i: nat, e: nat) {
    e <= s.sh.epoch && (i < |s.ws| ==> Due(s.sh, s.ws[i], e))
  }

  lemma DueKept(c: Config, s: State, a: Action, i: nat, e: nat)
    requires Inv(c, s) && DueAt(s, i, e)
    ensures DueAt(Next(c, s, a), i, e)
  {
    match a
    case W(j) =>
      if j < |s.ws| {
        OwnStep(c, s, j);
        assert Follows(s.log, s.sh, s.ws[j]);
        if j == i {
          DueStep(c, i, s.sh, s.ws[i], e);
        } else {
          OthersKept2(c, s, j, i);
        }
      }
    case C(cmd) =>
      CtlKeys(c, s, cmd);
      CtlFrames(c, s, cmd);
  }

  lemma OthersKept2(c: Config, s: State, j: nat, i: nat)
    requires j < |s.ws| && i != j
    ensures var t := Next(c, s, W(j));
            && |t.ws| == |s.ws| && (i < |s.ws| ==> t.ws[i] == s.ws[i])
            && t.sh.epoch == s.sh.epoch && t.sh.hasherGen == s.sh.hasherGen
  {
  }

  lemma {:induction false} DueRun(c: Config, s: State, acts: seq<Action>, i: nat, e: nat)
    requires ValidConfig(c) && ValidActions(acts) && Inv(c, s) && DueAt(s, i, e)
    ensures DueAt(Run(c, s, acts), i, e)
    decreases |acts|
  {
    if acts != [] {
      InvNext(c, s, acts[0]);
      DueKept(c, s, acts[0], i, e);
      DueRun(c, Next(c, s, acts[0]), acts[1..], i, e);
    }
  }

  lemma RebuildReaches(c: Config, s: State, i: nat)
    requires Inv(c, s) && s.ctl.pc.BumpHasher? && i < |s.ws| && !Escapes(s.ws[i])
    ensures DueAt(Next(c, s, C(Wait)), i, s.sh.epoch)
  {
    var w := s.ws[i];
    assert Follows(s.log, s.sh, w);
    assert Entry(s.log[w.local.pub], w.local.pub);
    RoomChecked(w);
  }

  /**
    A worker that `rebuild_hashers` does not catch, in particular one parked at the paused
    branch, builds a hasher after that re-key before its next hash, in every continuation.
   */
  lemma ParkedWorkerRebuilds(c: Config, s: State, acts: seq<Action>, i: nat)
    requires ValidConfig(c) && ValidActions(acts) && Reachable(c, s)
    requires s.ctl.pc.BumpHasher? && i < |s.ws| && !Escapes(s.ws[i])
    ensures var t := Run(c, Next(c, s, C(Wait)), acts);
            i < |t.ws| && t.ws[i].pc.Hash? ==> t.ws[i].key >= s.sh.epoch
  {
    InvReachable(c, s);
    InvNext(c, s, C(Wait));
    RebuildReaches(c, s, i);
    DueRun(c, Next(c, s, C(Wait)), acts, i, s.sh.epoch);
  }

  // ---- and the others do get through ----

  predicate Workable(slot: Slot) {
    slot.job.Some? && Mineable(slot.job, slot.job.value.blob)
  }

  /** The publication the worker will have when it next passes line 94, if the shared state stays as it is. */
  function Destined(sh: Shared, w: Worker): Slot {
    if w.pc.CheckLocal? || w.pc.Enter? || w.pc.Recheck? || w.pc.Hash? then w.local
    else if !w.pc.CopyWork? && w.workGen == sh.workGen then w.local
    else sh.work
  }

  /** On the way to the hashing loop, with nothing on it that would park the worker. */
  predicate OnTrack(sh: Shared, w: Worker) {
    && sh.running && !sh.paused
    && match w.pc
       case Withdraw => false
       case Leave => false
       case Flush => false
       case Exited => false
       case Enter => true
       case Recheck => true
       case Hash => true
       case CheckLocal => Mineable(w.local.job, w.blob)
       case CopyWork => Workable(sh.work)
       case _ => if w.workGen == sh.workGen then Mineable(w.local.job, w.blob) else Workable(sh.work)
  }

  /** No hasher is built before the next hash. */
  predicate KeepsHasher(sh: Shared, w: Worker) {
    && !w.pc.Build? && !w.pc.Rebuild?
    && (w.pc.Top? || w.pc.CheckPaused? || w.pc.CheckHasher? ==> w.hasherGen == sh.hasherGen)
  }

  function Distance(pc: Pc): nat {
    match pc
    case Build => 12
    case RecordBuilt => 11
    case Top => 10
    case CheckPaused => 9
    case CheckHasher => 8
    case Rebuild => 7
    case RecordRebuilt => 6
    case LoadWork => 5
    case CopyWork => 4
    case CheckLocal => 3
    case Enter => 2
    case Recheck => 1
    case _ => 0
  }

  lemma TrackStep(c: Config, i: nat, sh: Shared, w: Worker)
    requires OnTrack(sh, w) && !w.pc.Hash?
    ensures OnTrack(StepShared(sh, w), StepWorker(c, i, sh, w))
    ensures Distance(StepWorker(c, i, sh, w).pc) < Distance(w.pc)
    ensures Destined(StepShared(sh, w), StepWorker(c, i, sh, w)) == Destined(sh, w)
  {
  }

  lemma KeepsHasherStep(c: Config, i: nat, sh: Shared, w: Worker)
    requires OnTrack(sh, w) && !w.pc.Hash? && KeepsHasher(sh, w)
    ensures KeepsHasher(StepShared(sh, w), StepWorker(c, i, sh, w))
    ensures StepWorker(c, i, sh, w).key == w.key
  {
  }

  /** What a worker step outside the loop leaves alone. */
  predicate SameKeys(s: State, t: State) {
    && t.sh.epoch == s.sh.epoch && t.stamps == s.stamps && t.log == s.log && t.ctl == s.ctl
    && t.sh.hasherGen == s.sh.hasherGen && t.sh.workGen == s.sh.workGen && t.sh.work == s.sh.work
    && t.sh.paused == s.sh.paused && t.sh.running == s.sh.running
  }

  lemma SameKeysStep(c: Config, s: State, i: nat)
    requires i < |s.ws|
    ensures SameKeys(s, Next(c, s, W(i)))
  {
  }

  /**
    A worker on track comes to the loop with the publication destined for it; with its own
    hasher if nothing on the way rebuilds it, and with key `e` or later if one is due.
   */
  lemma {:induction false} ReachHash(c: Config, s: State, i: nat, e: nat) returns (acts: seq<Action>)
    requires i < |s.ws| && OnTrack(s.sh, s.ws[i]) && e <= s.sh.epoch && s.ws[i].hasherGen <= s.sh.hasherGen
    ensures ValidActions(acts)
    ensures var t := Run(c, s, acts);
            && SameKeys(s, t) && i < |t.ws| && t.ws[i].pc.Hash? && t.ws[i].local == Destined(s.sh, s.ws[i])
            && (KeepsHasher(s.sh, s.ws[i]) ==> t.ws[i].key == s.ws[i].key)
            && (Due(s.sh, s.ws[i], e) ==> t.ws[i].key >= e)
    decreases Distance(s.ws[i].pc)
  {
    if s.ws[i].pc.Hash? {
      acts := [];
    } else {
      var t := Next(c, s, W(i));
      OwnStep(c, s, i);
      TrackStep(c, i, s.sh, s.ws[i]);
      SameKeysStep(c, s, i);
      KeyFrames(c, i, s.sh, s.ws[i]);
      if KeepsHasher(s.sh, s.ws[i]) {
        KeepsHasherStep(c, i, s.sh, s.ws[i]);
      }
      if Due(s.sh, s.ws[i], e) {
        DueStep(c, i, s.sh, s.ws[i], e);
      }
      var rest := ReachHash(c, t, i, e);
      acts := [W(i)] + rest;
      assert acts[1..] == rest;
    }
  }

  /** From the re-key to the end of the `on_job` call, on a running pool. */
  predicate Finishing(s: State) {
    var pc := s.ctl.pc;
    && s.sh.running
    && (pc.BumpHasher? || pc.Resume? || pc.StartCheck? || pc.Bump? || pc.Install? || pc.Idle?)
    && (s.sh.paused ==> pc.BumpHasher? || pc.Resume?)
  }

  function StepsLeft(pc: CtlPc): nat {
    match pc
    case BumpHasher => 5
    case Resume => 4
    case StartCheck => 3
    case Bump => 2
    case Install => 1
    case _ => 0
  }

  predicate Onward(s: State, t: State) {
    && t.ws == s.ws
    && t.sh.workGen >= s.sh.workGen
    && t.ctl.job == s.ctl.job
    && t.sh.epoch == s.sh.epoch
    && t.sh.hasherGen >= s.sh.hasherGen
  }

  lemma FinishStep(c: Config, s: State)
    requires Finishing(s) && !s.ctl.pc.Idle?
    ensures var t := Next(c, s, C(Wait));
            && Finishing(t) && Onward(s, t) && StepsLeft(t.ctl.pc) < StepsLeft(s.ctl.pc)
            && (t.ctl.pc.Idle? ==> t.sh.work == Slot(t.sh.workGen, Stamped(s.ctl.job, t.sh.workGen)))
            && (s.ctl.pc.Bump? ==> t.sh.workGen > s.sh.workGen)
  {
  }

  lemma {:induction false} Finish(c: Config, s: State) returns (acts: seq<Action>)
    requires Finishing(s) && !s.ctl.pc.Idle?
    ensures ValidActions(acts)
    ensures var t := Run(c, s, acts);
            && Finishing(t) && t.ctl.pc.Idle? && Onward(s, t)
            && t.sh.work == Slot(t.sh.workGen, Stamped(s.ctl.job, t.sh.workGen))
            && (!s.ctl.pc.Install? ==> t.sh.workGen > s.sh.workGen)
    decreases StepsLeft(s.ctl.pc)
  {
    var t := Next(c, s, C(Wait));
    FinishStep(c, s);
    if t.ctl.pc.Idle? {
      acts := [C(Wait)];
      assert acts[1..] == [];
    } else {
      var rest := Finish(c, t);
      acts := [C(Wait)] + rest;
      assert acts[1..] == rest;
    }
  }

  const TINY_JOB: MiningJob := EmptyJob().(blob := [0, 0, 0, 0])

  lemma PublishTiny(c: Config, s: State) returns (acts: seq<Action>)
    requires Finishing(s) && s.ctl.pc.Idle?
    ensures ValidActions(acts)
    ensures var t := Run(c, s, acts);
            && t.ws == s.ws && t.sh.running && !t.sh.paused && t.sh.workGen > s.sh.workGen
            && t.sh.epoch == s.sh.epoch && t.sh.hasherGen >= s.sh.hasherGen
            && t.sh.work == Slot(t.sh.workGen, Stamped(Some(TINY_JOB), t.sh.workGen))
  {
    var go := C(OnJob(TINY_JOB, []));
    var m := Next(c, s, go);
    assert m == s.(ctl := m.ctl) && m.ctl.pc.StartCheck? && m.ctl.job == Some(TINY_JOB);
    var rest := Finish(c, m);
    acts := [go] + rest;
    assert acts[1..] == rest;
  }

  lemma EscapeeOnTrack(s: State, t: State, w: Worker)
    requires Published(s) && Follows(s.log, s.sh, w) && Escapes(w)
    requires t.sh.running && !t.sh.paused && t.sh.workGen > s.sh.workGen
    requires t.sh.work == Slot(t.sh.workGen, Stamped(Some(TINY_JOB), t.sh.workGen))
    ensures OnTrack(t.sh, w)
  {
    assert Entry(s.log[w.local.pub], w.local.pub);
    RoomChecked(w);
  }

  /** Caught before the copy at line 84, so that the next publication is picked up with the hasher at hand. */
  predicate CopiesAnew(pc: Pc) {
    pc.RecordBuilt? || pc.RecordRebuilt? || pc.LoadWork? || pc.CopyWork?
  }

  lemma StaleRun(c: Config, s: State, i: nat) returns (acts: seq<Action>)
    requires ValidConfig(c) && Inv(c, s) && s.ctl.pc.BumpHasher? && i < |s.ws| && Escapes(s.ws[i])
    ensures ValidActions(acts)
    ensures var t := Run(c, Next(c, s, C(Wait)), acts);
            && t.sh.epoch == s.sh.epoch && i < |t.ws| && t.ws[i].pc.Hash? && t.ws[i].key == s.ws[i].key
            && (CopiesAnew(s.ws[i].pc) ==> t.ws[i].local.pub > s.sh.workGen)
  {
    var s0 := Next(c, s, C(Wait));
    FinishStep(c, s);
    var a1 := Finish(c, s0);
    var s1 := Run(c, s0, a1);
    var a2 := PublishTiny(c, s1);
    var s2 := Run(c, s1, a2);
    assert Follows(s.log, s.sh, s.ws[i]);
    EscapeeOnTrack(s, s2, s.ws[i]);
    var a3 := ReachHash(c, s2, i, 0);
    acts := a1 + (a2 + a3);
    RunConcat(c, s0, a1, a2 + a3);
    RunConcat(c, s1, a2, a3);
  }

  /** In `acts` after the rebuild, worker `i` comes to hash with a hasher older than the re-key. */
  ghost predicate HashesStale(c: Config, s: State, acts: seq<Action>, i: nat) {
    var t := Run(c, Next(c, s, C(Wait)), acts);
    ValidActions(acts) && i < |t.ws| && t.ws[i].pc.Hash? && t.ws[i].key < s.sh.epoch
  }

  /**
    "No stale hasher hashes after `resume()`" is false, and this is exactly when it fails: a
    worker whose hasher predates the re-key can hash with it afterwards if and only if
    `rebuild_hashers` found it caught.
   */
  lemma StaleHashIff(c: Config, s: State, i: nat)
    requires ValidConfig(c) && Reachable(c, s)
    requires s.ctl.pc.BumpHasher? && i < |s.ws| && s.ws[i].key < s.sh.epoch
    ensures (exists acts :: HashesStale(c, s, acts, i)) <==> Escapes(s.ws[i])
  {
    InvReachable(c, s);
    if Escapes(s.ws[i]) {
      var acts := StaleRun(c, s, i);
      assert HashesStale(c, s, acts, i);
    } else {
      forall acts | ValidActions(acts)
        ensures !HashesStale(c, s, acts, i)
      {
        ParkedWorkerRebuilds(c, s, acts, i);
      }
    }
  }

  // ---- building a hasher during a re-key ----

  /** A call of `make_hasher_` is under way or comes before the worker next looks at `paused_`. */
  predicate AboutToBuild(sh: Shared, w: Worker) {
    w.pc.Build? || w.pc.Rebuild? || (w.pc.CheckHasher? && w.hasherGen != sh.hasherGen)
  }

  predicate OnlyWorkers(acts: seq<Action>) {
    forall k :: 0 <= k < |acts| ==> acts[k].W?
  }

  /** In `acts`, all of them steps of workers, worker `i` comes to build a hasher. */
  ghost predicate Builds(c: Config, s: State, acts: seq<Action>, i: nat) {
    var t := Run(c, s, acts);
    OnlyWorkers(acts) && i < |t.ws| && (t.ws[i].pc.Build? || t.ws[i].pc.Rebuild?)
  }

  lemma NoBuildStep(c: Config, i: nat, sh: Shared, w: Worker)
    requires sh.paused && !AboutToBuild(sh, w)
    ensures !AboutToBuild(StepShared(sh, w), StepWorker(c, i, sh, w))
  {
  }

  lemma {:induction false} NoBuildRun(c: Config, s: State, acts: seq<Action>, i: nat)
    requires s.sh.paused && OnlyWorkers(acts) && i < |s.ws| && !AboutToBuild(s.sh, s.ws[i])
    ensures var t := Run(c, s, acts); i < |t.ws| && !AboutToBuild(t.sh, t.ws[i])
    decreases |acts|
  {
    if acts != [] {
      var a := acts[0];
      if a.i < |s.ws| {
        OwnStep(c, s, a.i);
        SameKeysStep(c, s, a.i);
        if a.i == i {
          NoBuildStep(c, i, s.sh, s.ws[i]);
        } else {
          OthersKept2(c, s, a.i, i);
        }
      }
      NoBuildRun(c, Next(c, s, a), acts[1..], i);
    }
  }

  /**
    "No hasher is built while the cache is re-keyed" is false, and this is exactly when a
    re-key of a running pool makes it fail: before the re-key is over worker `i` can come to
    build one if and only if it is building one already, or has passed its pause check and has
    yet to act on an earlier `rebuild_hashers`.
   */
  lemma BuildOverlapsIff(c: Config, s: State, i: nat)
    requires ValidConfig(c) && Reachable(c, s) && s.ctl.pc.Rekeying? && s.sh.running && i < |s.ws|
    ensures (exists acts :: Builds(c, s, acts, i)) <==> AboutToBuild(s.sh, s.ws[i])
  {
    InvReachable(c, s);
    if AboutToBuild(s.sh, s.ws[i]) {
      if s.ws[i].pc.CheckHasher? {
        OwnStep(c, s, i);
        assert [W(i)][1..] == [];
        assert Run(c, s, [W(i)]) == Next(c, s, W(i));
        assert Builds(c, s, [W(i)], i);
      } else {
        assert Run(c, s, []) == s;
        assert Builds(c, s, [], i);
      }
    } else {
      forall acts | OnlyWorkers(acts)
        ensures !Builds(c, s, acts, i)
      {
        NoBuildRun(c, s, acts, i);
      }
    }
  }
}
