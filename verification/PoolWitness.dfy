/** Runs of a one-thread pool that show what the protocol does not promise. */
module PoolWitness {
  import opened Jobs
  import opened MinerPool
  import opened PoolTheorems
  import opened PoolKeys
  import opened PoolWork
  import opened PoolHashers

  lemma Reach(c: Config, s: State, a: Action) returns (t: State)
    requires Reachable(c, s) && ValidAction(a)
    ensures t == Next(c, s, a) && Reachable(c, t)
  {
    var acts :| ValidActions(acts) && s == Run(c, Init(), acts);
    t := Next(c, s, a);
    RunConcat(c, Init(), acts, [a]);
    assert Run(c, s, [a]) == Run(c, t, [a][1..]) == t;
    assert ValidActions(acts + [a]);
  }

  lemma Spawned(c: Config) returns (s: State)
    requires c.threads == 1
    ensures Reachable(c, s) && s.ws == [FRESH] && s.ctl == Controller(Spawning, Some(TINY_JOB), [], [], false)
    ensures s.sh == Shared(true, false, 0, 0, 0, 0, Slot(0, None), 0) && s.log == [None]
  {
    assert Run(c, Init(), []) == Init() && ValidActions([]);
    s := Reach(c, Init(), C(OnJob(TINY_JOB, [])));
    s := Reach(c, s, C(Wait));
    s := Reach(c, s, C(Wait));
  }

  /** The pool just after its first job: one thread, not yet on its first line. */
  lemma Started(c: Config) returns (s: State)
    requires c.threads == 1
    ensures Reachable(c, s) && s.ws == [FRESH] && s.ctl.pc.Idle? && s.ctl.currentSeed == []
    ensures s.sh.running && !s.sh.paused && s.sh.inFlight == 0 && s.sh.workGen == 1 && s.sh.hasherGen == 0
    ensures s.sh.epoch == 0 && s.sh.work == Slot(1, Stamped(Some(TINY_JOB), 1))
  {
    s := Spawned(c);
    s := Reach(c, s, C(Wait));
    s := Reach(c, s, C(Wait));
    assert s.ctl.pc.Install? && s.sh.workGen == 1 && s.ctl.job == Some(TINY_JOB);
    s := Reach(c, s, C(Wait));
  }

  /** Four worker steps on a running, unpaused pool: build, record, and pass the pause check. */
  lemma ToHasherCheck(c: Config, s: State) returns (t: State)
    requires Reachable(c, s) && s.ws == [FRESH] && s.sh.running && !s.sh.paused
    ensures Reachable(c, t) && t == s.(ws := t.ws) && |t.ws| == 1
    ensures t.ws[0] == FRESH.(pc := CheckHasher, key := s.sh.epoch, hasherGen := s.sh.hasherGen)
  {
    t := Reach(c, s, W(0));
    t := Reach(c, t, W(0));
    assert t == s.(ws := [FRESH.(pc := Top, key := s.sh.epoch, hasherGen := s.sh.hasherGen)]);
    t := Reach(c, t, W(0));
    t := Reach(c, t, W(0));
  }

  lemma BetweenBumpAndInstall(c: Config) returns (s: State)
    requires c.threads == 1
    ensures Reachable(c, s) && s.ws == [FRESH] && s.ctl.pc.Install?
    ensures s.sh.running && !s.sh.paused && s.sh.hasherGen == 0
    ensures s.sh.workGen == 2 && s.sh.work == Slot(1, Stamped(Some(TINY_JOB), 1))
  {
    s := Started(c);
    s := Reach(c, s, C(OnJob(TINY_JOB, [])));
    s := Reach(c, s, C(Wait));
    s := Reach(c, s, C(Wait));
  }

  /**
    Work publication: a worker can record the new generation and copy the old job, because
    the generation is bumped before the job is installed.
   */
  lemma StaleWorkWitness(c: Config) returns (s: State)
    requires c.threads == 1
    ensures Reachable(c, s) && |s.ws| == 1
    ensures s.ws[0].workGen == 2 && s.ws[0].local.pub == 1 && s.ws[0].local.job.Some?
  {
    s := BetweenBumpAndInstall(c);
    s := ToHasherCheck(c, s);
    s := Reach(c, s, W(0));
    s := Reach(c, s, W(0));
    assert s.ws[0].pc.CopyWork? && s.ws[0].gen == 2;
    s := Reach(c, s, W(0));
  }

  /** A controller that has decided on a re-key walks to the given line while worker 0 stands still. */
  lemma ToQuiesced(c: Config, s: State) returns (t: State)
    requires Reachable(c, s) && s.ctl.pc.PauseStore? && s.sh.running && s.sh.inFlight == 0
    ensures Reachable(c, t) && t.ctl == s.ctl.(pc := Rekeying) && t.ws == s.ws && t.sh == s.sh.(paused := true)
  {
    t := Reach(c, s, C(Wait));
    t := Reach(c, t, C(Wait));
    assert t.ctl.pc.PauseWait? && t.ws == s.ws && t.sh.inFlight == 0;
    t := Reach(c, t, C(Wait));
    t := Reach(c, t, C(Wait));
  }

  /** Building a hasher can overlap a re-key. */
  lemma BuildOverlapsRekeyWitness(c: Config) returns (s: State)
    requires c.threads == 1
    ensures Reachable(c, s) && s.ctl.pc.Rekeying? && |s.ws| == 1 && s.ws[0].pc.Build?
  {
    s := Started(c);
    s := Reach(c, s, C(OnJob(TINY_JOB, [1])));
    s := ToQuiesced(c, s);
  }

  /** A job with a new seed, taken up to the call of `rebuild_hashers` while worker 0 stands still. */
  lemma Rekeyed(c: Config, s: State) returns (t: State)
    requires c.threads == 1 && Reachable(c, s) && s.ctl.pc.Idle? && s.ctl.currentSeed == []
    requires s.sh.running && s.sh.inFlight == 0 && s.sh.epoch == 0
    ensures Reachable(c, t) && t.ctl.pc.BumpHasher? && t.ws == s.ws
    ensures t.sh == s.sh.(paused := true, epoch := 1)
  {
    t := Reach(c, s, C(OnJob(TINY_JOB, [1])));
    assert t.ctl.pc.PauseStore? && t.ctl.wasRunning;
    t := ToQuiesced(c, t);
    t := Reach(c, t, C(Wait));
  }

  /** The same with the only worker at line 81, past its generation check, and its hasher of key 0. */
  lemma CaughtAtLoad(c: Config) returns (s: State)
    requires c.threads == 1
    ensures Reachable(c, s) && s.ctl.pc.BumpHasher? && |s.ws| == 1 && s.sh.epoch == 1
    ensures s.ws[0].pc.LoadWork? && s.ws[0].key == 0
  {
    s := Started(c);
    s := ToHasherCheck(c, s);
    s := Reach(c, s, W(0));
    assert s.ws[0].pc.LoadWork? && s.ws[0].key == 0;
    s := Rekeyed(c, s);
  }

  /** A hash with a hasher older than the re-key, after `resume()`. */
  lemma StaleHasherWitness(c: Config) returns (s: State, acts: seq<Action>)
    requires c.threads == 1
    ensures Reachable(c, s) && s.ctl.pc.BumpHasher? && |s.ws| == 1
    ensures HashesStale(c, s, acts, 0)
  {
    s := CaughtAtLoad(c);
    StaleHashIff(c, s, 0);
    acts :| HashesStale(c, s, acts, 0);
  }

  /** A publication of the new key hashed with the hasher of the old one. */
  lemma OlderKeyWitness(c: Config) returns (s: State, acts: seq<Action>)
    requires c.threads == 1
    ensures Reachable(c, s) && s.ctl.pc.BumpHasher? && ValidActions(acts)
    ensures OlderKey(Run(c, Next(c, s, C(Wait)), acts), 0)
  {
    s := CaughtAtLoad(c);
    InvReachable(c, s);
    KeyHistoryReachable(c, s);
    acts := OlderKeyRun(c, s, 0);
  }

  /** A publication of the old key hashed with the hasher of the new one, by a worker that was not caught. */
  lemma NewerKeyWitness(c: Config) returns (s: State, acts: seq<Action>)
    requires c.threads == 1
    ensures Reachable(c, s) && s.ctl.pc.BumpHasher? && ValidActions(acts)
    ensures |s.ws| == 1 && !Escapes(s.ws[0]) && NewerKey(Run(c, Next(c, s, C(Wait)), acts), 0)
  {
    s := Started(c);
    s := ToHasherCheck(c, s);
    s := Rekeyed(c, s);
    assert s.ws[0].pc.CheckHasher? && Workable(s.sh.work);
    var s0 := Reach(c, s, C(Wait));
    InvReachable(c, s0);
    KeyHistoryReachable(c, s0);
    assert Follows(s0.log, s0.sh, s0.ws[0]);
    acts := NewerKeyRun(c, s0, 0);
  }
}
