/** What holds in every reachable state and along every run of the worker pool. */
module PoolTheorems {
  import opened Arith
  import opened Bytes
  import opened MinerPool
  import opened PoolSafety
  import opened PoolWork

  predicate Inv(c: Config, s: State) {
    && Lifetime(c, s)
    && Handshake(s)
    && Counted(s)
    && Published(s)
    && AllFollow(s)
    && AllScan(c, s)
    && Reported(c, s)
  }

  lemma InvNext(c: Config, s: State, a: Action)
    requires ValidConfig(c) && ValidAction(a) && Inv(c, s)
    ensures Inv(c, Next(c, s, a))
  {
    match a
    case W(i) =>
      if i < |s.ws| {
        InvWorker(c, s, i);
      }
    case C(cmd) =>
      InvController(c, s, cmd);
  }

  lemma InvWorker(c: Config, s: State, i: nat)
    requires ValidConfig(c) && Inv(c, s) && i < |s.ws|
    ensures Inv(c, WorkerNext(c, s, i))
  {
    LifetimeWorker(c, s, i);
    HandshakeWorker(c, s, i);
    assert Scans(c, i, s.ws[i]);
    CountedWorker(c, s, i);
    PublishedWorker(c, s, i);
    FollowWorker(c, s, i);
    ScanWorker(c, s, i);
    ReportedWorker(c, s, i);
  }

  lemma InvController(c: Config, s: State, cmd: Command)
    requires ValidConfig(c) && ValidAction(C(cmd)) && Inv(c, s)
    ensures Inv(c, CtlNext(c, s, cmd))
  {
    LifetimeController(c, s, cmd);
    HandshakeController(c, s, cmd);
    CountedController(c, s, cmd);
    PublishedController(c, s, cmd);
    FollowController(c, s, cmd);
    ScanController(c, s, cmd);
    ReportedController(c, s, cmd);
  }

  lemma {:induction false} InvRun(c: Config, s: State, acts: seq<Action>)
    requires ValidConfig(c) && ValidActions(acts) && Inv(c, s)
    ensures Inv(c, Run(c, s, acts))
    decreases |acts|
  {
    if acts != [] {
      InvNext(c, s, acts[0]);
      InvRun(c, Next(c, s, acts[0]), acts[1..]);
    }
  }

  lemma InvReachable(c: Config, s: State)
    requires ValidConfig(c) && Reachable(c, s)
    ensures Inv(c, s)
  {
    var acts :| ValidActions(acts) && s == Run(c, Init(), acts);
    InvRun(c, Init(), acts);
  }

  // ---- the pause handshake ----

  /**
    In every reachable state `in_flight_` counts the workers between its increment and its
    decrement, so it never wraps; and while the controller is between the return of
    `pause()` and the store of `resume()`, no thread can execute a hash.
   */
  lemma NoHashWhileQuiet(c: Config, s: State, a: Action)
    requires ValidConfig(c) && Reachable(c, s)
    ensures s.sh.inFlight == Sum(s.ws, InFlightBit)
    ensures 0 <= s.sh.inFlight <= c.threads
    ensures Quiet(s.ctl.pc) ==> !Hashes(s, a) && Next(c, s, a).tries == s.tries
  {
    InvReachable(c, s);
    SumBound(s.ws, InFlightBit, 1);
  }

  /** The controller stays between the return of `pause()` and `resume()` for all of `acts`. */
  predicate StaysQuiet(c: Config, s: State, acts: seq<Action>)
    decreases |acts|
  {
    acts != [] ==> Quiet(s.ctl.pc) && StaysQuiet(c, Next(c, s, acts[0]), acts[1..])
  }

  /** Over the whole of a re-key, not one hash call is made. */
  lemma {:induction false} RekeyNeverOverlapsHashing(c: Config, s: State, acts: seq<Action>)
    requires ValidConfig(c) && ValidActions(acts) && Inv(c, s) && StaysQuiet(c, s, acts)
    ensures Run(c, s, acts).tries == s.tries
    decreases |acts|
  {
    if acts != [] {
      assert Next(c, s, acts[0]).tries == s.tries;
      InvNext(c, s, acts[0]);
      RekeyNeverOverlapsHashing(c, Next(c, s, acts[0]), acts[1..]);
    }
  }

  // ---- shares ----

  /**
    Every share handed to `on_share` is on a job published by `set_work`, its digest is the
    hash of that job's blob with only the four nonce bytes replaced and is at most the
    target, and every attempt that meets its target was handed over.
   */
  lemma SharesAreGenuineAndComplete(c: Config, s: State)
    requires ValidConfig(c) && Reachable(c, s)
    ensures forall a :: a in s.shares ==> Genuine(c, s.log, a) && LeNat(a.digest) <= LeNat(a.job.target)
    ensures forall a :: a in s.tries && LeNat(a.digest) <= LeNat(a.job.target) ==> a in s.shares
    ensures |s.shares| <= |s.tries|
  {
    InvReachable(c, s);
    WinnersAre(s.tries);
    WinnersFewer(s.tries);
    forall a | a in s.shares
      ensures Genuine(c, s.log, a)
    {
      var k :| 0 <= k < |s.tries| && s.tries[k] == a;
    }
  }

  lemma {:induction false} WinnersFewer(tries: seq<Attempt>)
    ensures |Winners(tries)| <= |tries|
  {
    if tries != [] {
      WinnersFewer(tries[..|tries| - 1]);
    }
  }

  // ---- hash counting ----

  /**
    The hash calls made are `hashes_` plus what the workers have not flushed; once `stop()`
    has joined the threads `hashes_` alone is exact.
   */
  lemma HashesAreCounted(c: Config, s: State)
    requires ValidConfig(c) && Reachable(c, s)
    ensures |s.tries| % TWO64 == (s.sh.hashes + Sum(s.ws, Unflushed)) % TWO64
    ensures Sum(s.ws, Unflushed) <= CHUNK * c.threads
    ensures s.ws == [] ==> |s.tries| % TWO64 == s.sh.hashes % TWO64
  {
    InvReachable(c, s);
    forall i | 0 <= i < |s.ws|
      ensures Unflushed(s.ws[i]) <= CHUNK
    {
      assert Scans(c, i, s.ws[i]);
    }
    SumBound(s.ws, Unflushed, CHUNK);
    MulMono(|s.ws|, c.threads, CHUNK);
  }

  /** A join that completes leaves no thread, so nothing is left unflushed. */
  lemma StopFlushesAll(c: Config, s: State, cmd: Command)
    requires ValidConfig(c) && Reachable(c, s) && s.ctl.pc.Joining?
    requires !Next(c, s, C(cmd)).ctl.pc.Joining?
    ensures Next(c, s, C(cmd)).ws == [] && Sum(s.ws, Unflushed) == 0
    ensures |s.tries| % TWO64 == s.sh.hashes % TWO64
  {
    InvReachable(c, s);
    SumZero(s.ws, Unflushed);
  }

  // ---- publications ----

  /**
    A worker's job is the published job of its number, at most one publication behind the
    generation the worker recorded and never ahead of the installed one.
   */
  lemma JobFollowsGeneration(c: Config, s: State, i: nat)
    requires ValidConfig(c) && Reachable(c, s) && i < |s.ws|
    ensures var w := s.ws[i];
            && w.local.pub < |s.log| && w.local.job == s.log[w.local.pub]
            && w.workGen - 1 <= w.local.pub <= s.sh.work.pub <= s.sh.workGen
            && (w.local.job.Some? ==> w.local.job.value.generation == w.local.pub)
  {
    InvReachable(c, s);
    assert Follows(s.log, s.sh, s.ws[i]);
    assert Entry(s.log[s.ws[i].local.pub], s.ws[i].local.pub);
  }

  /** A worker's job never moves back to an earlier publication. */
  lemma JobNeverMovesBack(c: Config, s: State, a: Action, i: nat)
    requires ValidConfig(c) && Reachable(c, s) && i < |s.ws|
    ensures Next(c, s, a).ws == [] || i < |Next(c, s, a).ws|
    ensures Next(c, s, a).ws != [] ==> s.ws[i].local.pub <= Next(c, s, a).ws[i].local.pub
  {
    InvReachable(c, s);
    if a == W(i) {
      OwnStep(c, s, i);
      LocalGrows(c, i, s, s.ws[i]);
    } else {
      OthersKept(c, s, a, i);
    }
  }

  lemma OwnStep(c: Config, s: State, i: nat)
    requires i < |s.ws|
    ensures var t := Next(c, s, W(i));
            |t.ws| == |s.ws| && t.ws[i] == StepWorker(c, i, s.sh, s.ws[i]) && t.sh == StepShared(s.sh, s.ws[i])
  {
  }

  /** A thread's own variables change by its own steps only, until a join ends it. */
  lemma OthersKept(c: Config, s: State, a: Action, i: nat)
    requires i < |s.ws| && a != W(i)
    ensures var t := Next(c, s, a);
            || (t.ws == [] && s.ws[i].pc.Exited?)
            || (i < |t.ws| && t.ws[i] == s.ws[i])
  {
    if a.C? {
      CtlFrames(c, s, a.cmd);
    }
  }

  lemma LocalGrows(c: Config, i: nat, s: State, w: Worker)
    requires AllFollow(s) && i < |s.ws| && w == s.ws[i]
    ensures w.local.pub <= StepWorker(c, i, s.sh, w).local.pub
  {
    assert Follows(s.log, s.sh, w);
  }

  /**
    The exact gap: a copy leaves the worker with a job older than the generation it records
    if and only if it happens while that very publication is between bump and install.
   */
  lemma StaleCopyIff(c: Config, s: State, i: nat)
    requires ValidConfig(c) && Reachable(c, s) && i < |s.ws| && s.ws[i].pc.CopyWork?
    ensures var v := Next(c, s, W(i)).ws[i];
            && v.workGen == s.ws[i].gen
            && (v.local.pub < v.workGen <==> s.ctl.pc.Install? && s.ws[i].gen == s.sh.workGen)
  {
    InvReachable(c, s);
    assert Follows(s.log, s.sh, s.ws[i]);
  }

  lemma JobSticksStep(c: Config, s: State, a: Action, i: nat)
    requires Inv(c, s) && i < |s.ws| && s.ws[i].workGen == s.sh.workGen
    ensures var t := Next(c, s, a);
            t.ws == [] || (i < |t.ws| && t.ws[i].local == s.ws[i].local && t.ws[i].workGen == s.ws[i].workGen)
  {
    if a == W(i) {
      OwnStep(c, s, i);
      assert Follows(s.log, s.sh, s.ws[i]);
      ViewFrames(c, i, s.sh, s.ws[i]);
    } else {
      OthersKept(c, s, a, i);
    }
  }

  /** No publication begins anywhere in `acts`, and thread `i` is not joined. */
  predicate Unbumped(c: Config, s: State, acts: seq<Action>, i: nat)
    decreases |acts|
  {
    && i < |s.ws|
    && (acts != [] ==>
          && Next(c, s, acts[0]).sh.workGen == s.sh.workGen
          && Unbumped(c, Next(c, s, acts[0]), acts[1..], i))
  }

  /** A worker that has recorded the current generation keeps its job, stale or not, until the next bump. */
  lemma {:induction false} JobSticksUntilBump(c: Config, s: State, acts: seq<Action>, i: nat)
    requires ValidConfig(c) && ValidActions(acts) && Inv(c, s) && Unbumped(c, s, acts, i)
    requires s.ws[i].workGen == s.sh.workGen
    ensures var t := Run(c, s, acts); i < |t.ws| && t.ws[i].local == s.ws[i].local
    decreases |acts|
  {
    if acts != [] {
      InvNext(c, s, acts[0]);
      JobSticksStep(c, s, acts[0], i);
      JobSticksUntilBump(c, Next(c, s, acts[0]), acts[1..], i);
    }
  }

  /** Worker `i` takes no step in `acts`. */
  predicate Idles(acts: seq<Action>, i: nat) {
    forall k :: 0 <= k < |acts| ==> acts[k] != W(i)
  }

  lemma {:induction false} CopyWaits(c: Config, s: State, acts: seq<Action>, i: nat)
    requires ValidConfig(c) && ValidActions(acts) && Inv(c, s) && Idles(acts, i)
    requires i < |s.ws| && s.ws[i].pc.CopyWork? && s.ws[i].gen <= s.sh.work.pub
    ensures var t := Run(c, s, acts);
            Inv(c, t) && i < |t.ws| && t.ws[i] == s.ws[i] && s.ws[i].gen <= t.sh.work.pub
    decreases |acts|
  {
    if acts != [] {
      var t := Next(c, s, acts[0]);
      InvNext(c, s, acts[0]);
      CopyWaitsStep(c, s, acts[0], i);
      CopyWaits(c, t, acts[1..], i);
    }
  }

  lemma CopyWaitsStep(c: Config, s: State, a: Action, i: nat)
    requires Published(s) && a != W(i)
    requires i < |s.ws| && s.ws[i].pc.CopyWork?
    ensures var t := Next(c, s, a); i < |t.ws| && t.ws[i] == s.ws[i] && s.sh.work.pub <= t.sh.work.pub
  {
    OthersKept(c, s, a, i);
    InstalledGrows(c, s, a);
  }

  lemma InstalledGrows(c: Config, s: State, a: Action)
    requires Published(s)
    ensures s.sh.work.pub <= Next(c, s, a).sh.work.pub
  {
    match a
    case W(i) =>
      if i < |s.ws| {
        ViewFrames(c, i, s.sh, s.ws[i]);
      }
    case C(cmd) =>
      PublishFrames(c, s, cmd);
  }

  lemma FreshCopy(c: Config, t: State, i: nat)
    requires i < |t.ws| && t.ws[i].pc.CopyWork? && t.ws[i].gen <= t.sh.work.pub
    ensures var v := Next(c, t, W(i)).ws[i]; v.workGen == t.ws[i].gen <= v.local.pub
  {
    OwnStep(c, t, i);
  }

  lemma CleanLoad(c: Config, s: State, i: nat)
    requires Published(s) && i < |s.ws| && s.ws[i].pc.LoadWork? && !s.ctl.pc.Install?
    requires s.sh.workGen != s.ws[i].workGen
    ensures var t := Next(c, s, W(i));
            i < |t.ws| && t.ws[i].pc.CopyWork? && t.ws[i].gen == s.sh.workGen <= t.sh.work.pub
  {
  }

  /**
    If no publication was between bump and install when the worker read the generation, the
    job it then copies is at least as new as that generation, however long the copy waits.
   */
  lemma CleanReadIsFresh(c: Config, s: State, acts: seq<Action>, i: nat)
    requires ValidConfig(c) && ValidActions(acts) && Reachable(c, s) && Idles(acts, i)
    requires i < |s.ws| && s.ws[i].pc.LoadWork? && !s.ctl.pc.Install?
    requires s.sh.workGen != s.ws[i].workGen
    ensures var t := Run(c, Next(c, s, W(i)), acts);
            && i < |t.ws| && t.ws[i].pc.CopyWork?
            && var v := Next(c, t, W(i)).ws[i];
               v.workGen == s.sh.workGen <= v.local.pub
  {
    InvReachable(c, s);
    InvNext(c, s, W(i));
    CleanLoad(c, s, i);
    CopyWaits(c, Next(c, s, W(i)), acts, i);
    FreshCopy(c, Run(c, Next(c, s, W(i)), acts), i);
  }

  // ---- the nonce scan ----

  /** The nonces worker `i` tried, in order. */
  function NoncesOf(tries: seq<Attempt>, i: nat): seq<nat> {
    if tries == [] then []
    else (if tries[0].worker == i then [tries[0].nonce] else []) + NoncesOf(tries[1..], i)
  }

  /** Worker `i` keeps its thread and does not refresh its job anywhere in `acts`. */
  predicate KeepsJob(c: Config, s: State, acts: seq<Action>, i: nat)
    decreases |acts|
  {
    && i < |s.ws|
    && (acts != [] ==>
          && !(acts[0] == W(i) && s.ws[i].pc.CopyWork?)
          && KeepsJob(c, Next(c, s, acts[0]), acts[1..], i))
  }

  lemma {:induction false} NoncesConcat(a: seq<Attempt>, b: seq<Attempt>, i: nat)
    ensures NoncesOf(a + b, i) == NoncesOf(a, i) + NoncesOf(b, i)
  {
    if a == [] {
      assert a + b == b;
    } else {
      assert (a + b)[1..] == a[1..] + b && (a + b)[0] == a[0];
      NoncesConcat(a[1..], b, i);
      var first := if a[0].worker == i then [a[0].nonce] else [];
      assert NoncesOf(a + b, i) == first + NoncesOf((a + b)[1..], i);
      assert NoncesOf(a, i) == first + NoncesOf(a[1..], i);
    }
  }

  /** `pass` is exactly what the worker tried up to its first wrap. */
  predicate PassExtends(before: Worker, after: Worker, tried: seq<nat>) {
    && (before.wrapped ==> after.wrapped && after.pass == before.pass)
    && before.pass <= after.pass <= before.pass + tried
    && (!after.wrapped ==> after.pass == before.pass + tried)
  }

  lemma PassTrans(u: Worker, v: Worker, w: Worker, x: seq<nat>, y: seq<nat>)
    requires PassExtends(u, v, x) && PassExtends(v, w, y)
    ensures PassExtends(u, w, x + y)
  {
    assert u.pass + x + y == u.pass + (x + y);
    if v.wrapped {
      assert u.pass + x <= u.pass + (x + y);
    }
  }

  lemma PassStep(c: Config, s: State, a: Action, i: nat)
    requires i < |s.ws| && i < |Next(c, s, a).ws|
    requires !(a == W(i) && s.ws[i].pc.CopyWork?)
    ensures var t := Next(c, s, a);
            && s.tries <= t.tries
            && PassExtends(s.ws[i], t.ws[i], NoncesOf(t.tries[|s.tries|..], i))
  {
    var t := Next(c, s, a);
    if Hashes(s, a) && HasRoom(s.ws[a.i]) {
      assert t.tries[|s.tries|..] == [AttemptOf(c, a.i, s.sh.epoch, s.ws[a.i])];
    } else {
      assert t.tries[|s.tries|..] == [];
    }
  }

  /** From a refresh on, `pass` records the worker's own attempts, in order, up to the first wrap. */
  lemma {:induction false} PassIsTried(c: Config, s: State, acts: seq<Action>, i: nat)
    requires KeepsJob(c, s, acts, i)
    ensures var t := Run(c, s, acts);
            && i < |t.ws| && s.tries <= t.tries
            && PassExtends(s.ws[i], t.ws[i], NoncesOf(t.tries[|s.tries|..], i))
    decreases |acts|
  {
    if acts == [] {
      assert s.tries[|s.tries|..] == [];
    } else {
      var m := Next(c, s, acts[0]);
      var t := Run(c, m, acts[1..]);
      PassStep(c, s, acts[0], i);
      PassIsTried(c, m, acts[1..], i);
      var x, y := m.tries[|s.tries|..], t.tries[|m.tries|..];
      assert t.tries[|s.tries|..] == x + y;
      NoncesConcat(x, y, i);
      PassTrans(s.ws[i], m.ws[i], t.ws[i], NoncesOf(x, i), NoncesOf(y, i));
    }
  }

  /**
    When all workers have wrapped, their first passes partition the 32-bit nonces: each is
    in exactly one pass, once, namely that of the worker with its residue.
   */
  lemma FirstPassesPartition(c: Config, s: State, n: nat)
    requires ValidConfig(c) && Reachable(c, s) && |s.ws| == c.threads && n < TWO32
    requires forall i :: 0 <= i < |s.ws| ==> s.ws[i].local.job.Some? && s.ws[i].wrapped
    ensures n / c.threads < |s.ws[n % c.threads].pass|
    ensures forall i, k :: 0 <= i < |s.ws| && 0 <= k < |s.ws[i].pass| ==>
                             (s.ws[i].pass[k] == n <==> i == n % c.threads && k == n / c.threads)
  {
    InvReachable(c, s);
    var r, q := n % c.threads, n / c.threads;
    DivBounds(n, c.threads);
    assert Scans(c, r, s.ws[r]);
    if |s.ws[r].pass| <= q {
      MulMono(|s.ws[r].pass|, q, c.threads);
      assert false;
    }
    forall i, k | 0 <= i < |s.ws| && 0 <= k < |s.ws[i].pass|
      ensures s.ws[i].pass[k] == n <==> i == r && k == q
    {
      assert Scans(c, i, s.ws[i]);
      if s.ws[i].pass[k] == n {
        DivUnique(n, c.threads, k, i);
      }
    }
  }

  // ---- the passes are attempts on the job ----

  ghost predicate Attempted(tries: seq<Attempt>, i: nat, pub: nat, nonce: nat) {
    exists k :: 0 <= k < |tries| && tries[k].worker == i && tries[k].pub == pub && tries[k].nonce == nonce
  }

  /** Each nonce of the first pass was tried on the publication that the worker holds. */
  ghost predicate PassTried(tries: seq<Attempt>, i: nat, w: Worker) {
    w.local.job.Some? ==> forall k :: 0 <= k < |w.pass| ==> Attempted(tries, i, w.local.pub, w.pass[k])
  }

  ghost predicate AllTried(s: State) {
    forall i :: 0 <= i < |s.ws| ==> PassTried(s.tries, i, s.ws[i])
  }

  lemma AttemptedMore(tries: seq<Attempt>, more: seq<Attempt>, i: nat, pub: nat, nonce: nat)
    requires Attempted(tries, i, pub, nonce) && tries <= more
    ensures Attempted(more, i, pub, nonce)
  {
    var k :| 0 <= k < |tries| && tries[k].worker == i && tries[k].pub == pub && tries[k].nonce == nonce;
    assert more[k] == tries[k];
  }

  lemma TriedMore(tries: seq<Attempt>, more: seq<Attempt>, i: nat, w: Worker)
    requires PassTried(tries, i, w) && tries <= more
    ensures PassTried(more, i, w)
  {
    if w.local.job.Some? {
      forall k | 0 <= k < |w.pass|
        ensures Attempted(more, i, w.local.pub, w.pass[k])
      {
        AttemptedMore(tries, more, i, w.local.pub, w.pass[k]);
      }
    }
  }

  lemma TriedTurn(c: Config, i: nat, epoch: nat, w: Worker, tries: seq<Attempt>, more: seq<Attempt>)
    requires HasRoom(w) && PassTried(tries, i, w) && more == tries + [AttemptOf(c, i, epoch, w)]
    ensures PassTried(more, i, HashTurn(c, w))
  {
    TriedMore(tries, more, i, w);
    assert more[|tries|] == AttemptOf(c, i, epoch, w);
    assert Attempted(more, i, w.local.pub, w.nonce);
  }

  /** Outside the loop a step keeps the pass and its publication, or starts afresh. */
  lemma PassKept(c: Config, i: nat, sh: Shared, w: Worker)
    requires !(w.pc.Hash? && HasRoom(w))
    ensures var v := StepWorker(c, i, sh, w);
            (v.pass == w.pass && v.local == w.local) || v.pass == [] || v.local.job.None?
  {
  }

  lemma TriedWorker(c: Config, s: State, i: nat)
    requires AllTried(s) && i < |s.ws|
    ensures AllTried(WorkerNext(c, s, i))
  {
    var t, w := WorkerNext(c, s, i), s.ws[i];
    HistoryStep(c, s, i);
    forall j | 0 <= j < |t.ws|
      ensures PassTried(t.tries, j, t.ws[j])
    {
      assert PassTried(s.tries, j, s.ws[j]);
      if j != i {
        assert t.ws[j] == s.ws[j];
        TriedMore(s.tries, t.tries, j, s.ws[j]);
      } else if w.pc.Hash? && HasRoom(w) {
        TriedTurn(c, i, s.sh.epoch, w, s.tries, t.tries);
      } else {
        PassKept(c, i, s.sh, w);
      }
    }
  }

  lemma TriedController(c: Config, s: State, cmd: Command)
    requires AllTried(s)
    ensures AllTried(CtlNext(c, s, cmd))
  {
    CtlFrames(c, s, cmd);
    var t := CtlNext(c, s, cmd);
    forall j | 0 <= j < |t.ws|
      ensures PassTried(t.tries, j, t.ws[j])
    {
      assert j < |s.ws| ==> PassTried(s.tries, j, s.ws[j]);
    }
  }

  lemma {:induction false} TriedRun(c: Config, s: State, acts: seq<Action>)
    requires AllTried(s)
    ensures AllTried(Run(c, s, acts))
    decreases |acts|
  {
    if acts != [] {
      match acts[0] {
        case W(i) =>
          if i < |s.ws| {
            TriedWorker(c, s, i);
          }
        case C(cmd) =>
          TriedController(c, s, cmd);
      }
      TriedRun(c, Next(c, s, acts[0]), acts[1..]);
    }
  }

  /**
    When all workers hold publication `pub` and have wrapped, every 32-bit nonce was tried on
    it, by the worker with its residue, and is among the shares exactly if its digest meets
    the target.
   */
  lemma EveryNonceIsTried(c: Config, s: State, pub: nat, n: nat) returns (a: Attempt)
    requires ValidConfig(c) && Reachable(c, s) && |s.ws| == c.threads && n < TWO32
    requires forall i :: 0 <= i < |s.ws| ==>
                           s.ws[i].local.pub == pub && s.ws[i].local.job.Some? && s.ws[i].wrapped
    ensures a in s.tries && a.worker == n % c.threads && a.pub == pub && a.nonce == n && Genuine(c, s.log, a)
    ensures a in s.shares <==> LeNat(a.digest) <= LeNat(a.job.target)
  {
    FirstPassesPartition(c, s, n);
    AllTriedReachable(c, s);
    var r, q := n % c.threads, n / c.threads;
    assert PassTried(s.tries, r, s.ws[r]) && s.ws[r].pass[q] == n;
    a := TheAttempt(s.tries, r, pub, n);
    InvReachable(c, s);
    WinnersAre(s.tries);
  }

  lemma AllTriedReachable(c: Config, s: State)
    requires Reachable(c, s)
    ensures AllTried(s)
  {
    var acts :| ValidActions(acts) && s == Run(c, Init(), acts);
    TriedRun(c, Init(), acts);
  }

  lemma TheAttempt(tries: seq<Attempt>, i: nat, pub: nat, nonce: nat) returns (a: Attempt)
    requires Attempted(tries, i, pub, nonce)
    ensures a in tries && a.worker == i && a.pub == pub && a.nonce == nonce
  {
    var k :| 0 <= k < |tries| && tries[k].worker == i && tries[k].pub == pub && tries[k].nonce == nonce;
    a := tries[k];
  }
}
