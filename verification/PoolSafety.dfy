/**
  What every step of the worker pool keeps: the pause/in-flight handshake, the lifetime of
  the threads, and the count of hashes.
 */
module PoolSafety {
  import opened Bytes
  import opened MinerPool

  // ---- sums over the workers ----

  function Sum(ws: seq<Worker>, f: Worker -> nat): nat {
    if ws == [] then 0 else f(ws[0]) + Sum(ws[1..], f)
  }

  lemma {:induction false} SumUpdate(ws: seq<Worker>, f: Worker -> nat, i: nat, w: Worker)
    requires i < |ws|
    ensures Sum(ws[i := w], f) == Sum(ws, f) - f(ws[i]) + f(w)
    ensures f(ws[i]) <= Sum(ws, f)
  {
    if i == 0 {
      assert ws[0 := w][1..] == ws[1..];
    } else {
      SumUpdate(ws[1..], f, i - 1, w);
      assert ws[i := w][1..] == ws[1..][i - 1 := w];
    }
  }

  lemma {:induction false} SumAppend(ws: seq<Worker>, f: Worker -> nat, w: Worker)
    ensures Sum(ws + [w], f) == Sum(ws, f) + f(w)
  {
    if ws != [] {
      SumAppend(ws[1..], f, w);
      assert (ws + [w])[1..] == ws[1..] + [w];
    }
  }

  lemma {:induction false} SumZero(ws: seq<Worker>, f: Worker -> nat)
    ensures Sum(ws, f) == 0 <==> forall i :: 0 <= i < |ws| ==> f(ws[i]) == 0
  {
    if ws != [] {
      SumZero(ws[1..], f);
      assert forall i :: 1 <= i < |ws| ==> ws[i] == ws[1..][i - 1];
      assert forall i :: 0 <= i < |ws| - 1 ==> ws[1..][i] == ws[i + 1];
    }
  }

  lemma {:induction false} SumBound(ws: seq<Worker>, f: Worker -> nat, b: nat)
    requires forall i :: 0 <= i < |ws| ==> f(ws[i]) <= b
    ensures Sum(ws, f) <= |ws| * b
  {
    if ws != [] {
      assert forall i :: 0 <= i < |ws| - 1 ==> ws[1..][i] == ws[i + 1];
      SumBound(ws[1..], f, b);
    }
  }

  // ---- the handshake ----

  /** Between the increment and the decrement of `in_flight_`. */
  predicate Inside(pc: Pc) {
    pc.Recheck? || pc.Withdraw? || pc.Hash? || pc.Leave?
  }

  function InFlightBit(w: Worker): nat {
    if Inside(w.pc) then 1 else 0
  }

  /** From the return of `pause()` up to the store in `resume()`. */
  predicate Quiet(pc: CtlPc) {
    pc.Quiesced? || pc.Rekeying? || pc.BumpHasher? || pc.Resume?
  }

  predicate Pausing(pc: CtlPc) {
    pc.PauseStore? || pc.PauseLoad? || pc.PauseWait?
  }

  /** The controller's own bookkeeping: when the pool is running, paused and populated. */
  predicate Lifetime(c: Config, s: State) {
    var pc := s.ctl.pc;
    && |s.ws| <= c.threads
    && (Pausing(pc) || (Quiet(pc) && !pc.Rekeying?) ==> s.sh.running && s.ctl.wasRunning)
    && (pc.Rekeying? ==> s.ctl.wasRunning == s.sh.running)
    && (s.sh.paused <==> pc.PauseLoad? || pc.PauseWait? || (Quiet(pc) && s.ctl.wasRunning))
    && (!s.sh.running && !pc.StopUnpause? && !pc.Joining? ==> s.ws == [])
    && (s.sh.running && !pc.Spawning? ==> |s.ws| == c.threads)
    && (pc.Spawning? ==> s.sh.running)
    && (pc.StopUnpause? || pc.Joining? ==> !s.sh.running)
    && (s.sh.running ==> forall i :: 0 <= i < |s.ws| ==> !s.ws[i].pc.Exited?)
  }

  predicate NoneHashing(s: State) {
    Quiet(s.ctl.pc) ==> forall i :: 0 <= i < |s.ws| ==> !s.ws[i].pc.Hash? && !s.ws[i].pc.Leave?
  }

  predicate Handshake(s: State) {
    && s.sh.inFlight == Sum(s.ws, InFlightBit)
    && NoneHashing(s)
  }

  lemma LifetimeWorker(c: Config, s: State, i: nat)
    requires Lifetime(c, s) && i < |s.ws|
    ensures Lifetime(c, WorkerNext(c, s, i))
  {
  }

  lemma LifetimeController(c: Config, s: State, cmd: Command)
    requires ValidConfig(c) && Lifetime(c, s)
    ensures Lifetime(c, CtlNext(c, s, cmd))
  {
  }

  lemma InFlightStep(c: Config, i: nat, sh: Shared, w: Worker)
    ensures StepShared(sh, w).inFlight == sh.inFlight - InFlightBit(w) + InFlightBit(StepWorker(c, i, sh, w))
  {
  }

  lemma HandshakeWorker(c: Config, s: State, i: nat)
    requires Lifetime(c, s) && Handshake(s) && i < |s.ws|
    ensures Handshake(WorkerNext(c, s, i))
  {
    SumUpdate(s.ws, InFlightBit, i, StepWorker(c, i, s.sh, s.ws[i]));
    InFlightStep(c, i, s.sh, s.ws[i]);
  }

  lemma QuietController(c: Config, s: State, cmd: Command)
    requires Lifetime(c, s) && Handshake(s)
    ensures NoneHashing(CtlNext(c, s, cmd))
  {
    if s.ctl.pc.PauseWait? {
      SumZero(s.ws, InFlightBit);
      assert s.sh.inFlight == 0 ==> forall i :: 0 <= i < |s.ws| ==> InFlightBit(s.ws[i]) == 0;
    }
  }

  lemma HandshakeController(c: Config, s: State, cmd: Command)
    requires Lifetime(c, s) && Handshake(s)
    ensures Handshake(CtlNext(c, s, cmd))
  {
    QuietController(c, s, cmd);
    CtlFrames(c, s, cmd);
    FrameSum(s, CtlNext(c, s, cmd), InFlightBit);
  }

  // ---- counting hashes ----

  /** Hashes a worker has done and not yet added to `hashes_`. */
  function Unflushed(w: Worker): nat {
    if w.pc.Hash? || w.pc.Leave? || w.pc.Flush? then w.done else 0
  }

  predicate Counted(s: State) {
    (s.sh.hashes + Sum(s.ws, Unflushed)) % TWO64 == |s.tries| % TWO64
  }

  lemma ModShift(a: nat, b: nat, d: nat)
    requires d <= b
    ensures ((a + d) % TWO64 + (b - d)) % TWO64 == (a + b) % TWO64
  {
  }

  lemma ModSucc(a: nat, b: nat)
    requires a % TWO64 == b % TWO64
    ensures (a + 1) % TWO64 == (b + 1) % TWO64
  {
  }

  lemma UnflushedStep(c: Config, i: nat, sh: Shared, w: Worker)
    requires w.pc.Hash? ==> HasRoom(w)
    ensures Unflushed(StepWorker(c, i, sh, w)) ==
            if w.pc.Hash? then Unflushed(w) + 1 else if w.pc.Flush? then 0 else Unflushed(w)
  {
  }

  lemma CountedWorker(c: Config, s: State, i: nat)
    requires Counted(s) && i < |s.ws| && (s.ws[i].pc.Hash? ==> HasRoom(s.ws[i]))
    ensures Counted(WorkerNext(c, s, i))
  {
    var w := s.ws[i];
    SumUpdate(s.ws, Unflushed, i, StepWorker(c, i, s.sh, w));
    UnflushedStep(c, i, s.sh, w);
    var t := WorkerNext(c, s, i);
    if w.pc.Flush? {
      ModShift(s.sh.hashes, Sum(s.ws, Unflushed), w.done);
    } else if w.pc.Hash? {
      assert t.sh.hashes + Sum(t.ws, Unflushed) == s.sh.hashes + Sum(s.ws, Unflushed) + 1;
      ModSucc(s.sh.hashes + Sum(s.ws, Unflushed), |s.tries|);
    } else {
      assert t.sh.hashes + Sum(t.ws, Unflushed) == s.sh.hashes + Sum(s.ws, Unflushed);
    }
  }

  /** What a controller step can do to the threads and to the hash counters. */
  predicate CtlFrame(s: State, t: State) {
    && t.sh.hashes == s.sh.hashes && t.sh.inFlight == s.sh.inFlight && t.tries == s.tries
    && (|| t.ws == s.ws
        || t.ws == s.ws + [FRESH]
        || (t.ws == [] && forall i :: 0 <= i < |s.ws| ==> s.ws[i].pc.Exited?))
  }

  lemma CtlFrames(c: Config, s: State, cmd: Command)
    ensures CtlFrame(s, CtlNext(c, s, cmd))
  {
  }

  lemma FrameSum(s: State, t: State, f: Worker -> nat)
    requires CtlFrame(s, t) && f(FRESH) == 0
    requires forall w: Worker :: w.pc.Exited? ==> f(w) == 0
    ensures Sum(t.ws, f) == Sum(s.ws, f)
  {
    SumAppend(s.ws, f, FRESH);
    SumZero(s.ws, f);
  }

  lemma CountedController(c: Config, s: State, cmd: Command)
    requires Counted(s)
    ensures Counted(CtlNext(c, s, cmd))
  {
    CtlFrames(c, s, cmd);
    FrameSum(s, CtlNext(c, s, cmd), Unflushed);
  }
}
