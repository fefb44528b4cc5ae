/**
  The worker pool of src/miner/worker.cpp, driven by `on_job` of src/app/main.cpp, as a
  transition system: N workers and one controller thread over the pool's atomics.

  `Next` performs one atomic access of one thread, so a run is a sequence of actions and
  every sequentially consistent interleaving is some run.  A hasher is known by `key`, the
  number of re-keys that had completed when it was built.  A re-key changes the shared cache
  in place, so what a hasher computes can depend on the re-keys completed by then as well: it
  is `hash(key, epoch, blob)`, of which nothing is assumed.
  `log`, `tries`, `shares`, `stamps`, `seeds`, and each worker's `pass` and `wrapped` are
  history: no step branches on them.
 */
module MinerPool {
  import opened Bytes
  import opened Jobs

  const CHUNK: nat := 16

  /** The thread count after the constructor's 0-to-1 correction, and the hash kernel. */
  datatype Config = Config(threads: nat, hash: (nat, nat, seq<Byte>) -> Hash256)

  predicate ValidConfig(c: Config) {
    1 <= c.threads < TWO32
  }

  /** One publication: its number, and the job installed (none for `clear_work`). */
  datatype Slot = Slot(pub: nat, job: Option<MiningJob>)

  datatype Shared = Shared(
    running: bool,
    paused: bool,
    inFlight: int,
    hashes: nat,
    workGen: nat,
    hasherGen: nat,
    work: Slot,
    epoch: nat)

  /** The line of `run` a worker is about to execute. */
  datatype Pc =
    | Build           // 62: make_hasher_()
    | RecordBuilt     // 63: local_hasher_gen = hasher_gen_
    | Top             // 70: running_?
    | CheckPaused     // 71: paused_?
    | CheckHasher     // 76: hasher_gen_ changed?
    | Rebuild         // 77: make_hasher_()
    | RecordRebuilt   // 78: local_hasher_gen = hasher_gen_
    | LoadWork        // 81: gen = work_gen_
    | CopyWork        // 84: local = work_
    | CheckLocal      // 94: is there a job with room for a nonce?
    | Enter           // 105: ++in_flight_
    | Recheck         // 106: paused_?
    | Withdraw        // 107: --in_flight_, no hash done
    | Hash            // 112: one turn of the hashing loop
    | Leave           // 132: --in_flight_
    | Flush           // 133: hashes_ += done
    | Exited

  datatype Worker = Worker(
    pc: Pc,
    key: nat,
    hasherGen: nat,
    gen: nat,
    workGen: nat,
    local: Slot,
    blob: seq<Byte>,
    nonce: nat,
    done: nat,
    pass: seq<nat>,
    wrapped: bool)

  const FRESH: Worker := Worker(Build, 0, 0, 0, 0, Slot(0, None), [], 0, 0, [], false)

  /** The line of `on_job`, `clear_work` or `stop` the controller is about to execute. */
  datatype CtlPc =
    | Idle
    | PauseStore      // pause(): paused_ = true
    | PauseLoad       // pause(): running_?
    | PauseWait       // pause(): in_flight_ == 0?
    | Quiesced        // pause() has returned
    | Rekeying        // inside ensure_seed
    | BumpHasher      // rebuild_hashers()
    | Resume          // resume()
    | StartCheck      // start() unless running_
    | Spawning        // start(): one thread per step
    | Bump            // set_work / clear_work: ++work_gen_
    | Install         // set_work / clear_work: work_ = copy
    | StopUnpause     // stop(): paused_ = false
    | Joining         // stop(): join every thread

  datatype Controller = Controller(
    pc: CtlPc,
    job: Option<MiningJob>,
    seed: seq<Byte>,
    currentSeed: seq<Byte>,
    wasRunning: bool)

  /** One call of `hasher->hash`: `key` is that of the hasher, `epoch` the re-keys completed at the call. */
  datatype Attempt = Attempt(
    worker: nat, pub: nat, job: MiningJob, nonce: nat, key: nat, epoch: nat, digest: Hash256)

  /** What a publication was made under: the re-keys completed by then, and the seed that came with the job. */
  datatype Stamp = Stamp(epoch: nat, seed: seq<Byte>)

  /** `stamps` runs beside `log`; `seeds[e]` is the seed of re-key number `e`. */
  datatype State = State(
    sh: Shared,
    ctl: Controller,
    ws: seq<Worker>,
    log: seq<Option<MiningJob>>,
    tries: seq<Attempt>,
    shares: seq<Attempt>,
    stamps: seq<Stamp>,
    seeds: seq<seq<Byte>>)

  datatype Command = OnJob(job: MiningJob, seed: seq<Byte>) | ClearWork | StopPool | Wait

  datatype Action = W(i: nat) | C(cmd: Command)

  /** The 32-bit sum at line 94 must not wrap. */
  predicate ValidAction(a: Action) {
    a.C? && a.cmd.OnJob? ==> a.cmd.job.nonceOffset + 4 < TWO32
  }

  function Init(): State {
    State(Shared(false, false, 0, 0, 0, 0, Slot(0, None), 0),
          Controller(Idle, None, [], [], false), [], [None], [], [], [Stamp(0, [])], [[]])
  }

  // ---- one worker step ----

  /** The guard at line 94, with its 32-bit sum. */
  predicate Mineable(job: Option<MiningJob>, blob: seq<Byte>) {
    job.Some? && |blob| >= (job.value.nonceOffset + 4) % TWO32
  }

  predicate HasRoom(w: Worker) {
    w.local.job.Some? && w.local.job.value.nonceOffset + 4 <= |w.blob|
  }

  /** Lines 113-116. */
  function WriteNonce(blob: seq<Byte>, off: nat, nonce: nat): seq<Byte>
    requires off + 4 <= |blob|
  {
    blob[off := ByteAt(nonce, 0)][off + 1 := ByteAt(nonce, 1)][off + 2 := ByteAt(nonce, 2)][off + 3 := ByteAt(nonce, 3)]
  }

  /** Lines 84-91. */
  function Refresh(i: nat, work: Slot, w: Worker): Worker {
    var v := w.(pc := CheckLocal, local := work, workGen := w.gen);
    if work.job.None? then v
    else v.(blob := work.job.value.blob, nonce := i, pass := [], wrapped := false)
  }

  /** The attempt made by the next turn of the hashing loop. */
  function AttemptOf(c: Config, i: nat, epoch: nat, w: Worker): Attempt
    requires HasRoom(w)
  {
    var job := w.local.job.value;
    var blob := WriteNonce(w.blob, job.nonceOffset, w.nonce);
    Attempt(i, w.local.pub, job, w.nonce, w.key, epoch, c.hash(w.key, epoch, blob))
  }

  /** Lines 112-131, one turn. */
  function HashTurn(c: Config, w: Worker): Worker
    requires HasRoom(w)
  {
    var next := (w.nonce + c.threads) % TWO32;
    var wrap := next < c.threads;
    w.(blob := WriteNonce(w.blob, w.local.job.value.nonceOffset, w.nonce),
       nonce := next,
       done := w.done + 1,
       pc := if wrap || w.done + 1 >= CHUNK then Leave else Hash,
       pass := if w.wrapped then w.pass else w.pass + [w.nonce],
       wrapped := w.wrapped || wrap)
  }

  function StepWorker(c: Config, i: nat, sh: Shared, w: Worker): Worker {
    match w.pc
    case Build => w.(key := sh.epoch, pc := RecordBuilt)
    case RecordBuilt => w.(hasherGen := sh.hasherGen, pc := Top)
    case Top => w.(pc := if sh.running then CheckPaused else Exited)
    case CheckPaused => w.(pc := if sh.paused then Top else CheckHasher)
    case CheckHasher => w.(pc := if sh.hasherGen != w.hasherGen then Rebuild else LoadWork)
    case Rebuild => w.(key := sh.epoch, pc := RecordRebuilt)
    case RecordRebuilt => w.(hasherGen := sh.hasherGen, pc := LoadWork)
    case LoadWork => w.(gen := sh.workGen, pc := if sh.workGen != w.workGen then CopyWork else CheckLocal)
    case CopyWork => Refresh(i, sh.work, w)
    case CheckLocal => w.(pc := if Mineable(w.local.job, w.blob) then Enter else Top)
    case Enter => w.(pc := Recheck)
    case Recheck => if sh.paused then w.(pc := Withdraw) else w.(pc := Hash, done := 0)
    case Withdraw => w.(pc := Top)
    case Hash => if HasRoom(w) then HashTurn(c, w) else w
    case Leave => w.(pc := Flush)
    case Flush => w.(pc := Top, done := 0)
    case Exited => w
  }

  /** What the same step does to the shared atomics. */
  function StepShared(sh: Shared, w: Worker): Shared {
    match w.pc
    case Enter => sh.(inFlight := sh.inFlight + 1)
    case Withdraw => sh.(inFlight := sh.inFlight - 1)
    case Leave => sh.(inFlight := sh.inFlight - 1)
    case Flush => sh.(hashes := (sh.hashes + w.done) % TWO64)
    case _ => sh
  }

  function WorkerNext(c: Config, s: State, i: nat): State
    requires i < |s.ws|
  {
    var w := s.ws[i];
    var t := s.(sh := StepShared(s.sh, w), ws := s.ws[i := StepWorker(c, i, s.sh, w)]);
    if w.pc.Hash? && HasRoom(w) then
      var a := AttemptOf(c, i, s.sh.epoch, w);
      t.(tries := s.tries + [a],
         shares := if Meets(a.digest, a.job.target) then s.shares + [a] else s.shares)
    else t
  }

  // ---- one controller step ----

  function Command0(s: State, cmd: Command): State {
    match cmd
    case OnJob(job, seed) =>
      var rekey := seed != [] && seed != s.ctl.currentSeed;
      s.(ctl := s.ctl.(job := Some(job), seed := seed, wasRunning := s.sh.running,
                       pc := if !rekey then StartCheck else if s.sh.running then PauseStore else Rekeying))
    case ClearWork => s.(ctl := s.ctl.(pc := Bump, job := None))
    case StopPool => if s.sh.running then s.(sh := s.sh.(running := false), ctl := s.ctl.(pc := StopUnpause)) else s
    case Wait => s
  }

  /** The job as published: `set_work` stamps it with the generation it bumps to. */
  function Stamped(job: Option<MiningJob>, gen: nat): Option<MiningJob> {
    if job.None? then None else Some(job.value.(generation := gen))
  }

  function CtlNext(c: Config, s: State, cmd: Command): State {
    var sh, ctl := s.sh, s.ctl;
    match ctl.pc
    case Idle => Command0(s, cmd)
    case PauseStore => s.(sh := sh.(paused := true), ctl := ctl.(pc := PauseLoad))
    case PauseLoad => s.(ctl := ctl.(pc := if sh.running then PauseWait else Quiesced))
    case PauseWait => if sh.inFlight == 0 then s.(ctl := ctl.(pc := Quiesced)) else s
    case Quiesced => s.(ctl := ctl.(pc := Rekeying))
    case Rekeying =>
      s.(sh := sh.(epoch := sh.epoch + 1), seeds := s.seeds + [ctl.seed],
         ctl := ctl.(currentSeed := ctl.seed, pc := if ctl.wasRunning then BumpHasher else StartCheck))
    case BumpHasher => s.(sh := sh.(hasherGen := sh.hasherGen + 1), ctl := ctl.(pc := Resume))
    case Resume => s.(sh := sh.(paused := false), ctl := ctl.(pc := StartCheck))
    case StartCheck =>
      if sh.running then s.(ctl := ctl.(pc := Bump))
      else s.(sh := sh.(running := true), ctl := ctl.(pc := Spawning))
    case Spawning =>
      if |s.ws| < c.threads then s.(ws := s.ws + [FRESH]) else s.(ctl := ctl.(pc := Bump))
    case Bump =>
      s.(sh := sh.(workGen := sh.workGen + 1), ctl := ctl.(pc := Install),
         log := s.log + [Stamped(ctl.job, sh.workGen + 1)],
         stamps := s.stamps + [Stamp(sh.epoch, if ctl.job.Some? then ctl.seed else [])])
    case Install =>
      s.(sh := sh.(work := Slot(sh.workGen, Stamped(ctl.job, sh.workGen))), ctl := ctl.(pc := Idle))
    case StopUnpause => s.(sh := sh.(paused := false), ctl := ctl.(pc := Joining))
    case Joining =>
      if forall i :: 0 <= i < |s.ws| ==> s.ws[i].pc == Exited
      then s.(ws := [], ctl := ctl.(pc := Idle)) else s
  }

  // ---- runs ----

  function Next(c: Config, s: State, a: Action): State {
    match a
    case W(i) => if i < |s.ws| then WorkerNext(c, s, i) else s
    case C(cmd) => CtlNext(c, s, cmd)
  }

  function Run(c: Config, s: State, acts: seq<Action>): State
    decreases |acts|
  {
    if acts == [] then s else Run(c, Next(c, s, acts[0]), acts[1..])
  }

  predicate ValidActions(acts: seq<Action>) {
    forall k :: 0 <= k < |acts| ==> ValidAction(acts[k])
  }

  ghost predicate Reachable(c: Config, s: State) {
    exists acts :: ValidActions(acts) && s == Run(c, Init(), acts)
  }

  lemma {:induction false} RunConcat(c: Config, s: State, a: seq<Action>, b: seq<Action>)
    ensures Run(c, s, a + b) == Run(c, Run(c, s, a), b)
    decreases |a|
  {
    if a == [] {
      assert a + b == b;
    } else {
      assert (a + b)[1..] == a[1..] + b;
      RunConcat(c, Next(c, s, a[0]), a[1..], b);
    }
  }

  /** The hash kernel is about to be entered by worker `i`. */
  predicate Hashes(s: State, a: Action) {
    a.W? && a.i < |s.ws| && s.ws[a.i].pc.Hash?
  }
}
