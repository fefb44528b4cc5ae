/**
  The Monero client of src/pool/monero_client.cpp over already parsed messages: jobs applied,
  replies matched, shares sent.
 */
module Monero {
  import opened Bytes
  import opened Jobs
  import opened TargetFormats
  import opened Difficulty64
  import Hex

  const NONCE_OFFSET: nat := 39

  /**
    The fields of a job message.  A field that is absent or not a string is `None`;
    `heightOk` is false when a height is present and is not a number.
   */
  datatype JobFields = JobFields(
    blob: Option<string>,
    target: Option<string>,
    jobId: Option<string>,
    seedHash: Option<string>,
    heightOk: bool)

  predicate IsTargetHex(s: string) {
    Hex.IsHex(s) && (|s| == 64 || |s| == 16 || |s| == 8)
  }

  /** The job can be read up to its target and its id: the client's difficulty then changes. */
  predicate Readable(f: JobFields) {
    && f.blob.Some? && Hex.IsHex(f.blob.value) && |f.blob.value| >= 2 * (NONCE_OFFSET + 4)
    && f.target.Some? && IsTargetHex(f.target.value)
    && f.jobId.Some?
  }

  /** The job is handed to `on_job`. */
  predicate Acceptable(f: JobFields) {
    Readable(f) && (f.seedHash.Some? ==> Hex.IsHex(f.seedHash.value)) && f.heightOk
  }

  function TargetOf(f: JobFields): Hash256
    requires Readable(f)
  {
    MoneroTarget(Hex.Decoded(f.target.value))
  }

  function JobOf(f: JobFields): (job: MiningJob)
    requires Readable(f)
    ensures job.nonceOffset + 4 <= |job.blob|
  {
    MiningJob(Hex.Decoded(f.blob.value), NONCE_OFFSET, TargetOf(f), f.jobId.value, 0, "", "")
  }

  function SeedOf(f: JobFields): seq<Byte>
    requires Acceptable(f)
  {
    if f.seedHash.Some? then Hex.Decoded(f.seedHash.value) else []
  }

  /** A share as it goes out. */
  datatype SubmitMessage = SubmitMessage(id: int, rpcId: string, jobId: string, nonce: string, result: string)

  function Sent(id: int, rpcId: string, job: MiningJob, nonce: nat, digest: Hash256): SubmitMessage {
    SubmitMessage(id, rpcId, job.jobId, Hex.Encoded(ToLe(nonce, 4)), Hex.Encoded(digest))
  }

  /** What a message does to the session; `job` is the job it carries. */
  datatype Message =
    | JobPush(job: JobFields)
    | Reply(id: int, error: bool, sessionId: string, loginJob: Option<JobFields>, statusOk: bool)
    | Other

  datatype Callback = NoCall | OnJob(job: MiningJob, seed: seq<Byte>) | OnSubmitResult(ok: bool)

  predicate HandsOut(f: JobFields, cb: Callback) {
    cb == if Acceptable(f) then OnJob(JobOf(f), SeedOf(f)) else NoCall
  }

  function DifficultyAfter(f: JobFields, before: real): real {
    if Readable(f) then DifficultyOf(TargetOf(f)) else before
  }

  class MoneroClient {
    var open: bool
    var nextId: int
    var loginId: int
    var lastSubmitId: int
    var rpcId: string
    var loggedIn: bool
    var difficulty: real

    constructor ()
      ensures !open && nextId == 1 && loginId == -1 && lastSubmitId == -1
      ensures rpcId == "" && !loggedIn && difficulty == 0.0
    {
      open, nextId, loginId, lastSubmitId, rpcId, loggedIn, difficulty := false, 1, -1, -1, "", false, 0.0;
    }

    /** The part of `connect` before it polls for the login reply. */
    method Connect(reached: bool)
      modifies this`open, this`nextId, this`loginId
      ensures open == reached
      ensures reached ==> loginId == old(nextId) && nextId == old(nextId) + 1
      ensures !reached ==> loginId == old(loginId) && nextId == old(nextId)
    {
      open := reached;
      if reached {
        loginId := nextId;
        nextId := nextId + 1;
      }
    }

    method Disconnect()
      modifies this`open, this`loggedIn, this`rpcId
      ensures !open && !loggedIn && rpcId == ""
    {
      open, loggedIn, rpcId := false, false, "";
    }

    /** The difficulty is stored before the seed is decoded, so a bad seed changes it all the same. */
    method ApplyJob(f: JobFields) returns (ok: bool, cb: Callback)
      modifies this`difficulty
      ensures ok <==>
              && f.blob.Some? && Hex.IsHex(f.blob.value) && |f.blob.value| >= 86
              && f.target.Some? && Hex.IsHex(f.target.value)
              && (|f.target.value| == 64 || |f.target.value| == 16 || |f.target.value| == 8)
              && f.jobId.Some? && (f.seedHash.Some? ==> Hex.IsHex(f.seedHash.value)) && f.heightOk
      ensures !ok ==> cb == NoCall
      ensures ok ==>
                && cb.OnJob? && cb.job.blob == Hex.Decoded(f.blob.value) && cb.job.nonceOffset == 39
                && cb.job.target == MoneroTarget(Hex.Decoded(f.target.value)) && cb.job.jobId == f.jobId.value
                && cb.seed == if f.seedHash.Some? then Hex.Decoded(f.seedHash.value) else []
      ensures ok <==> Acceptable(f)
      ensures HandsOut(f, cb)
      ensures difficulty == DifficultyAfter(f, old(difficulty))
      ensures difficulty ==
              if && f.blob.Some? && Hex.IsHex(f.blob.value) && |f.blob.value| >= 86
                 && f.target.Some? && Hex.IsHex(f.target.value)
                 && (|f.target.value| == 64 || |f.target.value| == 16 || |f.target.value| == 8) && f.jobId.Some?
              then DifficultyOf(MoneroTarget(Hex.Decoded(f.target.value)))
              else old(difficulty)
    {
      ok, cb := false, NoCall;
      if f.blob.None? {
        return;
      }
      var blob := Hex.FromHex(f.blob.value);
      if blob.Err? {
        return;
      }
      if |blob.value| < 43 || f.target.None? {
        return;
      }
      var target := MoneroTargetFromHex(f.target.value);
      if target.Err? || f.jobId.None? {
        return;
      }
      difficulty := TargetToDifficulty(target.value);
      var seed: seq<Byte> := [];
      if f.seedHash.Some? {
        var s := Hex.FromHex(f.seedHash.value);
        if s.Err? {
          return;
        }
        seed := s.value;
      }
      if !f.heightOk {
        return;
      }
      ok, cb := true, OnJob(MiningJob(blob.value, 39, target.value, f.jobId.value, 0, "", ""), seed);
    }

    /** A login reply is recognised before a share's answer; a failed login changes nothing. */
    method Handle(m: Message) returns (cb: Callback)
      modifies this`difficulty, this`rpcId, this`loggedIn
      ensures m.JobPush? ==>
                HandsOut(m.job, cb) && difficulty == DifficultyAfter(m.job, old(difficulty))
                && rpcId == old(rpcId) && loggedIn == old(loggedIn)
      ensures m.Reply? && m.id == loginId && !m.error ==>
                && rpcId == m.sessionId && (loggedIn <==> m.sessionId != "")
                && (if m.loginJob.Some? then
                      HandsOut(m.loginJob.value, cb) && difficulty == DifficultyAfter(m.loginJob.value, old(difficulty))
                    else cb == NoCall && difficulty == old(difficulty))
      ensures m.Other? || (m.Reply? && (m.id != loginId || m.error)) ==>
                && difficulty == old(difficulty) && rpcId == old(rpcId) && loggedIn == old(loggedIn)
                && cb == if m.Reply? && m.id != loginId && m.id == lastSubmitId
                         then OnSubmitResult(!m.error && m.statusOk) else NoCall
    {
      cb := NoCall;
      match m
      case JobPush(f) =>
        var ok;
        ok, cb := ApplyJob(f);
      case Reply(id, error, sessionId, job, statusOk) =>
        if id == loginId {
          if error {
            return;
          }
          rpcId := sessionId;
          loggedIn := sessionId != "";
          if job.Some? {
            var ok;
            ok, cb := ApplyJob(job.value);
          }
          return;
        }
        if id == lastSubmitId {
          cb := OnSubmitResult(!error && statusOk);
        }
      case Other =>
    }

    method Submit(job: MiningJob, nonce: nat, digest: Hash256) returns (m: SubmitMessage)
      modifies this`nextId, this`lastSubmitId
      ensures lastSubmitId == old(nextId) && nextId == old(nextId) + 1
      ensures m == Sent(old(nextId), rpcId, job, nonce, digest)
      ensures m == SubmitMessage(old(nextId), rpcId, job.jobId, Hex.Encoded(ToLe(nonce, 4)), Hex.Encoded(digest))
    {
      NonceBytes(nonce);
      var nonceHex := Hex.ToHex([ByteAt(nonce, 0), ByteAt(nonce, 1), ByteAt(nonce, 2), ByteAt(nonce, 3)]);
      var resultHex := Hex.ToHex(digest);
      lastSubmitId := nextId;
      nextId := nextId + 1;
      m := SubmitMessage(lastSubmitId, rpcId, job.jobId, nonceHex, resultHex);
    }
  }

  // ---- what a pool makes of a share ----

  predicate Decodable(m: SubmitMessage) {
    && Hex.IsHex(m.nonce) && |m.nonce| == 8
    && Hex.IsHex(m.result) && |m.result| == 64
  }

  /** The pool's own blob with the decoded nonce put at offset 39. */
  function PoolBlob(blob: seq<Byte>, m: SubmitMessage): seq<Byte>
    requires Decodable(m) && NONCE_OFFSET + 4 <= |blob|
  {
    blob[..NONCE_OFFSET] + Hex.Decoded(m.nonce) + blob[NONCE_OFFSET + 4..]
  }

  /** From the two fields of a submit the pool rebuilds the very blob and digest of the share. */
  lemma SubmitRebuildsShare(id: int, rpcId: string, job: MiningJob, nonce: nat, digest: Hash256)
    requires job.nonceOffset == NONCE_OFFSET && NONCE_OFFSET + 4 <= |job.blob|
    ensures var m := Sent(id, rpcId, job, nonce, digest);
            && Decodable(m) && m.jobId == job.jobId
            && job.blob[..39] + Hex.Decoded(m.nonce) + job.blob[43..] == Splice(job.blob, 39, nonce)
            && PoolBlob(job.blob, m) == Splice(job.blob, job.nonceOffset, nonce)
            && Hex.Decoded(m.result) == digest
  {
    Hex.DecodeEncode(ToLe(nonce, 4));
    Hex.DecodeEncode(digest);
  }
}
