/**
  The hashing loop of `MinerPool::run` as it stands in the source, over a mutable blob, and
  its agreement with the turns that the transition system takes one by one.
 */
module HashLoop {
  import opened Bytes
  import opened Jobs
  import opened MinerPool
  import opened PoolWork
  import Target

  /** What stays fixed during a chunk: the worker, its publication, job and hasher, and the cache's epoch. */
  datatype Task = Task(worker: nat, pub: nat, job: MiningJob, key: nat, epoch: nat)

  /** What the loop changes: the blob, the nonce, the count, and whether it has ended. */
  datatype Scan = Scan(blob: seq<Byte>, nonce: nat, done: nat, ended: bool)

  predicate Fitting(task: Task, s: Scan) {
    task.job.nonceOffset + 4 <= |s.blob|
  }

  /** The hash call of the next turn. */
  function Try(c: Config, task: Task, s: Scan): Attempt
    requires Fitting(task, s)
  {
    Attempt(task.worker, task.pub, task.job, s.nonce, task.key, task.epoch,
            c.hash(task.key, task.epoch, WriteNonce(s.blob, task.job.nonceOffset, s.nonce)))
  }

  function Turn(c: Config, task: Task, s: Scan): (r: Scan)
    requires Fitting(task, s)
    ensures Fitting(task, r)
  {
    var next := (s.nonce + c.threads) % TWO32;
    Scan(WriteNonce(s.blob, task.job.nonceOffset, s.nonce), next, s.done + 1, next < c.threads || s.done + 1 >= CHUNK)
  }

  /** `n` turns of the loop, and the hash calls they make. */
  function Turns(c: Config, task: Task, s: Scan, n: nat): (r: Scan)
    requires Fitting(task, s)
    ensures Fitting(task, r)
  {
    if n == 0 then s else Turn(c, task, Turns(c, task, s, n - 1))
  }

  function Tries(c: Config, task: Task, s: Scan, n: nat): seq<Attempt>
    requires Fitting(task, s)
  {
    if n == 0 then [] else Tries(c, task, s, n - 1) + [Try(c, task, Turns(c, task, s, n - 1))]
  }

  lemma WinnersSnoc(tries: seq<Attempt>, a: Attempt)
    ensures Winners(tries + [a]) == Winners(tries) + Reports(a)
  {
    assert (tries + [a])[..|tries|] == tries;
  }

  /** Lines 113-116, in place. */
  method StoreNonce(blob: array<Byte>, off: nat, nonce: nat)
    requires off + 4 <= blob.Length
    modifies blob
    ensures blob[..] == WriteNonce(old(blob[..]), off, nonce)
  {
    blob[off] := ByteAt(nonce, 0);
    blob[off + 1] := ByteAt(nonce, 1);
    blob[off + 2] := ByteAt(nonce, 2);
    blob[off + 3] := ByteAt(nonce, 3);
  }

  /** What `Turn` and `Try` leave for the loop to keep: `n` turns taken, the winners so far, no early end. */
  ghost predicate Progress(
    c: Config, task: Task, s: Scan, n: nat, blob: seq<Byte>, nonce: nat, found: seq<Attempt>, ended: bool)
    requires Fitting(task, s)
  {
    && Turns(c, task, s, n) == Scan(blob, nonce, s.done + n, ended)
    && found == Winners(Tries(c, task, s, n))
    && forall k :: 0 <= k < n ==> !Turns(c, task, s, k).ended
  }

  lemma OneMore(c: Config, task: Task, s: Scan, n: nat, now: Scan, found: seq<Attempt>, a: Attempt)
    requires Fitting(task, s) && Fitting(task, now) && now == Scan(now.blob, now.nonce, s.done + n, false)
    requires Progress(c, task, s, n, now.blob, now.nonce, found, false) && a == Try(c, task, now)
    ensures var after := Turn(c, task, now);
            Progress(c, task, s, n + 1, after.blob, after.nonce, found + Reports(a), after.ended)
  {
    NextTurn(c, task, s, n, now);
    NextTry(c, task, s, n, now, found, a);
    NotEndedBefore(c, task, s, n);
  }

  lemma NotEndedBefore(c: Config, task: Task, s: Scan, n: nat)
    requires Fitting(task, s) && !Turns(c, task, s, n).ended
    requires forall k :: 0 <= k < n ==> !Turns(c, task, s, k).ended
    ensures forall k :: 0 <= k < n + 1 ==> !Turns(c, task, s, k).ended
  {
  }

  lemma NextTurn(c: Config, task: Task, s: Scan, n: nat, now: Scan)
    requires Fitting(task, s) && Fitting(task, now) && now == Turns(c, task, s, n) && !now.ended
    ensures Turns(c, task, s, n + 1) == Turn(c, task, now)
  {
  }

  lemma NextTry(c: Config, task: Task, s: Scan, n: nat, now: Scan, found: seq<Attempt>, a: Attempt)
    requires Fitting(task, s) && Fitting(task, now) && now == Turns(c, task, s, n)
    requires found == Winners(Tries(c, task, s, n)) && a == Try(c, task, now)
    ensures found + Reports(a) == Winners(Tries(c, task, s, n + 1))
  {
    var calls := Tries(c, task, s, n);
    assert Tries(c, task, s, n + 1) == calls + [a];
    WinnersSnoc(calls, a);
  }

  /** Lines 113-126: one hash call and the step of the nonce. */
  method HashOnce(
    c: Config, task: Task, blob: array<Byte>, nonce: nat, found: seq<Attempt>, ghost s: Scan, ghost n: nat)
    returns (next: nat, more: seq<Attempt>)
    requires Fitting(task, s) && task.job.nonceOffset + 4 <= blob.Length
    requires Progress(c, task, s, n, blob[..], nonce, found, false)
    modifies blob
    ensures Progress(c, task, s, n + 1, blob[..], next, more, next < c.threads || s.done + n + 1 >= CHUNK)
  {
    ghost var now := Scan(blob[..], nonce, s.done + n, false);
    StoreNonce(blob, task.job.nonceOffset, nonce);
    var digest := c.hash(task.key, task.epoch, blob[..]);
    var a := Attempt(task.worker, task.pub, task.job, nonce, task.key, task.epoch, digest);
    var hit := Target.MeetsTarget(a.digest, task.job.target);
    more := if hit then found + [a] else found;
    next := (nonce + c.threads) % TWO32;
    OneMore(c, task, s, n, now, found, a);
  }

  /**
    Lines 111-131: up to sixteen turns, cut short by a wrap of the nonce.  `found` is what is
    passed to `on_share`, in order.
   */
  method ScanChunk(c: Config, task: Task, blob: array<Byte>, start: nat)
    returns (nonce: nat, done: nat, found: seq<Attempt>)
    requires task.job.nonceOffset + 4 <= blob.Length
    modifies blob
    ensures 1 <= done <= CHUNK
    ensures Progress(c, task, Scan(old(blob[..]), start, 0, false), done, blob[..], nonce, found, true)
  {
    ghost var s := Scan(blob[..], start, 0, false);
    ghost var ended := false;
    nonce, done, found := start, 0, [];
    while done < CHUNK
      invariant 0 <= done <= CHUNK && (ended <==> done == CHUNK)
      invariant Progress(c, task, s, done, blob[..], nonce, found, ended)
    {
      nonce, found := HashOnce(c, task, blob, nonce, found, s, done);
      done := done + 1;
      ended := nonce < c.threads || done >= CHUNK;
      if nonce < c.threads {
        break;
      }
    }
  }

  // ---- the same loop in the pool ----

  function TaskOf(i: nat, epoch: nat, w: Worker): Task
    requires HasRoom(w)
  {
    Task(i, w.local.pub, w.local.job.value, w.key, epoch)
  }

  function ScanOf(w: Worker): Scan {
    Scan(w.blob, w.nonce, w.done, !w.pc.Hash?)
  }

  /** One turn in the pool is one turn of the loop. */
  lemma TurnAgrees(c: Config, i: nat, epoch: nat, w: Worker)
    requires w.pc.Hash? && HasRoom(w)
    ensures var v := HashTurn(c, w);
            && HasRoom(v) && TaskOf(i, epoch, v) == TaskOf(i, epoch, w)
            && ScanOf(v) == Turn(c, TaskOf(i, epoch, w), ScanOf(w))
            && AttemptOf(c, i, epoch, w) == Try(c, TaskOf(i, epoch, w), ScanOf(w))
  {
  }

  function Repeat(i: nat, n: nat): (acts: seq<Action>)
    ensures |acts| == n
  {
    if n == 0 then [] else Repeat(i, n - 1) + [W(i)]
  }

  /** Worker state, calls and shares after `n` turns from `start`. */
  ghost predicate Ledger(c: Config, task: Task, start: Scan, n: nat, now: Scan,
                         tries0: seq<Attempt>, tries: seq<Attempt>, shares0: seq<Attempt>, shares: seq<Attempt>)
    requires Fitting(task, start)
  {
    && now == Turns(c, task, start, n)
    && tries == tries0 + Tries(c, task, start, n)
    && shares == shares0 + Winners(Tries(c, task, start, n))
  }

  lemma Appended(tries0: seq<Attempt>, calls: seq<Attempt>, shares0: seq<Attempt>, a: Attempt, hit: seq<Attempt>)
    requires hit == Reports(a)
    ensures tries0 + calls + [a] == tries0 + (calls + [a])
    ensures shares0 + Winners(calls) + hit == shares0 + Winners(calls + [a])
  {
    WinnersSnoc(calls, a);
  }

  lemma LedgerStep(c: Config, task: Task, start: Scan, n: nat, now: Scan, a: Attempt, hit: seq<Attempt>,
                   tries0: seq<Attempt>, tries: seq<Attempt>, shares0: seq<Attempt>, shares: seq<Attempt>)
    requires n > 0 && Fitting(task, start) && Fitting(task, now)
    requires Ledger(c, task, start, n - 1, now, tries0, tries, shares0, shares)
    requires a == Try(c, task, now) && hit == Reports(a)
    ensures Ledger(c, task, start, n, Turn(c, task, now), tries0, tries + [a], shares0, shares + hit)
  {
    Appended(tries0, Tries(c, task, start, n - 1), shares0, a, hit);
    assert Tries(c, task, start, n) == Tries(c, task, start, n - 1) + [a];
  }

  ghost predicate Mirrors(c: Config, s: State, t: State, i: nat, n: nat)
    requires i < |s.ws| && HasRoom(s.ws[i])
  {
    && i < |t.ws| && HasRoom(t.ws[i]) && TaskOf(i, t.sh.epoch, t.ws[i]) == TaskOf(i, s.sh.epoch, s.ws[i])
    && Ledger(c, TaskOf(i, s.sh.epoch, s.ws[i]), ScanOf(s.ws[i]), n, ScanOf(t.ws[i]),
              s.tries, t.tries, s.shares, t.shares)
  }

  /** A worker that takes `n` turns in the pool does what `n` turns of the loop do, shares included. */
  lemma {:induction false} PoolRunsTheLoop(c: Config, s: State, i: nat, n: nat)
    requires i < |s.ws| && HasRoom(s.ws[i])
    requires forall k :: 0 <= k < n ==> !Turns(c, TaskOf(i, s.sh.epoch, s.ws[i]), ScanOf(s.ws[i]), k).ended
    ensures Mirrors(c, s, Run(c, s, Repeat(i, n)), i, n)
  {
    if n != 0 {
      PoolRunsTheLoop(c, s, i, n - 1);
      var m := Run(c, s, Repeat(i, n - 1));
      RunConcat(c, s, Repeat(i, n - 1), [W(i)]);
      RunOne(c, m, W(i));
      MirrorStep(c, s, m, i, n);
    }
  }

  /**
    What `ScanChunk` promises is where the pool arrives: from a worker entering the loop, that
    many steps of it leave the loop with the same blob, nonce and count, and report `found`.
   */
  lemma ChunkIsPoolSteps(c: Config, s: State, i: nat, n: nat, blob: seq<Byte>, nonce: nat, found: seq<Attempt>)
    requires i < |s.ws| && HasRoom(s.ws[i]) && s.ws[i].pc.Hash? && s.ws[i].done == 0
    requires Progress(c, TaskOf(i, s.sh.epoch, s.ws[i]), ScanOf(s.ws[i]), n, blob, nonce, found, true)
    ensures var t := Run(c, s, Repeat(i, n));
            && i < |t.ws| && t.ws[i].blob == blob && t.ws[i].nonce == nonce && t.ws[i].done == n && !t.ws[i].pc.Hash?
            && |t.tries| == |s.tries| + n && t.shares == s.shares + found
  {
    PoolRunsTheLoop(c, s, i, n);
    TriesLength(c, TaskOf(i, s.sh.epoch, s.ws[i]), ScanOf(s.ws[i]), n);
  }

  lemma TriesLength(c: Config, task: Task, s: Scan, n: nat)
    requires Fitting(task, s)
    ensures |Tries(c, task, s, n)| == n
  {
  }

  lemma RunOne(c: Config, m: State, a: Action)
    ensures Run(c, m, [a]) == Next(c, m, a)
  {
    assert Run(c, m, [a]) == Run(c, Next(c, m, a), [a][1..]);
  }

  lemma MirrorStep(c: Config, s: State, m: State, i: nat, n: nat)
    requires n > 0 && i < |s.ws| && HasRoom(s.ws[i]) && Mirrors(c, s, m, i, n - 1) && m.ws[i].pc.Hash?
    ensures Mirrors(c, s, Next(c, m, W(i)), i, n)
  {
    StepMirrors(c, s, m, Next(c, m, W(i)), i, n);
  }

  /** The same, of any state `t` that one turn relates to `m`. */
  lemma StepMirrors(c: Config, s: State, m: State, t: State, i: nat, n: nat)
    requires n > 0 && i < |s.ws| && HasRoom(s.ws[i]) && Mirrors(c, s, m, i, n - 1) && m.ws[i].pc.Hash?
    requires t.sh.epoch == m.sh.epoch && i < |t.ws| && t.ws[i] == HashTurn(c, m.ws[i])
    requires t.tries == m.tries + [AttemptOf(c, i, m.sh.epoch, m.ws[i])]
    requires var a := AttemptOf(c, i, m.sh.epoch, m.ws[i]); t.shares == m.shares + Reports(a)
    ensures Mirrors(c, s, t, i, n)
  {
    TurnAgrees(c, i, m.sh.epoch, m.ws[i]);
    var a := AttemptOf(c, i, m.sh.epoch, m.ws[i]);
    var hit := Reports(a);
    LedgerStep(c, TaskOf(i, s.sh.epoch, s.ws[i]), ScanOf(s.ws[i]), n, ScanOf(m.ws[i]), a, hit,
               s.tries, m.tries, s.shares, m.shares);
  }
}
