/**
  The Stratum V1 client of src/pool/stratum_v1_client.cpp as a session over already parsed
  messages.  Each client call is one atomic event; whether a socket call succeeded is part of
  the event.  The double hash is a parameter, as in `Work`.
 */
module Stratum {
  import opened Bytes
  import opened Jobs
  import opened Work
  import Hex
  import Target

  /** `next_id_` and the three ids a reply is compared with; -1 before the first use. */
  datatype Ids = Ids(next: int, subscribe: int, authorize: int, lastSubmit: int)

  datatype Session = Session(
    ids: Ids,
    open: bool,
    extranonce1: string,
    extranonce2Size: int,
    difficulty: real,
    job: StratumJob,
    haveJob: bool,
    counter: nat)

  function NoJob(): StratumJob {
    StratumJob("", "", "", "", [], "", "", "", false)
  }

  const FRESH: Session := Session(Ids(1, -1, -1, -1), false, "", 4, 1.0, NoJob(), false, 0)

  /**
    What `parse_subscribe` finds in a result: not a list of three, a name whose size is not a
    number, or both.  It stores what it read before it looks at the range of the size.
   */
  datatype Subscription = BadShape | OnlyName(xn1: string) | Full(xn1: string, size: int)

  /** `Other` is every message that is ignored. */
  datatype Message =
    | SetDifficulty(difficulty: real)
    | Notify(job: StratumJob)
    | Reconnect
    | Reply(id: int, ok: bool, result: Subscription)
    | Other

  datatype Event =
    | Connect(reached: bool, subscribeSent: bool)
    | Disconnect
    | Receive(msg: Message)
    | Submit

  // ---- one event ----

  function Subscribed(s: Session, r: Subscription): Session {
    match r
    case BadShape => s
    case OnlyName(xn1) => s.(extranonce1 := xn1)
    case Full(xn1, size) => s.(extranonce1 := xn1, extranonce2Size := size)
  }

  function Rebuilt(s: Session): Session {
    if s.haveJob then s.(counter := (s.counter + 1) % TWO64) else s
  }

  function Connected(s: Session, reached: bool, subscribeSent: bool): Session {
    var n := s.ids.next;
    if !reached then s.(open := false)
    else if !subscribeSent then s.(open := true, ids := s.ids.(next := n + 1, subscribe := n))
    else s.(open := true, ids := s.ids.(next := n + 2, subscribe := n, authorize := n + 1))
  }

  /** The state in which `rebuild_job` runs, if the message makes it run. */
  function Received(s: Session, m: Message): Session {
    match m
    case SetDifficulty(d) => s.(difficulty := d)
    case Notify(job) => s.(job := job, haveJob := true)
    case Reconnect => s.(open := false)
    case Reply(id, ok, result) => if id == s.ids.subscribe then Subscribed(s, result) else s
    case Other => s
  }

  predicate Rebuilds(m: Message) {
    m.SetDifficulty? || m.Notify?
  }

  function Handled(s: Session, m: Message): Session {
    if Rebuilds(m) then Rebuilt(Received(s, m)) else Received(s, m)
  }

  /** The reply is taken as the answer to a share. */
  predicate Settles(ids: Ids, m: Message) {
    m.Reply? && m.id != ids.subscribe && m.id != ids.authorize && m.id == ids.lastSubmit
  }

  function After(s: Session, e: Event): Session {
    match e
    case Connect(reached, sent) => Connected(s, reached, sent)
    case Disconnect => s.(open := false, haveJob := false)
    case Receive(m) => Handled(s, m)
    case Submit => s.(ids := s.ids.(next := s.ids.next + 1, lastSubmit := s.ids.next))
  }

  /** The wait in `connect`: reads until an extranonce1 is known, the socket is closed, or the polls run out. */
  function Await(s: Session, polls: seq<Option<Message>>): Session
    decreases |polls|
  {
    if polls == [] || s.extranonce1 != "" || !s.open then s
    else Await(if polls[0].Some? then Handled(s, polls[0].value) else s, polls[1..])
  }

  /** The session after these polls, each message handled. */
  function HandledAll(s: Session, polls: seq<Option<Message>>): Session
    decreases |polls|
  {
    if polls == [] then s
    else HandledAll(if polls[0].Some? then Handled(s, polls[0].value) else s, polls[1..])
  }

  /** The wait handles polls up to the first that leaves an extranonce1 known or the socket closed. */
  lemma {:induction false} AwaitStops(s: Session, polls: seq<Option<Message>>) returns (k: nat)
    ensures k <= |polls| && Await(s, polls) == HandledAll(s, polls[..k])
    ensures k < |polls| ==> Await(s, polls).extranonce1 != "" || !Await(s, polls).open
    ensures forall j :: 0 <= j < k ==> HandledAll(s, polls[..j]).extranonce1 == "" && HandledAll(s, polls[..j]).open
    decreases |polls|
  {
    if polls == [] || s.extranonce1 != "" || !s.open {
      k := 0;
      assert polls[..0] == [];
    } else {
      var t := if polls[0].Some? then Handled(s, polls[0].value) else s;
      var j := AwaitStops(t, polls[1..]);
      k := j + 1;
      forall i | 0 <= i < k
        ensures HandledAll(s, polls[..i]).extranonce1 == "" && HandledAll(s, polls[..i]).open
      {
        if i > 0 {
          assert polls[..i][1..] == polls[1..][..i - 1] && polls[..i][0] == polls[0];
        }
      }
      assert polls[..k][1..] == polls[1..][..j] && polls[..k][0] == polls[0];
    }
  }

  /** Every job rebuilt during the wait can be. */
  predicate CanAwait(s: Session, polls: seq<Option<Message>>)
    decreases |polls|
  {
    polls == [] || s.extranonce1 != "" || !s.open ||
    var m := polls[0];
    && (m.Some? && Rebuilds(m.value) ==> CanRebuild(Received(s, m.value)))
    && CanAwait(if m.Some? then Handled(s, m.value) else s, polls[1..])
  }

  /** During the wait the answer to this connection's subscribe was read, with a name in it. */
  predicate HeardSubscription(s: Session, polls: seq<Option<Message>>)
    decreases |polls|
  {
    && polls != [] && s.extranonce1 == "" && s.open
    && var m := polls[0];
       || (&& m.Some? && m.value.Reply? && m.value.id == s.ids.subscribe
           && Subscribed(s, m.value.result).extranonce1 != "")
       || HeardSubscription(if m.Some? then Handled(s, m.value) else s, polls[1..])
  }

  /**
    "A successful `connect` has heard the pool's subscription" is false after a reconnect: it
    is so if and only if no extranonce1 was known before.
   */
  lemma {:induction false} ConnectHearsIff(s: Session, polls: seq<Option<Message>>)
    requires Await(s, polls).extranonce1 != ""
    ensures HeardSubscription(s, polls) <==> s.extranonce1 == ""
    decreases |polls|
  {
    if s.extranonce1 == "" {
      var m := polls[0];
      var t := if m.Some? then Handled(s, m.value) else s;
      ConnectHearsIff(t, polls[1..]);
    }
  }

  /** During the wait a job was read. */
  predicate ReadsJob(s: Session, polls: seq<Option<Message>>)
    decreases |polls|
  {
    && polls != [] && s.extranonce1 == "" && s.open
    && var m := polls[0];
       (m.Some? && m.value.Notify?) || ReadsJob(if m.Some? then Handled(s, m.value) else s, polls[1..])
  }

  /**
    "A successful `connect` has a first job" is false: there is one after the wait if and only
    if there was one before or a job was read while the extranonce1 was awaited.
   */
  lemma {:induction false} ConnectHasJobIff(s: Session, polls: seq<Option<Message>>)
    ensures Await(s, polls).haveJob <==> s.haveJob || ReadsJob(s, polls)
    decreases |polls|
  {
    if polls != [] && s.extranonce1 == "" && s.open {
      var m := polls[0];
      ConnectHasJobIff(if m.Some? then Handled(s, m.value) else s, polls[1..]);
    }
  }

  // ---- the client ----

  datatype Callback = NoCall | OnJob(job: MiningJob) | OnSubmitResult(ok: bool)

  datatype SubmitMessage = SubmitMessage(
    id: int, user: string, jobId: string, extranonce2: string, ntime: string, nonce: string)

  /** `rebuild_job` can run: the size fits the 64-bit counter and the difficulty converts. */
  predicate CanRebuild(s: Session) {
    s.haveJob ==> 0 <= s.extranonce2Size <= 8 && Target.Convertible(s.difficulty)
  }

  /** What is handed to `on_job` when session `s` rebuilds its job. */
  ghost predicate HandsOut(h: Hash, s: Session, cb: Callback)
    requires CanRebuild(s)
  {
    if !s.haveJob then cb == NoCall
    else
      HandsOutFor(h, s, Extranonce2(s.counter, s.extranonce2Size), cb)
  }

  ghost predicate HandsOutFor(h: Hash, s: Session, xn2: string, cb: Callback) {
    if WellFormed(s.job, s.extranonce1, xn2) then
      && cb.OnJob? && Built(h, s.job, s.extranonce1, xn2, EmptyJob(), cb.job)
      && Target.IsTargetValue(s.difficulty, LeNat(cb.job.target))
    else cb == NoCall
  }

  /** The callback for one message. */
  ghost predicate CalledFor(h: Hash, s: Session, m: Message, cb: Callback) {
    if Rebuilds(m) then CanRebuild(Received(s, m)) && HandsOut(h, Received(s, m), cb)
    else cb == if Settles(s.ids, m) then OnSubmitResult(m.ok) else NoCall
  }

  /** The callbacks of the wait in `connect`, one for each message read. */
  ghost predicate CalledWhile(h: Hash, s: Session, polls: seq<Option<Message>>, calls: seq<Callback>)
    decreases |polls|
  {
    if polls == [] || s.extranonce1 != "" || !s.open then calls == []
    else if polls[0].None? then CalledWhile(h, s, polls[1..], calls)
    else
      && calls != [] && CalledFor(h, s, polls[0].value, calls[0])
      && CalledWhile(h, Handled(s, polls[0].value), polls[1..], calls[1..])
  }

  /** `calls` are those made by the time the session is `now` with `left` still to read. */
  ghost predicate CalledSoFar(
    h: Hash, s: Session, polls: seq<Option<Message>>, now: Session, left: seq<Option<Message>>, calls: seq<Callback>)
  {
    forall rest :: CalledWhile(h, now, left, rest) ==> CalledWhile(h, s, polls, calls + rest)
  }

  lemma CalledStart(h: Hash, s: Session, polls: seq<Option<Message>>)
    ensures CalledSoFar(h, s, polls, s, polls[0..], [])
  {
    assert polls[0..] == polls;
    forall rest | CalledWhile(h, s, polls, rest)
      ensures CalledWhile(h, s, polls, [] + rest)
    {
      assert [] + rest == rest;
    }
  }

  lemma CalledNext(
    h: Hash, s: Session, polls: seq<Option<Message>>, now: Session, left: seq<Option<Message>>, calls: seq<Callback>,
    cb: Callback)
    requires CalledSoFar(h, s, polls, now, left, calls) && left != [] && now.extranonce1 == "" && now.open
    requires left[0].Some? ==> CalledFor(h, now, left[0].value, cb)
    ensures left[0].Some? ==> CalledSoFar(h, s, polls, Handled(now, left[0].value), left[1..], calls + [cb])
    ensures left[0].None? ==> CalledSoFar(h, s, polls, now, left[1..], calls)
  {
    if left[0].Some? {
      forall rest | CalledWhile(h, Handled(now, left[0].value), left[1..], rest)
        ensures CalledWhile(h, s, polls, calls + [cb] + rest)
      {
        assert ([cb] + rest)[1..] == rest;
        assert CalledWhile(h, now, left, [cb] + rest);
        assert calls + [cb] + rest == calls + ([cb] + rest);
      }
    }
  }

  class StratumV1Client {
    const user: string
    var open: bool
    var nextId: int
    var subscribeId: int
    var authorizeId: int
    var lastSubmitId: int
    var extranonce1: string
    var extranonce2Size: int
    var difficulty: real
    var job: StratumJob
    var haveJob: bool
    var xn2Counter: nat

    ghost predicate Valid()
      reads this
    {
      xn2Counter < TWO64
    }

    function View(): Session
      reads this
    {
      Session(Ids(nextId, subscribeId, authorizeId, lastSubmitId), open, extranonce1, extranonce2Size,
              difficulty, job, haveJob, xn2Counter)
    }

    constructor (user: string)
      ensures Valid() && View() == FRESH && this.user == user
    {
      this.user := user;
      open, nextId, subscribeId, authorizeId, lastSubmitId := false, 1, -1, -1, -1;
      extranonce1, extranonce2Size, difficulty := "", 4, 1.0;
      job, haveJob, xn2Counter := NoJob(), false, 0;
    }

    /**
      `polls` is what the up to twenty reads would find: a message, or nothing before the
      timeout.  A read on a closed socket ends the loop.
     */
    method Connect(h: Hash, reached: bool, subscribeSent: bool, authorizeSent: bool, polls: seq<Option<Message>>)
      returns (ok: bool, calls: seq<Callback>)
      requires Valid() && |polls| == 20
      requires reached && subscribeSent && authorizeSent ==> CanAwait(Connected(View(), true, true), polls)
      modifies this
      ensures Valid()
      ensures var s := Connected(old(View()), reached, subscribeSent);
              if reached && subscribeSent && authorizeSent
              then
                && View() == Await(s, polls) && (ok <==> View().extranonce1 != "")
                && CalledWhile(h, s, polls, calls)
              else View() == s && !ok && calls == []
    {
      ok, calls, open := false, [], reached;
      if !reached {
        return;
      }
      subscribeId := nextId;
      nextId := nextId + 1;
      if !subscribeSent {
        return;
      }
      authorizeId := nextId;
      nextId := nextId + 1;
      if !authorizeSent {
        return;
      }
      calls := AwaitExtranonce(h, polls);
      ok := extranonce1 != "";
    }

    /** Lines 53-55. */
    method AwaitExtranonce(h: Hash, polls: seq<Option<Message>>) returns (calls: seq<Callback>)
      requires Valid() && |polls| == 20 && CanAwait(View(), polls)
      modifies this
      ensures Valid() && View() == Await(old(View()), polls)
      ensures CalledWhile(h, old(View()), polls, calls)
    {
      ghost var s := View();
      var i := 0;
      calls := [];
      CalledStart(h, s, polls);
      while i < 20 && extranonce1 == ""
        invariant 0 <= i <= 20 && Valid()
        invariant CanAwait(View(), polls[i..]) && Await(View(), polls[i..]) == Await(s, polls)
        invariant CalledSoFar(h, s, polls, View(), polls[i..], calls)
        decreases 20 - i
      {
        if !open {
          assert calls + [] == calls;
          return;
        }
        ghost var now := View();
        var cb := NoCall;
        if polls[i].Some? {
          cb := HandleLine(h, polls[i].value);
        }
        CalledNext(h, s, polls, now, polls[i..], calls, cb);
        if polls[i].Some? {
          calls := calls + [cb];
        }
        i := i + 1;
      }
      assert calls + [] == calls;
    }

    method Disconnect()
      requires Valid()
      modifies this
      ensures Valid() && View() == After(old(View()), Event.Disconnect)
    {
      open := false;
      haveJob := false;
    }

    method RebuildJob(h: Hash) returns (cb: Callback)
      requires Valid() && CanRebuild(View())
      modifies this`xn2Counter
      ensures Valid() && View() == Rebuilt(old(View()))
      ensures HandsOut(h, old(View()), cb)
    {
      cb := NoCall;
      if !haveJob {
        return;
      }
      var xn2 := EncodeExtranonce2(xn2Counter, extranonce2Size);
      xn2Counter := (xn2Counter + 1) % TWO64;
      var ok, mj := BuildWork(h, job, extranonce1, xn2, difficulty, EmptyJob());
      if ok {
        cb := OnJob(mj);
      }
    }

    method HandleLine(h: Hash, m: Message) returns (cb: Callback)
      requires Valid() && (Rebuilds(m) ==> CanRebuild(Received(View(), m)))
      modifies this
      ensures Valid() && View() == After(old(View()), Receive(m))
      ensures Rebuilds(m) ==> HandsOut(h, Received(old(View()), m), cb)
      ensures !Rebuilds(m) ==> cb == if Settles(old(View()).ids, m) then OnSubmitResult(m.ok) else NoCall
    {
      cb := NoCall;
      match m
      case SetDifficulty(d) =>
        difficulty := d;
        cb := RebuildJob(h);
      case Notify(j) =>
        job := j;
        haveJob := true;
        cb := RebuildJob(h);
      case Reconnect =>
        open := false;
      case Reply(id, ok, result) =>
        if id == subscribeId {
          match result
          case BadShape =>
          case OnlyName(xn1) =>
            extranonce1 := xn1;
          case Full(xn1, size) =>
            extranonce1 := xn1;
            extranonce2Size := size;
        } else if id == authorizeId {
        } else if id == lastSubmitId {
          cb := OnSubmitResult(ok);
        }
      case Other =>
    }

    method SubmitShare(mj: MiningJob, nonce: nat) returns (m: SubmitMessage)
      requires Valid()
      modifies this
      ensures Valid() && View() == After(old(View()), Submit)
      ensures m == SubmitMessage(old(nextId), user, mj.jobId, mj.extranonce2Hex, mj.ntimeHex, NonceHex(nonce))
    {
      NonceBytes(nonce);
      var hex := Hex.ToHex([ByteAt(nonce, 0), ByteAt(nonce, 1), ByteAt(nonce, 2), ByteAt(nonce, 3)]);
      lastSubmitId := nextId;
      nextId := nextId + 1;
      m := SubmitMessage(lastSubmitId, user, mj.jobId, mj.extranonce2Hex, mj.ntimeHex, hex);
    }
  }

  // ---- the nonce on the wire ----

  function NonceHex(nonce: nat): string {
    Hex.Encoded(ToLe(nonce, 4))
  }

  /**
    The nonce goes out as its little-endian bytes.  Read the way the other header fields are
    read, big-endian, it is the same number exactly when those bytes are a palindrome.
   */
  lemma NonceReadsBigEndianIff(nonce: nat)
    requires nonce < TWO32
    ensures Hex.IsHex(NonceHex(nonce)) && LeNat(Hex.Decoded(NonceHex(nonce))) == nonce
    ensures BeNat(Hex.Decoded(NonceHex(nonce))) == nonce
            <==> ByteAt(nonce, 0) == ByteAt(nonce, 3) && ByteAt(nonce, 1) == ByteAt(nonce, 2)
  {
    var b := ToLe(nonce, 4);
    Hex.DecodeEncode(b);
    FourByteField(nonce);
    NonceBytes(nonce);
    PalindromeIff(b);
  }

  lemma PalindromeIff(b: seq<Byte>)
    requires |b| == 4
    ensures BeNat(b) == LeNat(b) <==> b[0] == b[3] && b[1] == b[2]
  {
    BeIsReversedLe(b);
    var r := Reverse(b);
    assert r[0] == b[3] && r[1] == b[2] && r[2] == b[1] && r[3] == b[0];
    if LeNat(r) == LeNat(b) {
      LeNatInjective(r, b);
    } else {
      assert r != b;
    }
  }

  /** The nonce 1 goes out as "01000000", which reads big-endian as 2^24. */
  lemma NonceOneIsMisread()
    ensures Hex.IsHex(NonceHex(1)) && BeNat(Hex.Decoded(NonceHex(1))) == 0x100_0000
  {
    var b := ToLe(1, 4);
    Hex.DecodeEncode(b);
    NonceBytes(1);
    NonceOneBytes();
    Hex.Be32Value(b);
  }

  lemma NonceOneBytes()
    ensures ByteAt(1, 0) == 1 && ByteAt(1, 1) == 0 && ByteAt(1, 2) == 0 && ByteAt(1, 3) == 0
  {
    Pow256Values();
  }

  // ---- whole sessions ----

  /** The inputs of one `rebuild_job` that had a job. */
  datatype Build = Build(job: StratumJob, xn1: string, size: int, difficulty: real, counter: nat)

  /** A session with its history: ids in the order issued, those of submits, those counted as answers. */
  datatype Book = Book(
    s: Session,
    issued: seq<int>,
    submits: seq<int>,
    settled: seq<int>,
    accepted: nat,
    rejected: nat,
    builds: seq<Build>)

  function BuildsOf(s: Session, e: Event): seq<Build> {
    if e.Receive? && Rebuilds(e.msg) && Received(s, e.msg).haveJob then
      var r := Received(s, e.msg);
      [Build(r.job, r.extranonce1, r.extranonce2Size, r.difficulty, r.counter)]
    else []
  }

  function IssuedBy(s: Session, e: Event): seq<int> {
    var n := s.ids.next;
    match e
    case Connect(reached, sent) => if !reached then [] else if !sent then [n] else [n, n + 1]
    case Submit => [n]
    case _ => []
  }

  /** One event with its bookkeeping; the two counters are those of `on_submit_result`. */
  function Record(b: Book, e: Event): Book {
    var settles := e.Receive? && Settles(b.s.ids, e.msg);
    Book(After(b.s, e),
         b.issued + IssuedBy(b.s, e),
         if e.Submit? then b.submits + [b.s.ids.next] else b.submits,
         if settles then b.settled + [e.msg.id] else b.settled,
         if settles && e.msg.ok then b.accepted + 1 else b.accepted,
         if settles && !e.msg.ok then b.rejected + 1 else b.rejected,
         b.builds + BuildsOf(b.s, e))
  }

  function Played(es: seq<Event>): Book {
    if es == [] then Book(FRESH, [], [], [], 0, 0, [])
    else Record(Played(es[..|es| - 1]), es[|es| - 1])
  }

  // ---- what the session holds, read off the events ----

  /** How many ids were issued. */
  function IdCount(es: seq<Event>): nat {
    if es == [] then 0
    else
      IdCount(es[..|es| - 1]) +
      match es[|es| - 1]
      case Connect(true, true) => 2
      case Connect(true, false) => 1
      case Submit => 1
      case _ => 0
  }

  /** The id of the latest subscribe, or -1. */
  function LastSubscribe(es: seq<Event>): int {
    if es == [] then -1
    else
      match es[|es| - 1]
      case Connect(true, _) => 1 + IdCount(es[..|es| - 1])
      case _ => LastSubscribe(es[..|es| - 1])
  }

  /** The difficulty last set, or 1. */
  function LastDifficulty(es: seq<Event>): real {
    if es == [] then 1.0
    else
      match es[|es| - 1]
      case Receive(SetDifficulty(d)) => d
      case _ => LastDifficulty(es[..|es| - 1])
  }

  /** The payload of the last notify. */
  function LastJob(es: seq<Event>): StratumJob {
    if es == [] then NoJob()
    else
      match es[|es| - 1]
      case Receive(Notify(j)) => j
      case _ => LastJob(es[..|es| - 1])
  }

  /** A notify was read since the last disconnect. */
  predicate HasJob(es: seq<Event>) {
    es != [] &&
    match es[|es| - 1]
    case Receive(Notify(_)) => true
    case Disconnect => false
    case _ => HasJob(es[..|es| - 1])
  }

  /** The last connect reached the pool, and neither side has closed since. */
  predicate IsOpen(es: seq<Event>) {
    es != [] &&
    match es[|es| - 1]
    case Connect(reached, _) => reached
    case Disconnect => false
    case Receive(Reconnect) => false
    case _ => IsOpen(es[..|es| - 1])
  }

  /** The name in the last reply to a subscribe that had one. */
  function LastName(es: seq<Event>): string {
    if es == [] then ""
    else
      var front := es[..|es| - 1];
      match es[|es| - 1]
      case Receive(Reply(id, _, OnlyName(xn1))) => if id == LastSubscribe(front) then xn1 else LastName(front)
      case Receive(Reply(id, _, Full(xn1, _))) => if id == LastSubscribe(front) then xn1 else LastName(front)
      case _ => LastName(front)
  }

  /** The size in the last reply to a subscribe that had one, or 4. */
  function LastSize(es: seq<Event>): int {
    if es == [] then 4
    else
      var front := es[..|es| - 1];
      match es[|es| - 1]
      case Receive(Reply(id, _, Full(_, size))) => if id == LastSubscribe(front) then size else LastSize(front)
      case _ => LastSize(front)
  }

  /** The session holds exactly that. */
  predicate Holds(es: seq<Event>, s: Session) {
    && s.ids.next == 1 + IdCount(es) && s.ids.subscribe == LastSubscribe(es)
    && s.difficulty == LastDifficulty(es) && s.job == LastJob(es) && s.haveJob == HasJob(es) && s.open == IsOpen(es)
    && s.extranonce1 == LastName(es) && s.extranonce2Size == LastSize(es)
  }

  lemma HoldsNext(es: seq<Event>, e: Event, s: Session)
    requires Holds(es, s)
    ensures Holds(es + [e], After(s, e))
  {
    assert (es + [e])[..|es|] == es;
  }

  lemma {:induction false} SessionHolds(es: seq<Event>)
    ensures Holds(es, Played(es).s)
  {
    if es != [] {
      var front, last := es[..|es| - 1], es[|es| - 1];
      SessionHolds(front);
      HoldsNext(front, last, Played(front).s);
      assert front + [last] == es;
    }
  }

  /** What a message makes `rebuild_job` work from: what the session holds once the message is read. */
  lemma RebuildsFrom(es: seq<Event>, m: Message)
    requires Rebuilds(m)
    ensures var now := es + [Receive(m)];
            var r := Received(Played(es).s, m);
            && r.difficulty == LastDifficulty(now) && r.job == LastJob(now) && r.haveJob == HasJob(now)
            && r.extranonce1 == LastName(now) && r.extranonce2Size == LastSize(now)
            && r.counter == Played(es).s.counter
  {
    SessionHolds(es);
    HoldsNext(es, Receive(m), Played(es).s);
  }

  /** And what is recorded of that. */
  lemma RebuildIsRecorded(es: seq<Event>, m: Message)
    ensures var now := es + [Receive(m)];
            Played(now).builds == Played(es).builds +
            if Rebuilds(m) && HasJob(now)
            then [Build(LastJob(now), LastName(now), LastSize(now), LastDifficulty(now), |Played(es).builds| % TWO64)]
            else []
  {
    PlayedSnoc(es, Receive(m));
    BuildCounters(es);
    if Rebuilds(m) {
      RebuildsFrom(es, m);
    }
  }

  predicate Issued(next: int, issued: seq<int>) {
    next == |issued| + 1 && forall k :: 0 <= k < |issued| ==> issued[k] == k + 1
  }

  predicate Roles(ids: Ids) {
    && 1 <= ids.next
    && (ids.subscribe == -1 || 1 <= ids.subscribe < ids.next)
    && (ids.authorize == -1 || 1 <= ids.authorize < ids.next)
    && (ids.subscribe == ids.authorize ==> ids.subscribe == -1)
  }

  predicate Submitted(ids: Ids, submits: seq<int>) {
    && ids.lastSubmit == (if submits == [] then -1 else submits[|submits| - 1])
    && (forall k :: 0 <= k < |submits| ==>
          1 <= submits[k] < ids.next && submits[k] != ids.subscribe && submits[k] != ids.authorize)
    && (forall i, k :: 0 <= i < k < |submits| ==> submits[i] < submits[k])
  }

  predicate Settled(b: Book) {
    && b.accepted + b.rejected == |b.settled|
    && (forall k :: 0 <= k < |b.settled| ==> b.settled[k] == -1 || b.settled[k] in b.submits)
  }

  predicate IdsInv(b: Book) {
    Issued(b.s.ids.next, b.issued) && Roles(b.s.ids) && Submitted(b.s.ids, b.submits) && Settled(b)
  }

  function IdsAfter(ids: Ids, e: Event): Ids {
    var n := ids.next;
    match e
    case Connect(true, false) => ids.(next := n + 1, subscribe := n)
    case Connect(true, true) => ids.(next := n + 2, subscribe := n, authorize := n + 1)
    case Submit => ids.(next := n + 1, lastSubmit := n)
    case _ => ids
  }

  lemma IdsFrame(s: Session, e: Event)
    ensures After(s, e).ids == IdsAfter(s.ids, e)
  {
  }

  lemma IdsStep(b: Book, t: Book, e: Event)
    requires IdsInv(b) && t.s.ids == IdsAfter(b.s.ids, e) && t.issued == b.issued + IssuedBy(b.s, e)
    requires t.submits == if e.Submit? then b.submits + [b.s.ids.next] else b.submits
    ensures Issued(t.s.ids.next, t.issued) && Roles(t.s.ids) && Submitted(t.s.ids, t.submits)
  {
  }

  lemma SettledStep(b: Book, e: Event)
    requires IdsInv(b)
    ensures Settled(Record(b, e))
  {
    var submits := Record(b, e).submits;
    assert forall x :: x in b.submits ==> x in submits;
    if e.Receive? && Settles(b.s.ids, e.msg) {
      assert e.msg.id == -1 || e.msg.id in b.submits;
    }
  }

  lemma {:induction false} IdsInvPlayed(es: seq<Event>)
    ensures IdsInv(Played(es))
  {
    if es != [] {
      var b, e := Played(es[..|es| - 1]), es[|es| - 1];
      IdsInvPlayed(es[..|es| - 1]);
      IdsFrame(b.s, e);
      IdsStep(b, Record(b, e), e);
      SettledStep(b, e);
    }
  }

  /** Over any session, reconnects included, the ids issued are 1, 2, 3, and so on. */
  lemma IssuedIdsIncrease(es: seq<Event>, i: nat, k: nat)
    requires i < k < |Played(es).issued|
    ensures Played(es).issued[i] < Played(es).issued[k]
  {
    IdsInvPlayed(es);
  }

  /** Nothing but -1 can be two of the ids that a reply is compared with. */
  lemma ReplyHasOneRole(es: seq<Event>, id: int)
    requires id != -1
    ensures var ids := Played(es).s.ids;
            && !(id == ids.subscribe && id == ids.authorize)
            && !(id == ids.subscribe && id == ids.lastSubmit)
            && !(id == ids.authorize && id == ids.lastSubmit)
  {
    IdsInvPlayed(es);
  }

  /** The answer to a share is counted if and only if no later share was sent before it came. */
  lemma AnswerCountsIff(es: seq<Event>, k: nat, ok: bool, result: Subscription)
    requires k < |Played(es).submits|
    ensures var b := Played(es);
            var t := Record(b, Receive(Reply(b.submits[k], ok, result)));
            && (t.accepted + t.rejected == b.accepted + b.rejected + 1 <==> k == |b.submits| - 1)
            && (t.accepted == b.accepted + 1 <==> ok && k == |b.submits| - 1)
  {
    IdsInvPlayed(es);
  }

  // ---- shares answered against shares submitted ----

  predicate IsReply(e: Event) {
    e.Receive? && e.msg.Reply?
  }

  /**
    Which replies count as the answer to a share, in every session: once a share has been sent,
    those with the id of the latest; before, those with id -1 on a connection that has issued
    its subscribe and authorize ids.
   */
  lemma ReplyCountsIff(es: seq<Event>, id: int, ok: bool, result: Subscription)
    ensures var b := Played(es);
            Settles(b.s.ids, Reply(id, ok, result)) <==>
            if b.submits != [] then id == b.submits[|b.submits| - 1]
            else id == -1 && b.s.ids.subscribe != -1 && b.s.ids.authorize != -1
  {
    IdsInvPlayed(es);
  }

  /** Event `k` is a reply to the share that was then the latest. */
  predicate AnswersLatest(es: seq<Event>, k: nat)
    requires k < |es|
  {
    && IsReply(es[k])
    && var submits := Played(es[..k]).submits;
       submits != [] && es[k].msg.id == submits[|submits| - 1]
  }

  /**
    Event `k` is a reply with id -1, before the session's first share, on a client that has
    issued a subscribe and an authorize id.
   */
  predicate Unasked(es: seq<Event>, k: nat)
    requires k < |es|
  {
    && IsReply(es[k]) && es[k].msg.id == -1
    && var b := Played(es[..k]);
       b.submits == [] && b.s.ids.subscribe != -1 && b.s.ids.authorize != -1
  }

  /** No share is answered twice while it is the latest, and no reply is unasked. */
  ghost predicate AnswersOnce(es: seq<Event>) {
    && (forall k :: 0 <= k < |es| ==> !Unasked(es, k))
    && (forall i, k :: 0 <= i < k < |es| && AnswersLatest(es, i) && AnswersLatest(es, k) ==>
                         es[i].msg.id != es[k].msg.id)
  }

  predicate Distinct(s: seq<int>) {
    forall i, k :: 0 <= i < k < |s| ==> s[i] != s[k]
  }

  /** Each answer counted is that of a share, and of one share only. */
  ghost predicate Matched(b: Book) {
    Distinct(b.settled) && forall x :: x in b.settled ==> x in b.submits
  }

  /** Event `k` adds `id` to the answers counted. */
  predicate CountsAs(es: seq<Event>, k: nat, id: int)
    requires k < |es|
  {
    (AnswersLatest(es, k) || Unasked(es, k)) && es[k].msg.id == id
  }

  lemma SettledGrows(es: seq<Event>)
    requires es != []
    ensures var n := |es| - 1;
            var b := Played(es[..n]);
            Played(es).settled ==
            if AnswersLatest(es, n) || Unasked(es, n) then b.settled + [es[n].msg.id] else b.settled
  {
    var n := |es| - 1;
    if IsReply(es[n]) {
      ReplyCountsIff(es[..n], es[n].msg.id, es[n].msg.ok, es[n].msg.result);
    }
  }

  lemma PrefixEvents(es: seq<Event>, n: nat, k: nat)
    requires k < n <= |es|
    ensures es[..n][k] == es[k] && es[..n][..k] == es[..k]
    ensures AnswersLatest(es[..n], k) == AnswersLatest(es, k) && Unasked(es[..n], k) == Unasked(es, k)
  {
    assert es[..n][..k] == es[..k];
  }

  lemma CountedGrows(es: seq<Event>, id: int)
    requires es != []
    ensures var n := |es| - 1;
            id in Played(es).settled <==> id in Played(es[..n]).settled || CountsAs(es, n, id)
  {
    SettledGrows(es);
  }

  ghost predicate Counts(es: seq<Event>, n: nat, id: int)
    requires n <= |es|
  {
    exists k :: 0 <= k < n && CountsAs(es, k, id)
  }

  lemma CountsInPrefix(es: seq<Event>, n: nat, id: int)
    requires n <= |es|
    ensures Counts(es[..n], n, id) <==> Counts(es, n, id)
  {
    forall k | 0 <= k < n
      ensures CountsAs(es[..n], k, id) == CountsAs(es, k, id)
    {
      PrefixEvents(es, n, k);
    }
    if Counts(es, n, id) {
      var k :| 0 <= k < n && CountsAs(es, k, id);
      assert CountsAs(es[..n], k, id);
    }
  }

  lemma {:induction false} CountedAre(es: seq<Event>, id: int)
    ensures id in Played(es).settled <==> Counts(es, |es|, id)
  {
    if es != [] {
      var n := |es| - 1;
      CountedGrows(es, id);
      CountedAre(es[..n], id);
      CountsInPrefix(es, n, id);
      assert Counts(es, n + 1, id) <==> Counts(es, n, id) || CountsAs(es, n, id);
    }
  }

  lemma OnceStep(es: seq<Event>)
    requires es != []
    ensures var n := |es| - 1;
            AnswersOnce(es) <==>
            && AnswersOnce(es[..n]) && !Unasked(es, n)
            && (AnswersLatest(es, n) ==>
                  forall k :: 0 <= k < n && AnswersLatest(es, k) ==> es[k].msg.id != es[n].msg.id)
  {
    var n := |es| - 1;
    forall k | 0 <= k < n
      ensures es[..n][k] == es[k]
      ensures AnswersLatest(es[..n], k) == AnswersLatest(es, k) && Unasked(es[..n], k) == Unasked(es, k)
    {
      PrefixEvents(es, n, k);
    }
  }

  lemma DistinctSnoc(s: seq<int>, x: int)
    ensures Distinct(s + [x]) <==> Distinct(s) && x !in s
  {
    var t := s + [x];
    if Distinct(t) {
      assert forall i :: 0 <= i < |s| ==> t[i] == s[i] && t[i] != t[|s|];
    }
  }

  /** The last event keeps the answers matched exactly when it is not one of the two kinds that break it. */
  lemma MatchedStep(es: seq<Event>)
    requires es != []
    ensures var n := |es| - 1;
            Matched(Played(es)) <==>
            && Matched(Played(es[..n])) && !Unasked(es, n)
            && (AnswersLatest(es, n) ==> es[n].msg.id !in Played(es[..n]).settled)
  {
    var n := |es| - 1;
    var b, t := Played(es[..n]), Played(es);
    SettledGrows(es);
    IdsInvPlayed(es);
    IdsInvPlayed(es[..n]);
    assert forall x :: x in b.submits ==> x in t.submits;
    if AnswersLatest(es, n) || Unasked(es, n) {
      DistinctSnoc(b.settled, es[n].msg.id);
      assert es[n].msg.id in t.settled;
    }
    if Matched(t) {
      SettledWereSubmitted(es[..n]);
    }
  }

  lemma SettledWereSubmitted(es: seq<Event>)
    ensures forall x :: x in Played(es).settled && x != -1 ==> x in Played(es).submits
    ensures -1 !in Played(es).submits
  {
    IdsInvPlayed(es);
  }

  /**
    "Every answer counted is that of one share" is false, and this is exactly when it holds: no
    reply is unasked, and none answers the latest share a second time.
   */
  lemma {:induction false} AnswersMatchSharesIff(es: seq<Event>)
    ensures AnswersOnce(es) <==> Matched(Played(es))
  {
    if es != [] {
      var n := |es| - 1;
      AnswersMatchSharesIff(es[..n]);
      OnceStep(es);
      MatchedStep(es);
      if AnswersLatest(es, n) {
        LatestAgain(es);
      }
    }
  }

  lemma LatestAgain(es: seq<Event>)
    requires es != [] && AnswersLatest(es, |es| - 1)
    ensures var n := |es| - 1;
            es[n].msg.id in Played(es[..n]).settled <==>
            exists k :: 0 <= k < n && AnswersLatest(es, k) && es[k].msg.id == es[n].msg.id
  {
    var n := |es| - 1;
    var id := es[n].msg.id;
    IdsInvPlayed(es[..n]);
    assert id != -1;
    CountedAre(es[..n], id);
    CountsInPrefix(es, n, id);
    if k :| 0 <= k < n && AnswersLatest(es, k) && es[k].msg.id == id {
      assert CountsAs(es, k, id);
    }
  }

  lemma {:induction false} DistinctWithin(a: seq<int>, b: seq<int>)
    requires Distinct(a) && forall k :: 0 <= k < |a| ==> a[k] in b
    ensures |a| <= |b|
  {
    if a != [] {
      var x := a[|a| - 1];
      var j :| 0 <= j < |b| && b[j] == x;
      var rest := b[..j] + b[j + 1..];
      forall k | 0 <= k < |a| - 1
        ensures a[k] in rest
      {
        var i :| 0 <= i < |b| && b[i] == a[k];
        assert i != j;
        assert rest[if i < j then i else i - 1] == a[k];
      }
      DistinctWithin(a[..|a| - 1], rest);
    }
  }

  /** Against such a pool, no session counts more answers than it sent shares. */
  lemma AnswersWithinSubmits(es: seq<Event>)
    requires AnswersOnce(es)
    ensures Played(es).accepted + Played(es).rejected <= |Played(es).submits|
  {
    IdsInvPlayed(es);
    AnswersMatchSharesIff(es);
    DistinctWithin(Played(es).settled, Played(es).submits);
  }

  lemma PlayedSnoc(es: seq<Event>, e: Event)
    ensures Played(es + [e]) == Record(Played(es), e)
  {
    assert (es + [e])[..|es|] == es;
  }

  /** An unasked reply: accepted goes to 1 with no share sent. */
  lemma UnaskedAnswerCounts(result: Subscription)
    ensures var es := [Connect(true, true)] + [Receive(Reply(-1, true, result))];
            Played(es).accepted == 1 && Played(es).submits == []
  {
    var c := Connect(true, true);
    PlayedSnoc([], c);
    assert [] + [c] == [c];
    PlayedSnoc([c], Receive(Reply(-1, true, result)));
  }

  /** A share answered twice while it is the latest counts twice. */
  lemma RepeatedAnswerCounts(result: Subscription)
    ensures var again := Receive(Reply(3, true, result));
            var es := [Connect(true, true)] + [Submit] + [again] + [again];
            Played(es).accepted == 2 && |Played(es).submits| == 1
  {
    var c, again := Connect(true, true), Receive(Reply(3, true, result));
    PlayedSnoc([], c);
    assert [] + [c] == [c];
    PlayedSnoc([c], Submit);
    PlayedSnoc([c] + [Submit], again);
    PlayedSnoc([c] + [Submit] + [again], again);
  }

  /** An answer that comes after a later share was sent is lost. */
  lemma LateAnswerIsLost(ok: bool, result: Subscription)
    ensures var es := [Connect(true, true)] + [Submit] + [Submit] + [Receive(Reply(3, ok, result))];
            Played(es).submits == [3, 4] && Played(es).accepted + Played(es).rejected == 0
  {
    var c := Connect(true, true);
    PlayedSnoc([], c);
    assert [] + [c] == [c];
    PlayedSnoc([c], Submit);
    PlayedSnoc([c] + [Submit], Submit);
    PlayedSnoc([c] + [Submit] + [Submit], Receive(Reply(3, ok, result)));
  }

  /** A session with a second connection, the first having been told an extranonce1. */
  function Reconnection(): seq<Event> {
    var c := Event.Connect(true, true);
    [c] + [Receive(Reply(1, true, Full("aa", 4)))] + [Event.Disconnect] + [c]
  }

  lemma Reconnected()
    ensures var s := Played(Reconnection()).s; s.open && s.extranonce1 == "aa" && !s.haveJob
  {
    var c, r := Event.Connect(true, true), Receive(Reply(1, true, Full("aa", 4)));
    PlayedSnoc([], c);
    assert [] + [c] == [c];
    PlayedSnoc([c], r);
    PlayedSnoc([c] + [r], Event.Disconnect);
    PlayedSnoc([c] + [r] + [Event.Disconnect], c);
  }

  /** The reconnect succeeds at once, on the extranonce1 of the connection before, and without a job. */
  lemma ReconnectHearsNothing(polls: seq<Option<Message>>)
    ensures var s := Played(Reconnection()).s;
            && s.open && Await(s, polls).extranonce1 == "aa" && !HeardSubscription(s, polls)
            && !Await(s, polls).haveJob
  {
    Reconnected();
  }

  // ---- coinbases over a session ----

  predicate Counted(counter: nat, builds: seq<Build>) {
    && counter == |builds| % TWO64
    && forall k :: 0 <= k < |builds| ==> builds[k].counter == k % TWO64
  }

  lemma CounterFrame(s: Session, e: Event)
    ensures After(s, e).counter == if BuildsOf(s, e) == [] then s.counter else (s.counter + 1) % TWO64
    ensures BuildsOf(s, e) == [] || (|BuildsOf(s, e)| == 1 && BuildsOf(s, e)[0].counter == s.counter)
  {
  }

  lemma CountedStep(counter: nat, builds: seq<Build>, x: Build)
    requires Counted(counter, builds) && x.counter == counter
    ensures Counted((counter + 1) % TWO64, builds + [x])
  {
    NextCounter(|builds|);
  }

  lemma NextCounter(n: nat)
    ensures (n % TWO64 + 1) % TWO64 == (n + 1) % TWO64
  {
  }

  lemma {:induction false} BuildCounters(es: seq<Event>)
    ensures Counted(Played(es).s.counter, Played(es).builds)
  {
    if es != [] {
      var b, e := Played(es[..|es| - 1]), es[|es| - 1];
      BuildCounters(es[..|es| - 1]);
      CounterFrame(b.s, e);
      var more := BuildsOf(b.s, e);
      if more == [] {
        assert b.builds + more == b.builds;
      } else {
        assert more == [more[0]];
        CountedStep(b.s.counter, b.builds, more[0]);
      }
    }
  }

  predicate SameSource(a: Build, b: Build) {
    && a.job.coinb1 == b.job.coinb1 && a.job.coinb2 == b.job.coinb2
    && a.xn1 == b.xn1 && a.size == b.size
  }

  lemma BuildsDiffer(a: Build, b: Build, i: nat, k: nat)
    requires a.counter == i % TWO64 && b.counter == k % TWO64
    requires SameSource(a, b) && 1 <= a.size <= 8 && i < k < i + Pow256(a.size)
    requires Hex.IsHex(a.job.coinb1) && Hex.IsHex(a.job.coinb2) && Hex.IsHex(a.xn1)
    ensures DifferentCoinbases(a, b)
  {
    assert 0 + i == i && 0 + k == k;
    CountersDiffer(0, i, k, a.size);
    CoinbasesDiffer(a.job, a.xn1, a.size, a.counter, b.counter);
    SameParts(a, b, Extranonce2(b.counter, b.size));
  }

  lemma SameParts(a: Build, b: Build, y: string)
    requires SameSource(a, b)
    requires Hex.IsHex(a.job.coinb1) && Hex.IsHex(a.job.coinb2) && Hex.IsHex(a.xn1) && Hex.IsHex(y)
    ensures Coinbase(a.job, a.xn1, y) == Coinbase(b.job, b.xn1, y)
  {
  }

  predicate DifferentCoinbases(a: Build, b: Build)
    requires 0 <= a.size && 0 <= b.size
    requires Hex.IsHex(a.job.coinb1) && Hex.IsHex(a.job.coinb2) && Hex.IsHex(a.xn1)
    requires Hex.IsHex(b.job.coinb1) && Hex.IsHex(b.job.coinb2) && Hex.IsHex(b.xn1)
  {
    var x, y := Extranonce2(a.counter, a.size), Extranonce2(b.counter, b.size);
    Hex.IsHex(x) && Hex.IsHex(y) && Coinbase(a.job, a.xn1, x) != Coinbase(b.job, b.xn1, y)
  }

  /**
    Over a whole session, whatever happens between, two rebuilds from the same coinbase parts
    fewer than 256^size rebuilds apart have different coinbases.
   */
  lemma SessionCoinbasesDiffer(es: seq<Event>, i: nat, k: nat, a: Build, b: Build)
    requires i < k < |Played(es).builds| && a == Played(es).builds[i] && b == Played(es).builds[k]
    requires SameSource(a, b) && 1 <= a.size <= 8 && k < i + Pow256(a.size)
    requires Hex.IsHex(a.job.coinb1) && Hex.IsHex(a.job.coinb2) && Hex.IsHex(a.xn1)
    ensures DifferentCoinbases(a, b)
  {
    BuildCounters(es);
    BuildsDiffer(a, b, i, k);
  }
}
