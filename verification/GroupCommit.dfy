/**
 * packages/server/src/session.ts and packages/server/src/group-commit.ts: every message of a
 * client gets one reply, and replies are held until the log has flushed what they depend on,
 * so that many writes share one flush.
 *
 * A reply carries the LSN of the last record appended before it was produced. The connections
 * of a server are numbered in the order in which they were accepted.
 */
module GroupCommit {
  import opened Bytes
  import opened Text
  import opened WalFormat
  import opened WalRecovery
  import opened LogSteps
  import opened Leftovers
  import opened Log = WriteAheadLog

  const PROTOCOL_VERSION := 1

  const INVALID_REQUEST := 1000
  const UNSUPPORTED_PROTOCOL_VERSION := 1001
  const INTERNAL_ERROR := 9000

  datatype ReplyKind = HandshakeReply | ResultReply | ErrorReply(code: int)

  datatype Reply = Reply(requestId: nat, kind: ReplyKind, command: bool, lsn: int)

  datatype SessionState = AwaitingHandshake | Ready | Closing | Closed

  /** What running a command does to the log: appends, checkpoint flushes, truncations. */
  datatype LogWork =
    | AppendRecord(kind: int, payload: bytes, io: AppendIo)
    | SyncLog(write: WriteIo, sync: bool)
    | TruncateLog(lsn: int, unlinks: nat, synced: bool)

  /** How a command ends: with a value that may be too large for a message, refused, or with an unforeseen error. */
  datatype Outcome = Value(fits: bool) | Refused(code: int) | Fault

  datatype Message =
    | Handshake(client: bool, version: nat)
    | Ping
    | Command(work: seq<LogWork>, outcome: Outcome)
    | Unexpected

  // ---------------------------------------------------------------- what a connection should see

  /** A session as an outsider sees it. */
  datatype View = View(
    state: SessionState, sent: seq<Reply>, held: seq<Reply>, holding: bool, endAfterRelease: bool,
    ended: bool, destroyed: bool, produced: seq<Reply>)
  {
    predicate Done() {
      ended || destroyed
    }

    predicate CanReceive() {
      state == AwaitingHandshake || state == Ready
    }
  }

  const NewView := View(AwaitingHandshake, [], [], false, false, false, false, [])

  /** The first message is a handshake from a client of this version. */
  predicate Greets(state: SessionState, requestId: nat, m: Message) {
    requestId != 0 && state == AwaitingHandshake && m.Handshake? && m.client && m.version == PROTOCOL_VERSION
  }

  predicate Runs(state: SessionState, requestId: nat, m: Message) {
    requestId != 0 && state == Ready && m.Command?
  }

  /** A message that is answered with a result. */
  predicate Serves(state: SessionState, requestId: nat, m: Message) {
    requestId != 0 && state == Ready && (m.Ping? || (m.Command? && m.outcome.Value? && m.outcome.fits))
  }

  /** A message after which the connection is closed. */
  predicate Ends(state: SessionState, requestId: nat, m: Message) {
    requestId == 0 || (state == AwaitingHandshake && !Greets(state, requestId, m))
  }

  function ErrorFor(state: SessionState, requestId: nat, m: Message): int {
    if Runs(state, requestId, m) then (if m.outcome.Refused? then m.outcome.code else INTERNAL_ERROR)
    else if requestId != 0 && state == AwaitingHandshake && m.Handshake? && m.client then UNSUPPORTED_PROTOCOL_VERSION
    else INVALID_REQUEST
  }

  /** The one reply a message gets. */
  function ReplyTo(state: SessionState, requestId: nat, m: Message, lsn: int): Reply {
    var kind := if Greets(state, requestId, m) then HandshakeReply
                else if Serves(state, requestId, m) then ResultReply
                else ErrorReply(ErrorFor(state, requestId, m));
    Reply(requestId, kind, Runs(state, requestId, m), lsn)
  }

  /** One more reply was produced: it is the last of the held ones, or it was sent to an open socket. */
  predicate Produced(v: View, w: View, r: Reply) {
    && w.produced == v.produced + [r]
    && w.held == (if w.holding then v.held + [r] else v.held)
    && w.sent == (if w.holding || v.Done() then v.sent else v.sent + [r])
  }

  /**
   * What one message does to its connection: exactly one reply, under the number of the request,
   * of the right kind, behind everything that is held; and the state moves on.
   */
  predicate Answered(v: View, w: View, requestId: nat, m: Message, lsn: int, unsynced: bool) {
    if !v.CanReceive() then w == v
    else
      var ends := Ends(v.state, requestId, m);
      && Produced(v, w, ReplyTo(v.state, requestId, m, lsn))
      && w.holding == (v.holding || (Runs(v.state, requestId, m) && unsynced))
      && w.state == (if ends then Closing else Ready)
      && w.ended == (v.ended || (ends && !w.holding))
      && w.endAfterRelease == (v.endAfterRelease || (ends && w.holding))
      && w.destroyed == v.destroyed
  }

  lemma AnsweredHeld(v: View, waits: View, w: View, requestId: nat, m: Message, lsn: int, unsynced: bool)
    requires waits == v.(holding := v.holding || unsynced) && Runs(v.state, requestId, m) && Answered(waits, w, requestId, m, lsn, false)
    ensures Answered(v, w, requestId, m, lsn, unsynced)
  {}

  /** What the end of a flush does to a connection that held replies. */
  function Released(v: View, ok: bool): View {
    if !v.holding then v
    else
      var idle := v.(holding := false, held := [], endAfterRelease := false);
      if v.Done() then idle
      else if !ok then idle.(destroyed := true)
      else idle.(sent := v.sent + v.held, ended := v.endAfterRelease)
  }

  /** One event of the server's loop. */
  datatype Step =
    | Accept
    | Receive(connection: nat, requestId: nat, message: Message)
    | ReceiveGarbage(connection: nat)
    | RunCommit(syncOk: bool)
    | Background(work: seq<LogWork>)
    | EndSocket(connection: nat)
    | CloseSession(connection: nat)
    | DestroySocket(connection: nat)
    | SocketClosed(connection: nat)

  /** What a step does to connection `n`; `lsn`, `unsynced` and `flushed` are what it did to the log. */
  predicate Moved(n: nat, v: View, w: View, step: Step, lsn: int, unsynced: bool, flushed: bool) {
    match step
    case Accept => w == v
    case Background(_) => w == v
    case RunCommit(_) => w == Released(v, flushed)
    case Receive(c, requestId, message) => if c == n then Answered(v, w, requestId, message, lsn, unsynced) else w == v
    case ReceiveGarbage(c) => if c == n then Answered(v, w, 0, Unexpected, lsn, unsynced) else w == v
    case EndSocket(c) => w == if c == n then v.(ended := true) else v
    case CloseSession(c) => w == if c == n && v.CanReceive() then v.(ended := true, state := Closing) else v
    case DestroySocket(c) => w == if c == n then v.(destroyed := true) else v
    case SocketClosed(c) => w == if c == n then v.(destroyed := true, state := Closed) else v
  }

  /** What a step does to all of them. */
  predicate Happened(before: seq<View>, after: seq<View>, step: Step, accepting: bool, lsn: int, unsynced: bool, flushed: bool) {
    && |after| == |before| + (if step.Accept? && accepting then 1 else 0)
    && (forall n | 0 <= n < |before| :: Moved(n, before[n], after[n], step, lsn, unsynced, flushed))
    && (forall n | |before| <= n < |after| :: after[n] == NewView)
  }

  /** The step is about one connection. */
  predicate Addressed(step: Step) {
    !step.Accept? && !step.RunCommit? && !step.Background?
  }

  lemma OneHappened(before: seq<View>, after: seq<View>, n: nat, step: Step, accepting: bool, lsn: int, unsynced: bool)
    requires |before| == |after| && n < |before| && Addressed(step) && step.connection == n
    requires Moved(n, before[n], after[n], step, lsn, unsynced, false)
    requires forall i | 0 <= i < |before| && i != n :: after[i] == before[i]
    ensures Happened(before, after, step, accepting, lsn, unsynced, false)
  {
    hide Answered;
  }

  lemma Ignored(views: seq<View>, step: Step, accepting: bool, lsn: int, unsynced: bool)
    requires !step.RunCommit? && (step.Accept? ==> !accepting) && (Addressed(step) ==> step.connection >= |views|)
    ensures Happened(views, views, step, accepting, lsn, unsynced, false)
  {
    hide Answered, Released;
  }

  // ---------------------------------------------------------------- requests and replies

  function Ids(replies: seq<Reply>): seq<nat> {
    seq(|replies|, i requires 0 <= i < |replies| => replies[i].requestId)
  }

  function Opened(steps: seq<Step>): nat {
    if steps == [] then 0 else Opened(steps[..|steps| - 1]) + if steps[|steps| - 1].Accept? then 1 else 0
  }

  /** The requests that reach connection `n`, when the first `open` connections are there at the start. */
  function Requests(steps: seq<Step>, n: nat, open: nat): seq<nat> {
    if steps == [] then []
    else
      var before, last := steps[..|steps| - 1], steps[|steps| - 1];
      Requests(before, n, open) +
      if n >= open + Opened(before) then []
      else if last.Receive? && last.connection == n then [last.requestId]
      else if last.ReceiveGarbage? && last.connection == n then [0]
      else []
  }

  /**
   * The replies produced so far answer the requests in order, one each: all of them while the
   * connection can receive, and the first ones once it cannot.
   */
  predicate Keeps(v: View, was: seq<Reply>, requests: seq<nat>) {
    && Ids(v.produced) <= Ids(was) + requests
    && (v.CanReceive() ==> Ids(v.produced) == Ids(was) + requests)
  }

  lemma IdsSnoc(replies: seq<Reply>, r: Reply)
    ensures Ids(replies + [r]) == Ids(replies) + [r.requestId]
  {}

  lemma PrefixExtends<T>(a: seq<T>, b: seq<T>, c: seq<T>)
    requires a <= b
    ensures a <= b + c
  {}

  lemma KeepsStep(n: nat, v: View, w: View, was: seq<Reply>, steps: seq<Step>, step: Step, open: nat, lsn: int, unsynced: bool, flushed: bool)
    requires n < open + Opened(steps)
    requires Keeps(v, was, Requests(steps, n, open)) && Moved(n, v, w, step, lsn, unsynced, flushed)
    ensures Keeps(w, was, Requests(steps + [step], n, open))
  {
    hide Greets, Serves, Ends, ErrorFor, Ids;
    assert (steps + [step])[..|steps|] == steps;
    var requests, more := Requests(steps, n, open), Requests(steps + [step], n, open);
    assert requests <= more;
    if v.CanReceive() && more != requests {
      var r := w.produced[|w.produced| - 1];
      IdsSnoc(v.produced, r);
      assert more == requests + [r.requestId];
      assert Ids(was) + more == Ids(was) + requests + [r.requestId];
    } else {
      assert w.produced == v.produced;
      PrefixExtends(Ids(was), Ids(was), requests);
      assert Ids(was) + more == Ids(was) + requests + more[|requests|..];
      PrefixExtends(Ids(v.produced), Ids(was) + requests, more[|requests|..]);
    }
  }

  lemma {:induction false} NoRequests(steps: seq<Step>, n: nat, open: nat)
    requires n >= open + Opened(steps)
    ensures Requests(steps, n, open) == []
    decreases |steps|
  {
    if steps != [] {
      NoRequests(steps[..|steps| - 1], n, open);
    }
  }

  /** A client that greets and then pings is answered at once, twice; anything else first ends the connection. */
  lemma FirstExchange(first: View, second: View, hello: nat, m: Message, ping: nat, a: int, b: int, unsynced: bool)
    requires hello != 0 && ping != 0
    requires Answered(NewView, first, hello, m, a, unsynced) && Answered(first, second, ping, Ping, b, unsynced)
    ensures m == Handshake(true, PROTOCOL_VERSION) ==>
      second.state == Ready && second.sent == [Reply(hello, HandshakeReply, false, a), Reply(ping, ResultReply, false, b)]
    ensures m != Handshake(true, PROTOCOL_VERSION) ==>
      second == first && first.state == Closing && first.ended && |first.sent| == 1 && first.sent[0].kind.ErrorReply?
  {}

  // ---------------------------------------------------------------- the log work of a command

  function RecordOf(work: LogWork, lsn: nat, done: bool): seq<Record> {
    if done && work.AppendRecord? then [Record(lsn, work.kind, work.payload)] else []
  }

  lemma OneRecord(work: LogWork, lsn: nat, done: bool)
    ensures |RecordOf(work, lsn, done)| <= 1
  {}

  /** The records that were appended, the first one as number `lsn`. */
  function Appended(work: seq<LogWork>, done: seq<bool>, lsn: nat): seq<Record>
    requires |work| == |done|
  {
    if work == [] then []
    else
      var n := |work| - 1;
      var before := Appended(work[..n], done[..n], lsn);
      before + RecordOf(work[n], lsn + |before|, done[n])
  }

  lemma AppendedSnoc(work: seq<LogWork>, n: nat, done: seq<bool>, ok: bool, lsn: nat)
    requires |done| == n < |work|
    ensures Appended(work[..n + 1], done + [ok], lsn) ==
            Appended(work[..n], done, lsn) + RecordOf(work[n], lsn + |Appended(work[..n], done, lsn)|, ok)
  {
    hide RecordOf;
    assert work[..n + 1][..n] == work[..n] && (done + [ok])[..n] == done;
  }

  lemma NothingAppended(lsn: nat)
    ensures Appended([], [], lsn) == []
  {}

  lemma {:induction false} AppendedBound(work: seq<LogWork>, done: seq<bool>, lsn: nat)
    requires |work| == |done|
    ensures |Appended(work, done, lsn)| <= |work|
  {
    if work != [] {
      AppendedBound(work[..|work| - 1], done[..|work| - 1], lsn);
    }
  }

  /** The log gained these records at its end, and may have lost some at its beginning. */
  ghost predicate Continues(start: nat, rs: seq<Record>, added: seq<Record>, newStart: nat, now: seq<Record>) {
    start <= newStart <= start + |rs| + |added| && now == (rs + added)[newStart - start..]
  }

  lemma ContinuesAlone(start: nat, rs: seq<Record>)
    ensures Continues(start, rs, [], start, rs)
  {
    assert (rs + [])[0..] == rs;
  }

  lemma SuffixContinues(p: CrashPoint, start: nat, rs: seq<Record>, durable: int)
    requires Suffixed(p, true, start, rs, durable)
    ensures Continues(start, rs, [], StartLsn(p), Flat(p.parts))
  {
    hide Flat, Sound, Settled, Strewn, StartLsn, DurableLsn;
    assert rs + [] == rs;
  }

  lemma ContinuesOn(a: nat, rs: seq<Record>, added: seq<Record>, b: nat, mid: seq<Record>, more: seq<Record>, c: nat, now: seq<Record>)
    requires Continues(a, rs, added, b, mid) && Continues(b, mid, more, c, now)
    ensures Continues(a, rs, added + more, c, now)
  {
    assert rs + (added + more) == rs + added + more;
    assert (rs + added)[b - a..] + more == (rs + added + more)[b - a..];
  }

  /** The disk does what is asked, and the record can be encoded. */
  predicate Gentle(work: LogWork) {
    match work
    case AppendRecord(kind, payload, io) => Smooth(io) && Encodable(Record(0, kind, payload))
    case SyncLog(write, sync) => write.Wrote? && sync
    case TruncateLog(_, _, _) => true
  }

  predicate AllGentle(work: seq<LogWork>) {
    forall i | 0 <= i < |work| :: Gentle(work[i])
  }

  /** Nothing but a truncation was refused. */
  predicate AllCarriedOut(work: seq<LogWork>, done: seq<bool>) {
    |work| == |done| && forall i | 0 <= i < |work| :: done[i] || work[i].TruncateLog?
  }

  /** A log as the server sees it. */
  datatype LogView = LogView(start: nat, records: seq<Record>, nextLsn: nat, durable: int, broken: bool, clean: bool, unsynced: bool)

  /**
   * What became of the work: the records done are in the log, nothing durable is lost, and when
   * nothing was left behind and the disk does what is asked, everything is done.
   */
  ghost predicate Worked(b: LogView, c: LogView, work: seq<LogWork>, done: seq<bool>) {
    && |done| == |work|
    && c.nextLsn == b.nextLsn + |Appended(work, done, b.nextLsn)| && c.durable >= b.durable
    && (b.broken ==> c.broken)
    && (!c.broken ==> Continues(b.start, b.records, Appended(work, done, b.nextLsn), c.start, c.records))
    && (AllGentle(work) && !b.broken && b.clean && b.nextLsn + |work| <= 0x1_0000_0000_0000_0000 ==>
          AllCarriedOut(work, done) && !c.broken && c.clean)
  }

  /** The same for one call. */
  ghost predicate WorkedOnce(b: LogView, c: LogView, w: LogWork, done: bool) {
    && c.nextLsn == b.nextLsn + |RecordOf(w, b.nextLsn, done)| && c.durable >= b.durable
    && (b.broken ==> c.broken)
    && (!c.broken ==> Continues(b.start, b.records, RecordOf(w, b.nextLsn, done), c.start, c.records))
    && (Gentle(w) && !b.broken && b.clean && b.nextLsn < 0x1_0000_0000_0000_0000 ==>
          (done || w.TruncateLog?) && !c.broken && c.clean)
  }

  lemma NoWork(b: LogView)
    ensures Worked(b, b, [], [])
  {
    ContinuesAlone(b.start, b.records);
  }

  lemma MoreWork(b: LogView, mid: LogView, c: LogView, work: seq<LogWork>, done: seq<bool>, ok: bool)
    requires |done| < |work|
    requires Worked(b, mid, work[..|done|], done) && WorkedOnce(mid, c, work[|done|], ok)
    ensures Worked(b, c, work[..|done| + 1], done + [ok])
  {
    hide Appended, Continues, Gentle;
    var n := |done|;
    var added := Appended(work[..n], done, b.nextLsn);
    AppendedSnoc(work, n, done, ok, b.nextLsn);
    if !c.broken {
      ContinuesOn(b.start, b.records, added, mid.start, mid.records, RecordOf(work[n], mid.nextLsn, ok), c.start, c.records);
    }
    if AllGentle(work[..n + 1]) {
      assert Gentle(work[..n + 1][n]);
      forall i | 0 <= i < n ensures Gentle(work[..n][i]) {
        assert work[..n][i] == work[..n + 1][i];
      }
      AppendedBound(work[..n], done, b.nextLsn);
    }
  }

  lemma WorkGrows(b: LogView, c: LogView, work: seq<LogWork>, done: seq<bool>)
    requires Worked(b, c, work, done)
    ensures b.nextLsn <= c.nextLsn && b.durable <= c.durable
  {}

  /** What became of a flush. */
  predicate FlushedTo(b: LogView, c: LogView, syncOk: bool, ok: bool) {
    && c == b.(durable := c.durable, broken := c.broken, unsynced := c.unsynced) && c.durable >= b.durable
    && (b.broken ==> c.broken)
    && (ok ==> c.nextLsn - 1 <= c.durable && !c.unsynced)
    && (syncOk && !b.broken ==> ok && !c.broken)
  }

  /** What a step does to the log; `accepting` says that the engine is open. */
  ghost predicate LogMoved(b: LogView, c: LogView, step: Step, views: seq<View>, accepting: bool, done: seq<bool>) {
    match step
    case Receive(n, requestId, m) =>
      if n < |views| && Runs(views[n].state, requestId, m) then Worked(b, c, m.work, done) else c == b
    case Background(work) => if accepting then Worked(b, c, work, done) else c == b
    case RunCommit(syncOk) => |done| == 1 && if accepting then FlushedTo(b, c, syncOk, done[0]) else c == b && done[0]
    case _ => c == b
  }

  lemma LogStays(b: LogView, step: Step, views: seq<View>, accepting: bool, done: seq<bool>)
    requires Addressed(step) && (step.connection >= |views| || !step.Receive?)
    ensures LogMoved(b, b, step, views, accepting, done)
  {}

  function WorkOf(step: Step): seq<LogWork> {
    match step
    case Receive(_, _, m) => if m.Command? then m.work else []
    case Background(work) => work
    case _ => []
  }

  /** Every call that the step makes on the disk succeeds. */
  predicate GentleStep(step: Step) {
    AllGentle(WorkOf(step)) && (step.RunCommit? ==> step.syncOk)
  }

  function TotalWork(steps: seq<Step>): nat {
    if steps == [] then 0 else TotalWork(steps[..|steps| - 1]) + |WorkOf(steps[|steps| - 1])|
  }

  lemma StaysClean(b: LogView, c: LogView, step: Step, views: seq<View>, accepting: bool, done: seq<bool>)
    requires LogMoved(b, c, step, views, accepting, done) && GentleStep(step)
    requires !b.broken && b.clean && b.nextLsn + |WorkOf(step)| <= 0x1_0000_0000_0000_0000
    ensures !c.broken && c.clean && c.nextLsn <= b.nextLsn + |WorkOf(step)|
    ensures step.RunCommit? ==> done == [true]
  {
    hide Appended, Continues, Gentle;
    if c.nextLsn != b.nextLsn {
      AppendedBound(WorkOf(step), done, b.nextLsn);
    }
  }

  /** Whatever happens, what was sent stays sent, and a finished socket is given nothing. */
  predicate Grown(v: View, w: View) {
    v.sent <= w.sent && (v.Done() ==> w.Done() && w.sent == v.sent)
  }

  lemma MovedGrows(n: nat, v: View, w: View, step: Step, lsn: int, unsynced: bool, flushed: bool)
    requires Moved(n, v, w, step, lsn, unsynced, flushed)
    ensures Grown(v, w)
  {
    hide ReplyTo, Ends, Runs;
  }

  /** Replies left in order, none was skipped, and those to commands are durable. */
  predicate Trustworthy(v: View, durable: int) {
    && v.sent <= v.produced
    && (!v.Done() ==> v.produced == v.sent + v.held)
    && (!v.holding ==> v.held == [])
    && forall i | 0 <= i < |v.sent| :: v.sent[i].command ==> v.sent[i].lsn <= durable
  }

  /** After a flush that succeeded, an open connection that was in order is owed nothing. */
  lemma FlushedOwesNothing(v: View, durable: int)
    requires Trustworthy(v, durable) && !Released(v, true).Done()
    ensures Released(v, true).sent == Released(v, true).produced
  {}

  /** A log that nothing was left behind in does not break in a run of which every call on the disk succeeds. */
  predicate LogLived(b: LogView, c: LogView, steps: seq<Step>) {
    !b.broken && b.clean && b.nextLsn + TotalWork(steps) <= 0x1_0000_0000_0000_0000 && (forall i | 0 <= i < |steps| :: GentleStep(steps[i])) ==>
      !c.broken && c.clean && c.nextLsn <= b.nextLsn + TotalWork(steps)
  }

  lemma LogLivedNone(b: LogView)
    ensures LogLived(b, b, [])
  {}

  lemma LogLivedStep(b: LogView, mid: LogView, c: LogView, steps: seq<Step>, step: Step, views: seq<View>, accepting: bool, done: seq<bool>)
    requires LogLived(b, mid, steps) && LogMoved(mid, c, step, views, accepting, done)
    ensures LogLived(b, c, steps + [step])
  {
    hide LogMoved, GentleStep, WorkOf;
    assert (steps + [step])[..|steps|] == steps;
    if !b.broken && b.clean && b.nextLsn + TotalWork(steps + [step]) <= 0x1_0000_0000_0000_0000
      && forall i | 0 <= i < |steps + [step]| :: GentleStep((steps + [step])[i])
    {
      assert forall i | 0 <= i < |steps| :: (steps + [step])[i] == steps[i];
      assert GentleStep((steps + [step])[|steps|]);
      StaysClean(mid, c, step, views, accepting, done);
    }
  }

  function ProducedBefore(start: seq<View>, n: nat): seq<Reply> {
    if n < |start| then start[n].produced else []
  }

  /** What a run makes of the connections it started with, and of those it accepts. */
  predicate Lived(start: seq<View>, now: seq<View>, steps: seq<Step>, accepting: bool) {
    && |start| <= |now| <= |start| + Opened(steps) && (accepting ==> |now| == |start| + Opened(steps))
    && (forall n | 0 <= n < |start| :: Grown(start[n], now[n]))
    && (forall n | 0 <= n < |now| :: Keeps(now[n], ProducedBefore(start, n), Requests(steps, n, |start|)))
  }

  lemma LivedNone(start: seq<View>, accepting: bool)
    ensures Lived(start, start, [], accepting)
  {
    forall n | 0 <= n < |start| ensures Keeps(start[n], ProducedBefore(start, n), []) {
      assert Ids(start[n].produced) + [] == Ids(start[n].produced);
    }
  }

  lemma LivedStep(start: seq<View>, now: seq<View>, next: seq<View>, steps: seq<Step>, step: Step, accepting: bool,
                  lsn: int, unsynced: bool, flushed: bool)
    requires Lived(start, now, steps, accepting) && Happened(now, next, step, accepting, lsn, unsynced, flushed)
    ensures Lived(start, next, steps + [step], accepting)
  {
    hide Moved, Keeps, Requests, Grown;
    assert (steps + [step])[..|steps|] == steps;
    forall n | 0 <= n < |start| ensures Grown(start[n], next[n]) {
      MovedGrows(n, now[n], next[n], step, lsn, unsynced, flushed);
      GrownOn(start[n], now[n], next[n]);
    }
    forall n | 0 <= n < |next| ensures Keeps(next[n], ProducedBefore(start, n), Requests(steps + [step], n, |start|)) {
      if n < |now| {
        KeepsStep(n, now[n], next[n], ProducedBefore(start, n), steps, step, |start|, lsn, unsynced, flushed);
      } else {
        NewKeeps(steps, step, n, |start|);
      }
    }
  }

  lemma GrownOn(u: View, v: View, w: View)
    requires Grown(u, v) && Grown(v, w)
    ensures Grown(u, w)
  {}

  lemma NewKeeps(steps: seq<Step>, step: Step, n: nat, open: nat)
    requires n >= open + Opened(steps)
    ensures Keeps(NewView, [], Requests(steps + [step], n, open))
  {
    assert (steps + [step])[..|steps|] == steps;
    NoRequests(steps, n, open);
  }

  /** Every open connection has been sent all its replies. */
  predicate AllPaid(views: seq<View>) {
    forall n | 0 <= n < |views| && !views[n].Done() :: views[n].sent == views[n].produced
  }

  lemma CommitPays(now: seq<View>, next: seq<View>, durable: int, accepting: bool, lsn: int, unsynced: bool)
    requires Happened(now, next, RunCommit(true), accepting, lsn, unsynced, true)
    requires forall n | 0 <= n < |now| :: Trustworthy(now[n], durable)
    ensures AllPaid(next)
  {
    hide Trustworthy, Released;
    forall n | 0 <= n < |next| && !next[n].Done() ensures next[n].sent == next[n].produced {
      assert Moved(n, now[n], next[n], RunCommit(true), lsn, unsynced, true);
      FlushedOwesNothing(now[n], durable);
    }
  }

  /** A connection: the session's fields, and what its socket has been given. */
  class ServerSession {
    var held: seq<Reply>
    var holding: bool
    var endAfterRelease: bool
    var state: SessionState
    var sent: seq<Reply>
    var ended: bool
    var destroyed: bool
    ghost var produced: seq<Reply>

    constructor ()
      ensures Orderly() && Look() == NewView
    {
      held, holding, endAfterRelease, state := [], false, false, AwaitingHandshake;
      sent, ended, destroyed, produced := [], false, false, [];
    }

    ghost function Look(): View
      reads this
    {
      View(state, sent, held, holding, endAfterRelease, ended, destroyed, produced)
    }

    predicate SocketDone()
      reads this`ended, this`destroyed
    {
      ended || destroyed
    }

    /** Replies leave in the order they were produced, and none is skipped. */
    ghost predicate Orderly()
      reads this`sent, this`produced, this`held, this`holding, this`endAfterRelease, this`ended, this`destroyed
    {
      && sent <= produced
      && (!SocketDone() ==> produced == sent + held)
      && (!holding ==> held == [] && !endAfterRelease)
    }

    /** Every command reply that reached the socket is durable, and no held one is ahead of the log. */
    ghost predicate Honest(durable: int, last: int)
      reads this`sent, this`held
    {
      && (forall i | 0 <= i < |sent| :: sent[i].command ==> sent[i].lsn <= durable)
      && (forall i | 0 <= i < |held| :: held[i].lsn <= last)
    }

    predicate CanReceive()
      reads this`state
    {
      state == AwaitingHandshake || state == Ready
    }

    /** `socket.write`: a finished socket takes nothing. */
    method SocketWrite(r: Reply)
      modifies this`sent
      ensures sent == if SocketDone() then old(sent) else old(sent) + [r]
    {
      if !SocketDone() {
        sent := sent + [r];
      }
    }

    /** `close`: nothing happens to a session that is closing already. */
    method Close()
      requires Orderly()
      modifies this`ended, this`state
      ensures Orderly()
      ensures Look() == if old(CanReceive()) then old(Look()).(ended := true, state := Closing) else old(Look())
    {
      if state == Closing || state == Closed {
        return;
      }
      state := Closing;
      ended := true;
    }

    /** The socket ends, is destroyed, or reports that it closed. */
    method SocketChange(end: bool, destroy: bool, gone: bool)
      requires Orderly()
      modifies this`ended, this`destroyed, this`state
      ensures Orderly()
      ensures Look() == old(Look()).(ended := old(ended) || end, destroyed := old(destroyed) || destroy || gone,
                                     state := if gone then Closed else old(state))
    {
      ended := ended || end;
      destroyed := destroyed || destroy || gone;
      if gone {
        state := Closed;
      }
    }

    /** `write`: hold the reply, or send it now. */
    method Write(r: Reply, ghost durable: int, ghost last: int)
      requires Orderly() && Honest(durable, last)
      requires r.lsn <= last && (!holding && r.command ==> r.lsn <= durable)
      modifies this`held, this`sent, this`produced
      ensures Orderly() && Honest(durable, last)
      ensures Produced(old(Look()), Look(), r)
    {
      produced := produced + [r];
      if holding {
        held := held + [r];
        return;
      }
      SocketWrite(r);
    }

    /** `sendError`, which may also end the connection. */
    method SendError(r: Reply, closeConnection: bool, ghost durable: int, ghost last: int)
      requires Orderly() && Honest(durable, last)
      requires r.lsn <= last && (!holding && r.command ==> r.lsn <= durable)
      modifies this`held, this`sent, this`produced, this`state, this`endAfterRelease, this`ended
      ensures Orderly() && Honest(durable, last)
      ensures Produced(old(Look()), Look(), r)
      ensures state == if closeConnection then Closing else old(state)
      ensures ended == (old(ended) || (closeConnection && !holding))
      ensures endAfterRelease == (old(endAfterRelease) || (closeConnection && holding))
    {
      if closeConnection {
        state := Closing;
        produced := produced + [r];
        if holding {
          held := held + [r];
          endAfterRelease := true;
          return;
        }
        SocketWrite(r);
        ended := true;
        return;
      }
      Write(r, durable, last);
    }

    /** The greeting, after which the session is ready. */
    method Greet(r: Reply, ghost durable: int, ghost last: int)
      requires Orderly() && Honest(durable, last)
      requires r.lsn <= last && !r.command
      modifies this`held, this`sent, this`produced, this`state
      ensures Orderly() && Honest(durable, last)
      ensures Produced(old(Look()), Look(), r) && state == Ready
    {
      hide Orderly, Honest;
      Write(r, durable, last);
      state := Ready;
    }

    /** `handleHandshake`. */
    method HandleHandshake(requestId: nat, m: Message, ghost durable: int, last: int)
      requires Orderly() && Honest(durable, last)
      requires requestId != 0 && state == AwaitingHandshake
      modifies this
      ensures Orderly() && Honest(durable, last)
      ensures Answered(old(Look()), Look(), requestId, m, last, false)
    {
      hide Orderly, Honest, Produced;
      if !m.Handshake? || !m.client {
        SendError(Reply(requestId, ErrorReply(INVALID_REQUEST), false, last), true, durable, last);
      } else if m.version != PROTOCOL_VERSION {
        SendError(Reply(requestId, ErrorReply(UNSUPPORTED_PROTOCOL_VERSION), false, last), true, durable, last);
      } else {
        Greet(Reply(requestId, HandshakeReply, false, last), durable, last);
      }
    }

    /** `handleMessage` for everything but a command that runs. */
    method HandleHere(requestId: nat, m: Message, ghost durable: int, last: int)
      requires Orderly() && Honest(durable, last)
      requires CanReceive() && !Runs(state, requestId, m)
      modifies this
      ensures Orderly() && Honest(durable, last)
      ensures Answered(old(Look()), Look(), requestId, m, last, false)
    {
      hide Orderly, Honest, Produced;
      if requestId == 0 {
        SendError(Reply(0, ErrorReply(INVALID_REQUEST), false, last), true, durable, last);
      } else if state == AwaitingHandshake {
        HandleHandshake(requestId, m, durable, last);
      } else if m.Ping? {
        Write(Reply(requestId, ResultReply, false, last), durable, last);
      } else {
        SendError(Reply(requestId, ErrorReply(INVALID_REQUEST), false, last), false, durable, last);
      }
    }

    /** The end of `handleCommand`: its result, or the error it ended with. */
    method ReplyToCommand(requestId: nat, m: Message, ghost durable: int, last: int)
      requires Orderly() && Honest(durable, last) && Runs(state, requestId, m)
      requires !holding ==> last <= durable
      modifies this`held, this`sent, this`produced, this`state, this`endAfterRelease, this`ended
      ensures Orderly() && Honest(durable, last)
      ensures Answered(old(Look()), Look(), requestId, m, last, false)
    {
      hide Orderly, Honest, Produced;
      match m.outcome {
        case Refused(code) =>
          SendError(Reply(requestId, ErrorReply(code), true, last), false, durable, last);
        case Fault =>
          SendError(Reply(requestId, ErrorReply(INTERNAL_ERROR), true, last), false, durable, last);
        case Value(fits) =>
          if fits {
            Write(Reply(requestId, ResultReply, true, last), durable, last);
          } else {
            SendError(Reply(requestId, ErrorReply(INTERNAL_ERROR), true, last), false, durable, last);
          }
      }
    }

    /** `release`: send what was held in order, or drop the connection when the flush failed. */
    method Release(ok: bool, ghost durable: int, ghost last: int)
      requires Orderly() && Honest(durable, last) && holding
      requires ok && !SocketDone() ==> last <= durable
      modifies this
      ensures Orderly() && Honest(durable, last)
      ensures Look() == Released(old(Look()), ok)
    {
      holding := false;
      var pending, end := held, endAfterRelease;
      held, endAfterRelease := [], false;
      if SocketDone() {
        return;
      }
      if !ok {
        destroyed := true;
        return;
      }
      var i := 0;
      while i < |pending|
        invariant 0 <= i <= |pending| && !SocketDone()
        invariant sent == old(sent) + pending[..i]
        invariant Look() == old(Look()).(sent := sent, held := [], holding := false, endAfterRelease := false)
      {
        SocketWrite(pending[i]);
        i := i + 1;
      }
      assert pending[..i] == pending;
      if end {
        ended := true;
      }
    }
  }

  ghost function Views(sessions: seq<ServerSession>): (r: seq<View>)
    reads sessions
    ensures |r| == |sessions| && forall n | 0 <= n < |r| :: r[n] == sessions[n].Look()
  {
    if sessions == [] then [] else [sessions[0].Look()] + Views(sessions[1..])
  }

  /** Every connection of one server, its group committer, and the log they share. */
  class Server {
    const log: WriteAheadLog
    var sessions: seq<ServerSession>
    var waiting: seq<ServerSession>
    var scheduled: bool
    var closed: bool

    ghost predicate LogReady()
      reads this`closed, log
    {
      log.Valid() && log.mode == Flushed && (log.closed ==> closed)
    }

    ghost predicate Distinct()
      reads this`sessions
    {
      forall i, j | 0 <= i < j < |sessions| :: sessions[i] != sessions[j]
    }

    /** Exactly the sessions that hold replies wait for the flush, each once. */
    ghost predicate Waiting()
      reads this`sessions, this`waiting, this`scheduled, sessions
    {
      && (forall i | 0 <= i < |waiting| :: waiting[i] in sessions && waiting[i].holding)
      && (forall i, j | 0 <= i < j < |waiting| :: waiting[i] != waiting[j])
      && (forall s | s in sessions && s.holding :: s in waiting)
      && (waiting != [] ==> scheduled)
    }

    ghost predicate AllHonest(durable: int, last: int)
      reads this`sessions, sessions
    {
      forall s | s in sessions :: s.Orderly() && s.Honest(durable, last)
    }

    lemma HonestGrows(durable: int, last: int, more: int, later: int)
      requires AllHonest(durable, last) && durable <= more && last <= later
      ensures AllHonest(more, later)
    {}

    ghost predicate AllGone()
      reads this`sessions, sessions
    {
      forall s | s in sessions :: s.SocketDone() && s.state == Closed
    }

    ghost predicate Valid()
      reads this, log, sessions
    {
      LogReady() && Distinct() && Waiting() && AllHonest(log.Durable(), log.nextLsn - 1) && (closed ==> AllGone())
    }

    constructor (log: WriteAheadLog)
      requires log.Valid() && log.mode == Flushed && !log.closed
      ensures Valid() && sessions == [] && this.log == log && !closed
    {
      this.log := log;
      sessions, waiting, scheduled, closed := [], [], false, false;
    }

    ghost function Logged(): LogView
      reads log
      requires log.Rooted()
    {
      LogView(log.Start(), log.Records(), log.nextLsn, log.Durable(), log.broken, log.stray == [], log.unsynced)
    }

    method AppendOne(w: LogWork) returns (done: bool)
      requires LogReady() && !closed && w.AppendRecord?
      modifies log
      ensures LogReady() && WorkedOnce(old(Logged()), Logged(), w, done)
    {
      hide Sound, Settled, Strewn, Flat, DurableLsn, StartLsn, WriteAheadLog.Tidy, AllPassed, WriteAheadLog.Traced, Smooth;
      var r := log.Append(w.kind, w.payload, w.io);
      done := r.Ok?;
    }

    method SyncOne(w: LogWork) returns (done: bool)
      requires LogReady() && !closed && w.SyncLog?
      modifies log
      ensures LogReady() && WorkedOnce(old(Logged()), Logged(), w, done)
    {
      hide Sound, Settled, Strewn, Flat, DurableLsn, StartLsn, WriteAheadLog.Tidy, AllPassed, WriteAheadLog.Traced;
      done := log.Sync(w.write, w.sync);
    }

    method TruncateOne(w: LogWork) returns (done: bool)
      requires LogReady() && !closed && w.TruncateLog?
      modifies log
      ensures LogReady() && WorkedOnce(old(Logged()), Logged(), w, done)
    {
      hide Sound, Settled, Strewn, Flat, DurableLsn, StartLsn, WriteAheadLog.Tidy, AllSuffixed, WriteAheadLog.Traced, Suffixed, Continues, Gentle;
      var r := log.TruncateThrough(w.lsn, w.unlinks, w.synced);
      SuffixContinues(log.Point(), old(log.Start()), old(log.Records()), old(log.Durable()));
      done := r.Ok?;
    }

    /** One call on the log. */
    method RunWork(w: LogWork) returns (done: bool)
      requires LogReady() && !closed
      modifies log
      ensures LogReady() && WorkedOnce(old(Logged()), Logged(), w, done)
    {
      hide LogReady, WorkedOnce, Sound, Settled, Strewn, DurableLsn, StartLsn, WriteAheadLog.Tidy;
      match w {
        case AppendRecord(_, _, _) => done := AppendOne(w);
        case SyncLog(_, _) => done := SyncOne(w);
        case TruncateLog(_, _, _) => done := TruncateOne(w);
      }
    }

    /** The log work of a command or of a background checkpoint. */
    method Dispatch(work: seq<LogWork>) returns (done: seq<bool>)
      requires LogReady() && AllHonest(log.Durable(), log.nextLsn - 1) && !closed
      modifies log
      ensures LogReady() && AllHonest(log.Durable(), log.nextLsn - 1) && Worked(old(Logged()), Logged(), work, done)
    {
      hide Sound, Settled, Strewn, Flat, DurableLsn, StartLsn, WriteAheadLog.Tidy, WriteAheadLog.Traced, Worked, AllHonest;
      done := [];
      NoWork(Logged());
      assert work[..0] == [];
      while |done| < |work|
        invariant |done| <= |work| && LogReady() && Worked(old(Logged()), Logged(), work[..|done|], done)
        decreases |work| - |done|
      {
        ghost var mid := Logged();
        var ok := RunWork(work[|done|]);
        MoreWork(old(Logged()), mid, Logged(), work, done, ok);
        done := done + [ok];
      }
      assert work[..|done|] == work;
      WorkGrows(old(Logged()), Logged(), work, done);
      HonestGrows(old(log.Durable()), old(log.nextLsn) - 1, log.Durable(), log.nextLsn - 1);
    }

    /** `holdUntilDurable`: from here on replies of `s` wait for the next flush. */
    method HoldUntilDurable(s: ServerSession)
      requires Valid() && s in sessions && !closed
      modifies this`waiting, this`scheduled, s`holding
      ensures Valid()
      ensures s.holding == (old(s.holding) || log.unsynced)
      ensures s.Look() == old(s.Look()).(holding := s.holding)
      ensures !s.holding ==> log.nextLsn - 1 <= log.Durable()
    {
      hide Sound, Settled, Strewn, Flat, DurableLsn, StartLsn, WriteAheadLog.Tidy;
      if s.holding || closed || !log.unsynced {
        return;
      }
      s.holding := true;
      waiting := waiting + [s];
      scheduled := true;
    }

    /** The work of a command or of a background checkpoint leaves the replies as they are. */
    method PerformWork(work: seq<LogWork>) returns (done: seq<bool>)
      requires Valid() && !closed
      modifies log
      ensures Valid() && Worked(old(Logged()), Logged(), work, done)
    {
      hide Views, Sound, Settled, Strewn, Flat, DurableLsn, StartLsn, WriteAheadLog.Tidy, AllHonest, Worked, Distinct, Waiting;
      done := Dispatch(work);
    }

    /** The reply at the end of `handleCommand`. */
    method ReplyTo(s: ServerSession, requestId: nat, m: Message)
      requires Valid() && s in sessions && Runs(s.state, requestId, m) && (!s.holding ==> log.nextLsn - 1 <= log.Durable())
      modifies s
      ensures Valid() && Logged() == old(Logged())
      ensures Answered(old(s.Look()), s.Look(), requestId, m, log.nextLsn - 1, false)
    {
      hide Sound, Settled, Strewn, Flat, DurableLsn, StartLsn, WriteAheadLog.Tidy, ServerSession.Orderly, ServerSession.Honest;
      s.ReplyToCommand(requestId, m, log.Durable(), log.nextLsn - 1);
    }

    lemma ReadyIsOpen(s: ServerSession)
      requires Valid() && s in sessions && s.state == Ready
      ensures !closed
    {
      hide LogReady, Waiting, AllHonest, Distinct;
    }

    /** `handleCommand`: run it, hold if its writes are not flushed, and reply. */
    method HandleCommand(s: ServerSession, requestId: nat, m: Message) returns (done: seq<bool>)
      requires Valid() && s in sessions && Runs(s.state, requestId, m)
      modifies this`waiting, this`scheduled, s, log
      ensures Valid() && Worked(old(Logged()), Logged(), m.work, done)
      ensures Answered(old(s.Look()), s.Look(), requestId, m, log.nextLsn - 1, log.unsynced)
    {
      hide Valid, Worked, Answered, DurableLsn, StartLsn;
      ReadyIsOpen(s);
      done := PerformWork(m.work);
      HoldUntilDurable(s);
      ghost var waits := s.Look();
      ReplyTo(s, requestId, m);
      AnsweredHeld(old(s.Look()), waits, s.Look(), requestId, m, log.nextLsn - 1, log.unsynced);
    }

    /** `handleMessage`, and what a chunk that is no message leads to. */
    method HandleMessage(s: ServerSession, requestId: nat, m: Message) returns (done: seq<bool>)
      requires Valid() && s in sessions
      modifies this`waiting, this`scheduled, s, log
      ensures Valid()
      ensures if Runs(old(s.state), requestId, m) then Worked(old(Logged()), Logged(), m.work, done) else Logged() == old(Logged())
      ensures Answered(old(s.Look()), s.Look(), requestId, m, log.nextLsn - 1, log.unsynced)
    {
      hide Sound, Settled, Strewn, Flat, DurableLsn, StartLsn, WriteAheadLog.Tidy, Worked, ServerSession.Orderly, ServerSession.Honest;
      if !s.CanReceive() {
        return [];
      }
      if requestId != 0 && s.state == Ready && m.Command? {
        done := HandleCommand(s, requestId, m);
        return;
      }
      s.HandleHere(requestId, m, log.Durable(), log.nextLsn - 1);
      return [];
    }

    /** The callbacks of one flush, in the order they were added. */
    method ReleaseAll(callbacks: seq<ServerSession>, ok: bool, ghost durable: int, ghost last: int)
      requires AllHonest(durable, last) && (closed ==> AllGone()) && (ok && !closed ==> last <= durable)
      requires forall i | 0 <= i < |callbacks| :: callbacks[i] in sessions && callbacks[i].holding
      requires forall i, j | 0 <= i < j < |callbacks| :: callbacks[i] != callbacks[j]
      requires forall t | t in sessions && t.holding :: t in callbacks
      modifies callbacks
      ensures AllHonest(durable, last) && (closed ==> AllGone())
      ensures forall t | t in sessions :: !t.holding && t.Look() == Released(old(t.Look()), ok)
    {
      hide ServerSession.Orderly, ServerSession.Honest, Released, ServerSession.Look, AllHonest, AllGone;
      var i := 0;
      while i < |callbacks|
        invariant 0 <= i <= |callbacks|
        invariant AllHonest(durable, last) && (closed ==> AllGone())
        invariant forall j | 0 <= j < i :: !callbacks[j].holding && callbacks[j].Look() == Released(old(callbacks[j].Look()), ok)
        invariant forall j | i <= j < |callbacks| :: unchanged(callbacks[j])
      {
        ReleaseOne(callbacks[i], ok, durable, last);
        i := i + 1;
      }
      forall t | t in sessions ensures !t.holding && t.Look() == Released(old(t.Look()), ok) {
        if t !in callbacks {
          NotReleased(t, ok);
        }
      }
    }

    lemma NotReleased(s: ServerSession, ok: bool)
      requires !s.holding
      ensures Released(s.Look(), ok) == s.Look()
    {}

    method ReleaseOne(s: ServerSession, ok: bool, ghost durable: int, ghost last: int)
      requires AllHonest(durable, last) && (closed ==> AllGone()) && (ok && !closed ==> last <= durable)
      requires s in sessions && s.holding
      modifies s
      ensures AllHonest(durable, last) && (closed ==> AllGone())
      ensures !s.holding && s.Look() == Released(old(s.Look()), ok)
    {
      hide ServerSession.Orderly, ServerSession.Honest;
      s.Release(ok, durable, last);
    }

    /** The flush of `run`. */
    method FlushLog(syncOk: bool) returns (ok: bool)
      requires LogReady() && AllHonest(log.Durable(), log.nextLsn - 1) && !closed
      modifies log
      ensures LogReady() && AllHonest(log.Durable(), log.nextLsn - 1) && FlushedTo(old(Logged()), Logged(), syncOk, ok)
    {
      hide Sound, Settled, Strewn, Flat, DurableLsn, StartLsn, WriteAheadLog.Tidy, AllPassed, AllHonest;
      ok := log.Commit(syncOk);
      HonestGrows(old(log.Durable()), old(log.nextLsn) - 1, log.Durable(), log.nextLsn - 1);
    }

    /** `GroupCommitter.run`: one flush for everything waiting. */
    method Commit(syncOk: bool) returns (ok: bool)
      requires Valid()
      modifies this`waiting, this`scheduled, waiting, log
      ensures Valid() && waiting == []
      ensures if closed then ok && Logged() == old(Logged()) else FlushedTo(old(Logged()), Logged(), syncOk, ok)
      ensures forall t | t in sessions :: t.Look() == Released(old(t.Look()), ok)
    {
      hide Sound, Settled, Strewn, Flat, DurableLsn, StartLsn, WriteAheadLog.Tidy, AllHonest, Distinct, Released, ServerSession.Look, AllGone;
      scheduled := false;
      var callbacks := waiting;
      waiting := [];
      ok := true;
      if !closed {
        ok := FlushLog(syncOk);
      }
      ReleaseAll(callbacks, ok, log.Durable(), log.nextLsn - 1);
    }

    method AcceptConnection() returns (s: ServerSession)
      requires Valid() && !closed
      modifies this`sessions
      ensures Valid() && fresh(s) && sessions == old(sessions) + [s] && s.Look() == NewView
    {
      hide Sound, Settled, Strewn, Flat, DurableLsn, StartLsn, WriteAheadLog.Tidy;
      s := new ServerSession();
      sessions := sessions + [s];
    }

    /** The socket ends, is destroyed, or reports that it closed. */
    method SocketEvent(s: ServerSession, end: bool, destroy: bool, gone: bool)
      requires Valid() && s in sessions
      modifies s`ended, s`destroyed, s`state
      ensures Valid() && Logged() == old(Logged())
      ensures s.Look() == old(s.Look()).(ended := old(s.ended) || end, destroyed := old(s.destroyed) || destroy || gone,
                                         state := if gone then Closed else old(s.state))
    {
      hide DurableLsn, StartLsn, Sound, Settled, Flat, WriteAheadLog.Tidy, ServerSession.Orderly, ServerSession.Honest;
      s.SocketChange(end, destroy, gone);
    }

    method CloseSession(s: ServerSession)
      requires Valid() && s in sessions
      modifies s`ended, s`state
      ensures Valid() && Logged() == old(Logged())
      ensures s.Look() == if old(s.CanReceive()) then old(s.Look()).(ended := true, state := Closing) else old(s.Look())
    {
      hide DurableLsn, StartLsn, Sound, Settled, Flat, WriteAheadLog.Tidy, ServerSession.Orderly, ServerSession.Honest;
      s.Close();
    }

    /** Stopping the server waits until every socket has closed before it closes the engine. */
    method CloseEngine(work: seq<LogWork>, write: WriteIo, syncOk: bool) returns (done: seq<bool>, ok: bool)
      requires Valid() && !closed && AllGone()
      modifies this`closed, log
      ensures Valid() && closed && log.closed && |done| == |work|
      ensures write.Wrote? && syncOk && !log.broken ==> ok
    {
      hide Sound, Settled, Strewn, Flat, DurableLsn, StartLsn, WriteAheadLog.Tidy, AllPassed, AllHonest;
      done := Dispatch(work);
      closed := true;
      ghost var durable := log.Durable();
      ok := log.Close(write, syncOk);
      HonestGrows(durable, log.nextLsn - 1, log.Durable(), log.nextLsn - 1);
    }

    lemma ValidIsDistinct()
      requires Valid()
      ensures Distinct()
    {
      hide LogReady, Waiting, AllHonest, AllGone;
    }

    lemma ValidIsRooted()
      requires Valid()
      ensures log.Rooted()
    {
      hide Waiting, AllHonest, AllGone, Sound, Settled, Strewn, Flat, WriteAheadLog.Tidy;
    }

    /** A message, or garbage, on connection `n`. */
    method PerformMessage(n: nat, step: Step, requestId: nat, m: Message) returns (done: seq<bool>)
      requires Valid() && n < |sessions|
      requires step == Receive(n, requestId, m) || (step == ReceiveGarbage(n) && requestId == 0 && m == Unexpected)
      modifies this`waiting, this`scheduled, sessions, log
      ensures Valid()
      ensures Happened(old(Views(sessions)), Views(sessions), step, !closed, log.nextLsn - 1, log.unsynced, false)
      ensures LogMoved(old(Logged()), Logged(), step, old(Views(sessions)), !closed, done)
    {
      hide Views, Valid, Answered, Worked, WriteAheadLog.Start, WriteAheadLog.Records, WriteAheadLog.Durable, Logged, Happened;
      ghost var before := Views(sessions);
      ValidIsDistinct();
      done := HandleMessage(sessions[n], requestId, m);
      OneHappened(before, Views(sessions), n, step, !closed, log.nextLsn - 1, log.unsynced);
    }

    /** An event of the socket of connection `n`. */
    method PerformEvent(n: nat, step: Step)
      requires Valid() && n < |sessions|
      requires step in {Step.EndSocket(n), Step.CloseSession(n), Step.DestroySocket(n), Step.SocketClosed(n)}
      modifies sessions
      ensures Valid() && Happened(old(Views(sessions)), Views(sessions), step, !closed, log.nextLsn - 1, log.unsynced, false)
      ensures Logged() == old(Logged())
    {
      hide Views, Valid, DurableLsn, StartLsn, Happened, Answered, Released;
      ghost var before := Views(sessions);
      ValidIsDistinct();
      if step.CloseSession? {
        CloseSession(sessions[n]);
      } else {
        SocketEvent(sessions[n], step.EndSocket?, step.DestroySocket?, step.SocketClosed?);
      }
      OneHappened(before, Views(sessions), n, step, !closed, log.nextLsn - 1, log.unsynced);
    }

    /** An event of one connection. */
    method PerformOn(step: Step) returns (done: seq<bool>)
      requires Valid() && Addressed(step)
      modifies this`waiting, this`scheduled, sessions, log
      ensures Valid()
      ensures Happened(old(Views(sessions)), Views(sessions), step, !closed, log.nextLsn - 1, log.unsynced, false)
      ensures LogMoved(old(Logged()), Logged(), step, old(Views(sessions)), !closed, done)
    {
      hide Views, Valid, WriteAheadLog.Rooted, WriteAheadLog.Start, WriteAheadLog.Records, WriteAheadLog.Durable, Logged, LogMoved, Happened;
      done := [];
      ValidIsRooted();
      var n := step.connection;
      if n >= |sessions| {
        Ignored(Views(sessions), step, !closed, log.nextLsn - 1, log.unsynced);
        LogStays(Logged(), step, Views(sessions), !closed, done);
      } else if step.Receive? {
        done := PerformMessage(n, step, step.requestId, step.message);
      } else if step.ReceiveGarbage? {
        done := PerformMessage(n, step, 0, Unexpected);
      } else {
        LogStays(Logged(), step, Views(sessions), !closed, done);
        PerformEvent(n, step);
      }
    }

    method PerformAccept()
      requires Valid() && !closed
      modifies this`sessions
      ensures Valid() && old(sessions) <= sessions
      ensures forall n | |old(sessions)| <= n < |sessions| :: fresh(sessions[n])
      ensures Happened(old(Views(sessions)), Views(sessions), Accept, true, log.nextLsn - 1, log.unsynced, false)
    {
      hide Views, Sound, Settled, Strewn, Flat, DurableLsn, StartLsn, WriteAheadLog.Tidy, AllHonest, LogReady, AllGone, Distinct, Waiting;
      var s := AcceptConnection();
    }

    method PerformCommit(syncOk: bool) returns (ok: bool)
      requires Valid()
      modifies this`waiting, this`scheduled, sessions, log
      ensures Valid()
      ensures Happened(old(Views(sessions)), Views(sessions), RunCommit(syncOk), !closed, log.nextLsn - 1, log.unsynced, ok)
      ensures LogMoved(old(Logged()), Logged(), RunCommit(syncOk), old(Views(sessions)), !closed, [ok])
    {
      hide Views, Sound, Settled, Strewn, Flat, DurableLsn, StartLsn, WriteAheadLog.Tidy, AllHonest, Released, AllGone, Distinct, ServerSession.Look;
      WaitingAreSessions();
      ok := Commit(syncOk);
    }

    /** Any event, in any order. Events for a connection that does not exist are ignored. */
    method Perform(step: Step) returns (done: seq<bool>)
      requires Valid()
      modifies this, sessions, log
      ensures Valid() && closed == old(closed) && old(sessions) <= sessions
      ensures forall n | |old(sessions)| <= n < |sessions| :: fresh(sessions[n])
      ensures Happened(old(Views(sessions)), Views(sessions), step, !closed, log.nextLsn - 1, log.unsynced, step.RunCommit? && done == [true])
      ensures LogMoved(old(Logged()), Logged(), step, old(Views(sessions)), !closed, done)
    {
      hide Views, Valid, Worked, FlushedTo, Happened, DurableLsn, StartLsn;
      done := [];
      if Addressed(step) {
        done := PerformOn(step);
      } else if step.RunCommit? {
        var ok := PerformCommit(step.syncOk);
        done := [ok];
      } else if closed {
        Ignored(Views(sessions), step, false, log.nextLsn - 1, log.unsynced);
      } else if step.Accept? {
        PerformAccept();
      } else {
        Ignored(Views(sessions), step, true, log.nextLsn - 1, log.unsynced);
        done := PerformWork(step.work);
        Ignored(Views(sessions), step, true, log.nextLsn - 1, log.unsynced);
      }
    }

    lemma WaitingAreSessions()
      requires Waiting()
      ensures forall t | t in waiting :: t in sessions
    {}

    lemma Trusted()
      requires Valid()
      ensures forall n | 0 <= n < |sessions| :: Trustworthy(sessions[n].Look(), log.Durable())
    {
      hide Waiting, AllGone, Distinct, DurableLsn, WriteAheadLog.Tidy, Sound, Strewn;
      forall n | 0 <= n < |sessions| ensures Trustworthy(sessions[n].Look(), log.Durable()) {
        assert sessions[n] in sessions;
      }
    }

    /** One event; and a flush that succeeded has paid every connection. */
    method PerformPaid(step: Step) returns (done: seq<bool>)
      requires Valid()
      modifies this, sessions, log
      ensures Valid() && log.Rooted() && closed == old(closed) && old(sessions) <= sessions
      ensures forall n | |old(sessions)| <= n < |sessions| :: fresh(sessions[n])
      ensures Happened(old(Views(sessions)), Views(sessions), step, !closed, log.nextLsn - 1, log.unsynced, step.RunCommit? && done == [true])
      ensures LogMoved(old(Logged()), Logged(), step, old(Views(sessions)), !closed, done)
      ensures step == RunCommit(true) && !closed && !log.broken ==> AllPaid(Views(sessions))
    {
      hide Valid, Trustworthy, AllPaid, Views, Happened, Worked, WriteAheadLog.Rooted, WriteAheadLog.Durable, WriteAheadLog.Start, WriteAheadLog.Records;
      Trusted();
      ValidIsRooted();
      ghost var now, durable := Views(sessions), log.Durable();
      done := Perform(step);
      if step == RunCommit(true) && !closed && !log.broken {
        assert done == [done[0]];
        CommitPays(now, Views(sessions), durable, true, log.nextLsn - 1, log.unsynced);
      }
      ValidIsRooted();
    }

    /**
     * Acknowledged means durable, and every request gets its reply, over every interleaving:
     * after any sequence of events, with any pattern of disk failures, each connection has been
     * given a prefix of what its session produced, in which the replies to commands are durable;
     * what was produced answers the requests that arrived, in order and one each, all of them
     * while the connection can receive; and a finished socket has been given nothing more. When
     * the last event is a flush that the disk grants, open connections have been given all
     * their replies, as long as the log was not broken, which it never is on a sound disk.
     */
    method Run(steps: seq<Step>)
      requires Valid()
      modifies this, sessions, log
      ensures Valid() && closed == old(closed) && old(sessions) <= sessions
      ensures Lived(old(Views(sessions)), Views(sessions), steps, !closed)
      ensures forall n | 0 <= n < |sessions| :: Trustworthy(sessions[n].Look(), log.Durable())
      ensures !closed && !log.broken && steps != [] && steps[|steps| - 1] == RunCommit(true) ==> AllPaid(Views(sessions))
      ensures LogLived(old(Logged()), Logged(), steps)
    {
      hide Valid, LogMoved, LogLived, Lived, Trustworthy, AllPaid, Views, Happened, Logged, WriteAheadLog.Rooted;
      ValidIsRooted();
      ghost var start, log0 := Views(sessions), Logged();
      LivedNone(start, !closed);
      LogLivedNone(log0);
      assert steps[..0] == [];
      var i := 0;
      while i < |steps|
        invariant 0 <= i <= |steps| && Valid() && log.Rooted() && closed == old(closed) && old(sessions) <= sessions
        invariant forall n | |old(sessions)| <= n < |sessions| :: fresh(sessions[n])
        invariant Lived(start, Views(sessions), steps[..i], !closed) && LogLived(log0, Logged(), steps[..i])
        invariant i > 0 && steps[i - 1] == RunCommit(true) && !closed && !log.broken ==> AllPaid(Views(sessions))
      {
        ghost var now, log1 := Views(sessions), Logged();
        var done := PerformPaid(steps[i]);
        LivedStep(start, now, Views(sessions), steps[..i], steps[i], !closed, log.nextLsn - 1, log.unsynced, steps[i].RunCommit? && done == [true]);
        LogLivedStep(log0, log1, Logged(), steps[..i], steps[i], now, !closed, done);
        assert steps[..i + 1] == steps[..i] + [steps[i]];
        i := i + 1;
      }
      assert steps[..i] == steps;
      Trusted();
    }
  }
}
