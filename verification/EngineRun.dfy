/** Whole runs of the storage engine: any sequence of calls, with any pattern of disk failures. */
module EngineRun {
  import opened Bytes
  import opened Text
  import opened WalFormat
  import opened WalRecovery
  import opened Leftovers
  import opened Log = WriteAheadLog
  import opened Operations
  import opened Replaying
  import opened EngineRecovery
  import opened Engine = StorageEngine

  datatype Call =
    | WriteCall(ops: seq<Operation>, io: EngineIo)
    | CreateIndexCall(op: Operation, io: EngineIo)
    | CommitCall(syncOk: bool)
    | CheckpointCall(disk: CheckpointIo)
    | BackgroundCall(disk: CheckpointIo)
    | StepCall(disk: CheckpointIo)

  /** What collections hand to the engine: names that survive, applicable to what is stored. */
  predicate Offered(s: State, call: Call) {
    match call
    case WriteCall(ops, _) => PlainOps(ops) && ApplyAll(s, ops).Some?
    case CreateIndexCall(op, _) => op.CreateIndex? && PlainOps([op]) && Apply(s, op).Some?
    case _ => true
  }

  predicate Journaled(call: Call) {
    call.WriteCall? || call.CreateIndexCall?
  }

  function Recorded(call: Call): seq<Operation>
    requires Journaled(call)
  {
    if call.WriteCall? then call.ops else [call.op]
  }

  /** The databases after a call that was or was not carried out. */
  function Next(s: State, call: Call, done: bool): Option<State> {
    if !done || !Journaled(call) then Some(s)
    else if call.WriteCall? then ApplyAll(s, call.ops)
    else Apply(s, call.op)
  }

  function NextAll(s: State, calls: seq<Call>, done: seq<bool>): Option<State>
    requires |calls| == |done|
  {
    if calls == [] then Some(s)
    else
      var n := |calls| - 1;
      var before := NextAll(s, calls[..n], done[..n]);
      if before.None? then None else Next(before.value, calls[n], done[n])
  }

  /** The disk does what the call asks of the log. */
  predicate Undisturbed(call: Call) {
    match call
    case WriteCall(_, io) => Healthy(io)
    case CreateIndexCall(_, io) => Healthy(io)
    case CommitCall(syncOk) => syncOk
    case CheckpointCall(disk) => disk.write.Wrote? && disk.sync
    case BackgroundCall(disk) => disk.write.Wrote? && disk.sync
    case StepCall(_) => true
  }

  /** The call is offered, and its operations fit in one record. */
  predicate Acceptable(s: State, call: Call) {
    Offered(s, call) && (call.CommitCall? || (Journaled(call) && CanRecord(0, Recorded(call))))
  }

  /** A checkpoint is due, so the next append starts one. */
  predicate Due(e: StorageEngine)
    reads e
  {
    e.bytesSinceCheckpoint >= e.nextCheckpointAt && e.active.None?
  }

  /** The one call that may leave memory and log apart, if it fails. */
  predicate Strands(e: StorageEngine, call: Call)
    reads e
  {
    call.CreateIndexCall? && Offered(e.databases, call) && EncodeOperations([call.op]).Some? && Due(e)
  }

  /**
   * One call, made if it is offered. What it says it did is what happened to memory and to
   * history; it says so whenever it is acceptable and the disk does as asked; and what was
   * journaled, or committed, is acknowledged.
   */
  method Perform(e: StorageEngine, call: Call) returns (done: bool)
    requires e.Valid() && !e.closed
    modifies e, e.log
    ensures e.Inv() && !e.closed && old(e.trail) <= e.trail
    ensures done || e.log.broken || !old(Strands(e, call)) ==> e.Valid()
    ensures Some(e.databases) == Next(old(e.databases), call, done)
    ensures e.log.nextLsn == old(e.log.nextLsn) + (if done && Journaled(call) then 1 else 0)
    ensures done && Journaled(call) ==>
      && EncodeOperations(Recorded(call)).Some?
      && e.history == old(e.history) + [Record(old(e.log.nextLsn), TRANSACTION, EncodeOperations(Recorded(call)).value)]
    ensures done && ((Journaled(call) && !e.log.groupCommit) || call.CommitCall?) ==> e.acked == e.log.nextLsn - 1
    ensures done && call.CheckpointCall? ==> e.lastCheckpoint == e.log.nextLsn - 1 && e.bytesSinceCheckpoint == 0
    ensures call.StepCall? ==> e.active == None
    ensures call.StepCall? && done && old(Alive(e.active)) ==> e.lastCheckpoint == old(e.active.value.begun.lsn)
    ensures Undisturbed(call) && old(e.Open()) ==> !e.log.broken && e.log.stray == old(e.log.stray)
    ensures Undisturbed(call) && old(e.Open()) && Acceptable(old(e.databases), call) && old(e.log.nextLsn) < 0x1_0000_0000_0000_0000 ==> done
    ensures (call.CheckpointCall? || call.BackgroundCall?) && old(e.Open()) && old(e.Fine(call.disk)) ==> done
    ensures call.StepCall? && old(e.Open()) && old(Alive(e.active)) && old(e.Fine(call.disk)) ==> done
  {
    hide StorageEngine.Inv, StorageEngine.Kept, Replay, Faithful, PlainOps, ApplyAll, Apply, EncodeOperations, StateAt;
    ValidIsCurrent(e);
    e.Bounds();
    if !Offered(e.databases, call) {
      return false;
    }
    match call {
      case WriteCall(ops, io) =>
        done := e.Write(ops, io);
      case CreateIndexCall(op, io) =>
        if e.log.nextLsn < 0x1_0000_0000_0000_0000 {
          done := e.CreateIndex(op, io);
        } else {
          done := false;
        }
      case CommitCall(syncOk) =>
        done := e.Commit(syncOk);
      case CheckpointCall(io) =>
        done := e.Checkpoint(io);
      case BackgroundCall(io) =>
        done := e.CheckpointAsync(io, false);
      case StepCall(io) =>
        if e.active.Some? {
          done := e.StepCheckpoint(io);
        } else {
          done := false;
        }
    }
  }
  /** Every call that was acceptable in the state it met was done. */
  predicate AllDone(s: State, calls: seq<Call>, done: seq<bool>)
    requires |calls| == |done|
  {
    forall i | 0 <= i < |calls| ::
      var before := NextAll(s, calls[..i], done[..i]);
      before.Some? && (Acceptable(before.value, calls[i]) ==> done[i])
  }

  lemma OneMore(s: State, calls: seq<Call>, done: seq<bool>, call: Call, ok: bool)
    requires |calls| == |done| && NextAll(s, calls, done).Some?
    ensures NextAll(s, calls + [call], done + [ok]) == Next(NextAll(s, calls, done).value, call, ok)
    ensures AllDone(s, calls, done) && (Acceptable(NextAll(s, calls, done).value, call) ==> ok) ==> AllDone(s, calls + [call], done + [ok])
  {
    hide Next, Acceptable;
    var n := |calls|;
    assert (calls + [call])[..n] == calls && (done + [ok])[..n] == done;
    if AllDone(s, calls, done) && (Acceptable(NextAll(s, calls, done).value, call) ==> ok) {
      forall i | 0 <= i < n + 1
        ensures var before := NextAll(s, (calls + [call])[..i], (done + [ok])[..i]);
          before.Some? && (Acceptable(before.value, (calls + [call])[i]) ==> (done + [ok])[i])
      {
        if i < n {
          assert (calls + [call])[..i] == calls[..i] && (done + [ok])[..i] == done[..i];
        }
      }
    }
  }

  /** Nothing was left behind, and the disk will do whatever these calls ask of the log. */
  predicate Calm(e: StorageEngine, calls: seq<Call>)
    reads e, e.log
  {
    && !e.log.broken && e.log.stray == []
    && (forall i | 0 <= i < |calls| :: Undisturbed(calls[i]))
    && e.log.nextLsn + |calls| <= 0x1_0000_0000_0000_0000
  }

  lemma StillCalm(e: StorageEngine, calls: seq<Call>)
    requires e.Valid() && !e.closed && calls != [] && Calm(e, calls)
    ensures Undisturbed(calls[0]) && e.Open() && e.log.nextLsn < 0x1_0000_0000_0000_0000
    ensures forall i | 0 <= i < |calls[1..]| :: Undisturbed(calls[1..][i])
    ensures Strands(e, calls[0]) ==> Acceptable(e.databases, calls[0])
  {
    hide StorageEngine.Valid, PlainOps, Apply, ApplyAll, EncodeOperations;
    if Strands(e, calls[0]) {
      CreateIndexFits(calls[0].op);
    }
  }

  /** The first of these calls; `stopped` after the one kind of failure that leaves memory and log apart. */
  method PerformFirst(e: StorageEngine, calls: seq<Call>) returns (done: bool, stopped: bool)
    requires e.Valid() && !e.closed && calls != []
    modifies e, e.log
    ensures e.Inv() && !e.closed && old(e.trail) <= e.trail
    ensures !stopped ==> e.Valid()
    ensures stopped ==> calls[0].CreateIndexCall? && !done && !e.log.broken
    ensures Some(e.databases) == Next(old(e.databases), calls[0], done)
    ensures old(Calm(e, calls)) ==> !stopped && Calm(e, calls[1..]) && (Acceptable(old(e.databases), calls[0]) ==> done)
  {
    hide StorageEngine.Inv, StorageEngine.Valid, StorageEngine.Open, StorageEngine.Fine, Offered, Next, Undisturbed, Acceptable, EncodeOperations;
    if Calm(e, calls) {
      StillCalm(e, calls);
    }
    stopped := Strands(e, calls[0]);
    done := Perform(e, calls[0]);
    stopped := stopped && !done && !e.log.broken;
  }

  /**
   * Any run. It stops after an index creation that failed, leaving the log usable, in the same
   * call that had a checkpoint due; up to there every directory it passed through is one from
   * which a crash recovers (`EveryCrashRecovers`), and the checkpoint accounts are exact. The
   * databases are those of the calls that were done. When nothing was left behind and the disk
   * does what is asked of the log, every acceptable call is done and the run is finished.
   */
  method Run(e: StorageEngine, calls: seq<Call>) returns (done: seq<bool>)
    requires e.Valid() && !e.closed
    modifies e, e.log
    ensures e.Inv() && old(e.trail) <= e.trail && |done| <= |calls|
    ensures NextAll(old(e.databases), calls[..|done|], done) == Some(e.databases)
    ensures (e.Valid() && |done| == |calls|) || (|done| > 0 && calls[|done| - 1].CreateIndexCall? && !done[|done| - 1] && !e.log.broken)
    ensures old(Calm(e, calls)) ==> |done| == |calls| && e.Valid() && AllDone(old(e.databases), calls, done)
    ensures e.bytesSinceCheckpoint == Size(e.history[e.lastCheckpoint..e.log.nextLsn - 1])
  {
    hide StorageEngine.Inv, StorageEngine.Valid, Next, NextAll, Acceptable, AllDone, Calm, Size;
    done := [];
    NoCalls(e.databases);
    ValidIsCurrent(e);
    assert calls[..0] == [];
    var left := calls;
    while left != []
      invariant |done| <= |calls| && left == calls[|done|..]
      invariant e.Valid() && e.Inv() && !e.closed && old(e.trail) <= e.trail
      invariant NextAll(old(e.databases), calls[..|done|], done) == Some(e.databases)
      invariant old(Calm(e, calls)) ==> Calm(e, left) && AllDone(old(e.databases), calls[..|done|], done)
      decreases |left|
    {
      ghost var was := done;
      OneMoreCall(calls, |done|);
      var ok, stopped := PerformFirst(e, left);
      OneMore(old(e.databases), calls[..|was|], was, left[0], ok);
      done := done + [ok];
      left := left[1..];
      if stopped {
        ExactAccounts(e);
        return;
      }
    }
    assert calls[..|done|] == calls;
    ExactAccounts(e);
  }

  lemma NoCalls(s: State)
    ensures NextAll(s, [], []) == Some(s) && AllDone(s, [], [])
  {}

  lemma OneMoreCall(calls: seq<Call>, n: nat)
    requires n < |calls|
    ensures calls[n..] != [] && calls[n..][0] == calls[n] && calls[..n + 1] == calls[..n] + [calls[n]] && calls[n..][1..] == calls[n + 1..]
  {}

  lemma ValidIsCurrent(e: StorageEngine)
    requires e.Valid()
    ensures e.Inv() && e.Current()
  {
    hide StorageEngine.Inv, Replay, Early;
  }

  lemma ExactAccounts(e: StorageEngine)
    requires e.Inv()
    ensures 0 <= e.lastCheckpoint <= e.log.nextLsn - 1 <= |e.history|
    ensures e.bytesSinceCheckpoint == Size(e.history[e.lastCheckpoint..e.log.nextLsn - 1])
  {
    hide StorageEngine.Kept, StorageEngine.Writable, Size;
  }
}
