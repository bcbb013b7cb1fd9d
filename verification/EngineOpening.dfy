/** packages/storage/src/engine/storage-engine.ts: `open` and `recover`. */
module EngineOpening {
  import opened Bytes
  import opened Text
  import opened WalFormat
  import opened WalRecovery
  import opened LogSteps
  import opened Leftovers
  import opened Log = WriteAheadLog
  import opened Operations
  import opened Replaying
  import opened EngineRecovery
  import opened Engine = StorageEngine

  /** The operation loop of `recover`; the first operation that cannot be applied stops it. */
  method ApplyOperations(state: State, ops: seq<Operation>) returns (r: Option<State>)
    ensures r == ApplyAll(state, ops)
  {
    hide Apply;
    var current := state;
    var i := 0;
    while i < |ops|
      invariant 0 <= i <= |ops|
      invariant ApplyAll(state, ops) == ApplyAll(current, ops[i..])
    {
      var next := Apply(current, ops[i]);
      if next.None? {
        return None;
      }
      current := next.value;
      assert ops[i..][1..] == ops[i + 1..];
      i := i + 1;
    }
    return Some(current);
  }

  /** The record loop of `recover`, which also counts the bytes it replays. */
  method ReplayRecords(state: State, rs: seq<Record>) returns (r: Option<State>, bytes: nat)
    ensures r == Replay(state, rs)
    ensures r.Some? ==> bytes == Size(rs)
  {
    hide ApplyAll, DecodeOperations;
    var current := state;
    bytes := 0;
    var i := 0;
    while i < |rs|
      invariant 0 <= i <= |rs|
      invariant Replay(state, rs) == Replay(current, rs[i..])
      invariant Size(rs) == bytes + Size(rs[i..])
    {
      assert rs[i..][1..] == rs[i + 1..];
      bytes := bytes + RECORD_HEADER_SIZE + |rs[i].payload|;
      if rs[i].kind != TRANSACTION {
        return None, bytes;
      }
      var ops := DecodeOperations(rs[i].payload);
      if ops.None? {
        return None, bytes;
      }
      var next := ApplyOperations(current, ops.value);
      if next.None? {
        return None, bytes;
      }
      current := next.value;
      i := i + 1;
    }
    return Some(current), bytes;
  }

  /** The snapshot loop of `recover`: the newest one that can be read. */
  method FindBase(candidates: seq<Candidate>) returns (base: Snapshot)
    ensures base == Base(candidates)
  {
    var i := 0;
    while i < |candidates|
      invariant 0 <= i <= |candidates|
      invariant Base(candidates) == Base(candidates[i..])
    {
      if candidates[i].state.Some? {
        return Snapshot(candidates[i].lsn, candidates[i].state.value);
      }
      assert candidates[i..][1..] == candidates[i + 1..];
      i := i + 1;
    }
    return EMPTY;
  }

  lemma RunAppend(a: seq<Record>, b: seq<Record>, first: nat)
    requires Run(a, first) && Run(b, first + |a|)
    ensures Run(a + b, first)
  {
    hide Loggable;
  }

  lemma {:induction false} PartsRun(c: CrashPoint, n: nat)
    requires Sound(c) && n <= |c.parts|
    ensures Run(Flat(c.parts[..n]), StartLsn(c))
  {
    hide Complete, Run, SegmentBytes, Flat;
    if n == 0 {
      FlatEmpty<Record>();
      assert c.parts[..0] == [];
      EmptyRun(StartLsn(c));
    } else {
      PartsRun(c, n - 1);
      FlatSnoc(c.parts, n - 1);
      FlatLength(c, n - 1);
      assert SegmentOf(c.disk[n - 1], c.parts[n - 1]);
      RunAppend(Flat(c.parts[..n - 1]), c.parts[n - 1], StartLsn(c));
    }
  }

  lemma EmptyRun(first: nat)
    ensures Run([], first)
  {}

  lemma LogRun(c: CrashPoint)
    requires Sound(c)
    ensures Run(Flat(c.parts), StartLsn(c))
  {
    assert c.parts[..|c.parts|] == c.parts;
    PartsRun(c, |c.parts|);
  }

  datatype Recovered = Recovered(base: nat, state: State, bytes: nat)

  /**
   * `recover`: fails exactly when the log does not reach the newest readable snapshot on
   * both sides or a record cannot be replayed, and otherwise restores base and log.
   */
  method Recover(log: WriteAheadLog, candidates: seq<Candidate>) returns (r: Result<Recovered>)
    requires log.Valid() && !log.broken && !log.closed
    modifies log`disk, log`broken, log`trail, log`pending, log`pendingBytes
    ensures log.Valid() && log.Start() == old(log.Start()) && log.Durable() == old(log.Durable())
    ensures !log.broken
    ensures AllPassed(old(log.trail), log.trail, log.mode == Flushed, log.Start(), log.Records(), log.Durable())
    ensures
      var recovered := RecoverFrom(Base(candidates), log.Start(), log.Records());
      && (r.Ok? <==> recovered.Some?)
      && (r.Ok? ==> r.value.base == Base(candidates).lsn && r.value.state == recovered.value
                    && log.Start() <= r.value.base + 1 <= log.nextLsn
                    && r.value.bytes == Size(log.Records()[r.value.base + 1 - log.Start()..]))
  {
    hide Sound, Settled, Strewn, Flat, DurableLsn, StartLsn, Replay, Size, Base, AllPassed, WriteAheadLog.Tidy;
    NonePassed(log.trail, log.mode == Flushed, log.Start(), log.Records(), log.Durable());
    var base := FindBase(candidates);
    LogShape(log);
    if log.segments[0] > base.lsn + 1 {
      return Failed;
    }
    if log.nextLsn - 1 < base.lsn {
      return Failed;
    }
    var records := ReadTail(log, base.lsn);
    var state, bytes := ReplayRecords(base.state, records);
    if state.None? {
      return Failed;
    }
    return Ok(Recovered(base.lsn, state.value, bytes));
  }

  method ReadTail(log: WriteAheadLog, after: nat) returns (rs: seq<Record>)
    requires log.Valid() && !log.broken && !log.closed && log.Start() <= after + 1 <= log.nextLsn
    modifies log`disk, log`broken, log`trail, log`pending, log`pendingBytes
    ensures log.Valid() && !log.broken && log.Start() == old(log.Start()) && log.Durable() == old(log.Durable())
    ensures AllPassed(old(log.trail), log.trail, log.mode == Flushed, log.Start(), log.Records(), log.Durable())
    ensures after + 1 - log.Start() <= |log.Records()| && rs == log.Records()[after + 1 - log.Start()..]
  {
    hide Sound, Settled, Strewn, Flat, DurableLsn, StartLsn, SegmentBytes, AllPassed, Last, LastBytes, Names, NextLsn, After, Run, WriteAheadLog.Tidy;
    LogShape(log);
    var records := log.ReadRecords(after, Wrote);
    LogRun(log.Point());
    AfterIsSuffix(log.Records(), log.Start(), after);
    return records.value;
  }

  lemma LogShape(log: WriteAheadLog)
    requires log.Valid() && !log.broken
    ensures log.segments != [] && log.segments[0] == log.Start() >= 1
    ensures log.Start() + |log.Records()| == log.nextLsn
  {
    hide Settled, SegmentBytes, Flat;
    DurableBound(log.Point());
  }

  /** The newest snapshot holds an index whose record the log of `m` records does not have. */
  ghost predicate RunsAhead(snapshots: seq<Snapshot>, history: seq<Record>, m: int)
    requires forall i | 0 <= i < |snapshots| :: Faithful(snapshots[i], history)
  {
    snapshots != [] && snapshots[0].lsn == m && Ahead(snapshots[0], history)
  }

  /** Cutting the history where the log ends leaves the snapshots faithful to it. */
  lemma CoveredAfterCrash(snapshots: seq<Snapshot>, history: seq<Record>, first: nat, durable: int, m: nat,
                          acked: int, kept: nat)
    requires Covered(snapshots, history, first, durable, acked, kept)
    requires durable <= m <= |history| && first <= m + 1 && !RunsAhead(snapshots, history, m)
    ensures Covered(snapshots, history[..m], first, m, acked, kept)
  {
    hide Replay, Early;
    StatesExist(history, m);
    forall i | 0 <= i < |snapshots| ensures Faithful(snapshots[i], history[..m]) {
      FaithfulShrinks(snapshots[i], history, m);
    }
  }

  lemma RestoredExactly(snapshots: seq<Snapshot>, base: Snapshot, history: seq<Record>, m: nat)
    requires forall i | 0 <= i < |snapshots| :: Faithful(snapshots[i], history)
    requires Ordered(snapshots) && (forall i | 0 <= i < |snapshots| :: snapshots[i].lsn <= m)
    requires !RunsAhead(snapshots, history, m) && (base == EMPTY || base in snapshots) && Faithful(base, history)
    ensures Restored(base, history, m) == m
  {
    hide Faithful, StateAt;
    EmptyIsFaithful(history);
  }

  /** Fewer snapshots to rely on ask for less. */
  lemma SafeFewer(p: EnginePoint, kept: nat, fewer: nat)
    requires Safe(p, kept) && fewer <= kept
    ensures Safe(p, fewer)
  {
    hide Sound, Settled, Strewn, Flat, DurableLsn, StartLsn, Replay, Faithful, Run;
  }

  /** The engine `e` carries on from the point `p`, with what survived of its log and the snapshot `base`. */
  ghost predicate CarriesOn(e: StorageEngine, p: EnginePoint, base: Snapshot)
    reads e, e.log
  {
    var m := |e.history|;
    && m <= |p.history| && e.history == p.history[..m] && p.acked <= m
    && Faithful(base, p.history)
    && Restored(base, p.history, m) <= |p.history|
    && StateAt(p.history, Restored(base, p.history, m)) == Some(e.databases)
    && (forall i | 0 <= i < |p.snapshots| :: Faithful(p.snapshots[i], p.history))
    && (!RunsAhead(p.snapshots, p.history, m) ==> e.Valid() && Some(e.databases) == StateAt(p.history, m))
  }

  /** What `recover` has found out before the engine starts. */
  ghost predicate Found(log: WriteAheadLog, p: EnginePoint, base: Snapshot)
    reads log
  {
    && log.Valid() && log.mode == Flushed && !log.broken && !log.closed
    && Sound(p.log) && log.Start() == StartLsn(p.log)
    && DurableLsn(p.log) <= log.Durable() == log.nextLsn - 1 == log.Start() + |log.Records()| - 1
    && RestoresPrefix(p.history, p.acked, log.Start(), log.Records(), base)
    && (base == EMPTY || base in p.snapshots)
  }

  method StartEngine(log: WriteAheadLog, snapshots: seq<Snapshot>, candidates: seq<Candidate>, retention: nat, threshold: nat,
                     background: bool, checkpointOnClose: bool, ghost p: EnginePoint, ghost kept: nat)
    returns (e: StorageEngine)
    requires 2 <= kept <= retention && Safe(p, kept) && snapshots == p.snapshots
    requires Found(log, p, Base(candidates))
    modifies log`disk, log`broken, log`trail, log`pending, log`pendingBytes
    ensures fresh(e) && e.log == log && e.retention == retention && e.kept == kept && CarriesOn(e, p, Base(candidates))
  {
    hide Sound, Settled, Strewn, Flat, DurableLsn, StartLsn, Size, Base, Safe, RestoresPrefix,
         AllPassed, RecoverFrom, CarriesOn, Covered, Faithful, StorageEngine.Valid, WriteAheadLog.Tidy, WriteAheadLog.Traced;
    PrefixRecovers(p.history, p.acked, log.Start(), log.Records(), Base(candidates));
    ghost var history := p.history[..log.nextLsn - 1];
    var recovered := Recover(log, candidates);
    e := new StorageEngine(log, retention, threshold, background, checkpointOnClose, recovered.value.state,
                           snapshots, recovered.value.base, recovered.value.bytes, history, p.acked, kept);
    StartsOn(e, p, Base(candidates));
  }

  lemma PrefixRecovers(history: seq<Record>, acked: int, first: nat, rs: seq<Record>, base: Snapshot)
    requires RestoresPrefix(history, acked, first, rs, base)
    ensures RecoverFrom(base, first, rs).Some? && 1 <= first && first + |rs| - 1 <= |history|
  {
    hide RecoverFrom, StateAt, Faithful;
  }

  /** A new engine on what was found: the recovered state, and the log above the base still to be covered. */
  ghost predicate Started(e: StorageEngine, p: EnginePoint, base: Snapshot)
    reads e, e.log
  {
    && e.snapshots == p.snapshots && e.acked == p.acked && e.trail == [e.Now()] && e.active == None && !e.closed
    && e.log.nextLsn - 1 <= |p.history| && e.log.nextLsn > 0 && e.history == p.history[..e.log.nextLsn - 1]
    && Found(e.log, p, base) && RecoverFrom(base, e.log.Start(), e.log.Records()) == Some(e.databases)
    && e.lastCheckpoint == base.lsn && e.log.Start() <= base.lsn + 1 <= e.log.nextLsn
    && e.bytesSinceCheckpoint == Size(e.log.Records()[base.lsn + 1 - e.log.Start()..])
  }

  lemma StartsOn(e: StorageEngine, p: EnginePoint, base: Snapshot)
    requires 2 <= e.kept <= e.retention && Safe(p, e.kept) && Started(e, p, base)
    ensures CarriesOn(e, p, base)
  {
    hide Sound, Settled, Strewn, Flat, DurableLsn, StartLsn, Replay, Size, Faithful, Covered, Safe, RunsAhead, Restored, RestoresPrefix,
         Started, Found, StateAt, RecoverFrom, Ahead, StorageEngine.Valid, StorageEngine.Now, WriteAheadLog.Rooted, WriteAheadLog.Valid;
    SafeShape(p, e.kept);
    StartedState(e, p, base);
    var m: nat := e.log.nextLsn - 1;
    if !RunsAhead(p.snapshots, p.history, m) {
      StartedSnapshots(e, p, base);
      RestoredExactly(p.snapshots, base, p.history, m);
      StartsValid(e, p, base);
    }
  }

  /** The recovered state is the one the restored prefix of the history leads to. */
  lemma StartedState(e: StorageEngine, p: EnginePoint, base: Snapshot)
    requires Started(e, p, base)
    ensures
      var m: nat := e.log.nextLsn - 1;
      && Faithful(base, p.history) && Restored(base, p.history, m) <= |p.history|
      && StateAt(p.history, Restored(base, p.history, m)) == Some(e.databases)
      && p.acked <= m <= |p.history| && |e.history| == m && e.history == p.history[..m]
  {
    hide Sound, Settled, Strewn, Flat, DurableLsn, StartLsn, Replay, Size, Faithful, Restored, StateAt, RecoverFrom, Ahead, WriteAheadLog.Rooted;
  }

  lemma StartedLog(e: StorageEngine, p: EnginePoint, base: Snapshot)
    requires Started(e, p, base)
    ensures
      var m: nat := e.log.nextLsn - 1;
      && e.log.Rooted() && Sound(p.log) && 1 <= e.log.Start() == StartLsn(p.log) <= m + 1 && DurableLsn(p.log) <= m == e.log.Durable()
      && m <= |p.history| && e.log.Records() == p.history[e.log.Start() - 1..m]
      && e.lastCheckpoint <= m && e.bytesSinceCheckpoint == Size(p.history[e.lastCheckpoint..m])
  {
    hide Sound, Settled, Strewn, Flat, DurableLsn, StartLsn, Replay, Size, Faithful, Restored, StateAt, RecoverFrom, Ahead, WriteAheadLog.Rooted;
    var m: nat := e.log.nextLsn - 1;
    SubSlice(p.history, e.log.Start() - 1, m, base.lsn + 1 - e.log.Start(), m - (e.log.Start() - 1));
  }

  lemma StartedSnapshots(e: StorageEngine, p: EnginePoint, base: Snapshot)
    requires Started(e, p, base) && Safe(p, e.kept)
    ensures e.log.nextLsn > 0 && Ordered(p.snapshots)
    ensures forall i | 0 <= i < |p.snapshots| :: p.snapshots[i].lsn <= e.log.nextLsn - 1
    ensures base == EMPTY || base in p.snapshots
  {
    hide Sound, Settled, Strewn, Flat, DurableLsn, StartLsn, Replay, Faithful, RestoresPrefix, WriteAheadLog.Rooted;
  }

  /**
   * Opening after a power loss at a safe step, with any snapshots damaged that leave one of
   * the kept ones readable, and with any retention. Opening succeeds, if its disk calls do,
   * exactly when the files left behind are tolerated, always if there are none. It restores a
   * prefix of the history that holds everything acknowledged, and the new engine starts out
   * valid, so everything proved of a run holds again for the next one, and so on through any
   * number of crashes. The one exception is a newest snapshot that runs ahead of the log: the
   * index in it is restored although the log has no record of it. `passed` are the log
   * directories on the way (`CrashInOpening`).
   */
  method OpenEngine(files: seq<File>, snapshots: seq<Snapshot>, candidates: seq<Candidate>, groupCommit: bool, segmentSizeBytes: nat,
                    retention: nat, threshold: nat, background: bool, checkpointOnClose: bool, io: OpenIo,
                    ghost p: EnginePoint, ghost kept: nat)
    returns (r: Result<StorageEngine>, ghost passed: seq<seq<File>>)
    requires retention >= 2 && kept >= 2 && Safe(p, kept) && PowerLoss(Directory(p.log), files)
    requires snapshots == p.snapshots && DamagedCopy(snapshots, candidates) && Lost(candidates) < kept
    ensures Tolerates(p.log, files) && Succeeds(io) ==> r.Ok?
    ensures r.Ok? ==> Tolerates(p.log, files)
    ensures r.Ok? ==> fresh(r.value) && fresh(r.value.log) && CarriesOn(r.value, p, Base(candidates))
    ensures r.Ok? ==> r.value.retention == retention && r.value.kept == if kept <= retention then kept else retention
    ensures AllOpening(files, passed)
  {
    hide Sound, Settled, Strewn, Flat, DurableLsn, StartLsn, PowerLoss, Intact, AllUsable, Live, Contents, RestoresPrefix, Tolerates, Merge,
         Base, Lost, DamagedCopy, OpenedOn, Safe, Covered, Plausible, Stable, OpensStable, CarriesOn, WriteAheadLog.Tidy, WriteAheadLog.Traced,
         AllOpening;
    CrashRefinement(p, kept, files, candidates);
    SomeReadable(snapshots, candidates);
    SafeShape(p, kept);
    LossIsPlausible(p.log, files);
    r, passed := Failed, [];
    var opening;
    opening, passed := Open(files, Flushed, groupCommit, segmentSizeBytes, io);
    if opening.Failed? {
      return;
    }
    OpenedIntact(opening.value, files);
    StableOpens(files);
    var log := opening.value;
    OpenedLog(log, files, StartLsn(p.log), Contents(Live(files)));
    ghost var fewer := if kept <= retention then kept else retention;
    SafeFewer(p, kept, fewer);
    var e := StartEngine(log, snapshots, candidates, retention, threshold, background, checkpointOnClose, p, fewer);
    r := Ok(e);
  }

  lemma OpenedIntact(log: WriteAheadLog, files: seq<File>)
    requires OpenedOn(log, files)
    ensures Intact(files) && AllUsable(Live(files))
  {}

  /**
   * A power loss while opening what an earlier one left, at whichever directory opening had
   * come to: the next start restores the same prefix.
   */
  lemma CrashInOpening(p: EnginePoint, kept: nat, files: seq<File>, passed: seq<seq<File>>, step: nat, after: seq<File>,
                       candidates: seq<Candidate>)
    requires Safe(p, kept) && PowerLoss(Directory(p.log), files) && Tolerates(p.log, files)
    requires AllOpening(files, passed) && step < |passed| && PowerLoss(passed[step], after)
    requires DamagedCopy(p.snapshots, candidates) && Lost(candidates) < kept
    ensures Intact(after) && AllUsable(Live(after))
    ensures RestoresPrefix(p.history, p.acked, StartLsn(p.log), Contents(Live(after)), Base(candidates))
  {
    hide Sound, Settled, Strewn, Flat, DurableLsn, StartLsn, PowerLoss, Intact, AllUsable, Live, Contents, RestoresPrefix, Tolerates, Merge,
         Base, Lost, DamagedCopy, Safe, Covered, Plausible, Stable, OpeningStep;
    CrashRefinement(p, kept, files, candidates);
    SafeShape(p, kept);
    LossIsPlausible(p.log, files);
    assert OpeningStep(files, passed[step]);
    OpeningCrash(files, passed[step], after);
  }

  lemma SafeShape(p: EnginePoint, kept: nat)
    requires Safe(p, kept)
    ensures Sound(p.log) && Strewn(p.log, true) && Covered(p.snapshots, p.history, StartLsn(p.log), DurableLsn(p.log), p.acked, kept)
    ensures StartLsn(p.log) >= 1
    ensures forall i | 0 <= i < |p.snapshots| :: Faithful(p.snapshots[i], p.history)
  {
    hide Sound, Settled, Strewn, Flat, DurableLsn, StartLsn, Replay, Faithful;
  }

  lemma {:induction false} MergedNames(disk: seq<File>, stray: seq<File>)
    requires forall i | 0 <= i < |disk| :: disk[i].name > 0
    requires forall i | 0 <= i < |stray| :: stray[i].name > 0
    ensures forall i | 0 <= i < |Merge(disk, stray)| :: Merge(disk, stray)[i].name > 0
    decreases |disk| + |stray|
  {
    if disk != [] && stray != [] {
      if StrayLast(disk, stray) {
        MergedNames(disk, stray[..|stray| - 1]);
      } else {
        MergedNames(disk[..|disk| - 1], stray);
      }
    }
  }

  lemma LossIsPlausible(c: CrashPoint, after: seq<File>)
    requires Sound(c) && Strewn(c, true) && PowerLoss(Directory(c), after)
    ensures Plausible(after) && Stable(after)
  {
    hide SegmentBytes, Merge, EncodeSegmentHeader;
    forall i | 0 <= i < |c.disk| ensures 0 < c.disk[i].name {
      assert SegmentOf(c.disk[i], c.parts[i]);
    }
    forall i | 0 <= i < |c.stray| ensures 0 < c.stray[i].name {
      assert Leftover(c.stray[i]);
    }
    MergedNames(c.disk, c.stray);
  }

  lemma StableOpens(files: seq<File>)
    requires Stable(files) && AllUsable(Live(files))
    ensures OpensStable(files)
  {
    hide Headless, Usable, Scan;
  }

  lemma OpenedLog(log: WriteAheadLog, files: seq<File>, first: nat, rs: seq<Record>)
    requires OpenedOn(log, files) && OpensStable(files) && log.mode == Flushed
    requires first == (if Live(files) == [] then 1 else Live(files)[0].name) && rs == Contents(Live(files))
    ensures log.Valid()
    ensures !log.broken && !log.closed && log.Records() == rs && log.Start() == first
    ensures log.Durable() == log.nextLsn - 1 == first + |rs| - 1
  {
    hide Live, Contents, OpensStable, Intact, AllUsable, Scan, Cut;
    LogShape(log);
  }

  lemma StartsValid(e: StorageEngine, p: EnginePoint, base: Snapshot)
    requires 2 <= e.kept <= e.retention && Safe(p, e.kept) && Started(e, p, base)
    requires forall i | 0 <= i < |p.snapshots| :: Faithful(p.snapshots[i], p.history)
    requires !RunsAhead(p.snapshots, p.history, e.log.nextLsn - 1)
    requires StateAt(p.history, e.log.nextLsn - 1) == Some(e.databases)
    ensures e.Valid()
  {
    hide Sound, Settled, Strewn, Flat, DurableLsn, StartLsn, Replay, Size, Covered, Faithful, RunsAhead, RestoresPrefix, RecoverFrom,
         WriteAheadLog.Tidy, WriteAheadLog.Traced;
    StartedLog(e, p, base);
    SafeShape(p, e.kept);
    var m: nat := e.log.nextLsn - 1;
    CoveredAfterCrash(p.snapshots, p.history, StartLsn(p.log), DurableLsn(p.log), m, p.acked, e.kept);
    assert e.history[e.log.Start() - 1..] == p.history[e.log.Start() - 1..m];
    assert e.history[e.lastCheckpoint..m] == p.history[e.lastCheckpoint..m];
    assert e.history[..m] == p.history[..m];
  }
}
