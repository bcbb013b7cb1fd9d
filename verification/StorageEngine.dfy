/**
 * packages/storage/src/engine/storage-engine.ts: writes, checkpoints and recovery of the
 * storage engine, with the `flushed` write concern.
 *
 * The snapshot directory is the field `snapshots`, newest first, as `listCheckpoints` lists
 * it. The ghost field `trail` collects the whole data directory after each single disk step.
 */
module StorageEngine {
  import opened Bytes
  import opened Text
  import opened WalFormat
  import opened WalRecovery
  import opened LogSteps
  import opened Leftovers
  import opened Log = WriteAheadLog
  import opened Operations
  import opened Replaying
  import opened EngineRecovery

  // ---------------------------------------------------------------- encoded sizes

  function Size(rs: seq<Record>): nat {
    if rs == [] then 0 else RECORD_HEADER_SIZE + |rs[0].payload| + Size(rs[1..])
  }

  /** `Size` is the number of bytes the records take in the log. */
  lemma {:induction false} SizeIsEncodedSize(rs: seq<Record>)
    requires forall i | 0 <= i < |rs| :: Encodable(rs[i])
    ensures Size(rs) == |Body(rs)|
  {
    hide EncodeRecord;
    if rs != [] {
      SizeIsEncodedSize(rs[1..]);
    }
  }

  lemma {:induction false} SizeAppend(a: seq<Record>, b: seq<Record>)
    ensures Size(a + b) == Size(a) + Size(b)
  {
    if a == [] {
      assert a + b == b;
    } else {
      assert (a + b)[1..] == a[1..] + b;
      SizeAppend(a[1..], b);
    }
  }

  lemma SizeSplits(rs: seq<Record>, a: nat, b: nat, c: nat)
    requires a <= b <= c <= |rs|
    ensures Size(rs[a..c]) == Size(rs[a..b]) + Size(rs[b..c])
  {
    assert rs[a..c] == rs[a..b] + rs[b..c];
    SizeAppend(rs[a..b], rs[b..c]);
  }

  lemma SliceOfPrefix(rs: seq<Record>, n: nat, a: nat, b: nat)
    requires a <= b <= n <= |rs|
    ensures rs[..n][a..b] == rs[a..b]
  {}

  lemma OneSize(rs: seq<Record>, i: nat)
    requires i < |rs|
    ensures Size(rs[i..i + 1]) == RECORD_HEADER_SIZE + |rs[i].payload|
  {
    assert rs[i..i + 1] == [rs[i]] && [rs[i]][1..] == [];
  }

  // ---------------------------------------------------------------- one step of the directory

  ghost function Lift(points: seq<CrashPoint>, snapshots: seq<Snapshot>, history: seq<Record>, acked: int): (t: seq<EnginePoint>)
    ensures |t| == |points| && forall i | 0 <= i < |t| :: t[i] == EnginePoint(points[i], snapshots, history, acked)
  {
    seq(|points|, i requires 0 <= i < |points| => EnginePoint(points[i], snapshots, history, acked))
  }

  /** The last directory of the trail is this one. */
  ghost predicate EndsAt(trail: seq<CrashPoint>, point: CrashPoint) {
    trail != [] && trail[|trail| - 1].disk == point.disk && trail[|trail| - 1].stray == point.stray
  }

  ghost predicate AllSafe(trail: seq<EnginePoint>, kept: nat) {
    forall i | 0 <= i < |trail| :: Safe(trail[i], kept)
  }

  lemma AllSafeJoin(a: seq<EnginePoint>, b: seq<EnginePoint>, kept: nat)
    requires AllSafe(a, kept) && AllSafe(b, kept)
    ensures AllSafe(a + b, kept)
  {
    hide Safe;
  }

  /** More may become durable, and more records may be handed over. */
  lemma CoveredGrows(snapshots: seq<Snapshot>, history: seq<Record>, longer: seq<Record>, start: nat,
                     durable: int, more: int, acked: int, kept: nat)
    requires Covered(snapshots, history, start, durable, acked, kept)
    requires history <= longer && Run(longer, 1) && Replay(map[], longer).Some? && durable <= more
    ensures Covered(snapshots, longer, start, more, acked, kept)
  {
    hide Faithful, Replay;
    forall i | 0 <= i < |snapshots| ensures Faithful(snapshots[i], longer) {
      FaithfulExtends(snapshots[i], history, longer);
    }
  }

  /** And records that never reached the log may be forgotten, if no snapshot holds more. */
  lemma CoveredShort(snapshots: seq<Snapshot>, history: seq<Record>, n: nat, start: nat, durable: int, acked: int, kept: nat)
    requires Covered(snapshots, history, start, durable, acked, kept) && n <= |history| && start <= n + 1
    requires forall i | 0 <= i < |snapshots| :: Faithful(snapshots[i], history[..n])
    ensures Covered(snapshots, history[..n], start, durable, acked, kept)
  {
    hide Faithful, Replay;
    StatesExist(history, n);
  }

  /** Every directory a log call passed through is safe with the snapshots beside it. */
  lemma PassedIsSafe(t0: seq<CrashPoint>, t1: seq<CrashPoint>, start: nat, rs: seq<Record>, durable: int,
                     snapshots: seq<Snapshot>, history: seq<Record>, acked: int, kept: nat)
    requires AllPassed(t0, t1, true, start, rs, durable)
    requires Covered(snapshots, history, start, durable, acked, kept)
    requires rs <= history[start - 1..]
    ensures AllSafe(Lift(t1[|t0|..], snapshots, history, acked), kept)
  {
    hide Sound, Settled, Strewn, Flat, DurableLsn, StartLsn, Covered;
    var points := t1[|t0|..];
    var lifted := Lift(points, snapshots, history, acked);
    assert 1 <= start <= |history| + 1 && Run(history, 1) && Replay(map[], history).Some? by { CoveredShape(snapshots, history, start, durable, acked, kept); }
    forall i | 0 <= i < |lifted| ensures Safe(lifted[i], kept) {
      assert points[i] == t1[|t0| + i];
      assert Passed(t1[|t0| + i], true, start, rs, durable);
      CoveredGrows(snapshots, history, history, start, durable, DurableLsn(points[i]), acked, kept);
    }
  }

  lemma CoveredShape(snapshots: seq<Snapshot>, history: seq<Record>, start: nat, durable: int, acked: int, kept: nat)
    requires Covered(snapshots, history, start, durable, acked, kept)
    ensures 1 <= start <= |history| + 1 && Run(history, 1) && Replay(map[], history).Some? && acked <= durable
    ensures |snapshots| < kept ==> start == 1
    ensures forall i | 0 <= i < |snapshots| :: start <= snapshots[i].lsn + 1 && snapshots[i].lsn <= durable
  {
    hide Replay, Faithful;
  }

  /** A snapshot file appears, replacing one of the same LSN. */
  function Add(snapshots: seq<Snapshot>, s: Snapshot): seq<Snapshot> {
    if snapshots != [] && snapshots[0].lsn == s.lsn then [s] + snapshots[1..] else [s] + snapshots
  }

  lemma CoveredAdd(snapshots: seq<Snapshot>, s: Snapshot, history: seq<Record>, start: nat, durable: int,
                   acked: int, kept: nat)
    requires Covered(snapshots, history, start, durable, acked, kept)
    requires Faithful(s, history) && s.lsn <= durable && start <= s.lsn + 1
    requires forall i | 0 <= i < |snapshots| :: snapshots[i].lsn <= s.lsn
    ensures Covered(Add(snapshots, s), history, start, durable, acked, kept)
  {
    hide Faithful, Replay;
  }

  /** Any snapshot beyond the retained ones may go. */
  lemma CoveredPrune(snapshots: seq<Snapshot>, history: seq<Record>, start: nat, durable: int, acked: int, retention: nat, kept: nat)
    requires Covered(snapshots, history, start, durable, acked, kept) && |snapshots| > retention >= kept
    ensures Covered(snapshots[..retention] + snapshots[retention + 1..], history, start, durable, acked, kept)
  {
    hide Faithful, Replay;
  }

  /** The log may lose what lies at or below the oldest retained snapshot. */
  lemma CoveredTruncate(snapshots: seq<Snapshot>, history: seq<Record>, start: nat, later: nat, durable: int,
                        acked: int, kept: nat)
    requires Covered(snapshots, history, start, durable, acked, kept)
    requires snapshots != [] && kept <= |snapshots| && start <= later
    requires later > start ==> later <= snapshots[|snapshots| - 1].lsn + 1
    ensures Covered(snapshots, history, later, durable, acked, kept)
  {
    hide Faithful, Replay;
    var oldest := snapshots[|snapshots| - 1];
    assert Faithful(oldest, history);
    FaithfulBound(oldest, history);
  }

  lemma FaithfulBound(s: Snapshot, history: seq<Record>)
    requires Faithful(s, history)
    ensures s.lsn <= |history|
  {}

  lemma SuffixedIsSafe(t: CrashPoint, start: nat, rs: seq<Record>, durable: int, through: nat,
                       snapshots: seq<Snapshot>, history: seq<Record>, acked: int, kept: nat)
    requires Suffixed(t, true, start, rs, durable) && through >= StartLsn(t)
    requires Covered(snapshots, history, start, durable, acked, kept) && snapshots != [] && kept <= |snapshots|
    requires through > start ==> through <= snapshots[|snapshots| - 1].lsn + 1
    requires rs <= history[start - 1..]
    ensures Safe(EnginePoint(t, snapshots, history, acked), kept)
  {
    hide Sound, Settled, Strewn, Flat, DurableLsn, StartLsn, Faithful, Replay;
    CoveredTruncate(snapshots, history, start, StartLsn(t), durable, acked, kept);
    var k := StartLsn(t) - start;
    DropMore(history, start - 1, k);
    assert rs[k..] <= history[start - 1..][k..];
  }

  lemma SuffixedPrefix(t0: seq<CrashPoint>, t1: seq<CrashPoint>, start: nat, rs: seq<Record>, durable: int, through: nat)
    requires AllSuffixed(t0, t1, true, start, rs, durable, through)
    ensures t0 <= t1
  {}

  lemma TruncatedIsSafe(t0: seq<CrashPoint>, t1: seq<CrashPoint>, start: nat, rs: seq<Record>, durable: int, through: nat,
                        snapshots: seq<Snapshot>, history: seq<Record>, acked: int, kept: nat)
    requires AllSuffixed(t0, t1, true, start, rs, durable, through)
    requires Covered(snapshots, history, start, durable, acked, kept) && snapshots != [] && kept <= |snapshots|
    requires through > start ==> through <= snapshots[|snapshots| - 1].lsn + 1
    requires rs <= history[start - 1..]
    ensures AllSafe(Lift(t1[|t0|..], snapshots, history, acked), kept)
  {
    hide Sound, Settled, Strewn, Flat, DurableLsn, StartLsn, Covered, Safe, Suffixed;
    var more := Lift(t1[|t0|..], snapshots, history, acked);
    forall i | 0 <= i < |more| ensures Safe(more[i], kept) {
      assert t1[|t0|..][i] == t1[|t0| + i];
      SuffixedIsSafe(t1[|t0| + i], start, rs, durable, through, snapshots, history, acked, kept);
    }
  }

  lemma DurableBound(c: CrashPoint)
    requires Sound(c)
    ensures DurableLsn(c) <= NextLsn(c) - 1 && StartLsn(c) + |Flat(c.parts)| == NextLsn(c)
  {
    hide SegmentOf, Complete, Within;
    FlatLength(c, |c.disk| - 1);
  }

  /** Logging operations that take `s` to `t` extends a history of `s` to one of `t`. */
  lemma RecordReplays(history: seq<Record>, s: State, ops: seq<Operation>, r: Record)
    requires Replay(map[], history) == Some(s) && PlainOps(ops) && EncodeOperations(ops).Some?
    requires r.kind == TRANSACTION && r.payload == EncodeOperations(ops).value
    ensures ApplyRecord(s, r) == ApplyAll(s, ops) == Replay(map[], history + [r])
  {
    hide Replay, ApplyAll, EncodeOperations, DecodeOperations;
    TransactionRoundTrip(ops);
    ReplayAppend(map[], history, [r]);
    ReplayOne(s, r);
  }

  /** The operations fit in one record. */
  predicate CanRecord(lsn: nat, ops: seq<Operation>) {
    EncodeOperations(ops).Some? && Encodable(Record(lsn, TRANSACTION, EncodeOperations(ops).value))
  }

  /** An index definition always fits in a record. */
  lemma CreateIndexFits(op: Operation)
    requires op.CreateIndex? && EncodeOperations([op]).Some?
    ensures |EncodeOperations([op]).value| <= MAX_RECORD_PAYLOAD_SIZE
  {
    assert Fits([op][0]);
    assert EncodeList([op][1..]) == [];
  }

  // ---------------------------------------------------------------- the engine

  /** What a checkpoint that has begun must write, and the log bytes it accounts for. */
  datatype Begun = Begun(lsn: nat, state: State, bytes: int)

  /** A background checkpoint between two of its steps; a doomed one holds a definition no encoder takes. */
  datatype Active = Active(begun: Begun, aborted: bool, automatic: bool, doomed: bool)

  /** It may still write its snapshot. */
  predicate Alive(a: Option<Active>) {
    a.Some? && !a.value.aborted && !a.value.doomed
  }

  /** Writing a snapshot file: no file, a file and then an error, or a file. */
  datatype SnapshotIo = NotWritten | RenamedOnly | Written

  /** How far pruning gets: files unlinked before one fails, and whether each stage passes. */
  datatype FinishIo = FinishIo(unlinks: nat, pruned: bool, segments: nat, synced: bool, truncated: bool)

  datatype CheckpointIo = CheckpointIo(write: WriteIo, sync: bool, snapshot: SnapshotIo, finish: FinishIo, pauses: bool)

  /** Everything that pruning and truncating ask of the disk succeeds. */
  predicate SmoothFinish(io: FinishIo, snapshots: nat, segments: nat) {
    io.unlinks >= snapshots && io.pruned && io.segments >= segments && io.synced && io.truncated
  }

  datatype EngineIo = EngineIo(checkpoint: CheckpointIo, append: AppendIo)

  /** Every call on the log succeeds. */
  predicate Healthy(io: EngineIo) {
    io.checkpoint.write.Wrote? && io.checkpoint.sync && Smooth(io.append)
  }

  class StorageEngine {
    const log: WriteAheadLog
    const retention: nat
    ghost const kept: nat
    const threshold: nat
    const background: bool
    const checkpointOnClose: bool
    var databases: State
    var snapshots: seq<Snapshot>
    var lastCheckpoint: nat
    var bytesSinceCheckpoint: int
    var nextCheckpointAt: int
    var active: Option<Active>
    var closed: bool
    ghost var history: seq<Record>
    ghost var acked: int
    ghost var trail: seq<EnginePoint>

    ghost function Now(): EnginePoint
      reads this`snapshots, this`history, this`acked, log
    {
      EnginePoint(log.Point(), snapshots, history, acked)
    }

    /** `lsn` lies between the last checkpoint and the end of the log, and `size` is the log between. */
    ghost predicate Accounts(lsn: int, size: int)
      reads this`lastCheckpoint, this`history, log
    {
      lastCheckpoint <= lsn <= log.nextLsn - 1 && lsn <= |history| && size == Size(history[lastCheckpoint..lsn])
    }

    /** A begun checkpoint may still be written: its state is faithful, durable and the newest. */
    ghost predicate Writable(b: Begun)
      reads this`lastCheckpoint, this`history, this`snapshots, log
      requires log.Rooted()
    {
      && Accounts(b.lsn, b.bytes)
      && Faithful(Snapshot(b.lsn, b.state), history)
      && b.lsn <= log.Durable()
      && forall i | 0 <= i < |snapshots| :: snapshots[i].lsn <= b.lsn
    }

    /** The trail ends with the directory as it is, and a file left behind in the log stays there. */
    ghost predicate Noted()
      reads this`snapshots, this`trail, log
    {
      Follows(log.Point())
    }

    ghost predicate Follows(point: CrashPoint)
      reads this`snapshots, this`trail
    {
      && trail != [] && trail[|trail| - 1].snapshots == snapshots
      && trail[|trail| - 1].log.disk == point.disk && trail[|trail| - 1].log.stray == point.stray
      && forall i | 0 <= i < |trail| :: trail[i].log.stray <= point.stray
    }

    /**
     * The directory is safe now and was safe at every step so far. `kept` snapshots are always
     * kept: as many as this engine retains, or fewer if an earlier one retained fewer.
     */
    ghost predicate Kept()
      reads this`snapshots, this`history, this`acked, this`trail, this`closed, log
    {
      && (log.closed ==> closed)
      && log.Valid() && log.mode == Flushed && 2 <= kept <= retention
      && Safe(Now(), kept) && Noted()
      && AllSafe(trail, kept)
    }

    /** Every disk call of a checkpoint succeeds. */
    predicate Fine(io: CheckpointIo)
      reads this`snapshots, log`segments
    {
      io.write.Wrote? && io.sync && io.snapshot.Written? && SmoothFinish(io.finish, |snapshots| + 1, |log.segments|)
    }

    /** A record could be appended if the disk takes it. */
    predicate Open()
      reads this`closed, log`broken, log`nextLsn, log`stray
    {
      !closed && !log.broken && log.StrayFree()
    }

    /** The engine closes before its log does, and keeps at least two snapshots. */
    lemma Bounds()
      requires Inv()
      ensures (log.closed ==> closed) && retention >= 2
    {
      hide AllSafe, Safe, WriteAheadLog.Valid, Accounts, Writable, Noted;
    }

    function OldestLsn(): nat
      reads this`snapshots
    {
      if snapshots == [] then 0 else snapshots[|snapshots| - 1].lsn
    }

    predicate LogStartsAfter(lsn: int)
      reads log`segments
    {
      |log.segments| <= 1 || log.segments[1] > lsn + 1
    }

    /** Holds at every step, also while a record is being appended: `history` then has it already. */
    ghost predicate Inv()
      reads this`snapshots, this`lastCheckpoint, this`bytesSinceCheckpoint, this`active,
            this`history, this`acked, this`trail, this`closed, log
    {
      && Kept()
      && 0 <= log.nextLsn - 1 <= |history| <= log.nextLsn
      && Accounts(log.nextLsn - 1, bytesSinceCheckpoint)
      && (Alive(active) ==> Writable(active.value.begun))
    }

    /** Memory is what a snapshot taken now may hold. */
    ghost predicate Current()
      reads this`databases, this`history, log
    {
      !log.broken ==> 0 < log.nextLsn && Faithful(Snapshot(log.nextLsn - 1, databases), history)
    }

    /** Between calls: memory is exactly the replayed log, unless a failed append broke it. */
    ghost predicate Valid()
      reads this`databases, this`snapshots, this`lastCheckpoint, this`bytesSinceCheckpoint, this`active,
            this`history, this`acked, this`trail, this`closed, log
    {
      && Inv()
      && (!log.broken ==> |history| == log.nextLsn - 1)
      && StateAt(history, log.nextLsn - 1) == Some(databases)
    }

    constructor (log: WriteAheadLog, retention: nat, threshold: nat, background: bool, checkpointOnClose: bool,
                 databases: State, snapshots: seq<Snapshot>, lastCheckpoint: nat, bytesSinceCheckpoint: nat,
                 ghost history: seq<Record>, ghost acked: int, ghost kept: nat)
      ensures this.kept == kept && this.log == log && this.retention == retention && this.threshold == threshold
      ensures this.background == background && this.checkpointOnClose == checkpointOnClose
      ensures this.databases == databases && this.snapshots == snapshots && this.lastCheckpoint == lastCheckpoint
      ensures this.bytesSinceCheckpoint == bytesSinceCheckpoint && nextCheckpointAt == threshold
      ensures active == None && !closed
      ensures this.history == history && this.acked == acked && trail == [Now()]
    {
      this.log, this.retention, this.kept, this.threshold := log, retention, kept, threshold;
      this.background, this.checkpointOnClose := background, checkpointOnClose;
      this.databases, this.snapshots, this.lastCheckpoint := databases, snapshots, lastCheckpoint;
      this.bytesSinceCheckpoint, this.nextCheckpointAt := bytesSinceCheckpoint, threshold;
      this.active, this.closed := None, false;
      this.history, this.acked := history, acked;
      this.trail := [EnginePoint(log.Point(), snapshots, history, acked)];
    }

    /** Where both trails stand before a log call. */
    lemma TrailsMeet()
      requires log.Valid() && Noted()
      ensures EndsAt(log.trail, log.Point()) && Follows(log.Point())
    {
      hide Sound, Settled, DurableLsn, WriteAheadLog.Tidy;
    }

    /** Notes the directories the log passed through since it was at `point`. */
    ghost method Extend(before: seq<CrashPoint>, point: CrashPoint)
      requires log.Valid() && before <= log.trail && EndsAt(before, point) && Follows(point)
      requires AllSafe(trail, kept) && AllSafe(Lift(log.trail[|before|..], snapshots, history, acked), kept)
      modifies this`trail
      ensures old(trail) <= trail
      ensures AllSafe(trail, kept) && Noted()
      ensures trail == old(trail) + Lift(log.trail[|before|..], snapshots, history, acked)
    {
      hide Safe, AllSafe, Sound, Settled, DurableLsn, WriteAheadLog.Tidy;
      var more := Lift(log.trail[|before|..], snapshots, history, acked);
      AllSafeJoin(trail, more, kept);
      assert point.stray <= log.stray by { assert log.trail[|before| - 1] == before[|before| - 1]; }
      assert forall i | 0 <= i < |more| :: more[i].log == log.trail[|before| + i];
      trail := trail + more;
    }

    /** The same for a log call whose directories all passed. */
    ghost method Note(before: seq<CrashPoint>, point: CrashPoint, start: nat, rs: seq<Record>, durable: int)
      requires log.Valid() && EndsAt(before, point) && Follows(point)
      requires AllSafe(trail, kept)
      requires AllPassed(before, log.trail, true, start, rs, durable)
      requires Covered(snapshots, history, start, durable, acked, kept)
      requires rs <= history[start - 1..]
      modifies this`trail
      ensures old(trail) <= trail
      ensures AllSafe(trail, kept) && Noted()
      ensures trail == old(trail) + Lift(log.trail[|before|..], snapshots, history, acked)
    {
      hide Safe, Covered, Passed, Lift, AllSafe, WriteAheadLog.Valid, Follows;
      PassedIsSafe(before, log.trail, start, rs, durable, snapshots, history, acked, kept);
      Extend(before, point);
    }

    /** The log call of a checkpoint. */
    method SyncLog(write: WriteIo, sync: bool) returns (ok: bool)
      requires Kept()
      modifies this`trail, log`disk, log`broken, log`unsynced, log`trail, log`pending, log`pendingBytes
      ensures old(trail) <= trail
      ensures write.Wrote? && sync && !old(log.broken) && !log.closed ==> ok
      ensures write.Wrote? && sync && !old(log.broken) && !log.closed ==> !log.broken
      ensures Kept() && log.Durable() >= old(log.Durable()) && (old(log.broken) ==> log.broken)
      ensures ok ==> !log.broken && log.Durable() == log.nextLsn - 1
      ensures forall i | 0 <= i < |snapshots| :: snapshots[i].lsn <= log.Durable()
    {
      hide Sound, Settled, Strewn, Flat, DurableLsn, StartLsn, Covered, AllPassed, Lift, AllSafe, Safe, Noted, Follows, EndsAt,
           WriteAheadLog.Tidy, WriteAheadLog.Traced;
      TrailsMeet();
      ghost var t0, p0, d0 := log.trail, log.Point(), log.Durable();
      NowIsCovered();
      CoveredShape(snapshots, history, log.Start(), d0, acked, kept);
      ok := log.Sync(write, sync);
      Note(t0, p0, log.Start(), log.Records(), d0);
      CoveredGrows(snapshots, history, history, log.Start(), d0, log.Durable(), acked, kept);
      NowIsSafe();
    }

    /** Flushes the log and notes what the snapshot must contain; None when there is nothing to do. */
    method BeginCheckpoint(write: WriteIo, sync: bool) returns (r: Result<Option<Begun>>)
      requires Inv() && Current()
      modifies this`trail, log`disk, log`broken, log`unsynced, log`trail, log`pending, log`pendingBytes
      ensures old(trail) <= trail
      ensures write.Wrote? && sync && !old(log.broken) && !log.closed ==> r.Ok? && !log.broken
      ensures r.Ok? && log.nextLsn > 1 && log.nextLsn - 1 != lastCheckpoint ==> r.value == Some(Begun(log.nextLsn - 1, databases, bytesSinceCheckpoint))
      ensures Inv()
      ensures old(log.broken) ==> log.broken
      ensures r.Ok? && r.value.Some? ==> Writable(r.value.value) && r.value.value.lsn == log.nextLsn - 1
      ensures r.Ok? && r.value.None? ==> log.nextLsn - 1 == 0 || log.nextLsn - 1 == lastCheckpoint
    {
      hide Kept, Size, Faithful, WriteAheadLog.Valid, DurableLsn, StartLsn;
      var lsn := log.nextLsn - 1;
      if lsn == 0 || lsn == lastCheckpoint {
        return Ok(None);
      }
      var ok := SyncLog(write, sync);
      if !ok {
        return Failed;
      }
      return Ok(Some(Begun(lsn, databases, bytesSinceCheckpoint)));
    }

    /** Notes the directory as it is now. */
    ghost method NoteNow()
      requires AllSafe(trail, kept) && Safe(Now(), kept)
      requires trail != [] && forall i | 0 <= i < |trail| :: trail[i].log.stray <= log.stray
      modifies this`trail
      ensures old(trail) <= trail
      ensures AllSafe(trail, kept) && Noted() && trail == old(trail) + [Now()]
    {
      hide Safe;
      trail := trail + [Now()];
    }

    method PlaceSnapshot(s: Snapshot)
      requires Kept() && Faithful(s, history) && s.lsn <= log.Durable()
      requires forall i | 0 <= i < |snapshots| :: snapshots[i].lsn <= s.lsn
      modifies this`snapshots, this`trail
      ensures old(trail) <= trail
      ensures Kept() && snapshots == Add(old(snapshots), s)
    {
      hide Sound, Settled, Strewn, Flat, DurableLsn, StartLsn, Faithful, Covered, Safe, AllSafe, Add, WriteAheadLog.Tidy, WriteAheadLog.Traced;
      NowIsCovered();
      CoveredShape(snapshots, history, log.Start(), log.Durable(), acked, kept);
      assert snapshots != [] ==> log.Start() <= snapshots[0].lsn + 1;
      CoveredAdd(snapshots, s, history, log.Start(), log.Durable(), acked, kept);
      snapshots := Add(snapshots, s);
      NowIsSafe();
      NoteNow();
    }

    /** Renames a finished snapshot into place, replacing one of the same LSN. */
    method WriteSnapshot(begun: Begun, io: SnapshotIo) returns (ok: bool)
      requires Inv() && Writable(begun)
      requires active.Some? ==> active.value.aborted
      modifies this`snapshots, this`trail
      ensures old(trail) <= trail
      ensures Inv() && Writable(begun)
      ensures !io.NotWritten? ==> snapshots == Add(old(snapshots), Snapshot(begun.lsn, begun.state))
      ensures io.NotWritten? ==> snapshots == old(snapshots)
      ensures io.Written? <==> ok
    {
      hide Kept, Accounts, Faithful, WriteAheadLog.Valid, DurableLsn, StartLsn;
      if io.NotWritten? {
        return false;
      }
      PlaceSnapshot(Snapshot(begun.lsn, begun.state));
      return io.Written?;
    }

    /** Removes the newest snapshot beyond the retained ones. */
    method PruneOne()
      requires Inv() && |snapshots| > retention
      modifies this`snapshots, this`trail
      ensures old(trail) <= trail
      ensures Inv() && snapshots == old(snapshots)[..retention] + old(snapshots)[retention + 1..]
    {
      hide Sound, Settled, Strewn, Flat, DurableLsn, StartLsn, Faithful, Covered, Safe, AllSafe, Replay, Size, Accounts,
           WriteAheadLog.Tidy, WriteAheadLog.Traced;
      NowIsCovered();
      CoveredPrune(snapshots, history, log.Start(), log.Durable(), acked, retention, kept);
      snapshots := snapshots[..retention] + snapshots[retention + 1..];
      NowIsSafe();
      NoteNow();
    }

    /** Removes the snapshots beyond the retained ones. */
    method Prune(unlinks: nat) returns (ok: bool)
      requires Inv()
      modifies this`snapshots, this`trail
      ensures old(trail) <= trail
      ensures old(snapshots) != [] ==> snapshots != [] && snapshots[0] == old(snapshots)[0]
      ensures unlinks >= |old(snapshots)| ==> ok
      ensures Inv() && (ok ==> |snapshots| <= retention)
      ensures snapshots[..if |snapshots| <= retention then |snapshots| else retention]
           == old(snapshots[..if |snapshots| <= retention then |snapshots| else retention])
      ensures forall s | s in snapshots :: s in old(snapshots)
    {
      hide Inv;
      Bounds();
      var removed := 0;
      while |snapshots| > retention
        invariant Inv()
        invariant |old(snapshots)| <= retention ==> snapshots == old(snapshots)
        invariant |old(snapshots)| > retention ==> |snapshots| >= retention && snapshots[..retention] == old(snapshots)[..retention]
        invariant forall s | s in snapshots :: s in old(snapshots)
        invariant old(trail) <= trail && removed + |snapshots| == |old(snapshots)| && removed <= unlinks
        decreases |snapshots|
      {
        if removed == unlinks {
          return false;
        }
        PruneOne();
        removed := removed + 1;
      }
      return true;
    }

    /** Removes log segments that only hold records the oldest retained snapshot covers. */
    method TruncateLog(segments: nat, synced: bool) returns (ok: bool)
      requires snapshots != [] && |snapshots| == retention && Inv()
      modifies this`trail, log`disk, log`segments, log`parts, log`trail
      ensures old(trail) <= trail
      ensures segments >= |old(log.segments)| && synced && !log.closed && !log.broken ==> ok
      ensures Inv()
      ensures ok ==> LogStartsAfter(OldestLsn())
    {
      hide Sound, Settled, Strewn, Flat, DurableLsn, StartLsn, Faithful, Covered, Replay, Size, AllSafe, Safe, Suffixed, Lift, WriteAheadLog.Tidy, Noted, Follows, EndsAt, WriteAheadLog.Traced, AllSuffixed;
      TrailsMeet();
      ghost var t0, p0, start, rs, durable := log.trail, log.Point(), log.Start(), log.Records(), log.Durable();
      NowIsCovered();
      var r := log.TruncateThrough(snapshots[retention - 1].lsn, segments, synced);
      SuffixedPrefix(t0, log.trail, start, rs, durable, log.Start());
      TruncatedIsSafe(t0, log.trail, start, rs, durable, log.Start(), snapshots, history, acked, kept);
      SuffixedIsSafe(log.Point(), start, rs, durable, log.Start(), snapshots, history, acked, kept);
      Extend(t0, p0);
      return r.Ok?;
    }

    lemma NowIsSafe()
      requires log.Rooted() && log.mode == Flushed
      requires Covered(snapshots, history, log.Start(), log.Durable(), acked, kept)
      requires log.Records() <= history[log.Start() - 1..]
      ensures Safe(Now(), kept)
    {
      hide Sound, Settled, Strewn, Flat, DurableLsn, StartLsn, Covered;
    }

    lemma NowIsCovered()
      requires log.Rooted() && Safe(Now(), kept)
      ensures Covered(snapshots, history, log.Start(), log.Durable(), acked, kept)
      ensures log.Records() <= history[log.Start() - 1..]
    {
      hide Sound, Settled, Strewn, Flat, DurableLsn, StartLsn, Covered;
    }

    /** Prunes snapshots and log, then moves the accounts forward to the new checkpoint. */
    method FinishCheckpoint(begun: Begun, io: FinishIo) returns (ok: bool)
      requires Inv() && Accounts(begun.lsn, begun.bytes)
      requires active.Some? ==> active.value.aborted
      modifies this`snapshots, this`trail, this`lastCheckpoint, this`bytesSinceCheckpoint, this`nextCheckpointAt,
               log`disk, log`segments, log`parts, log`trail
      ensures old(trail) <= trail
      ensures !log.closed && !log.broken && SmoothFinish(io, |old(snapshots)|, |old(log.segments)|) ==> ok
      ensures Inv()
      ensures old(snapshots) != [] ==> snapshots != [] && snapshots[0] == old(snapshots)[0]
      ensures ok && !closed ==> lastCheckpoint == begun.lsn && |snapshots| <= retention
      ensures ok && !closed ==> bytesSinceCheckpoint == old(bytesSinceCheckpoint) - begun.bytes >= 0
      ensures nextCheckpointAt == if ok && !closed then threshold else old(nextCheckpointAt)
    {
      hide Sound, Settled, Strewn, Flat, DurableLsn, StartLsn, Faithful, Covered, Replay, AllSafe, Safe, Size, Kept, Writable, WriteAheadLog.Valid;
      if closed {
        return true;
      }
      Bounds();
      ok := Prune(io.unlinks);
      if !ok || !io.pruned {
        return false;
      }
      if |snapshots| == retention {
        ok := TruncateLog(io.segments, io.synced);
        if !ok {
          return false;
        }
      }
      if !io.truncated {
        return false;
      }
      SizeSplits(history, lastCheckpoint, begun.lsn, log.nextLsn - 1);
      var rest := bytesSinceCheckpoint - begun.bytes;
      lastCheckpoint := begun.lsn;
      bytesSinceCheckpoint := if rest < 0 then 0 else rest;
      nextCheckpointAt := threshold;
      return true;
    }

    /** Cancels a background checkpoint. */
    method CancelActive()
      requires Inv()
      modifies this`active
      ensures Inv() && (active.Some? ==> active.value.aborted) && (old(active).None? ==> active == None)
    {
      hide Kept, Accounts, Writable;
      if active.Some? {
        active := Some(active.value.(aborted := true));
      }
    }

    /** Writes a snapshot in one go; cancels a background checkpoint first. Fails where the source throws. */
    method Checkpoint(io: CheckpointIo) returns (ok: bool)
      requires Inv() && Current()
      modifies this`snapshots, this`trail, this`lastCheckpoint, this`bytesSinceCheckpoint, this`nextCheckpointAt,
               this`active, log`disk, log`broken, log`unsynced, log`trail, log`pending, log`pendingBytes,
               log`segments, log`parts
      ensures old(trail) <= trail
      ensures !closed && !old(log.broken) && old(Fine(io)) ==> ok
      ensures io.write.Wrote? && io.sync && !closed && !old(log.broken) ==> !log.broken
      ensures ok && log.nextLsn > 1 && log.nextLsn - 1 != old(lastCheckpoint) ==> snapshots != [] && snapshots[0] == Snapshot(log.nextLsn - 1, databases)
      ensures Inv() && (old(log.broken) ==> log.broken)
      ensures active.Some? && !closed ==> active.value.aborted
      ensures ok ==> !closed && lastCheckpoint == log.nextLsn - 1 && bytesSinceCheckpoint == 0
      ensures nextCheckpointAt == old(nextCheckpointAt) || (ok && nextCheckpointAt == threshold)
      ensures ok && log.nextLsn > 1 && log.nextLsn - 1 != old(lastCheckpoint) ==> nextCheckpointAt == threshold
    {
      hide Sound, Settled, Strewn, Flat, DurableLsn, StartLsn, Faithful, Covered, Replay, AllSafe, Safe, Size, Kept, Accounts, Inv, Current, WriteAheadLog.Valid;
      Bounds();
      if closed {
        return false;
      }
      CancelActive();
      var begun := BeginCheckpoint(io.write, io.sync);
      if begun.Failed? {
        return false;
      }
      if begun.value.None? {
        NothingLeft();
        return true;
      }
      ok := WriteSnapshot(begun.value.value, io.snapshot);
      if ok {
        ok := FinishCheckpoint(begun.value.value, io.finish);
        NothingLeft();
      }
    }

    lemma NothingLeft()
      requires Inv()
      ensures lastCheckpoint <= log.nextLsn - 1
      ensures lastCheckpoint == log.nextLsn - 1 ==> bytesSinceCheckpoint == 0
    {
      hide Kept;
      assert Accounts(log.nextLsn - 1, bytesSinceCheckpoint);
      assert history[lastCheckpoint..lastCheckpoint] == [];
    }

    /** Starts a background checkpoint unless one is running, and finishes it if it never pauses. */
    method CheckpointAsync(io: CheckpointIo, automatic: bool) returns (ok: bool)
      requires Inv() && Current()
      modifies this`snapshots, this`trail, this`lastCheckpoint, this`bytesSinceCheckpoint, this`nextCheckpointAt,
               this`active, log`disk, log`broken, log`unsynced, log`trail, log`pending, log`pendingBytes,
               log`segments, log`parts
      ensures old(trail) <= trail
      ensures io.write.Wrote? && io.sync && !closed && !old(log.broken) ==> !log.broken
      ensures !closed && !old(log.broken) && old(Fine(io)) ==> ok
      ensures !closed && !old(log.broken) && old(Fine(io)) && old(active).None? && log.nextLsn > 1 && log.nextLsn - 1 != old(lastCheckpoint) ==>
        if io.pauses then active == Some(Active(Begun(log.nextLsn - 1, databases, old(bytesSinceCheckpoint)), false, automatic, false))
        else active == None && lastCheckpoint == log.nextLsn - 1
      ensures Inv() && (old(log.broken) ==> log.broken)
      ensures old(active.Some?) && !closed ==> ok && active == old(active) && snapshots == old(snapshots)
      ensures ok && old(active).None? ==> active.Some? || lastCheckpoint == log.nextLsn - 1
    {
      hide Sound, Settled, Strewn, Flat, DurableLsn, StartLsn, Faithful, Covered, Replay, AllSafe, Safe, Size, Kept, Accounts;
      Bounds();
      if closed {
        return false;
      }
      if active.Some? {
        return true;
      }
      var begun := BeginCheckpoint(io.write, io.sync);
      if begun.Failed? {
        return false;
      }
      if begun.value.None? {
        NothingLeft();
        return true;
      }
      active := Some(Active(begun.value.value, false, automatic, false));
      ok := true;
      if !io.pauses {
        ok := StepCheckpoint(io);
      }
    }

    /** The last step of a background checkpoint: drop it if it was cancelled, or write and finish it. */
    method StepCheckpoint(io: CheckpointIo) returns (ok: bool)
      requires Inv() && active.Some?
      modifies this`snapshots, this`trail, this`lastCheckpoint, this`bytesSinceCheckpoint, this`nextCheckpointAt,
               this`active, log`disk, log`segments, log`parts, log`trail
      ensures old(trail) <= trail
      ensures old(Alive(active)) && !log.closed && !log.broken && io.snapshot.Written? && SmoothFinish(io.finish, |old(snapshots)| + 1, |old(log.segments)|) ==> ok
      ensures Inv() && active == None
      ensures old(active.value.aborted) ==> ok && snapshots == old(snapshots) && lastCheckpoint == old(lastCheckpoint)
      ensures !old(Alive(active)) ==> ok == old(active.value.aborted) && snapshots == old(snapshots) && lastCheckpoint == old(lastCheckpoint)
      ensures ok && !old(active.value.aborted) && !closed ==>
        && lastCheckpoint == old(active.value.begun.lsn)
        && bytesSinceCheckpoint == old(bytesSinceCheckpoint) - old(active.value.begun.bytes) >= 0
      ensures ok && old(Alive(active)) && !closed ==> nextCheckpointAt == threshold
      ensures !ok && old(active.value.automatic) ==> nextCheckpointAt == bytesSinceCheckpoint + threshold
    {
      hide Sound, Settled, Strewn, Flat, DurableLsn, StartLsn, Faithful, Covered, Replay, AllSafe, Safe, Size, Kept, Accounts;
      var a := active.value;
      active := None;
      if a.aborted {
        return true;
      }
      ok := false;
      if !a.doomed {
        ok := WriteSnapshot(a.begun, io.snapshot);
        if ok {
          ok := FinishCheckpoint(a.begun, io.finish);
        }
      }
      if !ok && a.automatic {
        nextCheckpointAt := bytesSinceCheckpoint + threshold;
      }
    }

    /** A checkpoint at the start of an append, once enough log has been written. */
    method RunDueCheckpoint(io: CheckpointIo)
      requires Inv() && Current()
      modifies this`snapshots, this`trail, this`lastCheckpoint, this`bytesSinceCheckpoint, this`nextCheckpointAt,
               this`active, log`disk, log`broken, log`unsynced, log`trail, log`pending, log`pendingBytes,
               log`segments, log`parts
      ensures old(trail) <= trail
      ensures io.write.Wrote? && io.sync && !closed && !old(log.broken) ==> !log.broken
      ensures !closed && !old(log.broken) && old(Fine(io)) && !background && old(bytesSinceCheckpoint >= nextCheckpointAt && active.None?) ==> bytesSinceCheckpoint == 0 && lastCheckpoint == log.nextLsn - 1
      ensures Inv() && (old(log.broken) ==> log.broken)
      ensures old(bytesSinceCheckpoint < nextCheckpointAt || active.Some?) ==>
        snapshots == old(snapshots) && active == old(active) && log.broken == old(log.broken)
      ensures old(bytesSinceCheckpoint < nextCheckpointAt || active.Some?) ==> nextCheckpointAt == old(nextCheckpointAt)
      ensures old(bytesSinceCheckpoint >= nextCheckpointAt && active.None?) ==>
        active.Some? || lastCheckpoint == log.nextLsn - 1 || nextCheckpointAt == bytesSinceCheckpoint + threshold
    {
      hide Sound, Settled, Strewn, Flat, DurableLsn, StartLsn, Faithful, Covered, Replay, AllSafe, Safe, Size, Inv;
      Bounds();
      if bytesSinceCheckpoint < nextCheckpointAt || active.Some? {
        return;
      }
      var ok;
      if background {
        ok := CheckpointAsync(io, true);
      } else {
        ok := Checkpoint(io);
      }
      if !ok {
        nextCheckpointAt := bytesSinceCheckpoint + threshold;
      }
    }

    /** A due checkpoint of a state that cannot be encoded: the log is flushed, and no file appears, now or later. */
    method FailDueCheckpoint(io: CheckpointIo)
      requires Inv()
      modifies this`trail, this`nextCheckpointAt, this`active, log`disk, log`broken, log`unsynced, log`trail, log`pending, log`pendingBytes
      ensures old(trail) <= trail
      ensures io.write.Wrote? && io.sync && !closed && !old(log.broken) ==> !log.broken
      ensures Inv() && (old(log.broken) ==> log.broken)
      ensures active == old(active) || (old(active) == None && active.Some? && active.value.doomed)
    {
      hide Kept, Size, Faithful, WriteAheadLog.Valid, DurableLsn, StartLsn;
      Bounds();
      if bytesSinceCheckpoint < nextCheckpointAt || active.Some? || log.nextLsn == 1 || log.nextLsn - 1 == lastCheckpoint {
        return;
      }
      var ok := SyncLog(io.write, io.sync);
      if ok && background && io.pauses {
        active := Some(Active(Begun(log.nextLsn - 1, databases, bytesSinceCheckpoint), false, true, true));
        return;
      }
      nextCheckpointAt := bytesSinceCheckpoint + threshold;
    }

    /** A record that is about to be handed to the log. */
    ghost predicate Pending(payload: bytes)
      reads this`history, log
    {
      |history| == log.nextLsn > 0 && history[log.nextLsn - 1] == Record(log.nextLsn, TRANSACTION, payload)
    }

    /** Another history that the snapshots and the log agree with just as well. */
    ghost method Revise(h: seq<Record>)
      requires Kept() && Covered(snapshots, h, log.Start(), log.Durable(), acked, kept)
      requires log.Start() - 1 <= |h| && log.Records() <= h[log.Start() - 1..]
      modifies this`history
      ensures Kept() && history == h
    {
      hide Sound, Settled, Strewn, Flat, DurableLsn, StartLsn, Covered, Safe, AllSafe, Noted, WriteAheadLog.Tidy, WriteAheadLog.Traced;
      history := h;
      NowIsSafe();
    }

    ghost method Launch(record: Record)
      requires Inv() && |history| == log.nextLsn - 1
      requires Loggable(record) && record.lsn == log.nextLsn && Replay(map[], history + [record]).Some?
      modifies this`history
      ensures Inv() && history == old(history) + [record]
    {
      hide Replay, Size, Faithful, Run, WriteAheadLog.Valid, DurableLsn, StartLsn, Kept, Covered, Loggable;
      var longer := history + [record];
      CoveredLonger(record);
      SliceOfPrefix(longer, |history|, lastCheckpoint, log.nextLsn - 1);
      assert longer[..|history|] == history;
      if Alive(active) {
        var b := active.value.begun;
        FaithfulExtends(Snapshot(b.lsn, b.state), history, longer);
        SliceOfPrefix(longer, |history|, lastCheckpoint, b.lsn);
      }
      Revise(longer);
    }

    lemma CoveredLonger(record: Record)
      requires Kept() && |history| == log.nextLsn - 1
      requires Loggable(record) && record.lsn == log.nextLsn && Replay(map[], history + [record]).Some?
      ensures
        var longer := history + [record];
        && Covered(snapshots, longer, log.Start(), log.Durable(), acked, kept)
        && log.Start() - 1 <= |longer| && log.Records() <= longer[log.Start() - 1..]
    {
      hide Sound, Settled, Strewn, Flat, DurableLsn, StartLsn, Faithful, Covered, Safe, Replay, AllSafe, Noted, Loggable,
           WriteAheadLog.Tidy, WriteAheadLog.Traced;
      NowIsCovered();
      CoveredShape(snapshots, history, log.Start(), log.Durable(), acked, kept);
      CoveredGrows(snapshots, history, history + [record], log.Start(), log.Durable(), log.Durable(), acked, kept);
      assert history[log.Start() - 1..] <= (history + [record])[log.Start() - 1..];
    }

    /** Every snapshot, written or begun, is one of the history `h`. */
    ghost predicate Matches(h: seq<Record>)
      reads this`snapshots, this`active
    {
      && (forall i | 0 <= i < |snapshots| :: Faithful(snapshots[i], h))
      && (Alive(active) ==>
            Faithful(Snapshot(active.value.begun.lsn, active.value.begun.state), h))
    }

    lemma MatchesHistory()
      requires Inv()
      ensures Matches(history)
    {
      hide Sound, Settled, Strewn, Flat, DurableLsn, StartLsn, Faithful, Replay, AllSafe, Size, WriteAheadLog.Valid;
    }

    /** Forgets a record whose append failed without breaking the log. */
    ghost method Retract()
      requires Inv() && !log.broken && Matches(history[..log.nextLsn - 1])
      modifies this`history
      ensures Inv() && history == old(history)[..log.nextLsn - 1]
    {
      hide Replay, Size, Faithful, Run, WriteAheadLog.Valid, DurableLsn, StartLsn, Kept, Covered, Matches;
      MatchesAll(history[..log.nextLsn - 1]);
      CoveredShorter();
      SliceOfPrefix(history, log.nextLsn - 1, lastCheckpoint, log.nextLsn - 1);
      if Alive(active) {
        SliceOfPrefix(history, log.nextLsn - 1, lastCheckpoint, active.value.begun.lsn);
      }
      Revise(history[..log.nextLsn - 1]);
    }

    lemma CoveredShorter()
      requires Kept() && !log.broken && 0 <= log.nextLsn - 1 <= |history|
      requires forall i | 0 <= i < |snapshots| :: Faithful(snapshots[i], history[..log.nextLsn - 1])
      ensures
        var short := history[..log.nextLsn - 1];
        && Covered(snapshots, short, log.Start(), log.Durable(), acked, kept)
        && log.Start() - 1 <= |short| && log.Records() <= short[log.Start() - 1..]
    {
      hide Sound, Settled, Strewn, Flat, DurableLsn, StartLsn, Faithful, Covered, Safe, Replay, AllSafe, Noted, LastBytes, Names,
           WriteAheadLog.Traced;
      NowIsCovered();
      CoveredShape(snapshots, history, log.Start(), log.Durable(), acked, kept);
      DurableBound(log.Point());
      SoundShape(log.Point());
      CoveredShort(snapshots, history, log.nextLsn - 1, log.Start(), log.Durable(), acked, kept);
    }

    lemma MatchesAll(h: seq<Record>)
      requires Matches(h)
      ensures forall i | 0 <= i < |snapshots| :: Faithful(snapshots[i], h)
      ensures Alive(active) ==> Faithful(Snapshot(active.value.begun.lsn, active.value.begun.state), h)
    {
      hide Faithful;
    }

    /** The caller may now be told that everything counted so far is kept. */
    ghost method Acknowledge()
      requires Inv() && !log.unsynced
      modifies this`acked, this`trail
      ensures old(trail) <= trail
      ensures Inv() && acked == log.nextLsn - 1
    {
      hide Sound, Settled, Strewn, Flat, DurableLsn, StartLsn, Faithful, Replay, Size, WriteAheadLog.Tidy;
      acked := log.nextLsn - 1;
      trail := trail + [Now()];
    }

    lemma RecordsAreRest()
      requires Inv() && !log.broken && |history| == log.nextLsn
      ensures 1 <= log.Start() <= log.nextLsn
      ensures log.Records() + [history[log.nextLsn - 1]] == history[log.Start() - 1..]
    {
      hide Sound, Settled, Strewn, Flat, DurableLsn, StartLsn, Faithful, Replay, AllSafe, Size;
      NowIsCovered();
      DurableBound(log.Point());
      SoundShape(log.Point());
    }

    method HandOverRecord(payload: bytes, io: AppendIo) returns (r: Result<nat>)
      requires Inv() && !log.broken && Pending(payload)
      modifies this`trail, log`disk, log`broken, log`unsynced, log`trail,
               log`pending, log`pendingBytes, log`segments, log`position, log`parts, log`nextLsn, log`stray
      ensures old(trail) <= trail
      ensures !io.create.LeftBehind? ==> log.stray == old(log.stray)
      ensures Smooth(io) && old(log.StrayFree()) && Encodable(Record(old(log.nextLsn), TRANSACTION, payload)) && !log.closed ==> r.Ok?
      ensures Kept() && log.Start() == old(log.Start()) && log.Durable() >= old(log.Durable())
      ensures r.Ok? ==> !log.broken && log.nextLsn == old(log.nextLsn) + 1
      ensures r.Failed? ==> log.nextLsn == old(log.nextLsn)
    {
      hide Sound, Settled, Strewn, Flat, DurableLsn, StartLsn, Faithful, Replay, AllSafe, Size, Covered, AllPassed, Lift,
           WriteAheadLog.Tidy, Last, LastBytes, Names, NextLsn, Accounts, Writable, Noted, Follows, EndsAt, WriteAheadLog.Traced;
      TrailsMeet();
      ghost var t0, p0, d0, start, rs := log.trail, log.Point(), log.Durable(), log.Start(), log.Records();
      NowIsCovered();
      CoveredShape(snapshots, history, start, d0, acked, kept);
      RecordsAreRest();
      r := log.Append(TRANSACTION, payload, io);
      CoveredGrows(snapshots, history, history, start, d0, log.Durable(), acked, kept);
      Note(t0, p0, start, rs + [Record(old(log.nextLsn), TRANSACTION, payload)], d0);
    }

    /** Hands the pending record to the log and adds it to the accounts. */
    method LogRecord(payload: bytes, io: AppendIo) returns (ok: bool)
      requires Inv() && !log.broken && Pending(payload)
      modifies this`trail, this`bytesSinceCheckpoint, log`disk, log`broken, log`unsynced, log`trail,
               log`pending, log`pendingBytes, log`segments, log`position, log`parts, log`nextLsn, log`stray
      ensures old(trail) <= trail
      ensures !io.create.LeftBehind? ==> log.stray == old(log.stray)
      ensures Smooth(io) && old(log.StrayFree()) && Encodable(Record(old(log.nextLsn), TRANSACTION, payload)) && !log.closed ==> ok
      ensures Inv()
      ensures ok ==> !log.broken && |history| == log.nextLsn - 1 == old(log.nextLsn)
      ensures ok && !log.groupCommit ==> !log.unsynced
      ensures !ok ==> log.nextLsn == old(log.nextLsn)
    {
      hide Sound, Settled, Strewn, Flat, DurableLsn, StartLsn, Faithful, Replay, AllSafe, Size, Safe, WriteAheadLog.Tidy;
      var r := HandOverRecord(payload, io);
      if r.Failed? {
        return false;
      }
      SizeSplits(history, lastCheckpoint, log.nextLsn - 2, log.nextLsn - 1);
      OneSize(history, log.nextLsn - 2);
      bytesSinceCheckpoint := bytesSinceCheckpoint + RECORD_HEADER_SIZE + |payload|;
      return true;
    }

    /** Appends a record that memory does not reflect yet; a failure that leaves the log usable leaves no trace. */
    method Journal(record: Record, io: AppendIo) returns (ok: bool)
      requires Inv() && !log.broken && |history| == log.nextLsn - 1
      requires record.lsn == log.nextLsn && record.kind == TRANSACTION && Encodable(record)
      requires Replay(map[], history + [record]).Some?
      modifies this`trail, this`bytesSinceCheckpoint, this`history, log`disk, log`broken, log`unsynced, log`trail,
               log`pending, log`pendingBytes, log`segments, log`position, log`parts, log`nextLsn, log`stray
      ensures old(trail) <= trail
      ensures ok ==> !log.broken
      ensures !io.create.LeftBehind? ==> log.stray == old(log.stray)
      ensures Smooth(io) && old(log.StrayFree()) && !log.closed ==> ok
      ensures Inv()
      ensures ok ==> !log.broken && log.nextLsn == old(log.nextLsn) + 1 && history == old(history) + [record]
      ensures ok && !log.groupCommit ==> !log.unsynced
      ensures !ok ==> log.nextLsn == old(log.nextLsn) && history[..log.nextLsn - 1] == old(history)
      ensures !ok && !log.broken ==> history == old(history)
    {
      hide Sound, Settled, Strewn, Flat, DurableLsn, StartLsn, Replay, AllSafe, Size, Safe, Kept, Accounts, Writable,
           Early, Matches, WriteAheadLog.Valid;
      Bounds();
      MatchesHistory();
      ghost var before := history;
      Launch(record);
      assert history[..log.nextLsn - 1] == before;
      ok := LogRecord(record.payload, io);
      if !ok && !log.broken {
        Retract();
      }
    }

    /** A due checkpoint between two calls. */
    method CheckpointIfDue(io: CheckpointIo)
      requires Valid()
      modifies this`snapshots, this`trail, this`lastCheckpoint, this`bytesSinceCheckpoint, this`nextCheckpointAt,
               this`active, log`disk, log`broken, log`unsynced, log`trail, log`pending, log`pendingBytes,
               log`segments, log`parts
      ensures old(trail) <= trail && Valid() && (old(log.broken) ==> log.broken)
      ensures io.write.Wrote? && io.sync && !closed && !old(log.broken) ==> !log.broken
    {
      hide Inv, Replay, Early;
      RunDueCheckpoint(io);
      Advanced();
    }

    lemma Advanced()
      requires Inv()
      ensures 0 <= log.nextLsn - 1 <= |history|
    {
      hide Kept, Accounts, Writable;
    }

    /** Logs operations that memory does not reflect yet, and then applies them to it. */
    method Store(ops: seq<Operation>, io: AppendIo) returns (ok: bool)
      requires Valid() && !log.broken && !closed && PlainOps(ops) && ApplyAll(databases, ops).Some? && EncodeOperations(ops).Some?
      requires Encodable(Record(log.nextLsn, TRANSACTION, EncodeOperations(ops).value))
      modifies this`databases, this`trail, this`bytesSinceCheckpoint, this`history, this`acked, log`disk, log`broken, log`unsynced,
               log`trail, log`pending, log`pendingBytes, log`segments, log`position, log`parts, log`nextLsn, log`stray
      ensures old(trail) <= trail
      ensures ok ==> !log.broken
      ensures !io.create.LeftBehind? ==> log.stray == old(log.stray)
      ensures Smooth(io) && old(log.StrayFree()) ==> ok
      ensures Valid()
      ensures ok ==> Some(databases) == ApplyAll(old(databases), ops)
      ensures ok ==> history == old(history) + [Record(old(log.nextLsn), TRANSACTION, EncodeOperations(ops).value)]
      ensures ok && !log.groupCommit ==> acked == log.nextLsn - 1
      ensures !ok ==> databases == old(databases) && log.nextLsn == old(log.nextLsn) && acked == old(acked)
      ensures !ok && !log.broken ==> history == old(history)
    {
      hide Sound, Settled, Strewn, Flat, DurableLsn, StartLsn, Replay, AllSafe, Size, Safe, ApplyAll, Kept, Accounts, Writable,
           PlainOps, EncodeOperations, Early, Matches, Encodable, WriteAheadLog.Valid;
      Bounds();
      assert history[..log.nextLsn - 1] == history;
      var record := Record(log.nextLsn, TRANSACTION, EncodeOperations(ops).value);
      RecordReplays(history, databases, ops, record);
      ok := Journal(record, io);
      if !ok {
        return false;
      }
      databases := ApplyAll(databases, ops).value;
      assert history[..log.nextLsn - 1] == history;
      if !log.groupCommit {
        Acknowledge();
      }
    }

    /**
     * A journaled write: the operations become one record, and memory follows only once the
     * log has it. Failing leaves memory as it was.
     */
    method Write(ops: seq<Operation>, io: EngineIo) returns (ok: bool)
      requires Valid() && PlainOps(ops) && ApplyAll(databases, ops).Some?
      modifies this`databases, this`snapshots, this`trail, this`lastCheckpoint, this`bytesSinceCheckpoint,
               this`nextCheckpointAt, this`active, this`history, this`acked, log`disk, log`broken, log`unsynced,
               log`trail, log`pending, log`pendingBytes, log`segments, log`position, log`parts, log`nextLsn, log`stray
      ensures old(trail) <= trail
      ensures ok ==> !log.broken && log.nextLsn == old(log.nextLsn) + 1
      ensures !io.append.create.LeftBehind? ==> log.stray == old(log.stray)
      ensures Healthy(io) && old(Open()) ==> !log.broken
      ensures old(Open()) && Healthy(io) && CanRecord(old(log.nextLsn), ops) ==> ok
      ensures Valid()
      ensures ok ==> !closed && Some(databases) == ApplyAll(old(databases), ops)
      ensures ok ==> EncodeOperations(ops).Some?
      ensures ok ==> history == old(history) + [Record(old(log.nextLsn), TRANSACTION, EncodeOperations(ops).value)]
      ensures ok && !log.groupCommit ==> acked == log.nextLsn - 1
      ensures !ok ==> databases == old(databases) && log.nextLsn == old(log.nextLsn) && acked == old(acked)
      ensures !ok && !log.broken ==> history == old(history)
    {
      hide Inv, StateAt, ApplyAll, PlainOps, EncodeOperations, Encodable;
      Bounds();
      if closed {
        return false;
      }
      CheckpointIfDue(io.checkpoint);
      var payload := EncodeOperations(ops);
      if payload.None? || log.broken || !Encodable(Record(log.nextLsn, TRANSACTION, payload.value)) {
        return false;
      }
      ok := Store(ops, io.append);
    }

    /** Memory already holds the index, and so may a snapshot taken from here on. */
    method PlaceIndex(op: Operation, record: Record)
      requires Valid() && !log.broken && op.CreateIndex? && PlainOps([op]) && Apply(databases, op).Some?
      requires EncodeOperations([op]).Some? && Encodable(record)
      requires record == Record(log.nextLsn, TRANSACTION, EncodeOperations([op]).value)
      modifies this`databases, this`history
      ensures Inv() && Current() && Pending(record.payload) && Matches(old(history))
      ensures history == old(history) + [record] && Some(databases) == Apply(old(databases), op)
      ensures StateAt(history, log.nextLsn - 1) == Some(old(databases)) && StateAt(history, log.nextLsn) == Some(databases)
    {
      hide Sound, Settled, Strewn, Flat, DurableLsn, StartLsn, Replay, AllSafe, Size, Safe, Kept, Accounts, Writable,
           Matches, EncodeOperations, DecodeOperations, PlainOps, Apply, WriteAheadLog.Valid;
      ghost var before := history;
      assert history[..|history|] == history;
      RecordReplays(history, databases, [op], record);
      ApplyOne(databases, op);
      TransactionRoundTrip([op]);
      MatchesHistory();
      Launch(record);
      databases := Apply(databases, op).value;
      assert history[..log.nextLsn - 1] == before && history[..log.nextLsn] == history;
    }

    /**
     * Creating an index. Memory changes first, so a checkpoint due in the same call may hold
     * the index before the log does. Every directory on the way is safe; the engine itself
     * stays consistent unless such a checkpoint ran and the append then failed. A definition
     * too long to encode fails in both places, so no trace of it is left.
     */
    method CreateIndex(op: Operation, io: EngineIo) returns (ok: bool)
      requires Valid() && op.CreateIndex? && PlainOps([op]) && Apply(databases, op).Some?
      requires log.nextLsn < 0x1_0000_0000_0000_0000
      modifies this`databases, this`snapshots, this`trail, this`lastCheckpoint, this`bytesSinceCheckpoint,
               this`nextCheckpointAt, this`active, this`history, this`acked, log`disk, log`broken, log`unsynced,
               log`trail, log`pending, log`pendingBytes, log`segments, log`position, log`parts, log`nextLsn, log`stray
      ensures old(trail) <= trail
      ensures ok ==> !log.broken && log.nextLsn == old(log.nextLsn) + 1
      ensures !io.append.create.LeftBehind? ==> log.stray == old(log.stray)
      ensures Healthy(io) && old(Open()) ==> !log.broken
      ensures old(Open()) && Healthy(io) && EncodeOperations([op]).Some? ==> ok
      ensures Inv()
      ensures ok || log.broken || EncodeOperations([op]).None? || old(bytesSinceCheckpoint < nextCheckpointAt || active.Some?) ==> Valid()
      ensures ok ==> !closed && Some(databases) == Apply(old(databases), op) && EncodeOperations([op]).Some?
      ensures ok ==> history == old(history) + [Record(old(log.nextLsn), TRANSACTION, EncodeOperations([op]).value)]
      ensures ok && !log.groupCommit ==> acked == log.nextLsn - 1
      ensures !ok ==> databases == old(databases) && log.nextLsn == old(log.nextLsn) && acked == old(acked)
    {
      hide Sound, Settled, Strewn, Flat, DurableLsn, StartLsn, Replay, AllSafe, Size, Safe, Kept, Accounts, Writable,
           Matches, EncodeOperations, PlainOps, Apply, Faithful, StateAt, WriteAheadLog.Valid, Inv, Current;
      Bounds();
      Advanced();
      if closed || log.broken {
        return false;
      }
      if EncodeOperations([op]).None? {
        FailDueCheckpoint(io.checkpoint);
        return false;
      }
      CreateIndexFits(op);
      ok := CreateFitting(op, io);
    }

    /** Takes the index out of memory again, and its record out of the history if no snapshot has it. */
    method TakeBack(before: State, ghost past: seq<Record>)
      requires Inv() && (!log.broken ==> history[..log.nextLsn - 1] == past)
      modifies this`databases, this`history
      ensures Inv() && databases == before
      ensures history == old(history) || (!log.broken && history == past)
      ensures !log.broken && old(Matches(past)) ==> history == past
    {
      hide Inv, Matches;
      databases := before;
      Advanced();
      if !log.broken && Matches(past) {
        Retract();
      }
    }

    /** The same for a definition that fits. */
    method CreateFitting(op: Operation, io: EngineIo) returns (ok: bool)
      requires Valid() && !closed && !log.broken && op.CreateIndex? && PlainOps([op]) && Apply(databases, op).Some?
      requires log.nextLsn < 0x1_0000_0000_0000_0000 && CanRecord(log.nextLsn, [op])
      modifies this`databases, this`snapshots, this`trail, this`lastCheckpoint, this`bytesSinceCheckpoint,
               this`nextCheckpointAt, this`active, this`history, this`acked, log`disk, log`broken, log`unsynced,
               log`trail, log`pending, log`pendingBytes, log`segments, log`position, log`parts, log`nextLsn, log`stray
      ensures old(trail) <= trail
      ensures ok ==> !log.broken && log.nextLsn == old(log.nextLsn) + 1
      ensures !io.append.create.LeftBehind? ==> log.stray == old(log.stray)
      ensures Healthy(io) && old(log.StrayFree()) ==> ok
      ensures Inv()
      ensures ok || log.broken || old(bytesSinceCheckpoint < nextCheckpointAt || active.Some?) ==> Valid()
      ensures ok ==> Some(databases) == Apply(old(databases), op)
      ensures ok ==> history == old(history) + [Record(old(log.nextLsn), TRANSACTION, EncodeOperations([op]).value)]
      ensures ok && !log.groupCommit ==> acked == log.nextLsn - 1
      ensures !ok ==> databases == old(databases) && log.nextLsn == old(log.nextLsn) && acked == old(acked)
    {
      hide Sound, Settled, Strewn, Flat, DurableLsn, StartLsn, Replay, AllSafe, Size, Safe, Kept, Accounts, Writable,
           Matches, EncodeOperations, PlainOps, Apply, Faithful, StateAt, WriteAheadLog.Valid, Inv, Current;
      Bounds();
      Advanced();
      var before := databases;
      ghost var past := history;
      var record := Record(log.nextLsn, TRANSACTION, EncodeOperations([op]).value);
      PlaceIndex(op, record);
      RunDueCheckpoint(io.checkpoint);
      ok := LogPlaced(record.payload, io.append);
      Advanced();
      if !ok {
        assert history == past + [record] && history[..log.nextLsn - 1] == past;
        TakeBack(before, past);
        assert history[..log.nextLsn - 1] == past;
      }
    }

    /** Logs the record that memory already reflects, unless a checkpoint broke the log. */
    method LogPlaced(payload: bytes, io: AppendIo) returns (ok: bool)
      requires Inv() && (!log.broken ==> Pending(payload))
      modifies this`trail, this`bytesSinceCheckpoint, this`acked, log`disk, log`broken, log`unsynced,
               log`trail, log`pending, log`pendingBytes, log`segments, log`position, log`parts, log`nextLsn, log`stray
      ensures old(trail) <= trail
      ensures ok ==> !log.broken
      ensures !io.create.LeftBehind? ==> log.stray == old(log.stray)
      ensures !old(log.broken) && Smooth(io) && old(log.StrayFree()) && Encodable(Record(old(log.nextLsn), TRANSACTION, payload)) && !log.closed ==> ok
      ensures Inv()
      ensures ok ==> !log.broken && |history| == log.nextLsn - 1 == old(log.nextLsn)
      ensures ok && !log.groupCommit ==> acked == log.nextLsn - 1
      ensures !ok ==> log.nextLsn == old(log.nextLsn) && acked == old(acked)
      ensures old(log.broken) ==> !ok && log.broken
    {
      hide Inv;
      ok := false;
      if !log.broken {
        ok := LogRecord(payload, io);
      }
      if ok && !log.groupCommit {
        Acknowledge();
      }
    }

    method CommitLog(syncOk: bool) returns (ok: bool)
      requires Kept()
      modifies this`trail, log`disk, log`broken, log`unsynced, log`trail
      ensures old(trail) <= trail
      ensures syncOk && !old(log.broken) ==> !log.broken
      ensures syncOk && !old(log.broken) ==> ok
      ensures Kept() && log.Durable() >= old(log.Durable()) && (old(log.broken) ==> log.broken)
      ensures ok && !closed ==> !log.unsynced
    {
      hide Sound, Settled, Strewn, Flat, DurableLsn, StartLsn, Covered, AllPassed, Lift, AllSafe, Safe, WriteAheadLog.Tidy, Noted, Follows, EndsAt, WriteAheadLog.Traced;
      TrailsMeet();
      ghost var t0, p0, d0 := log.trail, log.Point(), log.Durable();
      NowIsCovered();
      CoveredShape(snapshots, history, log.Start(), d0, acked, kept);
      ok := log.Commit(syncOk);
      Note(t0, p0, log.Start(), log.Records(), d0);
      CoveredGrows(snapshots, history, history, log.Start(), d0, log.Durable(), acked, kept);
      NowIsSafe();
    }

    /** Under group commit, flushing is what acknowledges the writes so far. */
    method Commit(syncOk: bool) returns (ok: bool)
      requires Valid()
      modifies this`trail, this`acked, log`disk, log`broken, log`unsynced, log`trail
      ensures old(trail) <= trail
      ensures syncOk && !old(log.broken) ==> !log.broken
      ensures syncOk && !old(log.broken) ==> ok
      ensures Valid() && log.nextLsn == old(log.nextLsn)
      ensures ok && !closed ==> acked == log.nextLsn - 1
      ensures !ok ==> acked == old(acked)
    {
      hide Sound, Settled, Strewn, Flat, DurableLsn, StartLsn, Faithful, Safe, AllSafe, Size, StateAt, WriteAheadLog.Tidy;
      if closed {
        return true;
      }
      ok := CommitLog(syncOk);
      if ok {
        Acknowledge();
      }
    }

    /** The log call of `close`. */
    method CloseLog(write: WriteIo, syncOk: bool) returns (ok: bool)
      requires Kept()
      modifies this`trail, this`closed, log`disk, log`broken, log`unsynced, log`trail, log`pending, log`pendingBytes, log`closed
      ensures old(trail) <= trail
      ensures write.Wrote? && syncOk && !old(log.broken) ==> ok
      ensures Kept() && closed && log.Durable() >= old(log.Durable()) && (old(log.broken) ==> log.broken)
    {
      hide Sound, Settled, Strewn, Flat, DurableLsn, StartLsn, Faithful, Covered, AllPassed, Lift, AllSafe, Safe, Size, WriteAheadLog.Tidy, Noted, Follows, EndsAt, WriteAheadLog.Traced;
      closed := true;
      TrailsMeet();
      ghost var t0, p0, d0 := log.trail, log.Point(), log.Durable();
      NowIsCovered();
      CoveredShape(snapshots, history, log.Start(), d0, acked, kept);
      ok := log.Close(write, syncOk);
      Note(t0, p0, log.Start(), log.Records(), d0);
      CoveredGrows(snapshots, history, history, log.Start(), d0, log.Durable(), acked, kept);
      NowIsSafe();
    }

    /** Cancels a background checkpoint, takes a last one if asked to, and closes the log. */
    method Close(io: CheckpointIo, write: WriteIo, syncOk: bool) returns (ok: bool)
      requires Valid()
      modifies this`snapshots, this`trail, this`lastCheckpoint, this`bytesSinceCheckpoint, this`nextCheckpointAt,
               this`active, this`closed, log`disk, log`broken, log`unsynced, log`trail, log`pending, log`pendingBytes,
               log`segments, log`parts, log`closed
      ensures old(trail) <= trail
      ensures !old(closed || log.broken) && old(Fine(io)) && write.Wrote? && syncOk ==> ok
      ensures Inv() && closed && databases == old(databases) && history == old(history)
      ensures ok && !old(closed) && checkpointOnClose ==> lastCheckpoint == log.nextLsn - 1
    {
      hide Kept, Size, StateAt, Early, WriteAheadLog.Valid, DurableLsn, StartLsn;
      Bounds();
      if closed {
        return true;
      }
      ok := true;
      CancelActive();
      if checkpointOnClose && lastCheckpoint < log.nextLsn - 1 {
        ok := Checkpoint(io);
      }
      NothingLeft();
      var closedOk := CloseLog(write, syncOk);
      ok := ok && closedOk;
    }

    /**
     * The crash theorem over whole runs: at whichever step the power fails, and whichever
     * snapshots are lost beyond that, the next start accepts the directory exactly if the files
     * the log has left behind in it are tolerated, always if there are none, and then restores
     * a prefix of everything written that contains everything acknowledged before that step.
     */
    lemma EveryCrashRecovers(step: nat, after: seq<File>, candidates: seq<Candidate>)
      requires Inv() && step < |trail|
      requires PowerLoss(Directory(trail[step].log), after)
      requires DamagedCopy(trail[step].snapshots, candidates) && Lost(candidates) < kept
      ensures Sound(trail[step].log)
      ensures Intact(after) <==> Tolerates(trail[step].log, after)
      ensures Intact(after) ==>
        var p := trail[step];
        AllUsable(Live(after)) &&
        var recovered := RecoverFrom(Base(candidates), StartLsn(p.log), Contents(Live(after)));
        && recovered.Some?
        && exists n | p.acked <= n <= |p.history| :: 0 <= n && StateAt(p.history, n) == recovered
    {
      hide Covered, Sound, Settled, Strewn, Flat, DurableLsn, StartLsn, Intact, AllUsable, PowerLoss, DamagedCopy, Lost, Contents, Live,
           RecoverFrom, Base, StateAt, Faithful, WriteAheadLog.Valid, Accounts, Writable, Tolerates, Merge, RestoresPrefix;
      assert Safe(trail[step], kept);
      CrashRefinement(trail[step], kept, after, candidates);
      if Intact(after) {
        RestoredState(trail[step], Contents(Live(after)), Base(candidates));
      }
    }
  }

  lemma RestoredState(p: EnginePoint, rs: seq<Record>, base: Snapshot)
    requires Sound(p.log) && RestoresPrefix(p.history, p.acked, StartLsn(p.log), rs, base)
    ensures
      var recovered := RecoverFrom(base, StartLsn(p.log), rs);
      && recovered.Some?
      && exists n | p.acked <= n <= |p.history| :: 0 <= n && StateAt(p.history, n) == recovered
  {
    hide Sound, StateAt, Faithful, RecoverFrom, StartLsn;
  }
}
