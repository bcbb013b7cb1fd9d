/**
 * packages/storage/src/wal/write-ahead-log.ts: the `WriteAheadLog` class.
 *
 * The directory is the field `disk`; what the operating system answers to each call is a
 * parameter, so every method is proved for every pattern of failures. The ghost field
 * `trail` collects the directory after each single disk step, which is where a crash can
 * strike.
 */
module WriteAheadLog {
  import opened Bytes
  import opened Text
  import opened WalFormat
  import opened WalRecovery
  import opened LogSteps
  import opened Leftovers

  datatype WriteConcern = Memory | Journaled | Flushed

  const MEMORY_FLUSH_BYTES := 64 * 1024

  /** How a write went: completely, or cut short after some bytes. */
  datatype WriteIo = Wrote | Short(written: nat, diskFull: bool, cut: bool)

  /** How creating the next segment went; on failure the partial file is removed again, or that fails too. */
  datatype CreateIo = Created(seen: nat) | NotCreated(seen: nat) | LeftBehind(seen: nat)

  datatype AppendIo = AppendIo(
    rotateWrite: WriteIo, rotateSync: bool, create: CreateIo, closeOld: bool, write: WriteIo, sync: bool)

  /** Every call on the disk succeeds. */
  predicate Smooth(io: AppendIo) {
    io.rotateWrite.Wrote? && io.rotateSync && io.create.Created? && io.closeOld && io.write.Wrote? && io.sync
  }

  datatype Result<+T> = Ok(value: T) | Failed

  /**
   * `t` is a directory from which a crash recovers: some prefix of `log`, holding at least
   * everything up to `durable`.
   */
  ghost predicate Passed(t: CrashPoint, flushed: bool, start: nat, log: seq<Record>, durable: int) {
    && Sound(t)
    && (flushed ==> Settled(t))
    && StartLsn(t) == start
    && Flat(t.parts) <= log
    && durable <= DurableLsn(t)
    && Strewn(t, flushed)
  }

  ghost predicate AllPassed(from: seq<CrashPoint>, to: seq<CrashPoint>,
                            flushed: bool, start: nat, log: seq<Record>, durable: int) {
    && from <= to
    && forall i | |from| <= i < |to| :: Passed(to[i], flushed, start, log, durable)
  }

  lemma NonePassed(trail: seq<CrashPoint>, flushed: bool, start: nat, log: seq<Record>, durable: int)
    ensures AllPassed(trail, trail, flushed, start, log, durable)
  {}

  lemma AllPassedWider(a: seq<CrashPoint>, b: seq<CrashPoint>, flushed: bool, start: nat, log: seq<Record>, log': seq<Record>, durable: int)
    requires AllPassed(a, b, flushed, start, log, durable) && log <= log'
    ensures AllPassed(a, b, flushed, start, log', durable)
  {
    hide Sound, Settled, Flat, StartLsn, DurableLsn, Strewn;
  }

  lemma AllPassedJoin(a: seq<CrashPoint>, b: seq<CrashPoint>, c: seq<CrashPoint>,
                      flushed: bool, start: nat, log: seq<Record>, log': seq<Record>, durable: int, durable': int)
    requires AllPassed(a, b, flushed, start, log, durable) && AllPassed(b, c, flushed, start, log', durable')
    requires log <= log' && durable <= durable'
    ensures AllPassed(a, c, flushed, start, log', durable)
  {
    hide Sound, Settled, Flat, StartLsn, DurableLsn;
    forall i | |a| <= i < |c| ensures Passed(c[i], flushed, start, log', durable) {
      if i < |b| {
        assert c[i] == b[i];
      }
    }
  }

  /** A directory in which the next segment has begun to appear. */
  lemma NewSegmentPassed(c: CrashPoint, f: File, flushed: bool)
    requires Sound(c) && Complete(Last(c), LastPart(c)) && SegmentOf(f, []) && f.name == NextLsn(c)
    requires flushed ==> Settled(c) && Last(c).synced == |Last(c).data|
    requires Strewn(c, flushed) && forall i | 0 <= i < |c.stray| :: c.stray[i].name != f.name
    ensures Passed(c.(disk := c.disk + [f], parts := c.parts + [[]]), flushed, StartLsn(c), Flat(c.parts), DurableLsn(c))
  {
    hide Sound, Settled, Flat, DurableLsn, StartLsn, SegmentOf, Complete, Strewn;
    AddSegment(c, f);
    StrewnNew(c, f, flushed);
  }

  lemma PositiveLsn(c: CrashPoint)
    requires Sound(c)
    ensures NextLsn(c) > 0
  {
    assert SegmentOf(Last(c), LastPart(c));
  }

  lemma SelfPassed(c: CrashPoint, flushed: bool)
    requires Sound(c) && (flushed ==> Settled(c)) && Strewn(c, flushed)
    ensures Passed(c, flushed, StartLsn(c), Flat(c.parts), DurableLsn(c))
  {
    hide Sound, Settled, Flat, DurableLsn, StartLsn, Strewn;
  }

  /** Files beside the segments change nothing about them. */
  lemma StrayPassed(c: CrashPoint, flushed: bool, stray: seq<File>)
    requires Sound(c) && (flushed ==> Settled(c))
    ensures
      var c' := c.(stray := stray);
      && Sound(c') && (flushed ==> Settled(c')) && StartLsn(c') == StartLsn(c) && DurableLsn(c') == DurableLsn(c)
      && Last(c') == Last(c) && LastPart(c') == LastPart(c) && LastBytes(c') == LastBytes(c) && NextLsn(c') == NextLsn(c)
      && (Strewn(c', flushed) ==> Passed(c', flushed, StartLsn(c), Flat(c.parts), DurableLsn(c)))
  {
    hide SegmentOf, Complete, Within, SegmentBytes, Strewn;
  }

  lemma NewName(disk: seq<File>, stray: seq<File>, f: File)
    requires f.name !in Names(disk) && NamedBelow(stray, f.name - 1) && forall i | 0 <= i < |stray| :: stray[i].name != f.name
    ensures forall i | 0 <= i < |stray| :: stray[i].name < f.name
    ensures forall j | 0 <= j < |disk| :: disk[j].name != f.name
    ensures NamedBelow(stray + [f], f.name - 1)
  {
    forall j | 0 <= j < |disk| ensures disk[j].name != f.name {
      assert Names(disk)[j] == disk[j].name;
    }
  }

  lemma QueuedBytes(data: bytes, pending: seq<bytes>, encoded: bytes)
    ensures data + Flat(pending + [encoded]) == data + Flat(pending) + encoded
    ensures |Flat(pending + [encoded])| == |Flat(pending)| + |encoded|
  {
    assert (pending + [encoded])[..|pending|] == pending;
    Regroup(data, Flat(pending), encoded, []);
  }

  lemma NoBody()
    ensures Body([]) == []
  {}

  lemma EarlierNames(c: CrashPoint)
    requires Sound(c)
    ensures forall i | 0 <= i < |c.disk| :: c.disk[i].name <= Last(c).name
    ensures forall n | n in Names(c.disk) :: n <= Last(c).name
  {
    hide SegmentOf, Complete;
    forall i | 0 <= i < |c.disk| ensures c.disk[i].name <= Last(c).name {
      NamesRise(c, i);
    }
  }

  lemma {:induction false} NamesRise(c: CrashPoint, i: nat)
    requires Sound(c) && i < |c.disk|
    ensures c.disk[i].name <= Last(c).name
    decreases |c.disk| - i
  {
    hide SegmentOf, Complete;
    if i < |c.disk| - 1 {
      NamesRise(c, i + 1);
      assert c.disk[i + 1].name == c.disk[i].name + |c.parts[i]|;
    }
  }

  lemma NothingLeftBehind(stray: seq<File>, lsn: nat)
    ensures Leaves(stray, stray, lsn)
  {}

  ghost predicate Leaves(before: seq<File>, after: seq<File>, lsn: nat) {
    before <= after && |after| <= |before| + 1 && (|after| > |before| ==> Leftover(after[|before|]) && after[|before|].name == lsn)
  }

  lemma SoundShape(c: CrashPoint)
    requires Sound(c)
    ensures |c.disk| == |c.parts| > 0
    ensures SegmentOf(Last(c), LastPart(c))
    ensures Last(c).synced <= |Last(c).data| && Last(c).data <= LastBytes(c)
    ensures StartLsn(c) <= NextLsn(c)
  {
    FlatLength(c, |c.disk| - 1);
  }

  /** A record handed to the last segment before any of it is written. */
  lemma HandOver(c: CrashPoint, r: Record)
    requires Sound(c) && Loggable(r) && r.lsn == NextLsn(c)
    requires |Last(c).data| >= SEGMENT_HEADER_SIZE
    ensures
      var c' := WithLast(c, Last(c), LastPart(c) + [r]);
      && Sound(c') && StartLsn(c') == StartLsn(c) && c'.disk == c.disk
      && Flat(c'.parts) == Flat(c.parts) + [r]
      && LastBytes(c') == LastBytes(c) + EncodeRecord(r)
      && Last(c') == Last(c) && NextLsn(c') == NextLsn(c) + 1
      && DurableLsn(c') == DurableLsn(c)
      && (Settled(c) ==> Settled(c'))
  {
    hide EncodeRecord, Within, Sound, Settled, SegmentBytes;
    SoundShape(c);
    var f, rs := Last(c), LastPart(c);
    SegmentBytesSnoc(f.name, rs, r);
    assert SegmentOf(f, rs + [r]);
    ReplaceLast(c, f, rs + [r]);
    LastBytesLength(c);
    WithinSnoc(rs, r, f.synced);
    LastStays(c);
    Regroup(Flat(c.parts[..|c.parts| - 1]), rs, [r], []);
    assert Flat(c.parts) + [r] == Flat(c.parts[..|c.parts| - 1]) + (rs + [r]);
  }

  lemma LastBytesLength(c: CrashPoint)
    requires Sound(c)
    ensures |LastBytes(c)| == SEGMENT_HEADER_SIZE + |Body(LastPart(c))|
  {
    hide EncodeRecord, EncodeSegmentHeader;
  }

  lemma LastStays(c: CrashPoint)
    requires Sound(c)
    ensures c.disk[..|c.disk| - 1] + [Last(c)] == c.disk
    ensures c.parts[..|c.parts| - 1] + [LastPart(c)] == c.parts
    ensures |c.disk| == 1 && Last(c).name > 1 ==> |Last(c).data| >= SEGMENT_HEADER_SIZE
    ensures Settled(c) ==> |c.disk| == 1 && Last(c).name > 1 ==> Last(c).synced >= SEGMENT_HEADER_SIZE
  {
    hide EncodeRecord, EncodeSegmentHeader, SegmentOf, Complete;
  }

  /** Writing more of what was handed over, or making more of it stable. */
  lemma Advance(c: CrashPoint, data: bytes, synced: nat)
    requires Sound(c) && Last(c).data <= data <= LastBytes(c)
    requires Last(c).synced <= synced <= |data|
    ensures
      var f := Last(c).(data := data, synced := synced);
      var c' := WithLast(c, f, LastPart(c));
      && Sound(c') && StartLsn(c') == StartLsn(c) && c'.parts == c.parts
      && Last(c') == f && LastPart(c') == LastPart(c)
      && DurableLsn(c) <= DurableLsn(c')
      && (synced == Last(c).synced ==> DurableLsn(c') == DurableLsn(c))
      && (Settled(c) ==> Settled(c'))
  {
    hide EncodeRecord, Within, Sound, Settled, SegmentBytes;
    SoundShape(c);
    LastStays(c);
    var f := Last(c).(data := data, synced := synced);
    assert SegmentOf(f, LastPart(c));
    ReplaceLast(c, f, LastPart(c));
    WithinMonotone(LastPart(c), Last(c).synced, synced);
  }

  /** The same, as a step of a run. */
  lemma AdvancePassed(c: CrashPoint, data: bytes, synced: nat, flushed: bool)
    requires Sound(c) && (flushed ==> Settled(c)) && Strewn(c, flushed) && Last(c).data <= data <= LastBytes(c)
    requires Last(c).synced <= synced <= |data|
    ensures
      var f := Last(c).(data := data, synced := synced);
      var c' := c.(disk := c.disk[..|c.disk| - 1] + [f]);
      && Sound(c') && (flushed ==> Settled(c')) && Strewn(c', flushed) && StartLsn(c') == StartLsn(c)
      && Last(c') == f && LastBytes(c') == LastBytes(c) && NextLsn(c') == NextLsn(c) && Names(c'.disk) == Names(c.disk)
      && DurableLsn(c) <= DurableLsn(c') && (synced == Last(c).synced ==> DurableLsn(c') == DurableLsn(c))
      && Passed(c', flushed, StartLsn(c), Flat(c.parts), DurableLsn(c))
  {
    hide Sound, Settled, Flat, SegmentBytes, DurableLsn, StartLsn, Strewn;
    SoundShape(c);
    Advance(c, data, synced);
    var f := Last(c).(data := data, synced := synced);
    var c' := c.(disk := c.disk[..|c.disk| - 1] + [f]);
    LastStays(c);
    assert c' == WithLast(c, f, LastPart(c));
    assert Names(c'.disk) == Names(c.disk);
    StrewnSame(c, c', flushed);
  }

  lemma FlatEmpty<T>()
    ensures Flat<T>([]) == []
  {}

  /** Any part of a header is part of an empty segment. */
  lemma HeaderSegment(first: u64, k: nat)
    requires first > 0 && k <= SEGMENT_HEADER_SIZE
    ensures SegmentBytes(first, []) == EncodeSegmentHeader(first)
    ensures SegmentOf(File(first, EncodeSegmentHeader(first)[..k], 0), [])
    ensures SegmentOf(File(first, EncodeSegmentHeader(first), 0), [])
    ensures SegmentOf(File(first, EncodeSegmentHeader(first), SEGMENT_HEADER_SIZE), [])
  {
    hide EncodeSegmentHeader;
    EmptySegment(first);
  }

  lemma AllSynced(c: CrashPoint)
    requires Sound(c) && Last(c).data == LastBytes(c) && Last(c).synced == |Last(c).data|
    ensures DurableLsn(c) == NextLsn(c) - 1
  {
    hide EncodeRecord, EncodeSegmentHeader;
    var rs := LastPart(c);
    assert rs[..|rs|] == rs;
    WholeAtLeast(rs, |rs|, |Body(rs)|);
  }

  /** The records above an LSN. */
  function After(rs: seq<Record>, lsn: int): seq<Record> {
    if rs == [] then [] else (if rs[0].lsn > lsn then [rs[0]] else []) + After(rs[1..], lsn)
  }

  lemma {:induction false} AfterAppend(a: seq<Record>, b: seq<Record>, lsn: int)
    ensures After(a + b, lsn) == After(a, lsn) + After(b, lsn)
  {
    if a == [] {
      assert a + b == b;
    } else {
      assert (a + b)[1..] == a[1..] + b;
      AfterAppend(a[1..], b, lsn);
    }
  }

  lemma {:induction false} AfterNothing(rs: seq<Record>, lsn: int)
    requires forall i | 0 <= i < |rs| :: rs[i].lsn <= lsn
    ensures After(rs, lsn) == []
  {
    if rs != [] {
      AfterNothing(rs[1..], lsn);
    }
  }

  /** On consecutive records, the ones above an LSN are a suffix. */
  lemma {:induction false} AfterIsSuffix(rs: seq<Record>, first: nat, lsn: int)
    requires Run(rs, first) && first <= lsn + 1 <= first + |rs|
    ensures After(rs, lsn) == rs[lsn + 1 - first..]
  {
    if rs != [] {
      if lsn + 1 == first {
        AfterIsSuffix(rs[1..], first + 1, lsn + 1);
        AfterEverything(rs, lsn);
      } else {
        AfterIsSuffix(rs[1..], first + 1, lsn);
      }
    }
  }

  lemma {:induction false} AfterEverything(rs: seq<Record>, lsn: int)
    requires forall i | 0 <= i < |rs| :: rs[i].lsn > lsn
    ensures After(rs, lsn) == rs
  {
    if rs != [] {
      AfterEverything(rs[1..], lsn);
    }
  }

  lemma FlatSnoc<T>(parts: seq<seq<T>>, n: nat)
    requires n < |parts|
    ensures Flat(parts[..n + 1]) == Flat(parts[..n]) + parts[n]
  {
    assert parts[..n + 1][..n] == parts[..n];
  }

  lemma DropMore<T>(s: seq<T>, a: nat, b: nat)
    requires a + b <= |s|
    ensures s[a..][b..] == s[a + b..]
  {}

  /** The record loop of `records`. */
  method ScanAfter(data: bytes, first: nat, after: int) returns (found: seq<Record>, stop: Stop)
    requires |data| >= SEGMENT_HEADER_SIZE
    ensures
      var s := ScanFrom(data, SEGMENT_HEADER_SIZE, first);
      found == After(s.records, after) && stop == s.stop
  {
    hide ScanRecord;
    var offset, expected := SEGMENT_HEADER_SIZE, first;
    found := [];
    ghost var whole := ScanFrom(data, SEGMENT_HEADER_SIZE, first);
    while true
      invariant SEGMENT_HEADER_SIZE <= offset <= |data|
      invariant
        var rest := ScanFrom(data, offset, expected);
        whole.stop == rest.stop && After(whole.records, after) == found + After(rest.records, after)
      decreases |data| - offset
    {
      var result := ScanRecord(data, offset, expected);
      match result {
        case End => return found, Clean;
        case Torn => return found, TornTail;
        case Corrupt => return found, Damaged;
        case Found(r, end) =>
          AfterAppend([r], ScanFrom(data, end, expected + 1).records, after);
          if r.lsn > after {
            found := found + [r];
          }
          offset, expected := end, r.lsn + 1;
      }
    }
  }

  /**
   * The segment loop of `records`, skipping segments that cannot hold a wanted record. The
   * last segment may be cut short; what is whole in it is read.
   */
  method ReadSegments(files: seq<File>, ghost c: CrashPoint, after: int) returns (found: seq<Record>)
    requires Sound(c) && files == c.disk && |files[|files| - 1].data| >= SEGMENT_HEADER_SIZE
    ensures found == After(Surviving(c, |files[|files| - 1].data|), after)
  {
    hide Flat, ScanFrom, DecodeSegmentHeader, SegmentBytes, Within;
    found := [];
    ghost var parts := c.parts;
    FlatEmpty<Record>();
    assert parts[..0] == [];
    var n := |files| - 1;
    for index := 0 to n
      invariant found == After(Flat(parts[..index]), after)
    {
      FlatSnoc(parts, index);
      AfterAppend(Flat(parts[..index]), parts[index], after);
      CompleteScans(files[index], parts[index]);
      if files[index + 1].name <= after + 1 {
        assert files[index + 1].name == files[index].name + |parts[index]|;
        AfterNothing(parts[index], after);
      } else {
        HeaderFits(files[index].data);
        var more, stop := ScanAfter(files[index].data, files[index].name, after);
        found := found + more;
      }
    }
    PrefixScans(files[n], parts[n]);
    HeaderFits(files[n].data);
    var more, stop := ScanAfter(files[n].data, files[n].name, after);
    AfterAppend(Flat(parts[..n]), parts[n][..Within(parts[n], |files[n].data|)], after);
    found := found + more;
  }

  /** Of a log whose last segment is completely written, everything survives. */
  lemma EverythingSurvives(c: CrashPoint)
    requires Sound(c) && Last(c).data == LastBytes(c)
    ensures Surviving(c, |Last(c).data|) == Flat(c.parts)
  {
    hide EncodeRecord, SegmentBytes, Within, Body, Complete;
    var rs := LastPart(c);
    LastBytesLength(c);
    SoundShape(c);
    WithinAll(rs);
    assert rs[..|rs|] == rs;
  }

  lemma WithinAll(rs: seq<Record>)
    requires forall i | 0 <= i < |rs| :: Encodable(rs[i])
    ensures Within(rs, SEGMENT_HEADER_SIZE + |Body(rs)|) == |rs|
  {
    hide EncodeRecord, Body, Whole;
    assert rs[..|rs|] == rs;
    WholeAtLeast(rs, |rs|, |Body(rs)|);
  }

  /** `t` holds what is left of `log` (whose first LSN is `start`) once old segments are gone. */
  ghost predicate Suffixed(t: CrashPoint, flushed: bool, start: nat, log: seq<Record>, durable: int) {
    && Sound(t)
    && (flushed ==> Settled(t))
    && start <= StartLsn(t) <= start + |log|
    && Flat(t.parts) == log[StartLsn(t) - start..]
    && DurableLsn(t) == durable
    && Strewn(t, flushed)
  }

  /** Every directory from `from` to `to` is such a log, and starts no later than `through`. */
  ghost predicate AllSuffixed(from: seq<CrashPoint>, to: seq<CrashPoint>, flushed: bool, start: nat, log: seq<Record>, durable: int,
                              through: nat) {
    && from <= to
    && forall i | |from| <= i < |to| :: Suffixed(to[i], flushed, start, log, durable) && StartLsn(to[i]) <= through
  }

  lemma NoneSuffixed(trail: seq<CrashPoint>, flushed: bool, start: nat, log: seq<Record>, durable: int, through: nat)
    ensures AllSuffixed(trail, trail, flushed, start, log, durable, through)
  {}

  lemma MoreSuffixed(from: seq<CrashPoint>, to: seq<CrashPoint>, c: CrashPoint, flushed: bool, start: nat, log: seq<Record>,
                     durable: int, through: nat, further: nat)
    requires AllSuffixed(from, to, flushed, start, log, durable, through) && through <= further
    requires Suffixed(c, flushed, start, log, durable) && StartLsn(c) <= further
    ensures AllSuffixed(from, to + [c], flushed, start, log, durable, further)
  {
    hide Sound, Settled, Flat, DurableLsn, StartLsn, Strewn;
  }

  lemma SuffixedSelf(c: CrashPoint, flushed: bool)
    requires Sound(c) && (flushed ==> Settled(c)) && Strewn(c, flushed)
    ensures Suffixed(c, flushed, StartLsn(c), Flat(c.parts), DurableLsn(c))
  {
    hide Sound, Settled, Flat;
  }

  lemma DropSuffixed(c: CrashPoint, flushed: bool, start: nat, log: seq<Record>, durable: int)
    requires Suffixed(c, flushed, start, log, durable) && |c.disk| > 1
    requires |Last(c).data| >= SEGMENT_HEADER_SIZE && (flushed ==> Last(c).synced >= SEGMENT_HEADER_SIZE)
    ensures
      var c' := c.(disk := c.disk[1..], parts := c.parts[1..]);
      && Suffixed(c', flushed, start, log, durable)
      && StartLsn(c') == c.disk[1].name >= StartLsn(c) && Last(c') == Last(c) && LastPart(c') == LastPart(c)
  {
    hide Settled, Flat, SegmentOf, Complete, Within, Strewn;
    DropOldest(c);
    StrewnOlder(c, flushed);
    DropMore(log, StartLsn(c) - start, |c.parts[0]|);
  }

  class WriteAheadLog {
    const mode: WriteConcern
    const groupCommit: bool
    const segmentSizeBytes: nat
    var segments: seq<nat>
    var position: nat
    var nextLsn: nat
    var pending: seq<bytes>
    var pendingBytes: nat
    var unsynced: bool
    var broken: bool
    var closed: bool
    var disk: seq<File>
    var stray: seq<File>
    ghost var parts: seq<seq<Record>>
    ghost var trail: seq<CrashPoint>

    ghost function Point(): CrashPoint
      reads this`disk, this`parts, this`stray
    {
      CrashPoint(disk, parts, stray)
    }

    /** Every record handed to the log that is still in it. */
    ghost function Records(): seq<Record>
      reads this`parts
    {
      Flat(parts)
    }

    /** The trail ends with the directory as it is, and files left behind stay. */
    ghost predicate Traced()
      reads this`disk, this`stray, this`trail
    {
      Trailing() && trail[|trail| - 1].disk == disk && trail[|trail| - 1].stray == stray
    }

    ghost predicate Trailing()
      reads this`stray, this`trail
    {
      trail != [] && forall i | 0 <= i < |trail| :: trail[i].stray <= stray
    }

    /** Adds the directory as it is to the trail. */
    ghost method Step()
      requires Trailing()
      modifies this`trail
      ensures trail == old(trail) + [Point()] && Traced()
    {
      trail := trail + [Point()];
    }

    /** No file has the name that the next segment would get. */
    predicate NameFree()
      reads this`nextLsn, this`segments, this`stray
    {
      nextLsn !in segments && StrayFree()
    }

    predicate StrayFree()
      reads this`nextLsn, this`stray
    {
      forall i | 0 <= i < |stray| :: stray[i].name != nextLsn
    }

    ghost predicate Rooted()
      reads this`disk, this`parts, this`stray, this`trail, this`unsynced, this`nextLsn
    {
      && Sound(Point()) && Traced()
      && Strewn(Point(), mode == Flushed) && NamedBelow(stray, nextLsn - 1)
      && (mode == Flushed ==> Settled(Point()))
      && (unsynced ==> groupCommit)
      && (groupCommit ==> mode == Flushed)
    }

    /** The in-memory fields agree with the directory. */
    ghost predicate Aligned()
      reads this`disk, this`parts, this`stray, this`segments, this`nextLsn, this`pending, this`pendingBytes, this`position
      requires Sound(Point())
    {
      var c := Point();
      && segments == Names(disk)
      && nextLsn == NextLsn(c)
      && |Last(c).data| >= SEGMENT_HEADER_SIZE
      && Last(c).data + Flat(pending) == LastBytes(c)
      && pendingBytes == |Flat(pending)|
      && position == |LastBytes(c)|
      && (mode != Memory ==> pending == [])
    }

    /** In `flushed` mode the active segment has a stable header, and nothing is unflushed unless `unsynced` says so. */
    ghost predicate Tidy()
      reads this`disk, this`parts, this`stray, this`segments, this`nextLsn, this`pending, this`pendingBytes, this`position, this`unsynced
      requires Sound(Point())
    {
      && Aligned()
      && (mode == Flushed ==> Last(Point()).synced >= SEGMENT_HEADER_SIZE)
      && (mode == Flushed && !unsynced ==> Last(Point()).synced == |Last(Point()).data|)
    }

    /** Holds in a broken log too: unless `unsynced` is set, every record counted so far is durable. */
    ghost predicate Valid()
      reads this
    {
      Rooted() && (!broken ==> Tidy()) && (mode == Flushed && !unsynced ==> nextLsn - 1 <= Durable())
    }

    ghost function Durable(): int
      reads this`disk, this`parts, this`stray, this`trail, this`unsynced, this`nextLsn
      requires Rooted()
    {
      DurableLsn(Point())
    }

    ghost function Start(): nat
      reads this`disk, this`parts, this`stray, this`trail, this`unsynced, this`nextLsn
      requires Rooted()
    {
      StartLsn(Point())
    }

    /** `writeFully` at the end of the active segment, then `abandonWrite` if it failed. */
    method WriteTail(b: bytes, io: WriteIo) returns (ok: bool)
      requires Rooted() && !broken
      requires |Last(Point()).data| >= SEGMENT_HEADER_SIZE
      requires Last(Point()).data + b <= LastBytes(Point())
      modifies this`disk, this`broken, this`trail
      ensures Rooted() && Start() == old(Start()) && Durable() == old(Durable())
      ensures io.Wrote? ==> ok
      ensures ok ==> !broken && Last(Point()) == old(Last(Point())).(data := old(Last(Point()).data) + b)
      ensures ok ==> Names(disk) == old(Names(disk))
      ensures !ok && !broken ==> disk == old(disk)
      ensures AllPassed(old(trail), trail, mode == Flushed, Start(), Records(), Durable())
    {
      hide Sound, Settled, Flat, SegmentBytes, Strewn, NamedBelow, Trailing, Names, Passed, DurableLsn, StartLsn, NextLsn;
      ghost var c := Point();
      SoundShape(c);
      var n := |disk| - 1;
      var file := disk[n];
      var taken := match io case Wrote => b case Short(k, _, _) => if k <= |b| then b[..k] else b;
      AdvancePassed(c, file.data + taken, file.synced, mode == Flushed);
      disk := disk[..n] + [file.(data := file.data + taken)];
      Step();
      if io.Wrote? {
        return true;
      }
      if io.diskFull && io.cut {
        SelfPassed(c, mode == Flushed);
        disk := disk[..n] + [file];
        assert disk == c.disk;
        Step();
      } else {
        broken := true;
      }
      return false;
    }

    /** `fsync` of the active segment. */
    method FsyncTail(ok: bool)
      requires Rooted() && !broken
      modifies this`disk, this`broken, this`unsynced, this`trail
      ensures Rooted() && Start() == old(Start()) && Durable() >= old(Durable())
      ensures ok ==> !broken && !unsynced
      ensures ok ==> Last(Point()) == old(Last(Point())).(synced := |old(Last(Point())).data|)
      ensures ok ==> Names(disk) == old(Names(disk))
      ensures !ok ==> broken && disk == old(disk) && unsynced == old(unsynced)
      ensures AllPassed(old(trail), trail, mode == Flushed, Start(), Records(), old(Durable()))
    {
      hide Sound, Settled, Flat, SegmentBytes, Strewn, NamedBelow, Trailing, Names, Passed, DurableLsn, StartLsn, NextLsn;
      if !ok {
        broken := true;
        return;
      }
      ghost var c := Point();
      SoundShape(c);
      var n := |disk| - 1;
      var file := disk[n];
      AdvancePassed(c, file.data, |file.data|, mode == Flushed);
      disk := disk[..n] + [file.(synced := |file.data|)];
      unsynced := false;
      Step();
    }

    method Flush(io: WriteIo) returns (ok: bool)
      requires Valid()
      modifies this`disk, this`broken, this`trail, this`pending, this`pendingBytes
      ensures Valid() && Start() == old(Start()) && Durable() == old(Durable())
      ensures !old(closed || broken) && io.Wrote? ==> ok
      ensures ok ==> !broken && pending == [] && pendingBytes == 0
      ensures ok ==> Last(Point()).data == LastBytes(Point())
      ensures !ok && !broken ==> disk == old(disk) && pending == old(pending) && pendingBytes == old(pendingBytes)
      ensures old(closed || broken) ==> !ok && broken == old(broken)
      ensures AllPassed(old(trail), trail, mode == Flushed, Start(), Records(), Durable())
    {
      hide Sound, Settled, SegmentBytes, Names, DurableLsn, StartLsn, Traced, Strewn, NamedBelow;
      if closed || broken {
        return false;
      }
      if pendingBytes == 0 {
        assert Last(Point()).data + Flat(pending) == Last(Point()).data;
        pending := [];
        assert Last(Point()).data + Flat(pending) == Last(Point()).data;
        return true;
      }
      var b := Flat(pending);
      ok := WriteTail(b, io);
      if ok {
        pending := [];
        pendingBytes := 0;
        assert Last(Point()).data + Flat(pending) == Last(Point()).data;
      }
    }

    method Commit(syncOk: bool) returns (ok: bool)
      requires Valid()
      modifies this`disk, this`broken, this`unsynced, this`trail
      ensures Valid() && Start() == old(Start()) && Durable() >= old(Durable())
      ensures ok && !old(closed) && mode == Flushed ==> Durable() >= nextLsn - 1
      ensures old(unsynced) && !old(closed) ==> (ok <==> !broken)
      ensures ok && !closed ==> !unsynced
      ensures old(broken) ==> broken
      ensures syncOk && !old(broken) ==> ok && !broken
      ensures !old(unsynced) || old(closed) ==> ok && disk == old(disk)
      ensures AllPassed(old(trail), trail, mode == Flushed, Start(), Records(), old(Durable()))
    {
      hide Sound, Settled, SegmentBytes, Flat, Passed, DurableLsn, StartLsn, Traced, Strewn, NamedBelow;
      if !unsynced || closed {
        if !broken && !unsynced && mode == Flushed {
          SettledTail();
        }
        return true;
      }
      if broken {
        return false;
      }
      FsyncTail(syncOk);
      if broken {
        return false;
      }
      SettledTail();
      return true;
    }

    lemma SettledTail()
      requires Rooted() && Tidy() && mode == Flushed
      requires !unsynced
      ensures Durable() == nextLsn - 1
    {
      AllSynced(Point());
    }

    method Sync(write: WriteIo, syncOk: bool) returns (ok: bool)
      requires Valid()
      modifies this`disk, this`broken, this`unsynced, this`trail, this`pending, this`pendingBytes
      ensures Valid() && Start() == old(Start()) && Durable() >= old(Durable())
      ensures ok ==> !broken && !old(closed) && Durable() == nextLsn - 1
      ensures old(broken) ==> broken
      ensures write.Wrote? && syncOk && !old(closed || broken) ==> ok
      ensures AllPassed(old(trail), trail, mode == Flushed, Start(), Records(), old(Durable()))
    {
      hide Sound, Settled, SegmentBytes, Flat, Passed, DurableLsn, StartLsn, Traced, Strewn, NamedBelow;
      ok := Flush(write);
      if !ok {
        return false;
      }
      ghost var mid, durable := trail, Durable();
      FsyncTail(syncOk);
      AllPassedJoin(old(trail), mid, trail, mode == Flushed, Start(), Records(), Records(), old(Durable()), durable);
      if broken {
        return false;
      }
      assert Flat(pending) == [] by { FlatEmpty<byte>(); }
      AllSynced(Point());
    }

    /**
     * `createSegment`: a crash while it runs leaves part of the header. If it fails the partial
     * file is removed again or, if that fails too, stays behind; a file that is there already
     * under the same name makes it fail at once.
     */
    method CreateSegment(io: CreateIo) returns (ok: bool)
      requires Valid() && !broken && pending == [] && nextLsn < 0x1_0000_0000_0000_0000
      requires Last(Point()).data == LastBytes(Point())
      requires mode == Flushed ==> Last(Point()).synced == |Last(Point()).data|
      modifies this`disk, this`trail, this`segments, this`position, this`parts, this`stray
      ensures Valid() && Start() == old(Start()) && Durable() >= old(Durable())
      ensures Records() == old(Records())
      ensures ok <==> io.Created? && old(NameFree())
      ensures ok ==> LastPart(Point()) == [] && position == SEGMENT_HEADER_SIZE
      ensures Leaves(old(stray), stray, nextLsn) && (stray != old(stray) ==> !ok && io.LeftBehind?)
      ensures AllPassed(old(trail), trail, mode == Flushed, Start(), Records(), old(Durable()))
    {
      hide Sound, Settled, SegmentBytes, Flat, Within, EncodeSegmentHeader, DurableLsn, StartLsn, Passed, SegmentOf, Run, Traced, Leaves, Strewn, NamedBelow;
      NothingLeftBehind(stray, nextLsn);
      if !NameFree() {
        return false;
      }
      ghost var d0 := Durable();
      var header := EncodeSegmentHeader(nextLsn);
      var seen := if io.seen <= |header| then header[..io.seen] else header;
      PositiveLsn(Point());
      BeginSegment(seen, io.LeftBehind?);
      if !io.Created? {
        return false;
      }
      ghost var mid := trail;
      AdoptSegment(header);
      AllPassedJoin(old(trail), mid, trail, mode == Flushed, Start(), Records(), Records(), d0, d0);
      return true;
    }

    /** The file appears with part of its header, and then is gone again or stays beside the segments. */
    method BeginSegment(seen: bytes, stays: bool)
      requires Valid() && !broken && 0 < nextLsn < 0x1_0000_0000_0000_0000 && seen <= EncodeSegmentHeader(nextLsn)
      requires nextLsn !in segments && forall i | 0 <= i < |stray| :: stray[i].name != nextLsn
      requires Last(Point()).data == LastBytes(Point())
      requires mode == Flushed ==> Last(Point()).synced == |Last(Point()).data|
      modifies this`trail, this`stray
      ensures Valid() && Start() == old(Start()) && Durable() == old(Durable()) && Last(Point()) == old(Last(Point()))
      ensures LastBytes(Point()) == old(LastBytes(Point()))
      ensures Leaves(old(stray), stray, nextLsn) && (stray != old(stray) <==> stays)
      ensures AllPassed(old(trail), trail, mode == Flushed, Start(), Records(), Durable())
    {
      hide Sound, Settled, SegmentBytes, Flat, Within, EncodeSegmentHeader, DurableLsn, StartLsn, Passed, SegmentOf, Run, Strewn, NamedBelow;
      ghost var c := Point();
      var file := File(nextLsn, seen, 0);
      SoundShape(c);
      HeaderSegment(nextLsn, |seen|);
      assert EncodeSegmentHeader(nextLsn)[..|seen|] == seen;
      NewSegmentPassed(c, file, mode == Flushed);
      trail := trail + [c.(disk := c.disk + [file], parts := c.parts + [[]])];
      if stays {
        StrayPassed(c, mode == Flushed, stray + [file]);
        if mode == Flushed {
          AllSynced(c);
        }
        NewName(disk, stray, file);
        StrewnMore(c, file, mode == Flushed);
        stray := stray + [file];
      } else {
        StrayPassed(c, mode == Flushed, stray);
      }
      trail := trail + [Point()];
    }

    /** The file has its whole header, and becomes the active segment. */
    method AdoptSegment(header: bytes)
      requires Valid() && !broken && pending == [] && 0 < nextLsn < 0x1_0000_0000_0000_0000
      requires forall i | 0 <= i < |stray| :: stray[i].name != nextLsn
      requires header == EncodeSegmentHeader(nextLsn) && Last(Point()).data == LastBytes(Point())
      requires mode == Flushed ==> Last(Point()).synced == |Last(Point()).data|
      modifies this`disk, this`trail, this`segments, this`position, this`parts
      ensures Valid() && Start() == old(Start()) && Durable() >= old(Durable())
      ensures Records() == old(Records()) && LastPart(Point()) == [] && position == SEGMENT_HEADER_SIZE
      ensures AllPassed(old(trail), trail, mode == Flushed, Start(), Records(), old(Durable()))
    {
      hide Sound, Settled, SegmentBytes, Flat, Within, EncodeSegmentHeader, DurableLsn, StartLsn, Passed, SegmentOf, Run, Strewn, NamedBelow, Trailing;
      ghost var c := Point();
      var file := File(nextLsn, header, if mode == Flushed then |header| else 0);
      SoundShape(c);
      HeaderSegment(nextLsn, 0);
      FlatEmpty<byte>();
      NewSegmentPassed(c, file, mode == Flushed);
      AddSegment(c, file);
      StrewnNew(c, file, mode == Flushed);
      disk := disk + [file];
      parts := parts + [[]];
      Step();
      segments := segments + [nextLsn];
      position := SEGMENT_HEADER_SIZE;
      assert Names(disk) == segments;
      assert header + Flat(pending) == header;
    }

    /** A segment with records in it is named below the next LSN, and so are the ones before it. */
    lemma LongSegment()
      requires Valid() && !broken && position > SEGMENT_HEADER_SIZE
      ensures nextLsn !in segments
    {
      hide Settled, SegmentBytes, Flat, DurableLsn, StartLsn, Traced, Strewn, NamedBelow;
      var c := Point();
      LastBytesLength(c);
      EarlierNames(c);
      if LastPart(c) == [] {
        NoBody();
      }
    }

    /** Writes what is queued for the active segment and, in flushed mode, flushes it. */
    method FinishSegment(write: WriteIo, sync: bool) returns (ok: bool)
      requires Valid() && !broken && !closed
      modifies this`disk, this`broken, this`unsynced, this`trail, this`pending, this`pendingBytes
      ensures Valid() && Start() == old(Start()) && Durable() >= old(Durable())
      ensures write.Wrote? && sync ==> ok
      ensures ok ==> !broken && pending == [] && Last(Point()).data == LastBytes(Point())
      ensures ok && mode == Flushed ==> Last(Point()).synced == |Last(Point()).data|
      ensures AllPassed(old(trail), trail, mode == Flushed, Start(), Records(), old(Durable()))
    {
      hide Sound, Settled, SegmentBytes, Flat, Within, Names, Passed, DurableLsn, StartLsn, Traced, Strewn, NamedBelow, Rooted, StrayFree;
      var durable := mode == Flushed;
      ghost var d0 := Durable();
      ok := Flush(write);
      if !ok {
        return false;
      }
      ghost var t1 := trail;
      if durable {
        FsyncTail(sync);
        AllPassedJoin(old(trail), t1, trail, durable, Start(), Records(), Records(), d0, d0);
        if broken {
          return false;
        }
        SettledTail();
      }
    }

    /** Starts the next segment; if that fails the current one stays active. */
    method Rotate(io: AppendIo) returns (ok: bool)
      requires Valid() && !broken && !closed
      requires nextLsn < 0x1_0000_0000_0000_0000
      modifies this`disk, this`broken, this`unsynced, this`trail, this`pending, this`pendingBytes,
               this`segments, this`position, this`parts, this`stray
      ensures Valid() && Start() == old(Start()) && Durable() >= old(Durable())
      ensures Records() == old(Records())
      ensures Leaves(old(stray), stray, nextLsn) && (stray != old(stray) ==> !ok && io.create.LeftBehind?)
      ensures Smooth(io) && old(NameFree()) ==> ok
      ensures ok ==> !broken && LastPart(Point()) == [] && position == SEGMENT_HEADER_SIZE && pending == []
      ensures AllPassed(old(trail), trail, mode == Flushed, Start(), Records(), old(Durable()))
    {
      hide Sound, Settled, SegmentBytes, Flat, Within, Names, Passed, DurableLsn, StartLsn, Traced, Strewn, NamedBelow, Rooted, StrayFree;
      var durable := mode == Flushed;
      ghost var d0 := Durable();
      ok := FinishSegment(io.rotateWrite, io.rotateSync);
      if !ok {
        return false;
      }
      ghost var t2, d2 := trail, Durable();
      ok := CreateSegment(io.create);
      AllPassedJoin(old(trail), t2, trail, durable, Start(), Records(), Records(), d0, d2);
      if ok && !io.closeOld {
        broken := true;
        return false;
      }
    }

    /** Puts a record in the queue without writing any of it. */
    method Queue(record: Record, encoded: bytes)
      requires Valid() && !broken && mode == Memory
      requires Encodable(record) && record.lsn == nextLsn && encoded == EncodeRecord(record)
      modifies this`pending, this`pendingBytes, this`position, this`parts, this`nextLsn
      ensures Valid() && Start() == old(Start()) && Durable() == old(Durable())
      ensures nextLsn == old(nextLsn) + 1 && Records() == old(Records()) + [record]
      ensures pending == old(pending) + [encoded] && pendingBytes == old(pendingBytes) + |encoded|
      ensures position == old(position) + |encoded|
    {
      hide Sound, Settled, SegmentBytes, Within, EncodeRecord, Flat, Names, StartLsn, DurableLsn, Traced, Strewn, NamedBelow;
      ghost var c := Point();
      SoundShape(c);
      HandOver(c, record);
      parts := WithLast(c, Last(c), LastPart(c) + [record]).parts;
      StrewnSame(c, Point(), mode == Flushed);
      NamedHigher(stray, nextLsn - 1, nextLsn);
      QueuedBytes(Last(c).data, pending, encoded);
      pending := pending + [encoded];
      pendingBytes := pendingBytes + |encoded|;
      position := position + |encoded|;
      nextLsn := nextLsn + 1;
    }

    /** The `memory` branch of `append`: queue the record, and write the queue once it is long. */
    method Enqueue(record: Record, encoded: bytes, io: WriteIo) returns (ok: bool)
      requires Valid() && !broken && !closed && mode == Memory
      requires Encodable(record) && record.lsn == nextLsn && encoded == EncodeRecord(record)
      modifies this`disk, this`broken, this`trail, this`pending, this`pendingBytes, this`position, this`parts, this`nextLsn
      ensures Valid() && Start() == old(Start()) && Durable() == old(Durable())
      ensures io.Wrote? ==> ok
      ensures ok ==> position == old(position) + |encoded| && pendingBytes < MEMORY_FLUSH_BYTES
      ensures ok ==> !broken && nextLsn == old(nextLsn) + 1 && Records() == old(Records()) + [record]
      ensures !ok && !broken ==> Records() == old(Records()) && nextLsn == old(nextLsn) && pending == old(pending)
      ensures !ok && broken ==> Records() == old(Records()) + [record]
      ensures AllPassed(old(trail), trail, mode == Flushed, Start(), old(Records()) + [record], Durable())
    {
      hide Sound, Settled, SegmentBytes, Within, EncodeRecord, Flat, DurableLsn, StartLsn, Last, LastPart, LastBytes, Passed, Traced, Strewn, NamedBelow;
      ghost var before := parts;
      Queue(record, encoded);
      if pendingBytes >= MEMORY_FLUSH_BYTES {
        var flushed := Flush(io);
        if !flushed {
          if !broken {
            // The disk is full but the log is still usable, so the record leaves the queue.
            pending := pending[..|pending| - 1];
            assert pending == old(pending);
            pendingBytes := pendingBytes - |encoded|;
            position := position - |encoded|;
            nextLsn := nextLsn - 1;
            parts := before;
          }
          return false;
        }
      }
      return true;
    }

    /** Hands the record to the active segment and writes it; a cut off write takes it back. */
    method WriteHanded(record: Record, encoded: bytes, io: WriteIo) returns (ok: bool)
      requires Valid() && !broken && pending == []
      requires Encodable(record) && record.lsn == nextLsn && encoded == EncodeRecord(record)
      modifies this`disk, this`broken, this`trail, this`parts
      ensures Rooted() && Start() == old(Start()) && Durable() == old(Durable())
      ensures io.Wrote? ==> ok
      ensures ok ==> !broken && segments == Names(disk) && NextLsn(Point()) == nextLsn + 1
      ensures ok ==> Last(Point()).data == LastBytes(Point()) && |LastBytes(Point())| == position + |encoded|
      ensures ok ==> Last(Point()).synced == old(Last(Point())).synced && |Last(Point()).data| >= SEGMENT_HEADER_SIZE
      ensures ok || broken ==> Records() == old(Records()) + [record]
      ensures !ok && !broken ==> disk == old(disk) && parts == old(parts)
      ensures AllPassed(old(trail), trail, mode == Flushed, Start(), old(Records()) + [record], Durable())
    {
      hide Sound, Settled, SegmentBytes, Within, EncodeRecord, Flat, Names, Encodable, DurableLsn, StartLsn, Passed, Strewn, NamedBelow;
      ghost var c := Point();
      SoundShape(c);
      FlatEmpty<byte>();
      assert Last(c).data + [] == Last(c).data;
      HandOver(c, record);
      parts := WithLast(c, Last(c), LastPart(c) + [record]).parts;
      StrewnSame(c, Point(), mode == Flushed);
      ok := WriteTail(encoded, io);
      if !ok && !broken {
        parts := c.parts;
      }
    }

    /** The other branches of `append`: write the record and, unless commits are grouped, flush it. */
    method WriteRecord(record: Record, encoded: bytes, io: AppendIo) returns (ok: bool)
      requires Valid() && !broken && !closed && mode != Memory
      requires Encodable(record) && record.lsn == nextLsn && encoded == EncodeRecord(record)
      modifies this`disk, this`broken, this`unsynced, this`trail, this`position, this`parts, this`nextLsn
      ensures Valid() && Start() == old(Start()) && Durable() >= old(Durable())
      ensures io.write.Wrote? && io.sync ==> ok
      ensures ok ==> position == old(position) + |encoded|
      ensures ok ==> !broken && nextLsn == old(nextLsn) + 1 && Records() == old(Records()) + [record]
      ensures ok && mode == Flushed && !unsynced ==> Durable() == record.lsn
      ensures !ok && !broken ==> Records() == old(Records()) && nextLsn == old(nextLsn)
      ensures !ok && broken ==> Records() == old(Records()) + [record] && nextLsn == old(nextLsn)
      ensures AllPassed(old(trail), trail, mode == Flushed, Start(), old(Records()) + [record], old(Durable()))
    {
      hide Sound, Settled, SegmentBytes, Within, EncodeRecord, Flat, Names, Encodable, DurableLsn, StartLsn, Passed, WithLast, Traced, Strewn, NamedBelow;
      ghost var d0 := Durable();
      FlatEmpty<byte>();
      ok := WriteHanded(record, encoded, io.write);
      if !ok {
        return false;
      }
      ghost var t1 := trail;
      if mode == Flushed {
        if groupCommit {
          unsynced := true;
        } else {
          FsyncTail(io.sync);
          AllPassedJoin(old(trail), t1, trail, mode == Flushed, Start(), Records(), Records(), d0, d0);
          if broken {
            return false;
          }
        }
      }
      CountRecord(|encoded|);
    }

    /** The record just written counts from here on. */
    method CountRecord(size: nat)
      requires Rooted() && !broken && pending == [] && pendingBytes == 0 && segments == Names(disk)
      requires NextLsn(Point()) == nextLsn + 1 && Last(Point()).data == LastBytes(Point()) && |LastBytes(Point())| == position + size
      requires |Last(Point()).data| >= SEGMENT_HEADER_SIZE && (mode == Flushed ==> Last(Point()).synced >= SEGMENT_HEADER_SIZE)
      requires mode == Flushed && !unsynced ==> Last(Point()).synced == |Last(Point()).data|
      modifies this`position, this`nextLsn
      ensures position == old(position) + size
      ensures Valid() && nextLsn == old(nextLsn) + 1 && Start() == old(Start()) && Durable() == old(Durable())
      ensures mode == Flushed && !unsynced ==> Durable() == nextLsn - 1
    {
      hide Sound, Settled, SegmentBytes, Within, Flat, Names, DurableLsn, StartLsn, Traced, Strewn, NamedBelow;
      FlatEmpty<byte>();
      assert Last(Point()).data + [] == Last(Point()).data;
      position := position + size;
      NamedHigher(stray, nextLsn - 1, nextLsn);
      nextLsn := nextLsn + 1;
      if mode == Flushed && !unsynced {
        AllSynced(Point());
      }
    }

    /** Rotates unless the active segment is empty or still has room. */
    method MakeRoom(size: nat, io: AppendIo) returns (ok: bool)
      requires Valid() && !broken && !closed
      requires nextLsn < 0x1_0000_0000_0000_0000
      modifies this`disk, this`broken, this`unsynced, this`trail, this`pending, this`pendingBytes,
               this`segments, this`position, this`parts, this`stray
      ensures Valid() && Start() == old(Start()) && Durable() >= old(Durable())
      ensures Records() == old(Records())
      ensures Leaves(old(stray), stray, nextLsn) && (stray != old(stray) ==> !ok && io.create.LeftBehind?)
      ensures Smooth(io) && old(StrayFree()) ==> ok
      ensures ok ==> !broken && (position <= SEGMENT_HEADER_SIZE || position + size <= segmentSizeBytes)
      ensures AllPassed(old(trail), trail, mode == Flushed, Start(), Records(), old(Durable()))
    {
      hide Sound, Settled, SegmentBytes, Flat, Within, Names, DurableLsn, StartLsn, Traced, Strewn, NamedBelow, Tidy, Rooted, StrayFree, Smooth,
           Passed, Leaves;
      NothingLeftBehind(stray, nextLsn);
      if position > SEGMENT_HEADER_SIZE && position + size > segmentSizeBytes {
        LongSegment();
        ok := Rotate(io);
        return;
      }
      return true;
    }

    /** The two ways a record goes into the active segment. */
    method WriteOrQueue(record: Record, encoded: bytes, io: AppendIo) returns (ok: bool)
      requires Valid() && !broken && !closed
      requires Encodable(record) && record.lsn == nextLsn && encoded == EncodeRecord(record)
      modifies this`disk, this`broken, this`unsynced, this`trail, this`pending, this`pendingBytes, this`position, this`parts, this`nextLsn
      ensures Valid() && Start() == old(Start()) && Durable() >= old(Durable())
      ensures io.write.Wrote? && io.sync ==> ok
      ensures ok ==> !broken && nextLsn == old(nextLsn) + 1 && Records() == old(Records()) + [record]
      ensures ok ==> position == old(position) + |encoded|
      ensures ok && mode == Flushed && !unsynced ==> Durable() == record.lsn
      ensures !ok && !broken ==> Records() == old(Records()) && nextLsn == old(nextLsn)
      ensures !ok && broken ==> Records() == old(Records()) + [record]
      ensures !ok && mode != Memory ==> nextLsn == old(nextLsn)
      ensures AllPassed(old(trail), trail, mode == Flushed, Start(), old(Records()) + [record], old(Durable()))
    {
      hide Sound, Settled, SegmentBytes, Flat, Within, EncodeRecord, Names, DurableLsn, StartLsn, Traced, Strewn, NamedBelow, Tidy, Rooted;
      if mode == Memory {
        ok := Enqueue(record, encoded, io.write);
      } else {
        ok := WriteRecord(record, encoded, io);
      }
    }

    /**
     * Appends one record. On success it is the next record of the log, and durable when
     * every append is flushed. A failure that leaves the log unbroken leaves its records
     * and next LSN as they were; a failure that breaks it may have handed the record over.
     */
    method Append(kind: int, payload: bytes, io: AppendIo) returns (r: Result<nat>)
      requires Valid()
      modifies this`disk, this`broken, this`unsynced, this`trail, this`pending, this`pendingBytes,
               this`segments, this`position, this`parts, this`nextLsn, this`stray
      ensures Valid() && Start() == old(Start()) && Durable() >= old(Durable())
      ensures Leaves(old(stray), stray, old(nextLsn)) && (stray != old(stray) ==> r.Failed? && io.create.LeftBehind?)
      ensures Smooth(io) && !old(broken || closed) && old(StrayFree()) && Encodable(Record(old(nextLsn), kind, payload)) ==> r.Ok?
      ensures r.Ok? ==> !broken && !closed && r.value == old(nextLsn) && nextLsn == old(nextLsn) + 1
      ensures r.Ok? ==> position <= segmentSizeBytes || position <= SEGMENT_HEADER_SIZE + RECORD_HEADER_SIZE + |payload|
      ensures r.Ok? ==> Records() == old(Records()) + [Record(old(nextLsn), kind, payload)]
      ensures r.Ok? && mode == Flushed && !unsynced ==> Durable() == r.value
      ensures r.Failed? && !broken ==> Records() == old(Records()) && nextLsn == old(nextLsn)
      ensures r.Failed? ==> old(Records()) <= Records() <= old(Records()) + [Record(old(nextLsn), kind, payload)]
      ensures r.Failed? && mode != Memory ==> nextLsn == old(nextLsn)
      ensures old(broken || closed) ==> r.Failed? && Records() == old(Records()) && trail == old(trail)
      ensures old(broken) ==> broken
      ensures AllPassed(old(trail), trail, mode == Flushed, Start(),
                        old(Records()) + [Record(old(nextLsn), kind, payload)], old(Durable()))
    {
      hide Sound, Settled, SegmentBytes, Flat, Within, EncodeRecord, Names, DurableLsn, StartLsn, Traced, Strewn, NamedBelow, Tidy, Rooted, StrayFree, Leaves, Passed;
      NothingLeftBehind(stray, nextLsn);
      NonePassed(trail, mode == Flushed, Start(), Records() + [Record(nextLsn, kind, payload)], Durable());
      if broken || closed {
        return Failed;
      }
      var lsn := nextLsn;
      var record := Record(lsn, kind, payload);
      if !Encodable(record) {
        return Failed;
      }
      ghost var all, d0 := Records() + [record], Durable();
      var encoded := EncodeRecord(record);
      var room := MakeRoom(|encoded|, io);
      AllPassedWider(old(trail), trail, mode == Flushed, Start(), old(Records()), all, d0);
      if !room {
        return Failed;
      }
      ghost var t1, d1 := trail, Durable();
      var written := WriteOrQueue(record, encoded, io);
      AllPassedJoin(old(trail), t1, trail, mode == Flushed, Start(), all, all, d0, d1);
      return if written then Ok(lsn) else Failed;
    }

    method Unlink(ghost start: nat, ghost log: seq<Record>, ghost durable: int)
      requires Valid() && !broken && |segments| > 1
      requires Suffixed(Point(), mode == Flushed, start, log, durable)
      modifies this`disk, this`segments, this`parts, this`trail
      ensures Valid() && Suffixed(Point(), mode == Flushed, start, log, durable)
      ensures Start() == old(segments[1]) >= old(Start()) && |segments| == old(|segments|) - 1
      ensures trail == old(trail) + [Point()] && Durable() == old(Durable())
    {
      hide Settled, SegmentBytes, Within, Flat, SegmentOf, Complete, Strewn, NamedBelow, Trailing;
      DropSuffixed(Point(), mode == Flushed, start, log, durable);
      disk := disk[1..];
      parts := parts[1..];
      assert Names(disk) == segments[1..];
      segments := segments[1..];
      Step();
    }

    /** The loop of `truncateThrough`; `done` unless an unlink failed. */
    method RemoveOld(lsn: int, unlinks: nat) returns (removed: nat, done: bool)
      requires Valid() && !closed && !broken
      modifies this`disk, this`segments, this`parts, this`trail
      ensures Valid() && Durable() == old(Durable())
      ensures Start() >= old(Start()) && (Start() > old(Start()) ==> Start() <= lsn + 1)
      ensures Suffixed(Point(), mode == Flushed, old(Start()), old(Records()), old(Durable()))
      ensures removed + |segments| == |old(segments)| && (removed == 0 ==> segments == old(segments))
      ensures done ==> |segments| <= 1 || segments[1] > lsn + 1
      ensures !done ==> removed == unlinks < |old(segments)|
      ensures AllSuffixed(old(trail), trail, mode == Flushed, old(Start()), old(Records()), old(Durable()), Start())
    {
      hide Sound, Settled, SegmentBytes, Within, Flat, Tidy, Traced, Strewn, NamedBelow, Suffixed, AllSuffixed, DurableLsn, StartLsn;
      SuffixedSelf(Point(), mode == Flushed);
      NoneSuffixed(trail, mode == Flushed, Start(), Records(), Durable(), Start());
      removed := 0;
      while |segments| > 1
        invariant Valid() && Durable() == old(Durable())
        invariant Start() >= old(Start()) && (Start() > old(Start()) ==> Start() <= lsn + 1)
        invariant Suffixed(Point(), mode == Flushed, old(Start()), old(Records()), old(Durable()))
        invariant AllSuffixed(old(trail), trail, mode == Flushed, old(Start()), old(Records()), old(Durable()), Start())
        invariant removed + |segments| == |old(segments)| && removed <= unlinks
        invariant removed == 0 ==> segments == old(segments)
        decreases |segments|
      {
        if segments[1] > lsn + 1 {
          break;
        }
        if removed == unlinks {
          return removed, false;
        }
        ghost var before, start := trail, Start();
        Unlink(old(Start()), old(Records()), old(Durable()));
        MoreSuffixed(old(trail), before, Point(), mode == Flushed, old(Start()), old(Records()), old(Durable()), start, Start());
        removed := removed + 1;
      }
      return removed, true;
    }

    /**
     * Removes whole segments that only hold records at or below `lsn`, oldest first. A flush
     * of the directory that fails afterwards is reported, but the segments are gone.
     */
    method TruncateThrough(lsn: int, unlinks: nat, synced: bool) returns (r: Result<nat>)
      requires Valid()
      modifies this`disk, this`segments, this`parts, this`trail
      ensures Valid() && Durable() == old(Durable())
      ensures Start() >= old(Start()) && (Start() > old(Start()) ==> Start() <= lsn + 1)
      ensures Suffixed(Point(), mode == Flushed, old(Start()), old(Records()), old(Durable()))
      ensures r.Ok? ==> !old(closed || broken) && (|segments| <= 1 || segments[1] > lsn + 1)
      ensures !old(closed || broken) && unlinks >= |old(segments)| ==>
        && (|segments| <= 1 || segments[1] > lsn + 1)
        && (r.Failed? <==> segments != old(segments) && mode == Flushed && !synced)
      ensures old(closed || broken) ==> r.Failed? && disk == old(disk) && trail == old(trail)
      ensures AllSuffixed(old(trail), trail, mode == Flushed, old(Start()), old(Records()), old(Durable()), Start())
    {
      hide Sound, Settled, SegmentBytes, Within, Flat, Tidy, Traced, Strewn, NamedBelow, Suffixed, AllSuffixed, DurableLsn, StartLsn;
      SuffixedSelf(Point(), mode == Flushed);
      NoneSuffixed(trail, mode == Flushed, Start(), Records(), Durable(), Start());
      if closed || broken {
        return Failed;
      }
      var removed, done := RemoveOld(lsn, unlinks);
      if !done || (removed > 0 && mode == Flushed && !synced) {
        return Failed;
      }
      return Ok(removed);
    }

    /**
     * `records(after)`: every record above `after`. A log that failed earlier can still be
     * read: it yields the records that are wholly written.
     */
    method ReadRecords(after: int, io: WriteIo) returns (r: Result<seq<Record>>)
      requires Valid()
      modifies this`disk, this`broken, this`trail, this`pending, this`pendingBytes
      ensures Valid() && Start() == old(Start()) && Durable() == old(Durable())
      ensures old(broken) ==> disk == old(disk) && broken
      ensures !old(closed || broken) && io.Wrote? ==> r.Ok?
      ensures r.Ok? ==> broken == old(broken)
      ensures r.Ok? && !broken ==> r.value == After(Records(), after)
      ensures r.Ok? && broken ==> r.value == After(Surviving(Point(), |Last(Point()).data|), after)
      ensures AllPassed(old(trail), trail, mode == Flushed, Start(), Records(), Durable())
    {
      hide Sound, Settled, SegmentBytes, Flat, Within, Names, Passed, Surviving, LastBytes, Traced, Strewn, NamedBelow;
      if closed {
        return Failed;
      }
      if !broken {
        var flushed := Flush(io);
        if !flushed {
          return Failed;
        }
        EverythingSurvives(Point());
      }
      SoundShape(Point());
      if |disk[|disk| - 1].data| < SEGMENT_HEADER_SIZE {
        return Failed;
      }
      var found := ReadSegments(disk, Point(), after);
      return Ok(found);
    }

    constructor (mode: WriteConcern, groupCommit: bool, segmentSizeBytes: nat,
                 disk: seq<File>, position: nat, nextLsn: nat, ghost parts: seq<seq<Record>>)
      ensures this.mode == mode && this.groupCommit == groupCommit && this.segmentSizeBytes == segmentSizeBytes
      ensures segments == Names(disk) && this.position == position && this.nextLsn == nextLsn
      ensures pending == [] && pendingBytes == 0 && !unsynced && !broken && !closed
      ensures this.disk == disk && this.parts == parts && stray == [] && trail == [CrashPoint(disk, parts)]
    {
      this.mode, this.groupCommit, this.segmentSizeBytes := mode, groupCommit, segmentSizeBytes;
      this.disk, this.segments, this.position, this.nextLsn := disk, Names(disk), position, nextLsn;
      this.pending, this.pendingBytes := [], 0;
      this.unsynced, this.broken, this.closed := false, false, false;
      this.parts, this.stray, this.trail := parts, [], [CrashPoint(disk, parts)];
    }

    /** Flushes and commits unless the log is broken, then refuses everything else. */
    method Close(write: WriteIo, syncOk: bool) returns (ok: bool)
      requires Valid()
      modifies this`disk, this`broken, this`unsynced, this`trail, this`pending, this`pendingBytes, this`closed
      ensures Valid() && closed && Start() == old(Start()) && Durable() >= old(Durable())
      ensures old(broken) ==> broken
      ensures write.Wrote? && syncOk && !old(broken) ==> ok
      ensures ok && !old(closed) && !broken && mode == Flushed ==> Durable() >= nextLsn - 1
      ensures AllPassed(old(trail), trail, mode == Flushed, Start(), Records(), old(Durable()))
    {
      hide Sound, Settled, SegmentBytes, Flat, LastBytes, Names, Passed, DurableLsn, StartLsn, Traced, Strewn, NamedBelow, Tidy, Rooted;
      if closed {
        return true;
      }
      ok := true;
      if !broken {
        ok := Flush(write);
        ghost var mid, durable := trail, Durable();
        if ok {
          ok := Commit(syncOk);
          AllPassedJoin(old(trail), mid, trail, mode == Flushed, Start(), Records(), Records(), old(Durable()), durable);
        }
      }
      closed := true;
    }
  }

  // ---------------------------------------------------------------- opening

  function Shorten(f: File, end: nat): File
    requires end <= |f.data|
  {
    if end < |f.data| then f.(data := f.data[..end], synced := end) else f
  }

  /** The segments of an intact directory, with a torn tail cut off and flushed. */
  function Cut(live: seq<File>, end: nat): (disk: seq<File>)
    requires live != [] && end <= |live[|live| - 1].data|
    ensures |disk| == |live| && disk[|live| - 1] == Shorten(live[|live| - 1], end)
    ensures forall i | 0 <= i < |live| - 1 :: disk[i] == live[i]
  {
    live[..|live| - 1] + [Shorten(live[|live| - 1], end)]
  }

  ghost function Parts(live: seq<File>): (parts: seq<seq<Record>>)
    requires AllUsable(live)
    ensures |parts| == |live| && forall i | 0 <= i < |live| :: parts[i] == Scan(live[i]).records
  {
    seq(|live|, i requires 0 <= i < |live| => Scan(live[i]).records)
  }

  lemma {:induction false} ContentsIsFlat(live: seq<File>)
    requires AllUsable(live)
    ensures Contents(live) == Flat(Parts(live))
  {
    hide Scan, Usable;
    if live != [] {
      var n := |live| - 1;
      ContentsIsFlat(live[..n]);
      assert Parts(live)[..n] == Parts(live[..n]);
    }
  }

  /** A usable segment cut where its scan stopped holds exactly the records of the scan. */
  lemma ScanIsComplete(f: File)
    requires Usable(f) && f.name > 0 && f.synced <= |f.data|
    ensures Complete(Shorten(f, Scan(f).validEnd), Scan(f).records)
  {
    hide EncodeRecord, EncodeSegmentHeader, DecodeSegmentHeader, ScanRecord;
    var end := Scan(f).validEnd;
    HeaderIsEncoding(f.data);
    ScanIsEncoding(f.data, SEGMENT_HEADER_SIZE, f.name);
    assert f.data[..end] == f.data[..SEGMENT_HEADER_SIZE] + f.data[SEGMENT_HEADER_SIZE..end];
    if end == |f.data| {
      assert f.data[..end] == f.data;
    }
  }

  ghost predicate Plausible(files: seq<File>) {
    forall i | 0 <= i < |files| :: 0 < files[i].name && files[i].synced <= |files[i].data|
  }

  lemma CleanIsWhole(f: File)
    requires Usable(f) && Scan(f).stop == Clean
    ensures Scan(f).validEnd == |f.data|
  {
    HeaderFits(f.data);
    CleanEndsAtEnd(f.data, SEGMENT_HEADER_SIZE, f.name);
  }

  lemma {:induction false} CleanEndsAtEnd(b: bytes, offset: nat, expected: nat)
    requires offset <= |b| && ScanFrom(b, offset, expected).stop == Clean
    ensures ScanFrom(b, offset, expected).validEnd == |b|
    decreases |b| - offset
  {
    hide ScanRecord;
    var f := ScanRecord(b, offset, expected);
    if f.Found? {
      CleanEndsAtEnd(b, f.end, expected + 1);
    }
  }

  lemma CompleteIsSegment(f: File, rs: seq<Record>)
    requires Complete(f, rs)
    ensures SegmentOf(f, rs) && f.data == SegmentBytes(f.name, rs)
  {}

  lemma CutIsComplete(files: seq<File>, i: nat)
    requires Intact(files) && Plausible(files) && AllUsable(Live(files)) && i < |Live(files)|
    ensures
      var live := Live(files);
      var f := Cut(live, Scan(live[|live| - 1]).validEnd)[i];
      && Complete(f, Parts(live)[i]) && f.name == live[i].name
      && (i == |live| - 1 ==> |f.data| == Scan(live[i]).validEnd)
      && (i > 0 ==> f.name == live[i - 1].name + |Parts(live)[i - 1]|)
  {
    hide DecodeSegmentHeader, Scan, Complete, Parts, Cut, Live, Usable;
    var live := Live(files);
    LiveIsPrefix(files);
    assert GoodAt(files, i);
    ScanIsComplete(live[i]);
    if i < |live| - 1 {
      CleanIsWhole(live[i]);
    }
  }

  /** Opening any intact directory leaves a sound one holding the same records. */
  lemma IntactIsSound(files: seq<File>)
    requires Intact(files) && Plausible(files) && Live(files) != []
    ensures AllUsable(Live(files))
    ensures
      var live := Live(files);
      var end := Scan(live[|live| - 1]).validEnd;
      var c := CrashPoint(Cut(live, end), Parts(live));
      && Sound(c) && Flat(c.parts) == Contents(live) && StartLsn(c) == live[0].name
      && Last(c).data == LastBytes(c) && |Last(c).data| == end >= SEGMENT_HEADER_SIZE
      && NextLsn(c) == LastLsn(live[|live| - 1]) + 1
      && Names(c.disk) == Names(live)
  {
    hide Scan, Usable, SegmentBytes, GoodAt, Intact, Live, Flat, Contents, SegmentOf, Complete, Parts, Cut, Names, Plausible;
    LiveIsUsable(files);
    var live := Live(files);
    var n := |live| - 1;
    var c := CrashPoint(Cut(live, Scan(live[n]).validEnd), Parts(live));
    ContentsIsFlat(live);
    forall i | 0 <= i <= n
      ensures SegmentOf(c.disk[i], c.parts[i]) && Complete(c.disk[i], c.parts[i]) && c.disk[i].name == live[i].name
    {
      CutIsComplete(files, i);
      CompleteIsSegment(c.disk[i], c.parts[i]);
    }
    forall i | 0 < i <= n ensures c.disk[i].name == c.disk[i - 1].name + |c.parts[i - 1]| {
      CutIsComplete(files, i);
    }
    CutIsComplete(files, n);
    CompleteIsSegment(c.disk[n], c.parts[n]);
    assert Names(c.disk) == Names(live);
  }

  /** Every byte that was read is on stable storage. */
  ghost predicate Stable(files: seq<File>) {
    forall i | 0 <= i < |files| :: files[i].synced == |files[i].data|
  }

  /** Opening flushes only a last segment it cuts, so everything else must be stable already. */
  ghost predicate OpensStable(files: seq<File>)
    requires AllUsable(Live(files))
  {
    var live := Live(files);
    forall i | 0 <= i < |live| ::
      live[i].synced == |live[i].data| || (i == |live| - 1 && Scan(live[i]).validEnd < |live[i].data|)
  }

  lemma CutIsStable(files: seq<File>)
    requires AllUsable(Live(files)) && Live(files) != []
    ensures
      var live := Live(files);
      Stable(Cut(live, Scan(live[|live| - 1]).validEnd)) <==> OpensStable(files)
  {
    hide Scan, Live, Usable;
    var live := Live(files);
    var n := |live| - 1;
    var disk := Cut(live, Scan(live[n]).validEnd);
    assert Stable(disk) <==> disk[n].synced == |disk[n].data| && forall i | 0 <= i < n :: disk[i].synced == |disk[i].data|;
  }

  /** A freshly opened log whose records are `rs` from LSN `start` on; `flushed` if it opened on stable files. */
  ghost predicate Reopened(log: WriteAheadLog, start: nat, rs: seq<Record>, stable: bool)
    reads log
  {
    && !log.broken && !log.closed && !log.unsynced
    && Sound(log.Point()) && log.Aligned() && log.trail == [log.Point()] && log.stray == []
    && log.Records() == rs && StartLsn(log.Point()) == start
    && (log.Valid() <==> log.mode != Flushed || stable)
    && (log.mode == Flushed && log.Valid() ==> log.Durable() == log.nextLsn - 1)
  }

  /** The log that opening these files yields: the recovered records, on the segments without a torn tail. */
  ghost predicate OpenedOn(log: WriteAheadLog, files: seq<File>)
    reads log
  {
    && Intact(files) && AllUsable(Live(files))
    && var live := Live(files);
       && Reopened(log, if live == [] then 1 else live[0].name, Contents(live), OpensStable(files))
       && (live != [] ==> log.disk == Cut(live, Scan(live[|live| - 1]).validEnd))
  }

  // ---------------------------------------------------------------- opening, step by step

  /** How opening went: removing a headless last file and flushing the directory, creating the first segment, opening, cutting and flushing the last. */
  datatype OpenIo = OpenIo(removed: bool, directory: bool, create: CreateIo, found: bool, cut: bool, flushed: bool)

  predicate Succeeds(io: OpenIo) {
    io.removed && io.directory && io.create.Created? && io.found && io.cut && io.flushed
  }

  /** The segments with the torn tail cut off and nothing flushed yet. */
  function HalfCut(live: seq<File>, end: nat): (disk: seq<File>)
    requires live != [] && end <= |live[|live| - 1].data|
  {
    var f := live[|live| - 1];
    live[..|live| - 1] + [f.(data := f.data[..end], synced := if f.synced <= end then f.synced else end)]
  }

  /** A directory that opening `files` can pass through. */
  ghost predicate OpeningStep(files: seq<File>, d: seq<File>)
    requires AllUsable(Live(files))
  {
    var live := Live(files);
    || d == files || d == live
    || (live == [] && |d| == 1 && Leftover(d[0]) && d[0].name == 1)
    || (live != [] && (d == HalfCut(live, Scan(live[|live| - 1]).validEnd) || d == Cut(live, Scan(live[|live| - 1]).validEnd)))
  }

  ghost predicate AllSteps(files: seq<File>, passed: seq<seq<File>>)
    requires AllUsable(Live(files))
  {
    forall i | 0 <= i < |passed| :: OpeningStep(files, passed[i])
  }

  lemma MoreSteps(files: seq<File>, passed: seq<seq<File>>, more: seq<seq<File>>)
    requires AllUsable(Live(files)) && AllSteps(files, passed) && AllSteps(files, more)
    ensures AllSteps(files, passed + more)
  {
    hide OpeningStep, Live;
  }

  /** The directories opening passed through, first to last. */
  ghost predicate AllOpening(files: seq<File>, passed: seq<seq<File>>) {
    && passed != [] && passed[0] == files
    && if Intact(files) then AllUsable(Live(files)) && AllSteps(files, passed) else passed == [files]
  }

  lemma LiveIsIntact(files: seq<File>)
    requires Intact(files)
    ensures Intact(Live(files)) && Live(Live(files)) == Live(files)
  {
    hide DecodeSegmentHeader, Scan, LastLsn;
    var live := Live(files);
    LiveIsPrefix(files);
    forall i | 0 <= i < |live| ensures GoodAt(live, i) {
      assert GoodAt(files, i);
    }
    if live != [] {
      assert GoodAt(live, |live| - 1);
    }
  }

  lemma CutContents(files: seq<File>, d: seq<File>)
    requires Intact(files) && Plausible(files) && Live(files) != [] && AllUsable(Live(files))
    requires
      var live := Live(files);
      d == HalfCut(live, Scan(live[|live| - 1]).validEnd) || d == Cut(live, Scan(live[|live| - 1]).validEnd)
    ensures Intact(d) && AllUsable(Live(d)) && Contents(Live(d)) == Contents(Live(files))
  {
    hide Scan, Usable, SegmentBytes, GoodAt, Intact, Live, Flat, Contents, SegmentOf, Complete, Parts, Names, Plausible, Within;
    IntactIsSound(files);
    var live := Live(files);
    var c := CrashPoint(Cut(live, Scan(live[|live| - 1]).validEnd), Parts(live));
    var c' := CrashPoint(d, Parts(live));
    assert d[..|d| - 1] == c.disk[..|d| - 1] && d[|d| - 1].data == Last(c).data && d[|d| - 1].name == Last(c).name;
    SoundShape(c);
    OtherSynced(c, c');
    SoundRecovers(c');
    EverythingSurvives(c');
  }

  lemma OtherSynced(c: CrashPoint, c': CrashPoint)
    requires Sound(c) && c'.parts == c.parts && |c'.disk| == |c.disk| && c'.disk[..|c.disk| - 1] == c.disk[..|c.disk| - 1]
    requires var f, g := c'.disk[|c.disk| - 1], Last(c); f.data == g.data && f.name == g.name && f.synced <= |f.data|
    ensures Sound(c') && LastBytes(c') == LastBytes(c)
  {
    hide SegmentBytes, Run;
    assert forall i | 0 <= i < |c.disk| - 1 :: c'.disk[i] == c'.disk[..|c.disk| - 1][i] == c.disk[..|c.disk| - 1][i] == c.disk[i];
    assert SegmentOf(Last(c), LastPart(c));
  }

  lemma CreatedContents(f: File)
    requires Leftover(f) && f.name == 1
    ensures Intact([f]) && AllUsable(Live([f])) && Contents(Live([f])) == []
  {
    hide EncodeSegmentHeader, SegmentBytes, Headless, GoodAt, Usable, Scan;
    EmptySegment(1);
    var none: seq<seq<Record>> := [[]];
    var c := CrashPoint([f], none);
    assert SegmentOf(f, []);
    SoundRecovers(c);
    FlatEmpty<Record>();
    assert none[..0] == [];
  }

  /** Whatever step of opening a killed process stops at, the next start finds the same records. */
  lemma OpeningIntact(files: seq<File>, d: seq<File>)
    requires Intact(files) && Plausible(files) && AllUsable(Live(files)) && OpeningStep(files, d)
    ensures Intact(d) && AllUsable(Live(d)) && Contents(Live(d)) == Contents(Live(files))
  {
    hide Scan, Usable, GoodAt, Intact, Live, Contents, Leftover, Plausible, AllUsable, Cut, HalfCut;
    LiveIsIntact(files);
    if d != files && d != Live(files) {
      if Live(files) == [] {
        assert d == [d[0]];
        CreatedContents(d[0]);
        NoContents();
      } else {
        CutContents(files, d);
      }
    }
  }

  lemma NoContents()
    ensures Contents([]) == []
  {}

  lemma StableSurvives(d: seq<File>, e: seq<File>)
    requires Stable(d) && PowerLoss(d, e)
    ensures e == d
  {
    forall i | 0 <= i < |d| ensures e[i] == d[i] {
      assert |e[i].data| == |d[i].data|;
    }
  }

  lemma OpeningStable(files: seq<File>, d: seq<File>)
    requires Stable(files) && AllUsable(Live(files)) && OpeningStep(files, d)
    ensures Stable(d) || (|d| == 1 && Leftover(d[0]) && d[0].name == 1 && Live(files) == [])
  {
    hide Scan, Usable, Leftover, Headless;
    LiveIsPrefix(files);
  }

  /** And so it does after another power loss while opening what the last one left. */
  lemma OpeningCrash(files: seq<File>, d: seq<File>, e: seq<File>)
    requires Intact(files) && Plausible(files) && AllUsable(Live(files)) && OpeningStep(files, d)
    requires Stable(files) && PowerLoss(d, e)
    ensures Intact(e) && AllUsable(Live(e)) && Contents(Live(e)) == Contents(Live(files))
  {
    hide Scan, Usable, GoodAt, Intact, Live, Contents, Plausible, AllUsable, Cut, HalfCut, OpeningStep, Stable, EncodeSegmentHeader;
    OpeningStable(files, d);
    if Stable(d) {
      StableSurvives(d, e);
      OpeningIntact(files, d);
    } else {
      assert e == [e[0]];
      CreatedContents(e[0]);
      NoContents();
    }
  }

  /** Creates the first segment of an empty directory. */
  method CreateLog(mode: WriteConcern, groupCommit: bool, segmentSizeBytes: nat, io: CreateIo)
    returns (r: Result<WriteAheadLog>, ghost passed: seq<seq<File>>)
    requires groupCommit ==> mode == Flushed
    ensures r.Ok? <==> io.Created?
    ensures r.Ok? ==> fresh(r.value) && Reopened(r.value, 1, [], true)
    ensures r.Ok? ==> r.value.mode == mode && r.value.groupCommit == groupCommit && r.value.segmentSizeBytes == segmentSizeBytes
    ensures forall i | 0 <= i < |passed| :: passed[i] == [] || (|passed[i]| == 1 && Leftover(passed[i][0]) && passed[i][0].name == 1)
    ensures passed != [] && (r.Ok? ==> passed[|passed| - 1] == r.value.disk)
  {
    hide SegmentBytes, SegmentOf, Complete, Within, Sound, Flat, EncodeSegmentHeader;
    var header := EncodeSegmentHeader(1);
    var seen := if io.seen <= |header| then header[..io.seen] else header;
    var created := File(1, header, if mode == Flushed then |header| else 0);
    passed := [[File(1, seen, 0)]];
    if !io.Created? {
      return Failed, if io.LeftBehind? then passed else passed + [[]];
    }
    FirstSegment(created);
    var log := new WriteAheadLog(mode, groupCommit, segmentSizeBytes, [created], SEGMENT_HEADER_SIZE, 1, [[]]);
    OpenedIsValid(log);
    return Ok(log), passed + [[created]];
  }

  /** Opens the last segment and cuts its torn tail off. */
  method CutTail(live: seq<File>, end: nat, io: OpenIo) returns (ok: bool, ghost passed: seq<seq<File>>)
    requires live != [] && end <= |live[|live| - 1].data|
    ensures Succeeds(io) ==> ok
    ensures forall i | 0 <= i < |passed| :: passed[i] == HalfCut(live, end) || passed[i] == Cut(live, end)
    ensures ok ==> Cut(live, end) == if passed == [] then live else passed[|passed| - 1]
  {
    passed := [];
    if !io.found {
      return false, passed;
    }
    if end < |live[|live| - 1].data| {
      if !io.cut {
        return false, passed;
      }
      passed := [HalfCut(live, end)];
      if !io.flushed {
        return false, passed;
      }
      return true, passed + [Cut(live, end)];
    }
    assert Cut(live, end) == live;
    return true, passed;
  }

  /** The log on the segments found. */
  method AdoptLog(files: seq<File>, out: Outcome, mode: WriteConcern, groupCommit: bool, segmentSizeBytes: nat)
    returns (log: WriteAheadLog)
    requires Plausible(files) && (groupCommit ==> mode == Flushed)
    requires Intact(files) && Reports(files, out) && Live(files) != []
    ensures fresh(log) && OpenedOn(log, files) && log.disk == Cut(Live(files), out.validEnd)
    ensures log.mode == mode && log.groupCommit == groupCommit && log.segmentSizeBytes == segmentSizeBytes
  {
    hide SegmentBytes, SegmentOf, Complete, Scan, Within, Usable, Sound, DurableLsn, Contents, Flat, GoodAt, Headless, Stable, OpensStable;
    IntactIsSound(files);
    CutIsStable(files);
    var live := Live(files);
    var disk := Cut(live, out.validEnd);
    log := new WriteAheadLog(mode, groupCommit, segmentSizeBytes, disk, out.validEnd, out.lastLsn + 1, Parts(live));
    OpenedIsValid(log);
  }

  /** The log on what recovery has found: a first segment or the last one, mended. */
  method StartLog(files: seq<File>, out: Outcome, mode: WriteConcern, groupCommit: bool, segmentSizeBytes: nat, io: OpenIo)
    returns (r: Result<WriteAheadLog>, ghost passed: seq<seq<File>>)
    requires Plausible(files) && (groupCommit ==> mode == Flushed) && Intact(files) && Reports(files, out)
    ensures Succeeds(io) ==> r.Ok?
    ensures r.Ok? ==> fresh(r.value) && OpenedOn(r.value, files)
    ensures r.Ok? ==> r.value.mode == mode && r.value.groupCommit == groupCommit && r.value.segmentSizeBytes == segmentSizeBytes
    ensures AllUsable(Live(files)) && AllSteps(files, passed)
    ensures r.Ok? ==> r.value.disk == if passed == [] then Live(files) else passed[|passed| - 1]
  {
    hide OpenedOn, Intact, Plausible, Reports, OpeningStep, AllSteps, Live, AllUsable, Leftover, Scan, Usable, Reopened, Cut;
    ReportsLive(files, out);
    LiveIsUsable(files);
    if out.segments == [] {
      r, passed := CreateLog(mode, groupCommit, segmentSizeBytes, io.create);
      CreatingSteps(files, passed);
      if r.Ok? {
        NoLive(r.value, files);
      }
      return;
    }
    ReportsEnd(files, out);
    var ok;
    ok, passed := CutTail(Live(files), out.validEnd, io);
    CuttingSteps(files, passed);
    if !ok {
      return Failed, passed;
    }
    var log := AdoptLog(files, out, mode, groupCommit, segmentSizeBytes);
    return Ok(log), passed;
  }

  /**
   * `WriteAheadLog.open`: refuses exactly the directories recovery refuses, and otherwise, if
   * every disk call succeeds, yields a log with the recovered records. In `flushed` mode the
   * log starts out keeping its promises if and only if every segment it keeps was stable, or
   * is the last one and had a torn tail to cut: always after a power loss, but not always
   * after a killed process. `passed` are the directories on the way (`OpeningIntact`,
   * `OpeningCrash`).
   */
  method Open(files: seq<File>, mode: WriteConcern, groupCommit: bool, segmentSizeBytes: nat, io: OpenIo)
    returns (r: Result<WriteAheadLog>, ghost passed: seq<seq<File>>)
    requires Plausible(files) && (groupCommit ==> mode == Flushed)
    ensures r.Ok? ==> fresh(r.value) && OpenedOn(r.value, files)
    ensures Intact(files) && Succeeds(io) ==> r.Ok?
    ensures r.Ok? ==> r.value.mode == mode && r.value.groupCommit == groupCommit && r.value.segmentSizeBytes == segmentSizeBytes
    ensures AllOpening(files, passed) && (r.Ok? ==> passed[|passed| - 1] == r.value.disk)
  {
    hide OpenedOn, Intact, Plausible, Reports, AllSteps, Live, AllUsable;
    var out := RecoverSegments(files);
    passed := [files];
    if out.Refused? {
      return Failed, passed;
    }
    ReportsLive(files, out);
    LiveIsUsable(files);
    OpeningStarts(files);
    if |out.segments| < |files| {
      if !io.removed {
        return Failed, passed;
      }
      MoreSteps(files, passed, [Live(files)]);
      passed := passed + [Live(files)];
      if !io.directory {
        return Failed, passed;
      }
    }
    ghost var before, more := passed, [];
    r, more := StartLog(files, out, mode, groupCommit, segmentSizeBytes, io);
    MoreSteps(files, before, more);
    passed := before + more;
  }

  lemma OpeningStarts(files: seq<File>)
    requires AllUsable(Live(files))
    ensures AllSteps(files, [files]) && AllSteps(files, [Live(files)])
  {}

  lemma ReportsEnd(files: seq<File>, out: Outcome)
    requires Intact(files) && Reports(files, out) && Live(files) != []
    ensures AllUsable(Live(files)) && out.validEnd == Scan(Live(files)[|Live(files)| - 1]).validEnd
  {
    LiveIsUsable(files);
  }

  lemma CuttingSteps(files: seq<File>, more: seq<seq<File>>)
    requires AllUsable(Live(files)) && Live(files) != []
    requires
      var live := Live(files);
      var end := Scan(live[|live| - 1]).validEnd;
      forall i | 0 <= i < |more| :: more[i] == HalfCut(live, end) || more[i] == Cut(live, end)
    ensures AllSteps(files, more)
  {
    hide Scan, Live;
  }

  lemma CreatingSteps(files: seq<File>, more: seq<seq<File>>)
    requires AllUsable(Live(files)) && Live(files) == []
    requires forall i | 0 <= i < |more| :: more[i] == [] || (|more[i]| == 1 && Leftover(more[i][0]) && more[i][0].name == 1)
    ensures AllSteps(files, more)
  {
    hide Leftover, Live;
  }

  lemma ReportsLive(files: seq<File>, out: Outcome)
    requires Intact(files) && Reports(files, out)
    ensures out.Opened? && (out.segments == [] <==> Live(files) == [])
    ensures |out.segments| < |files| <==> Live(files) != files
  {}

  lemma NoLive(log: WriteAheadLog, files: seq<File>)
    requires Intact(files) && Live(files) == [] && Reopened(log, 1, [], true)
    ensures OpenedOn(log, files)
  {
    hide Reopened;
  }

  lemma FirstSegment(f: File)
    requires f.name == 1 && f.data == EncodeSegmentHeader(1) && f.synced <= |f.data|
    ensures
      var c := CrashPoint([f], [[]]);
      && Sound(c) && Last(c).data == LastBytes(c) && NextLsn(c) == 1 && Flat(c.parts) == [] && StartLsn(c) == 1
  {
    hide EncodeSegmentHeader;
    EmptySegment(1);
    FlatEmpty<Record>();
    var none: seq<seq<Record>> := [[]];
    assert none[..0] == [];
  }

  lemma OpenedIsValid(log: WriteAheadLog)
    requires Sound(log.Point()) && Last(log.Point()).data == LastBytes(log.Point())
    requires |Last(log.Point()).data| == log.position >= SEGMENT_HEADER_SIZE
    requires log.segments == Names(log.disk) && log.nextLsn == NextLsn(log.Point())
    requires log.pending == [] && log.pendingBytes == 0 && !log.unsynced && !log.broken
    requires log.trail == [log.Point()] && log.stray == [] && (log.groupCommit ==> log.mode == Flushed)
    ensures log.Aligned()
    ensures log.mode != Flushed ==> log.Valid()
    ensures log.mode == Flushed ==> (log.Valid() <==> Stable(log.disk))
    ensures log.mode == Flushed && log.Valid() ==> log.Durable() == log.nextLsn - 1
  {
    hide SegmentBytes, SegmentOf, Complete, Within;
    NothingStrewn(log.Point(), log.mode == Flushed);
    FlatEmpty<byte>();
    assert Last(log.Point()).data + Flat(log.pending) == Last(log.Point()).data;
    if log.mode == Flushed && Stable(log.disk) {
      log.SettledTail();
    }
  }

  /** What a killed process leaves of a log whose only record was written but never flushed. */
  lemma KilledUnflushed(r: Record)
    requires Run([r], 1)
    ensures
      var killed := [File(1, SegmentBytes(1, [r]), SEGMENT_HEADER_SIZE)];
      && Plausible(killed) && Intact(killed) && Live(killed) == killed && AllUsable(killed) && Contents(killed) == [r]
      && !OpensStable(killed) && Scan(killed[0]).validEnd == |killed[0].data|
  {
    hide EncodeRecord, EncodeSegmentHeader, DecodeSegmentHeader, ScanFrom;
    var f := File(1, SegmentBytes(1, [r]), SEGMENT_HEADER_SIZE);
    var c := CrashPoint([f], [[r]]);
    BodyCons([r]);
    assert Complete(f, [r]);
    CompleteScans(f, [r]);
    assert Sound(c);
    SoundRecovers(c);
    ContentsOfComplete([f], [[r]]);
    assert [[r]][..0] == [];
    FlatEmpty<Record>();
  }

  lemma SegmentStarts(r: Record)
    requires Run([r], 1)
    ensures EncodeSegmentHeader(1) <= SegmentBytes(1, [r])
  {}

  /** The segment without its record is a directory too, and an empty log. */
  lemma HeaderOnly(f: File)
    requires f.name == 1 && f.data == EncodeSegmentHeader(1) && f.synced <= |f.data|
    ensures Intact([f]) && Live([f]) == [f] && AllUsable([f]) && Contents([f]) == []
  {
    hide EncodeRecord, EncodeSegmentHeader, DecodeSegmentHeader, ScanFrom;
    FirstSegment(f);
    var c := CrashPoint([f], [[]]);
    SoundRecovers(c);
    EmptySegment(1);
    assert Complete(f, []);
    ContentsOfComplete([f], [[]]);
    FlatEmpty<Record>();
    var none: seq<seq<Record>> := [[]];
    assert none[..0] == [];
  }

  /**
   * What opening after a killed process can lead to. The opened log holds the record, hands
   * it to readers, has nothing to commit, and says it is committed; a power loss then leaves
   * a directory that recovers without it. (The record was never acknowledged before the kill.)
   */
  method ReopenedUnflushed(r: Record, groupCommit: bool, segmentSizeBytes: nat) returns (log: WriteAheadLog, ghost after: seq<File>)
    requires Run([r], 1)
    ensures fresh(log) && log.mode == Flushed && !log.unsynced && log.Records() == [r] && !log.Valid()
    ensures PowerLoss(log.disk, after) && Intact(after) && AllUsable(Live(after)) && Contents(Live(after)) == []
  {
    hide EncodeRecord, EncodeSegmentHeader, DecodeSegmentHeader, ScanFrom, Scan, Intact, Contents, Live, Usable, Sound, Flat,
         WriteAheadLog.Valid, WriteAheadLog.Aligned, SegmentBytes, OpensStable;
    KilledUnflushed(r);
    var killed := [File(1, SegmentBytes(1, [r]), SEGMENT_HEADER_SIZE)];
    var result, passed := Open(killed, Flushed, groupCommit, segmentSizeBytes, OpenIo(true, true, Created(0), true, true, true));
    log := result.value;
    after := [File(1, EncodeSegmentHeader(1), SEGMENT_HEADER_SIZE)];
    SegmentStarts(r);
    HeaderOnly(after[0]);
  }

  // ---------------------------------------------------------------- a leftover segment

  /**
   * Seen from a running log, whatever it has left behind: its directory can be opened again
   * if and only if that is nothing, or one file that still comes after the last segment and
   * has no complete header or no record appended since. One small enough record makes the
   * next start fail, and so does the next segment.
   */
  lemma LeftoverInLog(log: WriteAheadLog)
    requires log.Valid() && !log.broken && log.pending == []
    ensures
      var c := log.Point();
      Intact(Directory(c)) <==>
        || log.stray == []
        || (&& |log.stray| == 1 && log.stray[0].name > Last(c).name
            && (|log.stray[0].data| < SEGMENT_HEADER_SIZE || log.stray[0].name == log.nextLsn))
  {
    hide Intact, Settled, SegmentBytes, ScanFrom, DecodeSegmentHeader, Within, DurableLsn, WriteAheadLog.Traced, Apart, AllLeftover, Merge;
    var c := log.Point();
    FlatEmpty<byte>();
    assert Last(c).data + [] == Last(c).data;
    assert SegmentOf(Last(c), LastPart(c));
    CompleteScans(Last(c), LastPart(c));
    WholeIsLast(c);
    ExactlyTolerated(c);
  }
}
