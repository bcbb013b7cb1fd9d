/**
 * Reading a log directory back (packages/storage/src/wal/write-ahead-log.ts, `recoverSegments`),
 * and what a crash may leave in it.
 *
 * A directory is the sequence of its segment files in name order. Each file carries the
 * length that has reached stable storage; reading ignores it, a power loss respects it.
 */
module WalRecovery {
  import opened Bytes
  import opened Text
  import opened WalFormat

  datatype File = File(name: nat, data: bytes, synced: nat)

  // ---------------------------------------------------------------- what recovery accepts

  /** A header that was never completely written. */
  predicate Headless(f: File) {
    DecodeSegmentHeader(f.data).None? && (|f.data| < SEGMENT_HEADER_SIZE || AllZero(f.data))
  }

  predicate Usable(f: File) {
    DecodeSegmentHeader(f.data) == Some(f.name)
  }

  lemma HeaderFits(b: bytes)
    ensures DecodeSegmentHeader(b).Some? ==> |b| >= SEGMENT_HEADER_SIZE
  {}

  function Scan(f: File): (s: SegmentScan)
    requires Usable(f)
    ensures SEGMENT_HEADER_SIZE <= s.validEnd <= |f.data|
  {
    ScanFrom(f.data, SEGMENT_HEADER_SIZE, f.name)
  }

  /** The last LSN a usable segment holds; one less than its name when it is empty. */
  function LastLsn(f: File): int
    requires Usable(f)
  {
    f.name + |Scan(f).records| - 1
  }

  /** Segment `i` passes every check recovery makes, given the segment before it. */
  predicate GoodAt(files: seq<File>, i: nat)
    requires i < |files|
  {
    && Usable(files[i])
    && (i > 0 ==> Usable(files[i - 1]) && files[i].name == LastLsn(files[i - 1]) + 1)
    && (Scan(files[i]).stop == Clean || (Scan(files[i]).stop == TornTail && i == |files| - 1))
  }

  /** The files left once a headless last segment is deleted. */
  function Live(files: seq<File>): seq<File> {
    if files != [] && Headless(files[|files| - 1]) then files[..|files| - 1] else files
  }

  predicate Intact(files: seq<File>) {
    forall i | 0 <= i < |Live(files)| :: GoodAt(files, i)
  }

  function Names(files: seq<File>): (ns: seq<nat>)
    ensures |ns| == |files| && forall i | 0 <= i < |files| :: ns[i] == files[i].name
  {
    seq(|files|, i requires 0 <= i < |files| => files[i].name)
  }

  datatype Outcome =
    | Opened(segments: seq<nat>, validEnd: nat, lastLsn: int)
    | Refused(index: nat)

  /** What recovery reports for an intact directory. */
  ghost predicate Reports(files: seq<File>, out: Outcome)
    requires Intact(files)
  {
    var live := Live(files);
    && out.Opened?
    && out.segments == Names(live)
    && (live == [] ==> out.validEnd == SEGMENT_HEADER_SIZE && out.lastLsn == 0)
    && (live != [] ==>
          && GoodAt(files, |live| - 1)
          && out.validEnd == Scan(live[|live| - 1]).validEnd
          && out.lastLsn == LastLsn(live[|live| - 1]))
  }

  ghost predicate FirstBad(files: seq<File>, i: nat) {
    && i < |Live(files)|
    && !GoodAt(files, i)
    && forall j | 0 <= j < i :: GoodAt(files, j)
  }

  /** The record loop of one segment, with the segment's header already read. */
  method ScanRecords(data: bytes, first: nat) returns (offset: nat, expected: nat, stop: Stop)
    requires |data| >= SEGMENT_HEADER_SIZE
    ensures
      var s := ScanFrom(data, SEGMENT_HEADER_SIZE, first);
      offset == s.validEnd && expected == first + |s.records| && stop == s.stop
  {
    hide ScanRecord;
    offset, expected := SEGMENT_HEADER_SIZE, first;
    ghost var whole := ScanFrom(data, SEGMENT_HEADER_SIZE, first);
    while true
      invariant SEGMENT_HEADER_SIZE <= offset <= |data| && expected >= first
      invariant
        var rest := ScanFrom(data, offset, expected);
        && whole.validEnd == rest.validEnd && whole.stop == rest.stop
        && |whole.records| == expected - first + |rest.records|
      decreases |data| - offset
    {
      var result := ScanRecord(data, offset, expected);
      match result {
        case End => return offset, expected, Clean;
        case Torn => return offset, expected, TornTail;
        case Corrupt => return offset, expected, Damaged;
        case Found(r, end) => offset, expected := end, r.lsn + 1;
      }
    }
  }

  method RecoverSegments(files: seq<File>) returns (out: Outcome)
    ensures out.Opened? <==> Intact(files)
    ensures out.Opened? ==> Reports(files, out)
    ensures out.Refused? ==> FirstBad(files, out.index)
  {
    hide DecodeSegmentHeader, ScanFrom;
    var segments: seq<nat> := [];
    var validEnd := SEGMENT_HEADER_SIZE;
    var lastLsn: int := 0;
    var index := 0;
    while index < |files|
      invariant 0 <= index <= |files|
      invariant forall j | 0 <= j < index :: GoodAt(files, j)
      invariant segments == Names(files[..index])
      invariant index == 0 ==> validEnd == SEGMENT_HEADER_SIZE && lastLsn == 0
      invariant index > 0 ==> GoodAt(files, index - 1)
      invariant index > 0 ==> validEnd == Scan(files[index - 1]).validEnd && lastLsn == LastLsn(files[index - 1])
    {
      var file := files[index];
      var isLast := index == |files| - 1;
      var header := DecodeSegmentHeader(file.data);
      if header.None? {
        if isLast && (|file.data| < SEGMENT_HEADER_SIZE || AllZero(file.data)) {
          // The last segment never got a whole header: it is deleted.
          assert Live(files) == files[..index];
          return Opened(segments, validEnd, lastLsn);
        }
        assert !GoodAt(files, index);
        return Refused(index);
      }
      if header.value != file.name || (|segments| > 0 && header.value != lastLsn + 1) {
        assert !GoodAt(files, index);
        return Refused(index);
      }
      HeaderFits(file.data);
      var offset, expected, stop := ScanRecords(file.data, header.value);
      if stop == Damaged || (stop == TornTail && !isLast) {
        assert !GoodAt(files, index);
        return Refused(index);
      }
      segments := segments + [header.value];
      validEnd := offset;
      lastLsn := expected as int - 1;
      assert Names(files[..index + 1]) == Names(files[..index]) + [file.name];
      assert GoodAt(files, index);
      index := index + 1;
    }
    assert files[..index] == files == Live(files);
    return Opened(segments, validEnd, lastLsn);
  }

  ghost predicate AllUsable(files: seq<File>) {
    forall i | 0 <= i < |files| :: Usable(files[i])
  }

  /** The records of a directory, in order. */
  ghost function Contents(files: seq<File>): seq<Record>
    requires AllUsable(files)
  {
    if files == [] then []
    else Contents(files[..|files| - 1]) + Scan(files[|files| - 1]).records
  }

  // ---------------------------------------------------------------- crashes

  /**
   * The segments of a directory together with the records that were handed to each of them,
   * including a record whose write failed part way. `stray` are files beside them: segments
   * that could not be created and could not be removed either.
   */
  datatype CrashPoint = CrashPoint(disk: seq<File>, parts: seq<seq<Record>>, stray: seq<File> := [])

  /** `f` holds some prefix of the segment whose records are `rs`. */
  ghost predicate SegmentOf(f: File, rs: seq<Record>) {
    && 0 < f.name < 0x1_0000_0000_0000_0000
    && Run(rs, f.name)
    && f.synced <= |f.data|
    && f.data <= SegmentBytes(f.name, rs)
  }

  ghost predicate Complete(f: File, rs: seq<Record>) {
    SegmentOf(f, rs) && f.data == SegmentBytes(f.name, rs)
  }

  /** Only the last segment may be partly written, and segments follow on from each other. */
  ghost predicate Sound(c: CrashPoint) {
    && |c.disk| == |c.parts| > 0
    && (forall i | 0 <= i < |c.disk| :: SegmentOf(c.disk[i], c.parts[i]))
    && (forall i | 0 <= i < |c.disk| - 1 :: Complete(c.disk[i], c.parts[i]))
    && (forall i | 0 < i < |c.disk| :: c.disk[i].name == c.disk[i - 1].name + |c.parts[i - 1]|)
    && (|c.disk| == 1 && c.disk[0].name > 1 ==> |c.disk[0].data| >= SEGMENT_HEADER_SIZE)
  }

  /** Every segment but the last is entirely on stable storage. */
  ghost predicate Settled(c: CrashPoint) {
    && (|c.disk| == 1 && c.disk[0].name > 1 ==> c.disk[0].synced >= SEGMENT_HEADER_SIZE)
    && forall i | 0 <= i < |c.disk| - 1 :: c.disk[i].synced == |c.disk[i].data|
  }

  /** What a power loss can leave: each file keeps its synced bytes and a prefix of the rest, now all stable. */
  ghost predicate PowerLoss(disk: seq<File>, after: seq<File>) {
    && |after| == |disk|
    && forall i | 0 <= i < |disk| ::
      && after[i].name == disk[i].name
      && disk[i].synced <= |after[i].data|
      && after[i].synced == |after[i].data|
      && after[i].data <= disk[i].data
  }

  /** Records of a segment that lie wholly within its first `k` bytes. */
  function Within(rs: seq<Record>, k: nat): (n: nat)
    requires forall i | 0 <= i < |rs| :: Encodable(rs[i])
    ensures n <= |rs|
  {
    if k < SEGMENT_HEADER_SIZE then 0 else Whole(rs, k - SEGMENT_HEADER_SIZE)
  }

  function Flat<T>(parts: seq<seq<T>>): seq<T> {
    if parts == [] then [] else Flat(parts[..|parts| - 1]) + parts[|parts| - 1]
  }

  /** The LSN through which a power loss cannot take anything. */
  ghost function DurableLsn(c: CrashPoint): int
    requires Sound(c)
  {
    var n := |c.disk| - 1;
    c.disk[n].name + Within(c.parts[n], c.disk[n].synced) - 1
  }

  ghost function StartLsn(c: CrashPoint): nat
    requires Sound(c)
  {
    c.disk[0].name
  }

  lemma CompleteScans(f: File, rs: seq<Record>)
    requires Complete(f, rs)
    ensures Usable(f) && Scan(f) == SegmentScan(rs, |f.data|, Clean)
  {
    hide EncodeRecord, DecodeSegmentHeader, EncodeSegmentHeader;
    ZeroTailExact(f.name, rs, []);
    assert f.data + [] == f.data;
  }

  lemma PrefixScans(f: File, rs: seq<Record>)
    requires SegmentOf(f, rs)
    ensures |f.data| < SEGMENT_HEADER_SIZE ==> Headless(f)
    ensures |f.data| >= SEGMENT_HEADER_SIZE ==>
      && Usable(f) && !Headless(f)
      && Scan(f).records == rs[..Within(rs, |f.data|)]
      && Scan(f).stop != Damaged
  {
    hide EncodeRecord, EncodeSegmentHeader, ScanFrom, Whole;
    if |f.data| >= SEGMENT_HEADER_SIZE {
      TornTailExact(f.name, rs, |f.data|);
      assert f.data == SegmentBytes(f.name, rs)[..|f.data|];
    }
  }

  lemma {:induction false} WithinMonotone(rs: seq<Record>, j: nat, k: nat)
    requires forall i | 0 <= i < |rs| :: Encodable(rs[i])
    requires j <= k
    ensures Within(rs, j) <= Within(rs, k)
  {
    hide EncodeRecord;
    if j >= SEGMENT_HEADER_SIZE {
      var m := j - SEGMENT_HEADER_SIZE;
      FitsWithin(rs, m);
      WholeAtLeast(rs, Whole(rs, m), k - SEGMENT_HEADER_SIZE);
    }
  }

  lemma {:induction false} FitsWithin(rs: seq<Record>, k: nat)
    requires forall i | 0 <= i < |rs| :: Encodable(rs[i])
    ensures |Body(rs[..Whole(rs, k)])| <= k
  {
    hide EncodeRecord;
    if rs != [] && |EncodeRecord(rs[0])| <= k {
      FitsWithin(rs[1..], k - |EncodeRecord(rs[0])|);
      TakeTail(rs, Whole(rs, k));
    }
  }

  /** The records that survive when the last segment is cut to its first `k` bytes. */
  ghost function Surviving(c: CrashPoint, k: nat): seq<Record>
    requires Sound(c)
  {
    var n := |c.disk| - 1;
    Flat(c.parts[..n]) + c.parts[n][..Within(c.parts[n], k)]
  }

  lemma {:induction false} FlatLength(c: CrashPoint, m: nat)
    requires Sound(c) && m < |c.disk|
    ensures |Flat(c.parts[..m])| == c.disk[m].name - c.disk[0].name
  {
    hide SegmentOf, Complete;
    if m > 0 {
      FlatLength(c, m - 1);
      assert c.parts[..m][..m - 1] == c.parts[..m - 1];
    }
  }

  lemma {:induction false} ContentsOfComplete(files: seq<File>, parts: seq<seq<Record>>)
    requires |files| == |parts|
    requires forall i | 0 <= i < |files| :: Complete(files[i], parts[i])
    ensures AllUsable(files) && Contents(files) == Flat(parts)
    decreases |files|
  {
    hide Complete, Usable, Scan;
    forall i | 0 <= i < |files| ensures Usable(files[i]) {
      CompleteScans(files[i], parts[i]);
    }
    if files != [] {
      var n := |files| - 1;
      ContentsOfComplete(files[..n], parts[..n]);
      CompleteScans(files[n], parts[n]);
    }
  }

  lemma SoundIsIntact(c: CrashPoint)
    requires Sound(c)
    ensures Intact(c.disk) && AllUsable(Live(c.disk))
    ensures Live(c.disk) == if |c.disk[|c.disk| - 1].data| < SEGMENT_HEADER_SIZE then c.disk[..|c.disk| - 1] else c.disk
  {
    hide DecodeSegmentHeader, ScanFrom, SegmentBytes;
    var n := |c.disk| - 1;
    PrefixScans(c.disk[n], c.parts[n]);
    forall i | 0 <= i < n ensures Usable(c.disk[i]) && Scan(c.disk[i]) == SegmentScan(c.parts[i], |c.disk[i].data|, Clean) {
      CompleteScans(c.disk[i], c.parts[i]);
    }
    assert forall i | 0 <= i < n :: GoodAt(c.disk, i);
    if |c.disk[n].data| >= SEGMENT_HEADER_SIZE {
      assert GoodAt(c.disk, n);
    }
  }

  /**
   * Recovery of a sound directory finds exactly the records that are wholly written:
   * everything in the earlier segments and a prefix of the last one.
   */
  lemma SoundRecovers(c: CrashPoint)
    requires Sound(c)
    ensures Intact(c.disk) && AllUsable(Live(c.disk))
    ensures
      var live := Live(c.disk);
      && Contents(live) == Surviving(c, |c.disk[|c.disk| - 1].data|)
      && (live != [] ==> live[0].name == StartLsn(c)
                         && LastLsn(live[|live| - 1]) == StartLsn(c) + |Contents(live)| - 1)
      && (live == [] ==> StartLsn(c) == 1 && Contents(live) == [])
  {
    hide DecodeSegmentHeader, ScanFrom, SegmentBytes;
    SoundIsIntact(c);
    var n := |c.disk| - 1;
    var k := |c.disk[n].data|;
    var live := Live(c.disk);
    ContentsOfComplete(c.disk[..n], c.parts[..n]);
    FlatLength(c, n);
    PrefixScans(c.disk[n], c.parts[n]);
    if k < SEGMENT_HEADER_SIZE {
      assert c.parts[n][..Within(c.parts[n], k)] == [];
      assert Surviving(c, k) == Flat(c.parts[..n]);
      if n > 0 {
        CompleteScans(c.disk[n - 1], c.parts[n - 1]);
      }
    }
  }

  lemma SurvivingIsPrefix(c: CrashPoint, j: nat, k: nat)
    requires Sound(c) && j <= k
    ensures Surviving(c, j) <= Surviving(c, k) <= Flat(c.parts)
  {
    var n := |c.disk| - 1;
    WithinMonotone(c.parts[n], j, k);
  }

  /** What a power loss leaves of a settled directory is a sound one again. */
  lemma PowerLossIsSound(c: CrashPoint, after: seq<File>)
    requires Sound(c) && Settled(c) && PowerLoss(c.disk, after)
    ensures Sound(CrashPoint(after, c.parts))
  {
    hide SegmentBytes;
    var n := |c.disk| - 1;
    forall i | 0 <= i < n ensures Complete(after[i], c.parts[i]) {
      assert after[i].data == c.disk[i].data;
    }
    assert SegmentOf(after[n], c.parts[n]);
  }

  /**
   * Crash safety of the log: whatever a power loss leaves of a sound, flushed directory,
   * recovery accepts it and finds exactly a prefix of the records that were handed to the
   * log, one that reaches at least the durable LSN.
   */
  lemma PowerLossRecovers(c: CrashPoint, after: seq<File>)
    requires Sound(c) && Settled(c) && PowerLoss(c.disk, after)
    ensures Intact(after) && AllUsable(Live(after))
    ensures
      var live := Live(after);
      && Contents(live) <= Flat(c.parts)
      && DurableLsn(c) <= StartLsn(c) + |Contents(live)| - 1
      && (live != [] ==> live[0].name == StartLsn(c)
                         && LastLsn(live[|live| - 1]) == StartLsn(c) + |Contents(live)| - 1)
      && (live == [] ==> StartLsn(c) == 1 && Contents(live) == [])
  {
    hide DecodeSegmentHeader, ScanFrom, SegmentBytes, Within;
    var n := |c.disk| - 1;
    var k := |after[n].data|;
    var c' := CrashPoint(after, c.parts);
    PowerLossIsSound(c, after);
    SoundRecovers(c');
    SurvivingIsPrefix(c', c.disk[n].synced, k);
    FlatLength(c, n);
  }

  lemma LiveIsUsable(files: seq<File>)
    requires Intact(files)
    ensures AllUsable(Live(files))
  {
    hide Usable;
    forall i | 0 <= i < |Live(files)| ensures Usable(Live(files)[i]) {
      assert GoodAt(files, i);
    }
  }

  lemma LiveIsPrefix(files: seq<File>)
    ensures |Live(files)| <= |files| && forall i | 0 <= i < |Live(files)| :: Live(files)[i] == files[i]
  {
    hide Headless;
  }
}
