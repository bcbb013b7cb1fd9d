/**
 * packages/storage/src/inspect/inspect.ts: examining a log without opening it. This is a
 * second implementation of the checks recovery makes; the contracts below tie it to the first.
 */
module Inspect {
  import opened Bytes
  import opened Text
  import opened WalFormat
  import opened WalRecovery
  import opened Log = WriteAheadLog
  import opened EngineRecovery
  import opened Replaying

  datatype Status = Fine | TornEnd | CorruptRecord | BadHeader | IncompleteHeader

  datatype SegmentReport = SegmentReport(
    name: nat, status: Status, firstLsn: Option<nat>, lastLsn: Option<int>, records: nat, validBytes: nat, gap: bool)

  /** What is said of one segment, apart from how it follows on from the one before. */
  function Analysis(f: File, isLast: bool): SegmentReport {
    if Usable(f) then
      var s := Scan(f);
      var status := match s.stop
        case Clean => Fine
        case TornTail => if isLast then TornEnd else CorruptRecord
        case Damaged => CorruptRecord;
      SegmentReport(f.name, status, Some(f.name), Some(LastLsn(f)), |s.records|, s.validEnd, false)
    else
      SegmentReport(f.name, if Headless(f) then IncompleteHeader else BadHeader, None, None, 0, 0, false)
  }

  method AnalyzeSegment(f: File, isLast: bool) returns (r: SegmentReport)
    ensures r == Analysis(f, isLast)
  {
    hide ScanRecord, DecodeSegmentHeader;
    var header := DecodeSegmentHeader(f.data);
    if header.None? {
      var incomplete := |f.data| < SEGMENT_HEADER_SIZE || AllZero(f.data);
      return SegmentReport(f.name, if incomplete then IncompleteHeader else BadHeader, None, None, 0, 0, false);
    }
    if header.value != f.name {
      assert !Headless(f);
      return SegmentReport(f.name, BadHeader, None, None, 0, 0, false);
    }
    HeaderFits(f.data);
    var offset, expected, records, status := SEGMENT_HEADER_SIZE, header.value, 0, Fine;
    ghost var whole := Scan(f);
    while true
      invariant SEGMENT_HEADER_SIZE <= offset <= |f.data| && expected == f.name + records
      invariant
        var rest := ScanFrom(f.data, offset, expected);
        whole.validEnd == rest.validEnd && whole.stop == rest.stop && |whole.records| == records + |rest.records|
      invariant status == Fine
      decreases |f.data| - offset
    {
      var result := ScanRecord(f.data, offset, expected);
      match result {
        case End =>
          break;
        case Found(r, end) =>
          offset, expected, records := end, r.lsn + 1, records + 1;
        case Torn =>
          status := if isLast then TornEnd else CorruptRecord;
          break;
        case Corrupt =>
          status := CorruptRecord;
          break;
      }
    }
    return SegmentReport(f.name, status, Some(header.value), Some(expected as int - 1), records, offset, false);
  }

  predicate Gap(previous: SegmentReport, r: SegmentReport) {
    previous.lastLsn.Some? && r.firstLsn.Some? && r.firstLsn.value != previous.lastLsn.value + 1
  }

  function ReportAt(files: seq<File>, i: nat): SegmentReport
    requires i < |files|
  {
    var r := Analysis(files[i], i == |files| - 1);
    if i > 0 && Gap(Analysis(files[i - 1], false), r) then r.(gap := true) else r
  }

  function SegmentReports(files: seq<File>): (rs: seq<SegmentReport>)
    ensures |rs| == |files| && forall i | 0 <= i < |files| :: rs[i] == ReportAt(files, i)
  {
    seq(|files|, i requires 0 <= i < |files| => ReportAt(files, i))
  }

  method InspectSegments(files: seq<File>) returns (rs: seq<SegmentReport>)
    ensures rs == SegmentReports(files)
  {
    hide Analysis;
    rs := [];
    for index := 0 to |files|
      invariant |rs| == index && forall i | 0 <= i < index :: rs[i] == ReportAt(files, i)
    {
      var r := AnalyzeSegment(files[index], index == |files| - 1);
      if index > 0 {
        GapIgnoresGap(rs[index - 1], Analysis(files[index - 1], false), r);
        if Gap(rs[index - 1], r) {
          r := r.(gap := true);
        }
      }
      rs := rs + [r];
    }
  }

  lemma GapIgnoresGap(a: SegmentReport, b: SegmentReport, r: SegmentReport)
    requires a.lastLsn == b.lastLsn
    ensures Gap(a, r) == Gap(b, r)
  {}

  /** The first thing that stops the server from reading the log. */
  datatype LogDamage = LogDamage(index: nat, offset: nat, lastGoodLsn: int)

  datatype LogReport = LogReport(
    segments: seq<SegmentReport>, firstLsn: Option<nat>, lastLsn: int, records: nat, damage: Option<LogDamage>)

  /** The last LSN before segment `i`, or 0. */
  function LastBefore(files: seq<File>, i: nat): int
    requires i <= |files| && (i > 0 ==> Usable(files[i - 1]))
  {
    if i == 0 then 0 else LastLsn(files[i - 1])
  }

  /** Segment `i` is counted although it is damaged: its records before the damage can be read. */
  predicate Counted(r: SegmentReport) {
    r.status == CorruptRecord && !r.gap
  }

  /** How many records lie between the first and the last LSN. */
  function CountTo(first: Option<nat>, last: int): int {
    if first.None? then 0 else last - first.value + 1
  }

  /** What the inspector reports for a damaged log whose first bad segment is `i`. */
  ghost predicate DamagedAt(files: seq<File>, out: LogReport, i: nat)
    requires FirstBad(files, i)
  {
    var r := ReportAt(files, i);
    assert i > 0 ==> GoodAt(files, i - 1);
    && out.damage.Some? && out.damage.value.index == i && out.damage.value.lastGoodLsn == out.lastLsn
    && (Counted(r) ==> Usable(files[i]) && out.lastLsn == LastLsn(files[i]) && out.damage.value.offset == Scan(files[i]).validEnd)
    && (!Counted(r) ==> out.lastLsn == LastBefore(files, i) && out.damage.value.offset == 0)
    && out.firstLsn == (if i == 0 && !Counted(r) then None else Some(files[0].name))
    && out.records == CountTo(out.firstLsn, out.lastLsn)
  }

  /** What it reports for an intact one: what recovery finds. */
  ghost predicate SoundReport(files: seq<File>, out: LogReport)
    requires Intact(files)
  {
    var live := Live(files);
    && out.damage.None? && out.records == CountTo(out.firstLsn, out.lastLsn)
    && (live == [] ==> out.firstLsn == None && out.lastLsn == 0)
    && (live != [] ==> GoodAt(files, |live| - 1)
                       && out.firstLsn == Some(live[0].name) && out.lastLsn == LastLsn(live[|live| - 1]))
  }

  lemma GoodReport(files: seq<File>, i: nat)
    requires i < |files| && (i > 0 ==> GoodAt(files, i - 1))
    ensures
      var r := ReportAt(files, i);
      && (GoodAt(files, i) <==> r.status in {Fine, TornEnd} && !r.gap)
      && (r.status == IncompleteHeader <==> Headless(files[i]))
      && (Usable(files[i]) <==> r.firstLsn.Some?)
      && (Usable(files[i]) ==> r.firstLsn == Some(files[i].name) && r.lastLsn == Some(LastLsn(files[i])))
      && (Usable(files[i]) ==> r.records == LastLsn(files[i]) - files[i].name + 1 && r.validBytes == Scan(files[i]).validEnd)
      && (Usable(files[i]) && i > 0 && !r.gap ==> Usable(files[i - 1]) && files[i].name == LastLsn(files[i - 1]) + 1)
      && (r.status in {BadHeader, IncompleteHeader} <==> !Usable(files[i]))
  {
    hide DecodeSegmentHeader, ScanFrom;
  }

  /**
   * The inspector and recovery agree on every directory: damage is reported exactly when
   * recovery refuses, in the same segment; otherwise both find the same first and last LSN.
   * The damage is where the readable records end, and the count is that of those records.
   */
  method SummarizeLog(ghost files: seq<File>, segments: seq<SegmentReport>) returns (out: LogReport)
    requires segments == SegmentReports(files)
    ensures out.segments == segments
    ensures out.damage.None? <==> Intact(files)
    ensures out.damage.None? ==> SoundReport(files, out)
    ensures out.damage.Some? ==> FirstBad(files, out.damage.value.index) && DamagedAt(files, out, out.damage.value.index)
  {
    hide ReportAt, GoodAt, Headless, Usable, LastLsn, Scan;
    var records: nat, lastLsn, firstLsn := 0, 0, None;
    var index := 0;
    while index < |segments|
      invariant 0 <= index <= |files|
      invariant forall j | 0 <= j < index :: GoodAt(files, j)
      invariant index > 0 ==> GoodAt(files, index - 1) && Usable(files[index - 1]) && firstLsn == Some(files[0].name)
      invariant index == 0 ==> firstLsn == None
      invariant lastLsn == LastBefore(files, index) && records == CountTo(firstLsn, lastLsn)
    {
      var segment := segments[index];
      var isLast := index == |segments| - 1;
      GoodReport(files, index);
      if segment.status == IncompleteHeader && isLast {
        assert Live(files) == files[..index];
        return LogReport(segments, firstLsn, lastLsn, records, None);
      }
      GoodIsLive(files, index);
      if segment.status == BadHeader || segment.status == IncompleteHeader {
        return LogReport(segments, firstLsn, lastLsn, records, Some(LogDamage(index, 0, lastLsn)));
      }
      if segment.gap {
        return LogReport(segments, firstLsn, lastLsn, records, Some(LogDamage(index, 0, lastLsn)));
      }
      if firstLsn == None {
        firstLsn := segment.firstLsn;
      }
      records := records + segment.records;
      lastLsn := segment.lastLsn.value;
      if segment.status == CorruptRecord {
        return LogReport(segments, firstLsn, lastLsn, records, Some(LogDamage(index, segment.validBytes, lastLsn)));
      }
      index := index + 1;
    }
    WholeIsLive(files);
    return LogReport(segments, firstLsn, lastLsn, records, None);
  }

  lemma GoodIsLive(files: seq<File>, i: nat)
    requires i < |files| && !(i == |files| - 1 && Headless(files[i]))
    ensures i < |Live(files)|
  {
    hide Headless;
  }

  lemma WholeIsLive(files: seq<File>)
    requires forall j | 0 <= j < |files| :: GoodAt(files, j)
    ensures Live(files) == files
  {
    if files != [] {
      assert GoodAt(files, |files| - 1);
    }
  }

  method InspectLog(files: seq<File>) returns (out: LogReport)
    ensures out.segments == SegmentReports(files)
    ensures out.damage.None? <==> Intact(files)
    ensures out.damage.None? ==> SoundReport(files, out)
    ensures out.damage.Some? ==> FirstBad(files, out.damage.value.index) && DamagedAt(files, out, out.damage.value.index)
  {
    hide ReportAt, GoodAt, Headless, Usable, LastLsn;
    var segments := InspectSegments(files);
    out := SummarizeLog(files, segments);
  }

  // ---------------------------------------------------------------- the verdict

  datatype Verdict = Verdict(damaged: bool, tooNew: bool, tooShort: bool, baseLsn: nat, recordsToReplay: nat)

  /** The checks `judge` makes on log and snapshots. */
  function Judge(candidates: seq<Candidate>, log: LogReport): Verdict {
    var base := Base(candidates).lsn;
    var first := if log.firstLsn.Some? then log.firstLsn.value else 1;
    var damaged := log.damage.Some?;
    var tooNew := !damaged && first > base + 1;
    var tooShort := !damaged && log.lastLsn < base;
    var sound := !damaged && !tooNew && !tooShort;
    Verdict(damaged, tooNew, tooShort, base, if sound && log.lastLsn > base then log.lastLsn - base else 0)
  }

  lemma {:induction false} ChainLength(files: seq<File>, k: nat)
    requires k <= |files| && forall i | 0 <= i < k :: GoodAt(files, i)
    ensures AllUsable(files[..k])
    ensures k > 0 ==> Usable(files[k - 1]) && |Contents(files[..k])| == LastLsn(files[k - 1]) - files[0].name + 1
  {
    hide Usable, Scan;
    forall i | 0 <= i < k ensures Usable(files[..k][i]) {
      assert GoodAt(files, i);
    }
    if k > 0 {
      assert GoodAt(files, k - 1);
      ChainLength(files, k - 1);
      assert files[..k][..k - 1] == files[..k - 1];
    }
  }

  /**
   * The verdict is the server's: damage exactly when opening the log would be refused, and
   * otherwise the two LSN problems are exactly the two checks `recover` makes, on the same
   * numbers; without a problem the count is the number of records that would be replayed.
   */
  lemma JudgeAgrees(files: seq<File>, candidates: seq<Candidate>, log: LogReport)
    requires log.damage.None? <==> Intact(files)
    requires log.damage.None? ==> SoundReport(files, log)
    ensures
      var v := Judge(candidates, log);
      var base := Base(candidates);
      && (v.damaged <==> !Intact(files))
      && (!v.damaged ==>
            && AllUsable(Live(files))
            && log.records == |Contents(Live(files))|
            && var rs := Contents(Live(files));
               var first := if Live(files) == [] then 1 else Live(files)[0].name;
               && (v.tooNew <==> first > base.lsn + 1)
               && (v.tooShort <==> first + |rs| - 1 < base.lsn)
               && (!v.tooNew && !v.tooShort ==>
                     && v.recordsToReplay == |rs[base.lsn + 1 - first..]|
                     && RecoverFrom(base, first, rs) == Replay(base.state, rs[base.lsn + 1 - first..])))
  {
    hide Intact, Live, AllUsable, Contents, SoundReport, Base, Replay;
    if Intact(files) {
      SoundContents(files, log);
    }
  }

  /** The LSNs and the count of a sound report are those of the records recovery finds. */
  lemma SoundContents(files: seq<File>, log: LogReport)
    requires Intact(files) && SoundReport(files, log)
    ensures AllUsable(Live(files)) && log.damage.None? && log.records == |Contents(Live(files))|
    ensures
      var first := if Live(files) == [] then 1 else Live(files)[0].name;
      && log.lastLsn == first + |Contents(Live(files))| - 1
      && log.firstLsn == (if Live(files) == [] then None else Some(first))
  {
    hide Usable, Scan, Headless, GoodAt, LastLsn;
    var k := |Live(files)|;
    LiveIsPrefix(files);
    assert Live(files) == files[..k];
    ChainLength(files, k);
  }
}
