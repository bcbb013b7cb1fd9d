/** packages/storage/src/inspect/repair.ts: planning the changes that make a damaged log open again. */
module Repair {
  import opened Bytes
  import opened Text
  import opened WalFormat
  import opened WalRecovery
  import opened LogSteps
  import opened Log = WriteAheadLog
  import opened Inspect

  datatype Plan =
    | Nothing
    | Blocked
    | QuarantinePrefix(count: nat)
    | DropAll(create: bool)
    | Truncate(keep: nat, cut: Option<nat>)

  predicate Bad(segments: seq<SegmentReport>, i: nat)
    requires i < |segments|
  {
    var s := segments[i].status;
    s == CorruptRecord || s == BadHeader || (s == IncompleteHeader && i != |segments| - 1)
  }

  /** From `k` on every segment is usable and follows on from the one before. */
  ghost predicate CleanFrom(segments: seq<SegmentReport>, k: nat) {
    forall i | k <= i < |segments| :: !Bad(segments, i) && (i > k ==> !segments[i].gap)
  }

  /** The longest clean suffix. */
  method FirstCleanIndex(segments: seq<SegmentReport>) returns (clean: nat)
    ensures clean <= |segments| && CleanFrom(segments, clean)
    ensures clean > 0 ==> !CleanFrom(segments, clean - 1)
  {
    clean := 0;
    for index := 0 to |segments|
      invariant clean <= index
      invariant forall i | clean <= i < index :: !Bad(segments, i) && (i > clean ==> !segments[i].gap)
      invariant clean > 0 ==> Bad(segments, clean - 1) || (clean < index && segments[clean].gap)
    {
      if Bad(segments, index) {
        clean := index + 1;
      }
      if segments[index].gap {
        clean := if clean > index then clean else index;
      }
    }
  }

  function PlanTruncation(log: LogReport, base: nat): (p: Plan)
    requires log.damage.Some? ==> log.damage.value.index < |log.segments|
    ensures !p.Nothing? && !p.QuarantinePrefix?
  {
    var n := |log.segments|;
    var d := if log.damage.Some? then log.damage.value.index else n;
    var corrupt := d < n && log.segments[d].status == CorruptRecord;
    var keep := if corrupt then d + 1 else d;
    var cut := if !corrupt then None
               else if log.segments[d].validBytes > SEGMENT_HEADER_SIZE then Some(log.segments[d].validBytes)
               else Some(SEGMENT_HEADER_SIZE);
    if keep > 0 && log.segments[0].firstLsn.Some? && log.segments[0].firstLsn.value > base + 1 then Blocked
    else if keep == 0 || log.lastLsn < base then DropAll(base > 0)
    else Truncate(keep, cut)
  }

  function PlanLog(log: LogReport, base: nat, firstClean: nat): Plan
    requires log.damage.Some? ==> log.damage.value.index < |log.segments|
  {
    var first := if log.firstLsn.Some? then log.firstLsn.value else 1;
    var shortfall := first > base + 1 || log.lastLsn < base;
    if log.damage.None? && !shortfall then Nothing
    else if log.damage.Some? && firstClean < |log.segments| && base > 0
         && log.segments[firstClean].firstLsn.Some? && log.segments[firstClean].firstLsn.value <= base + 1
    then QuarantinePrefix(firstClean)
    else PlanTruncation(log, base)
  }

  /** The plan names only files and bytes that exist. */
  predicate Feasible(files: seq<File>, plan: Plan) {
    && (plan.QuarantinePrefix? ==> plan.count <= |files|)
    && (plan.Truncate? ==> plan.keep <= |files|)
    && (plan.Truncate? && plan.cut.Some? ==> 0 < plan.keep && plan.cut.value <= |files[plan.keep - 1].data|)
  }

  /** The log directory once every step of the plan has run. */
  function Repaired(files: seq<File>, plan: Plan, base: nat): seq<File>
    requires base + 1 < 0x1_0000_0000_0000_0000 && Feasible(files, plan)
  {
    match plan
    case Nothing => files
    case Blocked => files
    case QuarantinePrefix(count) => files[count..]
    case DropAll(create) => if create then [File(base + 1, EncodeSegmentHeader(base + 1), SEGMENT_HEADER_SIZE)] else []
    case Truncate(keep, cut) =>
      if cut.None? then files[..keep]
      else var f := files[keep - 1];
           files[..keep - 1] + [File(f.name, f.data[..cut.value], cut.value)]
  }

  ghost function FirstOf(files: seq<File>): nat {
    if Live(files) == [] then 1 else Live(files)[0].name
  }

  ghost function LastOf(files: seq<File>): int
    requires Intact(files)
  {
    var live := Live(files);
    if live == [] then 0 else
    assert GoodAt(files, |live| - 1);
    LastLsn(live[|live| - 1])
  }

  /** What an inspection reports, as `InspectLog` promises it. */
  ghost predicate Inspected(files: seq<File>, log: LogReport) {
    && log.segments == SegmentReports(files)
    && (log.damage.Some? ==> log.damage.value.index < |log.segments|)
    && (log.damage.None? <==> Intact(files))
    && (log.damage.None? ==> SoundReport(files, log))
    && (log.damage.Some? ==> FirstBad(files, log.damage.value.index) && DamagedAt(files, log, log.damage.value.index))
  }

  lemma UsableIsNotHeadless(f: File)
    ensures Usable(f) ==> !Headless(f)
  {}

  // ---------------------------------------------------------------- the prefix quarantine

  lemma SuffixGood(files: seq<File>, k: nat, i: nat)
    requires k <= i < |files| && CleanFrom(SegmentReports(files), k)
    requires i == |files| - 1 ==> !Headless(files[i])
    ensures GoodAt(files[k..], i - k)
  {
    hide DecodeSegmentHeader, Scan, LastLsn;
    assert !Bad(SegmentReports(files), i);
    if i > k {
      assert !Bad(SegmentReports(files), i - 1);
      assert !SegmentReports(files)[i].gap;
    }
  }

  lemma PrefixRepairs(files: seq<File>, k: nat)
    requires k < |files| && CleanFrom(SegmentReports(files), k) && Usable(files[k])
    ensures Intact(files[k..]) && FirstOf(files[k..]) == files[k].name
  {
    hide Usable, Headless, GoodAt, CleanFrom;
    var rest := files[k..];
    UsableIsNotHeadless(files[k]);
    forall i | 0 <= i < |Live(rest)| ensures GoodAt(rest, i) {
      SuffixGood(files, k, k + i);
    }
  }

  /** None of the first `count` segments holds an intact record above the base. */
  ghost predicate Lossless(files: seq<File>, count: nat, base: nat)
    requires count <= |files|
  {
    forall i | 0 <= i < count && Usable(files[i]) :: forall r | r in Scan(files[i]).records :: r.lsn <= base
  }

  /** What can be read off the report before the step runs. */
  predicate ReportedBelow(segments: seq<SegmentReport>, count: nat, base: nat)
    requires count <= |segments|
  {
    forall i | 0 <= i < count && segments[i].records > 0 :: segments[i].lastLsn.Some? && segments[i].lastLsn.value <= base
  }

  /**
   * The step marked lossless removes no intact record above the snapshot if and only if every
   * segment it moves away that has records reports a last LSN at or below the snapshot.
   */
  lemma PrefixIsLossless(files: seq<File>, count: nat, base: nat)
    requires count <= |files|
    ensures Lossless(files, count, base) <==> ReportedBelow(SegmentReports(files), count, base)
  {
    hide Scan, Usable, ReportAt;
    forall i | 0 <= i < count
      ensures
        var r := ReportAt(files, i);
        && (Usable(files[i]) ==>
              ((forall q | q in Scan(files[i]).records :: q.lsn <= base)
               <==> (r.records > 0 ==> r.lastLsn.Some? && r.lastLsn.value <= base)))
        && (!Usable(files[i]) ==> r.records == 0)
    {
      SegmentBelow(files, i, base);
    }
    if Lossless(files, count, base) {
      forall i | 0 <= i < count && SegmentReports(files)[i].records > 0
        ensures SegmentReports(files)[i].lastLsn.Some? && SegmentReports(files)[i].lastLsn.value <= base
      {
        assert SegmentReports(files)[i] == ReportAt(files, i);
      }
    }
    if ReportedBelow(SegmentReports(files), count, base) {
      forall i | 0 <= i < count && Usable(files[i]) ensures forall q | q in Scan(files[i]).records :: q.lsn <= base {
        assert SegmentReports(files)[i] == ReportAt(files, i);
      }
    }
  }

  lemma SegmentBelow(files: seq<File>, i: nat, base: nat)
    requires i < |files|
    ensures
      var r := ReportAt(files, i);
      && (Usable(files[i]) ==>
            ((forall q | q in Scan(files[i]).records :: q.lsn <= base)
             <==> (r.records > 0 ==> r.lastLsn.Some? && r.lastLsn.value <= base)))
      && (!Usable(files[i]) ==> r.records == 0)
  {
    hide DecodeSegmentHeader, ScanFrom;
    if Usable(files[i]) {
      var rs := Scan(files[i]).records;
      ScanLsns(files[i].data, SEGMENT_HEADER_SIZE, files[i].name);
      if rs != [] {
        var last := rs[|rs| - 1];
        assert last in rs && last.lsn == LastLsn(files[i]);
        assert forall q | q in rs :: q.lsn <= last.lsn;
      }
    }
  }

  ghost predicate Consecutive(rs: seq<Record>, first: nat) {
    forall i | 0 <= i < |rs| :: rs[i].lsn == first + i
  }

  lemma {:induction false} ScanLsns(b: bytes, offset: nat, expected: nat)
    requires offset <= |b|
    ensures Consecutive(ScanFrom(b, offset, expected).records, expected)
    decreases |b| - offset
  {
    hide ScanRecord;
    var f := ScanRecord(b, offset, expected);
    if f.Found? {
      ScanLsns(b, f.end, expected + 1);
      ConsecutiveCons(f.record, ScanFrom(b, f.end, expected + 1).records, expected);
    }
  }

  lemma ConsecutiveCons(r: Record, rest: seq<Record>, first: nat)
    requires r.lsn == first && Consecutive(rest, first + 1)
    ensures Consecutive([r] + rest, first)
  {
    var all := [r] + rest;
    forall i | 0 <= i < |all| ensures all[i].lsn == first + i {
      if i > 0 {
        assert all[i] == rest[i - 1];
      }
    }
  }

  /** No two segments claim the same LSN. */
  ghost predicate Disjoint(files: seq<File>) {
    forall i, j | 0 <= i < j < |files| && Usable(files[i]) && Usable(files[j]) :: LastLsn(files[i]) < files[j].name
  }

  /** So it is lossless whenever no two segments overlap, as in every log the server wrote. */
  lemma DisjointIsLossless(files: seq<File>, log: LogReport, base: nat, firstClean: nat)
    requires Inspected(files, log) && Disjoint(files) && PlanLog(log, base, firstClean) == QuarantinePrefix(firstClean)
    ensures firstClean < |files| && Lossless(files, firstClean, base)
  {
    hide DecodeSegmentHeader, ScanFrom, DamagedAt, Intact, FirstBad, Lossless;
    assert Usable(files[firstClean]);
    PrefixIsLossless(files, firstClean, base);
  }

  /**
   * When segments do overlap the step can lose records: a segment that holds `rs` and is
   * followed by one that starts at or below the snapshot plus one is moved away whole, with
   * every record it has above the snapshot.
   */
  lemma OverlapLoses(f: File, rs: seq<Record>, g: File, base: nat, log: LogReport)
    requires Complete(f, rs) && Complete(g, []) && 0 < base < f.name + |rs| - 1 && g.name == base + 1
    requires Inspected([f, g], log)
    ensures Usable(f) && LastLsn(f) > base && CleanFrom(log.segments, 1) && !CleanFrom(log.segments, 0)
    ensures PlanLog(log, base, 1) == QuarantinePrefix(1) && (rs != [] ==> !Lossless([f, g], 1, base))
  {
    hide DecodeSegmentHeader, ScanFrom, SegmentBytes, EncodeRecord, DamagedAt, Lossless;
    CompleteScans(f, rs);
    CompleteScans(g, []);
    var files := [f, g];
    UsableIsNotHeadless(g);
    assert Live(files) == files;
    assert !GoodAt(files, 1);
    assert log.segments[1].gap && log.segments[1].status == Fine;
    assert log.segments[0].status == Fine;
    PrefixIsLossless(files, 1, base);
  }

  // ---------------------------------------------------------------- dropping everything

  lemma DropAllRepairs(files: seq<File>, base: nat)
    requires base + 1 < 0x1_0000_0000_0000_0000
    ensures
      var after := Repaired(files, DropAll(base > 0), base);
      Intact(after) && FirstOf(after) <= base + 1 && LastOf(after) == base
  {
    hide DecodeSegmentHeader, ScanFrom, EncodeSegmentHeader;
    if base > 0 {
      var f := File(base + 1, EncodeSegmentHeader(base + 1), SEGMENT_HEADER_SIZE);
      EmptySegment(base + 1);
      CompleteScans(f, []);
      UsableIsNotHeadless(f);
      assert GoodAt([f], 0);
      assert Live([f]) == [f];
    }
  }

  // ---------------------------------------------------------------- truncation

  lemma PrefixGood(files: seq<File>, d: nat, i: nat, more: seq<File>)
    requires i < d <= |files| && GoodAt(files, i) && i < |files| - 1
    ensures GoodAt(files[..d] + more, i)
  {
    hide DecodeSegmentHeader, Scan, LastLsn;
    var after := files[..d] + more;
    assert after[i] == files[i] && (i > 0 ==> after[i - 1] == files[i - 1]);
  }

  /** Cutting the log before the first bad segment. */
  lemma TruncateBefore(files: seq<File>, d: nat)
    requires FirstBad(files, d) && d > 0
    ensures Intact(files[..d]) && FirstOf(files[..d]) == files[0].name
    ensures Usable(files[d - 1]) && LastOf(files[..d]) == LastBefore(files, d)
  {
    hide Usable, Headless, GoodAt, LastLsn;
    var after := files[..d];
    forall i | 0 <= i < d ensures GoodAt(after, i) {
      PrefixGood(files, d, i, []);
      assert files[..d] + [] == after;
    }
    GoodIsUsable(files, d - 1);
    UsableIsNotHeadless(files[d - 1]);
    LiveIsPrefix(files);
    assert Live(after) == after;
  }

  lemma GoodIsUsable(files: seq<File>, i: nat)
    requires i < |files| && GoodAt(files, i)
    ensures Usable(files[i])
  {}

  function CutFile(f: File): File
    requires Usable(f)
  {
    File(f.name, f.data[..Scan(f).validEnd], Scan(f).validEnd)
  }

  lemma CutFileScans(f: File)
    requires Usable(f) && f.name > 0 && Scan(f).stop != Clean
    ensures Usable(CutFile(f)) && LastLsn(CutFile(f)) == LastLsn(f) && Scan(CutFile(f)).stop == Clean
  {
    hide DecodeSegmentHeader, ScanFrom, SegmentBytes, EncodeRecord;
    var g := File(f.name, f.data, |f.data|);
    assert Usable(g) && Scan(g) == Scan(f);
    ScanIsComplete(g);
    StopsInside(f.data, SEGMENT_HEADER_SIZE, f.name);
    assert Shorten(g, Scan(g).validEnd) == CutFile(f);
    CompleteScans(CutFile(f), Scan(f).records);
  }

  lemma {:induction false} StopsInside(b: bytes, offset: nat, expected: nat)
    requires offset <= |b| && ScanFrom(b, offset, expected).stop != Clean
    ensures ScanFrom(b, offset, expected).validEnd < |b|
    decreases |b| - offset
  {
    hide ScanRecord;
    var f := ScanRecord(b, offset, expected);
    if f.Found? {
      StopsInside(b, f.end, expected + 1);
    }
  }

  /**
   * Cutting the first bad segment where its records stop. This mends the log if and only if
   * the segment follows on from the one before.
   */
  lemma TruncateWithin(files: seq<File>, d: nat)
    requires FirstBad(files, d) && Usable(files[d]) && files[d].name > 0 && Scan(files[d]).stop != Clean
    ensures
      var after := files[..d] + [CutFile(files[d])];
      && (Intact(after) <==> (d > 0 ==> Usable(files[d - 1]) && files[d].name == LastLsn(files[d - 1]) + 1))
      && (Intact(after) ==> FirstOf(after) == files[0].name && LastOf(after) == LastLsn(files[d]))
  {
    hide DecodeSegmentHeader, Scan, LastLsn;
    var after := files[..d] + [CutFile(files[d])];
    CutFileScans(files[d]);
    UsableIsNotHeadless(CutFile(files[d]));
    LiveIsPrefix(files);
    assert Live(after) == after;
    forall i | 0 <= i < d ensures GoodAt(after, i) {
      PrefixGood(files, d, i, [CutFile(files[d])]);
    }
    if d > 0 {
      GoodIsUsable(files, d - 1);
      assert after[d - 1] == files[d - 1];
    }
    assert GoodAt(after, d) <==> (d > 0 ==> Usable(files[d - 1]) && files[d].name == LastLsn(files[d - 1]) + 1);
  }

  // ---------------------------------------------------------------- the whole plan

  /** The first bad segment is both disconnected and damaged inside; truncation keeps it. */
  predicate Stuck(log: LogReport)
    requires log.damage.Some? ==> log.damage.value.index < |log.segments|
  {
    && log.damage.Some?
    && log.segments[log.damage.value.index].gap
    && log.segments[log.damage.value.index].status == CorruptRecord
  }

  /** A log that recovery accepts and that a base reaches from the left. */
  ghost predicate Mended(files: seq<File>, base: nat) {
    Intact(files) && FirstOf(files) <= base + 1
  }

  /** The log reaches the base from the right. */
  ghost predicate Reaches(files: seq<File>, base: nat) {
    Intact(files) && base <= LastOf(files)
  }

  lemma TruncationSound(files: seq<File>, log: LogReport, base: nat, after: seq<File>)
    requires Inspected(files, log) && log.damage.Some? && base + 1 < 0x1_0000_0000_0000_0000
    requires forall i | 0 <= i < |files| :: files[i].name > 0
    requires PlanTruncation(log, base).Truncate? && Feasible(files, PlanTruncation(log, base))
    requires after == Repaired(files, PlanTruncation(log, base), base)
    ensures Intact(after) <==> !Stuck(log)
    ensures Intact(after) ==> FirstOf(after) <= base + 1 && Reaches(after, base)
  {
    hide DecodeSegmentHeader, Scan, LastLsn, Headless, FirstOf, LastOf, Intact, EncodeSegmentHeader;
    var d := log.damage.value.index;
    FirstBadPrevious(files, d);
    GoodReport(files, d);
    GoodReport(files, 0);
    if log.segments[d].status == CorruptRecord {
      TruncateWithin(files, d);
      assert after == files[..d] + [CutFile(files[d])];
    } else {
      TruncateBefore(files, d);
    }
  }

  lemma PlanIsFeasible(files: seq<File>, log: LogReport, base: nat, firstClean: nat)
    requires Inspected(files, log)
    ensures Feasible(files, PlanLog(log, base, firstClean))
  {
    hide DecodeSegmentHeader, ScanFrom, LastLsn, Headless, Intact, FirstBad, DamagedAt, SoundReport;
    if log.damage.Some? {
      HeaderFits(files[log.damage.value.index].data);
    }
  }

  lemma FirstBadPrevious(files: seq<File>, d: nat)
    requires FirstBad(files, d)
    ensures d < |files| && (d > 0 ==> GoodAt(files, d - 1) && Usable(files[d - 1]) && GoodAt(files, 0) && Usable(files[0]))
  {
    hide DecodeSegmentHeader, Scan, LastLsn, Headless;
    LiveIsPrefix(files);
  }

  /**
   * Repair. A plan that is not blocked and runs to the end leaves a log that recovery accepts
   * and that the base snapshot reaches, unless truncation kept a segment that is disconnected
   * as well as damaged; then, and only then, the damage is still there. Cutting or dropping
   * the log also leaves it reaching the base from the right.
   */
  lemma RepairSound(files: seq<File>, log: LogReport, base: nat, firstClean: nat, plan: Plan, after: seq<File>)
    requires Inspected(files, log) && CleanFrom(log.segments, firstClean) && base + 1 < 0x1_0000_0000_0000_0000
    requires forall i | 0 <= i < |files| :: files[i].name > 0
    requires plan == PlanLog(log, base, firstClean) && Feasible(files, plan) && after == Repaired(files, plan, base)
    ensures plan.Nothing? ==> Reaches(files, base)
    ensures plan.Blocked? ==> files != [] && Usable(files[0]) && files[0].name > base + 1
    ensures !plan.Blocked? ==> (Mended(after, base) <==> !(plan.Truncate? && Stuck(log)))
    ensures (plan.Truncate? || plan.DropAll?) && Intact(after) ==> Reaches(after, base)
  {
    hide DecodeSegmentHeader, Scan, LastLsn, Headless, EncodeSegmentHeader, GoodAt, CleanFrom, Usable, FirstBad, PlanTruncation;
    LiveIsPrefix(files);
    match plan
    case Nothing =>
    case Blocked =>
      BlockedMeans(files, log, base);
    case QuarantinePrefix(k) =>
      FirstLsnMeansUsable(files, k);
      PrefixRepairs(files, k);
    case DropAll(_) =>
      DropAllFlag(log, base);
      DropAllRepairs(files, base);
    case Truncate(_, _) =>
      TruncationOnlyWhenDamaged(files, log, base);
      TruncationSound(files, log, base, after);
  }

  lemma BlockedMeans(files: seq<File>, log: LogReport, base: nat)
    requires Inspected(files, log) && PlanTruncation(log, base).Blocked?
    ensures files != [] && Usable(files[0]) && files[0].name > base + 1
  {
    hide DecodeSegmentHeader, Scan, LastLsn, Headless, Intact, FirstBad, DamagedAt, SoundReport;
    FirstLsnMeansUsable(files, 0);
  }

  lemma DropAllFlag(log: LogReport, base: nat)
    requires log.damage.Some? ==> log.damage.value.index < |log.segments|
    requires PlanTruncation(log, base).DropAll?
    ensures PlanTruncation(log, base) == DropAll(base > 0)
  {}

  lemma FirstLsnMeansUsable(files: seq<File>, k: nat)
    requires k < |files| && SegmentReports(files)[k].firstLsn.Some?
    ensures Usable(files[k]) && SegmentReports(files)[k].firstLsn.value == files[k].name
  {
    hide DecodeSegmentHeader, Scan, LastLsn, Headless;
  }

  lemma TruncationOnlyWhenDamaged(files: seq<File>, log: LogReport, base: nat)
    requires Inspected(files, log) && PlanTruncation(log, base).Truncate?
    requires log.damage.None? ==>
      (if log.firstLsn.Some? then log.firstLsn.value else 1) > base + 1 || log.lastLsn < base
    ensures log.damage.Some?
  {
    hide DecodeSegmentHeader, Scan, LastLsn, Headless;
    LiveIsPrefix(files);
    assert Intact(files) && Live(files) != [] ==> GoodAt(files, 0);
  }

  lemma TornScan(g: File, r: Record)
    requires SegmentOf(g, [r]) && SEGMENT_HEADER_SIZE < |g.data| < |SegmentBytes(g.name, [r])|
    ensures Usable(g) && Scan(g).stop == TornTail
  {
    hide ScanFrom, EncodeRecord, EncodeSegmentHeader, DecodeSegmentHeader;
    TornTailExact(g.name, [r], |g.data|);
    assert g.data == SegmentBytes(g.name, [r])[..|g.data|];
    BodyCons([r]);
  }

  /**
   * A log that stays damaged: an empty first segment, a later one that is disconnected and
   * torn, and any segment after it. Without a snapshot the plan is to cut the torn one.
   */
  lemma StuckExample(f: File, g: File, r: Record, h: File, log: LogReport, firstClean: nat)
    requires Complete(f, []) && f.name == 1
    requires SegmentOf(g, [r]) && g.name > 1 && SEGMENT_HEADER_SIZE < |g.data| < |SegmentBytes(g.name, [r])|
    requires Inspected([f, g, h], log)
    ensures Stuck(log) && PlanLog(log, 0, firstClean).Truncate?
  {
    hide ScanFrom, EncodeRecord, EncodeSegmentHeader, DecodeSegmentHeader;
    var files := [f, g, h];
    CompleteScans(f, []);
    TornScan(g, r);
    assert GoodAt(files, 0);
    LiveIsPrefix(files);
    GoodReport(files, 1);
    assert log.segments[1].gap && log.segments[1].status == CorruptRecord;
    assert !GoodAt(files, 1);
    assert 1 < |Live(files)|;
    assert log.damage.value.index == 1;
  }

  /** Steps that may discard records need leave. */
  predicate Allowed(plan: Plan, allowDataLoss: bool) {
    allowDataLoss || !(plan.DropAll? || plan.Truncate?)
  }

  /** `repair`, as far as the log is concerned: inspect, plan, and run the steps that are allowed. */
  method RepairLog(files: seq<File>, base: nat, allowDataLoss: bool) returns (log: LogReport, plan: Plan, after: seq<File>)
    requires base + 1 < 0x1_0000_0000_0000_0000 && forall i | 0 <= i < |files| :: files[i].name > 0
    ensures Inspected(files, log)
    ensures plan.Nothing? || plan.Blocked? || !Allowed(plan, allowDataLoss) ==> after == files
    ensures plan.Nothing? ==> Reaches(files, base)
    ensures plan.Blocked? ==> files != [] && Usable(files[0]) && files[0].name > base + 1
    ensures !plan.Blocked? && Allowed(plan, allowDataLoss) ==> (Mended(after, base) <==> !(plan.Truncate? && Stuck(log)))
    ensures (plan.Truncate? || plan.DropAll?) && Allowed(plan, allowDataLoss) && Intact(after) ==> Reaches(after, base)
    ensures plan.QuarantinePrefix? ==>
      plan.count <= |files| && after == files[plan.count..]
      && (Lossless(files, plan.count, base) <==> ReportedBelow(log.segments, plan.count, base))
  {
    hide ReportAt, FirstOf, LastOf, Intact, Live, GoodAt, Usable, PlanLog, CleanFrom, FirstBad, DamagedAt, SoundReport, SegmentReports, Lossless;
    log := InspectLog(files);
    DamageIndex(files, log);
    var firstClean := FirstCleanIndex(log.segments);
    plan := PlanLog(log, base, firstClean);
    PlanIsFeasible(files, log, base, firstClean);
    if plan.QuarantinePrefix? {
      PrefixIsLossless(files, plan.count, base);
    }
    if !Allowed(plan, allowDataLoss) {
      return log, plan, files;
    }
    after := Repaired(files, plan, base);
    RepairSound(files, log, base, firstClean, plan, after);
  }

  lemma DamageIndex(files: seq<File>, log: LogReport)
    requires log.segments == SegmentReports(files)
    requires log.damage.Some? ==> FirstBad(files, log.damage.value.index)
    ensures log.damage.Some? ==> log.damage.value.index < |log.segments|
  {
    hide GoodAt, Headless;
    LiveIsPrefix(files);
  }
}
