/**
 * Files that packages/storage/src/wal/write-ahead-log.ts, `createSegment`, leaves beside the
 * segments when it can neither complete nor remove them, and what recovery makes of the
 * directory then: its files in the order of their names.
 */
module Leftovers {
  import opened Bytes
  import opened Text
  import opened WalFormat
  import opened WalRecovery
  import opened LogSteps

  /**
   * A file left behind where a segment was to be: some of its header. Its name is the next
   * LSN of a log, and LSNs start at 1, so no file left behind is named 0.
   */
  ghost predicate Leftover(f: File) {
    0 < f.name < 0x1_0000_0000_0000_0000 && f.synced <= |f.data| && f.data <= EncodeSegmentHeader(f.name)
  }

  lemma LeftoverScans(f: File)
    requires Leftover(f)
    ensures Headless(f) <==> |f.data| < SEGMENT_HEADER_SIZE
    ensures |f.data| >= SEGMENT_HEADER_SIZE ==> Usable(f) && Scan(f).stop == Clean && LastLsn(f) == f.name - 1
    ensures |f.data| < SEGMENT_HEADER_SIZE ==> !Usable(f)
  {
    hide EncodeSegmentHeader, ScanFrom, SegmentBytes;
    HeaderFits(f.data);
    if |f.data| >= SEGMENT_HEADER_SIZE {
      EmptySegment(f.name);
      assert f.data == EncodeSegmentHeader(f.name);
      CompleteScans(f, []);
    }
  }

  /**
   * When creating a segment fails and removing it fails too, a file with the first bytes of
   * a header stays behind under the next LSN while the old segment keeps growing. Recovery
   * accepts such a directory if and only if the old segment ends with a whole record, and
   * either the leftover has no complete header or no record followed.
   */
  lemma LeftoverSegment(c: CrashPoint, leftover: File)
    requires Sound(c) && Leftover(leftover)
    ensures Intact(c.disk + [leftover]) <==>
      && Usable(Last(c)) && Scan(Last(c)).stop == Clean
      && (|leftover.data| < SEGMENT_HEADER_SIZE || leftover.name == LastLsn(Last(c)) + 1)
  {
    hide Usable, Scan, Complete, SegmentOf, Headless, LastLsn;
    LeftoverScans(leftover);
    var files, n := c.disk + [leftover], |c.disk|;
    forall i | 0 <= i < n - 1 ensures GoodAt(files, i) {
      EarlierGood(c, leftover, i);
    }
    LastGood(c, leftover);
    if Headless(leftover) {
      assert Live(files) == c.disk;
    } else {
      assert Live(files) == files;
      assert GoodAt(files, n) <==> Usable(Last(c)) && leftover.name == LastLsn(Last(c)) + 1;
    }
  }

  lemma EarlierGood(c: CrashPoint, leftover: File, i: nat)
    requires Sound(c) && i < |c.disk| - 1
    ensures GoodAt(c.disk + [leftover], i)
  {
    hide SegmentBytes, ScanFrom, DecodeSegmentHeader;
    CompleteScans(c.disk[i], c.parts[i]);
    if i > 0 {
      CompleteScans(c.disk[i - 1], c.parts[i - 1]);
    }
  }

  lemma LastGood(c: CrashPoint, leftover: File)
    requires Sound(c)
    ensures GoodAt(c.disk + [leftover], |c.disk| - 1) <==> Usable(Last(c)) && Scan(Last(c)).stop == Clean
  {
    hide SegmentBytes, ScanFrom, DecodeSegmentHeader;
    var n := |c.disk| - 1;
    if n > 0 {
      CompleteScans(c.disk[n - 1], c.parts[n - 1]);
    }
  }

  /** Where it is accepted it changes nothing: recovery finds the same records. */
  lemma LeftoverContents(c: CrashPoint, leftover: File)
    requires Sound(c) && Leftover(leftover) && Intact(c.disk + [leftover])
    ensures Live(c.disk) == c.disk && AllUsable(c.disk) && AllUsable(Live(c.disk + [leftover]))
    ensures |c.disk| <= |Live(c.disk + [leftover])| && Live(c.disk + [leftover])[..|c.disk|] == c.disk
    ensures Contents(Live(c.disk + [leftover])) == Contents(c.disk)
  {
    hide Usable, Scan, Complete, SegmentOf, LastLsn, DecodeSegmentHeader;
    LeftoverSegment(c, leftover);
    LeftoverScans(leftover);
    SoundIsIntact(c);
    HeaderlessIsNotUsable(Last(c));
    var files, n := c.disk + [leftover], |c.disk|;
    LiveIsUsable(files);
    if !Headless(leftover) {
      assert Live(files) == files && files[..n] == c.disk;
      NothingScanned(leftover);
    }
  }

  lemma HeaderlessIsNotUsable(f: File)
    ensures Usable(f) ==> !Headless(f) && |f.data| >= SEGMENT_HEADER_SIZE
  {
    HeaderFits(f.data);
  }

  lemma NothingScanned(f: File)
    requires Usable(f) && LastLsn(f) == f.name - 1
    ensures Scan(f).records == []
  {}

  // ---------------------------------------------------------------- the directory

  /** The last of the files in the order of their names is one left behind. */
  predicate StrayLast(disk: seq<File>, stray: seq<File>)
    requires disk != []
  {
    stray != [] && stray[|stray| - 1].name > disk[|disk| - 1].name
  }

  /** Two lists of files in the order of their names. */
  function Merge(disk: seq<File>, stray: seq<File>): (d: seq<File>)
    ensures |d| == |disk| + |stray|
    decreases |disk| + |stray|
  {
    if stray == [] then disk
    else if disk == [] then stray
    else if StrayLast(disk, stray) then Merge(disk, stray[..|stray| - 1]) + [stray[|stray| - 1]]
    else Merge(disk[..|disk| - 1], stray) + [disk[|disk| - 1]]
  }

  /** All files of the log directory, as recovery lists them. */
  function Directory(c: CrashPoint): seq<File> {
    Merge(c.disk, c.stray)
  }

  /** Names that differ from one another, rising among the files left behind. */
  ghost predicate Apart(disk: seq<File>, stray: seq<File>) {
    && (forall i, j | 0 <= i < j < |stray| :: stray[i].name < stray[j].name)
    && (forall i, j | 0 <= i < |stray| && 0 <= j < |disk| :: stray[i].name != disk[j].name)
  }

  ghost predicate AllLeftover(stray: seq<File>) {
    forall i | 0 <= i < |stray| :: Leftover(stray[i])
  }

  /** Each was left behind when all records below its name were in the log, up to `lsn` at most. */
  ghost predicate NamedBelow(stray: seq<File>, lsn: int) {
    forall i | 0 <= i < |stray| :: stray[i].name <= lsn + 1
  }

  /** What holds of the files beside the segments at every step of a run. */
  ghost predicate Strewn(c: CrashPoint, flushed: bool)
    requires Sound(c)
  {
    && AllLeftover(c.stray) && Apart(c.disk, c.stray)
    && (flushed ==> NamedBelow(c.stray, DurableLsn(c)))
  }

  /** A step that keeps the names and loses nothing durable keeps this. */
  lemma StrewnSame(c: CrashPoint, after: CrashPoint, flushed: bool)
    requires Sound(c) && Sound(after) && Strewn(c, flushed) && after.stray == c.stray && Names(after.disk) == Names(c.disk)
    requires DurableLsn(c) <= DurableLsn(after)
    ensures Strewn(after, flushed)
  {
    hide Leftover, DurableLsn, Sound;
    forall i, j | 0 <= i < |after.stray| && 0 <= j < |after.disk| ensures after.stray[i].name != after.disk[j].name {
      assert Names(after.disk)[j] == Names(c.disk)[j];
    }
  }

  lemma StrewnNew(c: CrashPoint, f: File, flushed: bool)
    requires Sound(c) && Strewn(c, flushed) && forall i | 0 <= i < |c.stray| :: c.stray[i].name != f.name
    requires Sound(c.(disk := c.disk + [f], parts := c.parts + [[]]))
    requires DurableLsn(c) <= DurableLsn(c.(disk := c.disk + [f], parts := c.parts + [[]]))
    ensures Strewn(c.(disk := c.disk + [f], parts := c.parts + [[]]), flushed)
  {
    hide Leftover, DurableLsn, Sound;
  }

  lemma StrewnOlder(c: CrashPoint, flushed: bool)
    requires Sound(c) && Strewn(c, flushed) && c.disk != [] && c.parts != [] && Sound(c.(disk := c.disk[1..], parts := c.parts[1..]))
    requires DurableLsn(c.(disk := c.disk[1..], parts := c.parts[1..])) == DurableLsn(c)
    ensures Strewn(c.(disk := c.disk[1..], parts := c.parts[1..]), flushed)
  {
    hide Leftover, DurableLsn, Sound;
  }

  /** One more file is left behind, under a name above all others. */
  lemma StrewnMore(c: CrashPoint, f: File, flushed: bool)
    requires Sound(c) && Strewn(c, flushed) && Leftover(f) && Sound(c.(stray := c.stray + [f]))
    requires forall i | 0 <= i < |c.stray| :: c.stray[i].name < f.name
    requires forall j | 0 <= j < |c.disk| :: c.disk[j].name != f.name
    requires flushed ==> f.name <= DurableLsn(c) + 1
    ensures Strewn(c.(stray := c.stray + [f]), flushed)
  {
    hide Leftover, Sound, Within;
    var after := c.(stray := c.stray + [f]);
    assert DurableLsn(after) == DurableLsn(c);
    assert forall i | 0 <= i < |after.stray| :: after.stray[i] == if i < |c.stray| then c.stray[i] else f;
  }

  lemma NamedHigher(stray: seq<File>, lsn: int, more: int)
    requires NamedBelow(stray, lsn) && lsn <= more
    ensures NamedBelow(stray, more)
  {}

  lemma NothingStrewn(c: CrashPoint, flushed: bool)
    requires Sound(c) && c.stray == []
    ensures Strewn(c, flushed)
  {}

  /** The last LSN that is wholly written. */
  ghost function WholeLsn(c: CrashPoint): int
    requires Sound(c)
  {
    Last(c).name + Within(LastPart(c), |Last(c).data|) - 1
  }

  lemma WholeIsLast(c: CrashPoint)
    requires Sound(c)
    ensures DurableLsn(c) <= WholeLsn(c)
    ensures |Last(c).data| >= SEGMENT_HEADER_SIZE ==> Usable(Last(c)) && !Headless(Last(c)) && LastLsn(Last(c)) == WholeLsn(c)
    ensures |Last(c).data| < SEGMENT_HEADER_SIZE ==> Headless(Last(c))
  {
    hide ScanFrom, DecodeSegmentHeader, SegmentBytes, Within;
    PrefixScans(Last(c), LastPart(c));
    WithinMonotone(LastPart(c), Last(c).synced, |Last(c).data|);
  }

  /** The last file of a merged list. */
  lemma MergeEnd(disk: seq<File>, stray: seq<File>)
    requires disk != []
    ensures StrayLast(disk, stray) ==> Merge(disk, stray) == Merge(disk, stray[..|stray| - 1]) + [stray[|stray| - 1]]
    ensures !StrayLast(disk, stray) ==> Merge(disk, stray) == Merge(disk[..|disk| - 1], stray) + [disk[|disk| - 1]]
  {
    if stray == [] {
      WholeSplit(disk);
    }
  }

  lemma WholeSplit(disk: seq<File>)
    requires disk != []
    ensures Merge(disk, []) == Merge(disk[..|disk| - 1], []) + [disk[|disk| - 1]]
  {
    hide Merge;
    NothingStray(disk);
    NothingStray(disk[..|disk| - 1]);
    Unsnoc(disk);
  }

  lemma Unsnoc<T>(s: seq<T>)
    requires s != []
    ensures s == s[..|s| - 1] + [s[|s| - 1]]
  {}

  /** Where a file left behind is in the directory, with every later file named above it. */
  ghost predicate StandsAt(d: seq<File>, f: File, i: nat) {
    i < |d| && d[i] == f && forall j | i < j < |d| :: f.name < d[j].name
  }

  lemma ApartShorter(disk: seq<File>, stray: seq<File>, n: nat, m: nat)
    requires Apart(disk, stray) && n <= |disk| && m <= |stray|
    ensures Apart(disk[..n], stray[..m])
  {}

  /** The last file left behind is somewhere, and what follows is named above it. */
  lemma {:induction false} Stands(disk: seq<File>, stray: seq<File>) returns (i: nat)
    requires stray != [] && Apart(disk, stray)
    ensures StandsAt(Merge(disk, stray), stray[|stray| - 1], i)
    decreases |disk|
  {
    hide Merge;
    if disk == [] {
      OnlyStrays(stray);
      return |stray| - 1;
    }
    MergeEnd(disk, stray);
    var n, m := |disk| - 1, |stray| - 1;
    if StrayLast(disk, stray) {
      return |Merge(disk, stray)| - 1;
    }
    ApartShorter(disk, stray, n, |stray|);
    assert stray[..|stray|] == stray;
    i := Stands(disk[..n], stray);
  }

  // ---------------------------------------------------------------- what recovery refuses

  /** In an accepted directory a file left behind is the last, or comes right before a last one without a header. */
  lemma AcceptedStray(d: seq<File>, f: File, i: nat)
    requires Intact(d) && Leftover(f) && StandsAt(d, f, i) && i < |d| - 1
    ensures i == |d| - 2 && Headless(d[|d| - 1])
    ensures i > 0 ==> Usable(d[i - 1]) && f.name == LastLsn(d[i - 1]) + 1
  {
    hide Usable, Scan, Headless, LastLsn, GoodAt, Leftover, Live;
    LiveLength(d);
    GoodParts(d, i);
    if i + 1 < |Live(d)| {
      GoodParts(d, i + 1);
      NotAfterStray(d[i + 1], f);
    } else {
      LeftoverScans(f);
    }
  }

  lemma LiveLength(d: seq<File>)
    ensures |d| - 1 <= |Live(d)| <= |d| && (|Live(d)| < |d| ==> Headless(d[|d| - 1]))
  {
    hide Headless;
  }

  lemma GoodParts(d: seq<File>, i: nat)
    requires i < |d| && GoodAt(d, i)
    ensures Usable(d[i]) && (i > 0 ==> Usable(d[i - 1]) && d[i].name == LastLsn(d[i - 1]) + 1)
  {}

  /** No two files left behind follow on from each other. */
  lemma NotAfterStray(f: File, g: File)
    requires Leftover(g) && Usable(g) && f.name == LastLsn(g) + 1
    ensures f.name == g.name
  {
    hide Usable, Scan, Headless, LastLsn;
    LeftoverScans(g);
  }

  /** The last file left behind, with something named above it at the end: it continues the last segment. */
  lemma ContinuesSegment(disk: seq<File>, stray: seq<File>, e: File)
    requires disk != [] && stray != [] && Apart(disk, stray) && AllLeftover(stray)
    requires Intact(Merge(disk, stray) + [e]) && stray[|stray| - 1].name < e.name
    ensures Headless(e) && Usable(disk[|disk| - 1])
    ensures stray[|stray| - 1].name == LastLsn(disk[|disk| - 1]) + 1
  {
    hide Usable, Scan, Headless, LastLsn, Intact, Merge, Leftover;
    var n, m := |disk| - 1, |stray| - 1;
    var d, f := Merge(disk, stray) + [e], stray[m];
    var i := Stands(disk, stray);
    assert StandsAt(d, f, i);
    AcceptedStray(d, f, i);
    MergeEnd(disk, stray);
    MergeEnd(disk, stray[..m]);
    var more := Merge(disk, stray[..m]);
    assert d == more + [f] + [e];
    if m > 0 && stray[m - 1].name > disk[n].name {
      assert d[i - 1] == stray[m - 1];
      NotAfterStray(f, stray[m - 1]);
    } else {
      assert d[i - 1] == disk[n];
    }
  }

  lemma NextName(c: CrashPoint, i: nat)
    requires Sound(c) && i < |c.disk| - 1
    ensures Usable(c.disk[i]) && LastLsn(c.disk[i]) + 1 == c.disk[i + 1].name
  {
    hide ScanFrom, DecodeSegmentHeader, SegmentBytes;
    CompleteScans(c.disk[i], c.parts[i]);
  }

  lemma OnlyStrays(stray: seq<File>)
    ensures Merge([], stray) == stray
  {}

  /** A file left behind that a segment follows is refused. */
  lemma SegmentFollows(c: CrashPoint)
    requires Sound(c) && AllLeftover(c.stray) && Apart(c.disk, c.stray) && c.stray != []
    requires c.stray[|c.stray| - 1].name < Last(c).name
    ensures !Intact(Directory(c))
  {
    hide Usable, Scan, Headless, LastLsn, SegmentOf, Complete, Intact, Merge, Leftover;
    if Intact(Directory(c)) {
      var n, m := |c.disk| - 1, |c.stray| - 1;
      MergeEnd(c.disk, c.stray);
      if n > 0 {
        ApartShorter(c.disk, c.stray, n, m + 1);
        assert c.stray[..m + 1] == c.stray;
        ContinuesSegment(c.disk[..n], c.stray, Last(c));
        NextName(c, n - 1);
      } else {
        OnlyStrays(c.stray);
        assert StandsAt(Directory(c), c.stray[m], m);
        AcceptedStray(Directory(c), c.stray[m], m);
        PositiveName(c.stray[m]);
        WholeIsLast(c);
      }
    }
  }

  lemma PositiveName(f: File)
    requires Leftover(f)
    ensures f.name > 0
  {}

  /** Two files left behind after the last segment are refused. */
  lemma TwoFollow(c: CrashPoint)
    requires Sound(c) && AllLeftover(c.stray) && Apart(c.disk, c.stray) && NamedBelow(c.stray, WholeLsn(c)) && |c.stray| >= 2
    requires c.stray[|c.stray| - 1].name > Last(c).name
    ensures !Intact(Directory(c))
  {
    hide Usable, Scan, Headless, LastLsn, SegmentOf, Complete, Intact, Merge, Leftover, WholeLsn, DurableLsn;
    if Intact(Directory(c)) {
      var n, m := |c.disk|, |c.stray| - 1;
      MergeEnd(c.disk, c.stray);
      ApartShorter(c.disk, c.stray, n, m);
      assert c.disk[..n] == c.disk;
      ContinuesSegment(c.disk, c.stray[..m], c.stray[m]);
      UsableHasHeader(Last(c));
      WholeIsLast(c);
    }
  }

  lemma UsableHasHeader(f: File)
    ensures Usable(f) ==> |f.data| >= SEGMENT_HEADER_SIZE
  {
    HeaderFits(f.data);
  }

  /**
   * What recovery accepts: nothing left behind, or one file after the last segment, which ends
   * with a whole record, and then either no complete header or no record since.
   */
  ghost predicate Tolerated(c: CrashPoint)
    requires Sound(c)
  {
    c.stray == [] ||
    (&& |c.stray| == 1 && c.stray[0].name > Last(c).name
     && Usable(Last(c)) && Scan(Last(c)).stop == Clean
     && (|c.stray[0].data| < SEGMENT_HEADER_SIZE || c.stray[0].name == LastLsn(Last(c)) + 1))
  }

  /** Exactly the tolerated directories are accepted, however many files were left behind. */
  lemma ExactlyTolerated(c: CrashPoint)
    requires Sound(c) && AllLeftover(c.stray) && Apart(c.disk, c.stray) && NamedBelow(c.stray, WholeLsn(c))
    ensures Intact(Directory(c)) <==> Tolerated(c)
  {
    hide Usable, Scan, LastLsn, SegmentOf, Complete, Intact, Merge, Leftover, WholeLsn, DurableLsn;
    var m := |c.stray| - 1;
    MergeEnd(c.disk, c.stray);
    if m < 0 {
      NothingStray(c.disk);
      SoundIsIntact(c);
    } else if c.stray[m].name < Last(c).name {
      SegmentFollows(c);
    } else if m > 0 {
      TwoFollow(c);
    } else {
      NothingStray(c.disk);
      assert c.stray[..0] == [];
      LeftoverSegment(c, c.stray[0]);
    }
  }

  lemma NothingStray(disk: seq<File>)
    ensures Merge(disk, []) == disk
  {}

  /** In an accepted directory recovery finds the records of the segments. */
  lemma ToleratedContents(c: CrashPoint)
    requires Sound(c) && AllLeftover(c.stray) && Tolerated(c) && Intact(Directory(c))
    ensures AllUsable(Live(c.disk)) && AllUsable(Live(Directory(c)))
    ensures Contents(Live(Directory(c))) == Contents(Live(c.disk))
    ensures Live(Directory(c)) == [] <==> Live(c.disk) == []
    ensures Live(c.disk) != [] ==> Live(Directory(c))[0].name == Live(c.disk)[0].name
  {
    hide Usable, Scan, LastLsn, SegmentOf, Complete, Intact, Merge, Leftover, Live, Contents, Headless;
    MergeEnd(c.disk, c.stray);
    NothingStray(c.disk);
    SoundIsIntact(c);
    if c.stray != [] {
      assert c.stray[..0] == [];
      LeftoverContents(c, c.stray[0]);
      FirstKept(Live(Directory(c)), c.disk);
    }
  }

  lemma FirstKept(live: seq<File>, disk: seq<File>)
    requires disk != [] && |disk| <= |live| && live[..|disk|] == disk
    ensures live != [] && live[0] == disk[0]
  {
    assert live[..|disk|][0] == live[0];
  }

  // ---------------------------------------------------------------- power losses

  lemma LossSnoc(files: seq<File>, f: File, after: seq<File>)
    requires PowerLoss(files + [f], after)
    ensures |after| == |files| + 1 && PowerLoss(files, after[..|files|]) && PowerLoss([f], [after[|files|]])
  {
    var all := files + [f];
    assert forall i | 0 <= i < |files| :: all[i] == files[i];
    assert all[|files|] == f;
  }

  lemma LossJoin(files: seq<File>, f: File, after: seq<File>, g: File)
    requires PowerLoss(files, after) && PowerLoss([f], [g])
    ensures PowerLoss(files + [f], after + [g])
  {}

  /** A power loss strikes segments and files left behind, each on its own. */
  lemma {:induction false} LossSplits(disk: seq<File>, stray: seq<File>, after: seq<File>) returns (d: seq<File>, s: seq<File>)
    requires PowerLoss(Merge(disk, stray), after)
    ensures PowerLoss(disk, d) && PowerLoss(stray, s) && after == Merge(d, s)
    decreases |disk| + |stray|
  {
    hide PowerLoss, Merge;
    OnlyStrays(stray);
    NothingLost();
    OnlyStrays(after);
    NothingStray(disk);
    NothingStray(after);
    if disk == [] {
      return [], after;
    }
    if stray == [] {
      return after, [];
    }
    var n, m, k := |disk| - 1, |stray| - 1, |after| - 1;
    MergeEnd(disk, stray);
    if StrayLast(disk, stray) {
      LossSnoc(Merge(disk, stray[..m]), stray[m], after);
      d, s := LossSplits(disk, stray[..m], after[..k]);
      s := LossGrows(stray, s, after[k]);
    } else {
      LossSnoc(Merge(disk[..n], stray), disk[n], after);
      d, s := LossSplits(disk[..n], stray, after[..k]);
      d := LossGrows(disk, d, after[k]);
    }
    LossNames(disk, d);
    LossNames(stray, s);
    MergeEnd(d, s);
    assert after[..k] + [after[k]] == after;
  }

  lemma LossGrows(files: seq<File>, after: seq<File>, g: File) returns (all: seq<File>)
    requires files != [] && PowerLoss(files[..|files| - 1], after) && PowerLoss([files[|files| - 1]], [g])
    ensures all == after + [g] && all[..|all| - 1] == after && PowerLoss(files, all)
  {
    LossJoin(files[..|files| - 1], files[|files| - 1], after, g);
    assert files[..|files| - 1] + [files[|files| - 1]] == files;
    return after + [g];
  }

  lemma NothingLost()
    ensures PowerLoss([], [])
  {}

  lemma LossNames(files: seq<File>, after: seq<File>)
    requires PowerLoss(files, after)
    ensures |after| == |files| && forall i | 0 <= i < |files| :: after[i].name == files[i].name
  {}

  lemma LossKeepsStray(disk: seq<File>, stray: seq<File>, d: seq<File>, s: seq<File>, lsn: int, more: int)
    requires PowerLoss(disk, d) && PowerLoss(stray, s) && AllLeftover(stray) && Apart(disk, stray) && NamedBelow(stray, lsn) && lsn <= more
    ensures AllLeftover(s) && Apart(d, s) && NamedBelow(s, more)
  {
    hide EncodeSegmentHeader;
    forall i | 0 <= i < |s| ensures Leftover(s[i]) {
      assert Leftover(stray[i]);
    }
  }

  /** What a power loss makes of the segments alone: the crash point recovery starts from. */
  ghost predicate Crashed(c: CrashPoint, after: seq<File>, left: CrashPoint) {
    PowerLoss(c.disk, left.disk) && PowerLoss(c.stray, left.stray) && left.parts == c.parts && after == Directory(left)
  }

  /** The same condition on the files a power loss leaves of `c`. */
  ghost predicate Tolerates(c: CrashPoint, after: seq<File>)
    requires Sound(c)
  {
    c.stray == [] ||
    var n := |c.disk|;
    && |c.stray| == 1 && c.stray[0].name > Last(c).name && |after| == n + 1
    && Usable(after[n - 1]) && Scan(after[n - 1]).stop == Clean
    && (|after[n].data| < SEGMENT_HEADER_SIZE || after[n].name == LastLsn(after[n - 1]) + 1)
  }

  lemma ToleratedAfter(c: CrashPoint, after: seq<File>, left: CrashPoint)
    requires Sound(c) && Sound(left) && Crashed(c, after, left)
    ensures Tolerated(left) <==> Tolerates(c, after)
  {
    hide Usable, Scan, LastLsn, Merge, SegmentOf, Complete;
    LossNames(c.disk, left.disk);
    LossNames(c.stray, left.stray);
    if |c.stray| == 1 && c.stray[0].name > Last(c).name {
      MergeEnd(left.disk, left.stray);
      assert left.stray[..0] == [];
      NothingStray(left.disk);
      assert after == left.disk + [left.stray[0]];
    }
  }

  /**
   * Crash safety of the log with whatever was left behind: after any power loss recovery
   * accepts the directory exactly if what is left is tolerated, and then finds a prefix of
   * the records that reaches the durable LSN.
   */
  lemma CrashedDirectory(c: CrashPoint, after: seq<File>) returns (left: CrashPoint)
    requires Sound(c) && Settled(c) && Strewn(c, true) && PowerLoss(Directory(c), after)
    ensures Crashed(c, after, left) && Sound(left)
    ensures Intact(after) <==> Tolerates(c, after)
    ensures Intact(after) ==>
      && AllUsable(Live(after)) && Contents(Live(after)) <= Flat(c.parts)
      && DurableLsn(c) <= StartLsn(c) + |Contents(Live(after))| - 1
      && StartLsn(c) == if Live(after) == [] then 1 else Live(after)[0].name
  {
    hide Settled, Tolerated, Tolerates, Intact, Live, Contents, Merge, Leftover, SegmentOf, Complete, Within, Flat, AllUsable, Apart, AllLeftover, NamedBelow;
    var d, s := LossSplits(c.disk, c.stray, after);
    left := CrashPoint(d, c.parts, s);
    PowerLossIsSound(c, d);
    SameSound(left);
    DurableGrows(c, left);
    LossKeepsStray(c.disk, c.stray, d, s, DurableLsn(c), WholeLsn(left));
    ExactlyTolerated(left);
    PowerLossRecovers(c, d);
    ToleratedAfter(c, after, left);
    if Intact(after) {
      ToleratedContents(left);
    }
  }

  lemma SameSound(c: CrashPoint)
    requires Sound(CrashPoint(c.disk, c.parts))
    ensures Sound(c)
  {
    hide SegmentOf, Complete;
  }

  lemma DurableGrows(c: CrashPoint, left: CrashPoint)
    requires Sound(c) && Sound(left) && left.parts == c.parts && PowerLoss(c.disk, left.disk)
    ensures DurableLsn(c) <= WholeLsn(left)
  {
    hide SegmentBytes, Within;
    WithinMonotone(LastPart(c), Last(c).synced, |Last(left).data|);
  }
}
