/** How each disk step of the log changes a crash point. */
module LogSteps {
  import opened Bytes
  import opened Text
  import opened WalFormat
  import opened WalRecovery

  ghost function Last(c: CrashPoint): File
    requires Sound(c)
  {
    c.disk[|c.disk| - 1]
  }

  ghost function LastPart(c: CrashPoint): seq<Record>
    requires Sound(c)
  {
    c.parts[|c.parts| - 1]
  }

  /** The bytes the last segment has once everything handed to it is written. */
  ghost function LastBytes(c: CrashPoint): bytes
    requires Sound(c)
  {
    SegmentBytes(Last(c).name, LastPart(c))
  }

  ghost function NextLsn(c: CrashPoint): nat
    requires Sound(c)
  {
    Last(c).name + |LastPart(c)|
  }

  ghost function WithLast(c: CrashPoint, f: File, rs: seq<Record>): CrashPoint
    requires Sound(c)
  {
    c.(disk := c.disk[..|c.disk| - 1] + [f], parts := c.parts[..|c.parts| - 1] + [rs])
  }

  lemma SegmentBytesSnoc(first: u64, rs: seq<Record>, r: Record)
    requires forall i | 0 <= i < |rs| :: Encodable(rs[i])
    requires Encodable(r)
    ensures SegmentBytes(first, rs + [r]) == SegmentBytes(first, rs) + EncodeRecord(r)
  {
    hide EncodeRecord, EncodeSegmentHeader;
    BodySnoc(rs, r);
    Regroup([], EncodeSegmentHeader(first), Body(rs), EncodeRecord(r));
  }

  /** Handing over one more record keeps what was already within `k` bytes. */
  lemma WithinSnoc(rs: seq<Record>, r: Record, k: nat)
    requires forall i | 0 <= i < |rs| :: Encodable(rs[i])
    requires Encodable(r)
    ensures Within(rs + [r], k) >= Within(rs, k)
    ensures k <= SEGMENT_HEADER_SIZE + |Body(rs)| ==> Within(rs + [r], k) == Within(rs, k)
  {
    hide EncodeRecord, Body, Whole, Encodable;
    if k >= SEGMENT_HEADER_SIZE {
      var m := k - SEGMENT_HEADER_SIZE;
      var n, n' := Whole(rs, m), Whole(rs + [r], m);
      FitsWithin(rs, m);
      assert (rs + [r])[..n] == rs[..n];
      WholeAtLeast(rs + [r], n, m);
      FitsWithin(rs + [r], m);
      BodySnoc(rs, r);
      assert (rs + [r])[..|rs| + 1] == rs + [r];
      if m <= |Body(rs)| {
        assert (rs + [r])[..n'] == rs[..n'];
        WholeAtLeast(rs, n', m);
      }
    }
  }

  /** Replacing the last file and the records handed to it. */
  lemma ReplaceLast(c: CrashPoint, f: File, rs: seq<Record>)
    requires Sound(c) && SegmentOf(f, rs) && f.name == Last(c).name
    requires |c.disk| == 1 && f.name > 1 ==> |f.data| >= SEGMENT_HEADER_SIZE
    ensures
      var c' := WithLast(c, f, rs);
      && Sound(c') && StartLsn(c') == StartLsn(c)
      && Last(c') == f && LastPart(c') == rs
      && Flat(c'.parts) == Flat(c.parts[..|c.parts| - 1]) + rs
      && (Settled(c) && (|c.disk| == 1 && f.name > 1 ==> f.synced >= SEGMENT_HEADER_SIZE) ==> Settled(c'))
      && DurableLsn(c') == f.name + Within(rs, f.synced) - 1
  {
    hide SegmentOf, Complete, Within;
    var c' := WithLast(c, f, rs);
    var n := |c.disk| - 1;
    assert c'.parts[..n] == c.parts[..n];
  }

  /** A new segment after a complete one. */
  lemma AddSegment(c: CrashPoint, f: File)
    requires Sound(c) && Complete(Last(c), LastPart(c))
    requires SegmentOf(f, []) && f.name == NextLsn(c)
    ensures
      var c' := c.(disk := c.disk + [f], parts := c.parts + [[]]);
      && Sound(c') && StartLsn(c') == StartLsn(c) && Last(c') == f && LastPart(c') == []
      && Flat(c'.parts) == Flat(c.parts)
      && (Settled(c) && Last(c).synced == |Last(c).data| ==> Settled(c'))
      && DurableLsn(c') == f.name - 1 && DurableLsn(c) <= DurableLsn(c')
  {
    hide SegmentOf, Complete, Within;
    var c' := c.(disk := c.disk + [f], parts := c.parts + [[]]);
    assert c'.parts[..|c.parts|] == c.parts;
    assert Flat(c'.parts) == Flat(c.parts) + [];
  }

  /** Removing the oldest segment. */
  lemma DropOldest(c: CrashPoint)
    requires Sound(c) && |c.disk| > 1
    requires |Last(c).data| >= SEGMENT_HEADER_SIZE
    ensures
      var c' := c.(disk := c.disk[1..], parts := c.parts[1..]);
      && Sound(c') && StartLsn(c') == StartLsn(c) + |c.parts[0]| && Last(c') == Last(c) && LastPart(c') == LastPart(c)
      && Flat(c.parts) == c.parts[0] + Flat(c'.parts)
      && (Settled(c) && Last(c).synced >= SEGMENT_HEADER_SIZE ==> Settled(c'))
      && DurableLsn(c') == DurableLsn(c)
  {
    hide SegmentOf, Complete, Within;
    FlatCons(c.parts);
  }

  lemma {:induction false} FlatCons<T>(parts: seq<seq<T>>)
    requires parts != []
    ensures Flat(parts) == parts[0] + Flat(parts[1..])
  {
    var n := |parts| - 1;
    if n == 0 {
      assert parts[..0] == [];
    } else {
      FlatCons(parts[..n]);
      assert parts[..n][1..] == parts[1..][..n - 1];
      Regroup([], parts[0], Flat(parts[1..][..n - 1]), parts[n]);
    }
  }

  lemma EmptySegment(first: u64)
    requires first > 0
    ensures SegmentBytes(first, []) == EncodeSegmentHeader(first)
    ensures Run([], first)
  {}
}
