/** packages/storage/src/wal/format.ts: segment headers and log records. */
module WalFormat {
  import opened Bytes
  import opened Text

  const WAL_FORMAT_VERSION: u32 := 1
  const SEGMENT_MAGIC: bytes := [0x53, 0x49, 0x4E, 0x54, 0x57, 0x41, 0x4C, 0x00]
  const SEGMENT_HEADER_SIZE := 24
  const RECORD_HEADER_SIZE := 21
  const MAX_RECORD_PAYLOAD_SIZE := 256 * 1024 * 1024

  datatype Record = Record(lsn: nat, kind: int, payload: bytes)

  function EncodeSegmentHeader(first: u64): (h: bytes)
    ensures |h| == SEGMENT_HEADER_SIZE
  {
    var body := SEGMENT_MAGIC + U32(WAL_FORMAT_VERSION) + U64(first);
    body + U32(Crc(body, 0))
  }

  /** The first LSN a segment claims, or None when the header cannot be used. */
  function DecodeSegmentHeader(b: bytes): Option<nat> {
    if |b| < SEGMENT_HEADER_SIZE then None
    else if b[..8] != SEGMENT_MAGIC then None
    else if ReadU32(b[20..24]) != Crc(b[..20], 0) then None
    else if ReadU32(b[8..12]) != WAL_FORMAT_VERSION then None
    else Some(ReadU64(b[12..20]))
  }

  lemma HeaderRoundTrip(first: u64, rest: bytes)
    ensures DecodeSegmentHeader(EncodeSegmentHeader(first) + rest) == Some(first)
  {
    var body := SEGMENT_MAGIC + U32(WAL_FORMAT_VERSION) + U64(first);
    var b := EncodeSegmentHeader(first) + rest;
    assert b == SEGMENT_MAGIC + U32(WAL_FORMAT_VERSION) + U64(first) + U32(Crc(body, 0)) + rest;
    assert b[..8] == SEGMENT_MAGIC;
    assert b[8..12] == U32(WAL_FORMAT_VERSION);
    assert b[12..20] == U64(first);
    assert b[..20] == body;
    assert b[20..24] == U32(Crc(body, 0));
  }

  /** What `encodeRecord` accepts; anything else makes it throw a RangeError. */
  predicate Encodable(r: Record) {
    0 <= r.kind <= 255 && |r.payload| <= MAX_RECORD_PAYLOAD_SIZE && r.lsn < 0x1_0000_0000_0000_0000
  }

  function RecordBody(r: Record): (s: bytes)
    requires Encodable(r)
    ensures |s| == 13
  {
    U32(|r.payload|) + U64(r.lsn) + [r.kind]
  }

  function EncodeRecord(r: Record): (s: bytes)
    requires Encodable(r)
    ensures |s| == RECORD_HEADER_SIZE + |r.payload|
  {
    U32(Crc(RecordBody(r), 0)) + RecordBody(r) + U32(Crc(r.payload, 0)) + r.payload
  }

  datatype ScanResult =
    | Found(record: Record, end: nat)
    | End
    | Torn
    | Corrupt

  function ScanRecord(b: bytes, offset: nat, expected: nat): (r: ScanResult)
    requires offset <= |b|
    ensures r.Found? ==> offset < r.end <= |b| && r.record.lsn == expected && Encodable(r.record)
    ensures r.End? <==> offset == |b|
  {
    if offset == |b| then End
    else if |b| - offset < RECORD_HEADER_SIZE then Torn
    else if AllZero(b[offset..]) then Torn
    else if ReadU32(b[offset..offset + 4]) != Crc(b[offset + 4..offset + 17], 0) then Corrupt
    else
      var length := ReadU32(b[offset + 4..offset + 8]);
      var lsn := ReadU64(b[offset + 8..offset + 16]);
      var end := offset + RECORD_HEADER_SIZE + length;
      if lsn != expected then Corrupt
      else if length > MAX_RECORD_PAYLOAD_SIZE then Corrupt
      else if end > |b| then Torn
      else
        var payload := b[offset + RECORD_HEADER_SIZE..end];
        if ReadU32(b[offset + 17..offset + 21]) != Crc(payload, 0) then
          if end == |b| then Torn else Corrupt
        else Found(Record(lsn, b[offset + 16], payload), end)
  }

  /** How a scan of one segment ended. */
  datatype Stop = Clean | TornTail | Damaged

  datatype SegmentScan = SegmentScan(records: seq<Record>, validEnd: nat, stop: Stop)

  function Prepend(rs: seq<Record>, s: SegmentScan): SegmentScan {
    s.(records := rs + s.records)
  }

  /** The record loop shared by recovery, reading and inspection. */
  function ScanFrom(b: bytes, offset: nat, expected: nat): (s: SegmentScan)
    requires offset <= |b|
    ensures offset <= s.validEnd <= |b|
    decreases |b| - offset
  {
    match ScanRecord(b, offset, expected)
    case End => SegmentScan([], offset, Clean)
    case Torn => SegmentScan([], offset, TornTail)
    case Corrupt => SegmentScan([], offset, Damaged)
    case Found(r, end) => Prepend([r], ScanFrom(b, end, expected + 1))
  }

  // ---------------------------------------------------------------- writing

  /** Records a log can hold: encodable and never LSN 0. */
  predicate Loggable(r: Record) {
    Encodable(r) && r.lsn > 0
  }

  predicate Run(rs: seq<Record>, first: nat) {
    forall i | 0 <= i < |rs| :: Loggable(rs[i]) && rs[i].lsn == first + i
  }

  function Body(rs: seq<Record>): bytes
    requires forall i | 0 <= i < |rs| :: Encodable(rs[i])
  {
    if rs == [] then [] else EncodeRecord(rs[0]) + Body(rs[1..])
  }

  lemma EmptyBody()
    ensures Body([]) == []
  {}

  lemma BodyCons(rs: seq<Record>)
    requires rs != [] && forall i | 0 <= i < |rs| :: Encodable(rs[i])
    ensures Body(rs) == EncodeRecord(rs[0]) + Body(rs[1..])
  {}

  lemma {:induction false} BodyAppend(rs: seq<Record>, more: seq<Record>)
    requires forall i | 0 <= i < |rs| :: Encodable(rs[i])
    requires forall i | 0 <= i < |more| :: Encodable(more[i])
    ensures Body(rs + more) == Body(rs) + Body(more)
  {
    hide EncodeRecord;
    if rs == [] {
      assert rs + more == more;
    } else {
      BodyAppend(rs[1..], more);
      assert (rs + more)[1..] == rs[1..] + more;
      Regroup([], EncodeRecord(rs[0]), Body(rs[1..]), Body(more));
    }
  }

  lemma BodySnoc(rs: seq<Record>, r: Record)
    requires forall i | 0 <= i < |rs| :: Encodable(rs[i])
    requires Encodable(r)
    ensures Body(rs + [r]) == Body(rs) + EncodeRecord(r)
  {
    hide EncodeRecord;
    BodyAppend(rs, [r]);
    assert Body([r]) == EncodeRecord(r) + Body([]);
  }

  // ---------------------------------------------------------------- scanning back

  lemma RecordFields(p: bytes, r: Record, t: bytes)
    requires Encodable(r)
    ensures
      var b := p + EncodeRecord(r) + t;
      var o := |p|;
      && b[o..o + 4] == U32(Crc(RecordBody(r), 0))
      && b[o + 4..o + 17] == RecordBody(r)
      && b[o + 4..o + 8] == U32(|r.payload|)
      && b[o + 8..o + 16] == U64(r.lsn)
      && b[o + 16] == r.kind
      && b[o + 17..o + 21] == U32(Crc(r.payload, 0))
      && b[o + 21..o + 21 + |r.payload|] == r.payload
  {
    var b := p + EncodeRecord(r) + t;
    var o := |p|;
    var body := RecordBody(r);
    Pieces(p, U32(Crc(body, 0)), body, U32(Crc(r.payload, 0)), r.payload, t);
    SubSlice(b, o + 4, o + 17, 0, 4);
    SubSlice(b, o + 4, o + 17, 4, 12);
    Pieces([], U32(|r.payload|), U64(r.lsn), [r.kind], [], []);
    assert body == [] + (U32(|r.payload|) + U64(r.lsn) + [r.kind] + []) + [];
    assert b[o + 16] == b[o + 4..o + 17][12];
  }

  lemma NotAllZero(b: bytes, o: nat, lsn: u64)
    requires o + 16 <= |b| && lsn > 0 && b[o + 8..o + 16] == U64(lsn)
    ensures !AllZero(b[o..])
  {
    if AllZero(b[o..]) {
      var z := b[o..];
      assert b[o + 8..o + 16] == z[8..16];
      ZeroReadsZero(z[8..16]);
    }
  }

  /** A whole record is read back exactly, whatever precedes or follows it. */
  lemma ScanWhole(p: bytes, r: Record, t: bytes)
    requires Loggable(r)
    ensures ScanRecord(p + EncodeRecord(r) + t, |p|, r.lsn) == Found(r, |p| + |EncodeRecord(r)|)
  {
    RecordFields(p, r, t);
    NotAllZero(p + EncodeRecord(r) + t, |p|, r.lsn);
  }

  /** A record cut short anywhere reads as a torn tail, never as damage. */
  lemma ScanCut(p: bytes, r: Record, k: nat)
    requires Loggable(r) && 0 < k < |EncodeRecord(r)|
    ensures ScanRecord(p + EncodeRecord(r)[..k], |p|, r.lsn).Torn?
  {
    if k >= RECORD_HEADER_SIZE {
      var o := |p|;
      var whole := p + EncodeRecord(r) + [];
      var cut := p + EncodeRecord(r)[..k];
      RecordFields(p, r, []);
      CutFields(whole, cut, o);
    }
  }

  lemma CutFields(whole: bytes, cut: bytes, o: nat)
    requires o + RECORD_HEADER_SIZE <= |cut| <= |whole| && cut == whole[..|cut|]
    ensures cut[o..o + 4] == whole[o..o + 4]
    ensures cut[o + 4..o + 17] == whole[o + 4..o + 17]
    ensures cut[o + 4..o + 8] == whole[o + 4..o + 8]
    ensures cut[o + 8..o + 16] == whole[o + 8..o + 16]
  {}

  lemma {:induction false} ScanBody(p: bytes, rs: seq<Record>, t: bytes, first: nat)
    requires Run(rs, first)
    ensures
      var b := p + Body(rs) + t;
      ScanFrom(b, |p|, first) == Prepend(rs, ScanFrom(b, |p| + |Body(rs)|, first + |rs|))
    decreases |rs|
  {
    hide EncodeRecord, ScanRecord, Encodable;
    var b := p + Body(rs) + t;
    if rs == [] {
      assert p + Body(rs) == p;
      assert rs + ScanFrom(b, |p|, first).records == ScanFrom(b, |p|, first).records;
    } else {
      var r, rest := rs[0], rs[1..];
      Regroup(p, EncodeRecord(r), Body(rest), t);
      assert b == p + EncodeRecord(r) + Body(rest) + t;
      ScanWhole(p, r, Body(rest) + t);
      ScanBody(p + EncodeRecord(r), rest, t, first + 1);
      var tail := ScanFrom(b, |p| + |Body(rs)|, first + |rs|);
      assert [r] + (rest + tail.records) == rs + tail.records;
    }
  }

  /** How many whole records the first `k` bytes of `Body(rs)` hold. */
  function Whole(rs: seq<Record>, k: nat): (n: nat)
    requires forall i | 0 <= i < |rs| :: Encodable(rs[i])
    ensures n <= |rs|
  {
    if rs == [] || |EncodeRecord(rs[0])| > k then 0
    else 1 + Whole(rs[1..], k - |EncodeRecord(rs[0])|)
  }

  /** `Whole` is the largest count whose bytes fit, and what is left over is a proper cut. */
  lemma {:induction false} WholeSplits(rs: seq<Record>, k: nat)
    requires forall i | 0 <= i < |rs| :: Encodable(rs[i])
    requires k <= |Body(rs)|
    ensures
      var n := Whole(rs, k);
      var used := |Body(rs[..n])|;
      && used <= k
      && (n == |rs| ==> used == k && Body(rs)[..k] == Body(rs))
      && (n < |rs| ==> k - used < |EncodeRecord(rs[n])|
                       && Body(rs)[..k] == Body(rs[..n]) + EncodeRecord(rs[n])[..k - used])
  {
    hide EncodeRecord, Body, Encodable;
    EmptyBody();
    if rs != [] {
      var e, rest := EncodeRecord(rs[0]), rs[1..];
      BodyCons(rs);
      TakeOfConcat(e, Body(rest), k);
      if |e| > k {
        assert Body(rs[..0]) + e[..k] == e[..k];
      } else {
        var n := Whole(rest, k - |e|);
        WholeSplits(rest, k - |e|);
        TakeTail(rs, n + 1);
        BodyCons(rs[..n + 1]);
        if n < |rest| {
          var cut := EncodeRecord(rest[n])[..k - |e| - |Body(rest[..n])|];
          assert e + (Body(rest[..n]) + cut) == e + Body(rest[..n]) + cut;
        }
      }
    }
  }

  /** More bytes never hold fewer records. */
  lemma {:induction false} WholeAtLeast(rs: seq<Record>, n: nat, k: nat)
    requires forall i | 0 <= i < |rs| :: Encodable(rs[i])
    requires n <= |rs| && |Body(rs[..n])| <= k
    ensures Whole(rs, k) >= n
  {
    hide EncodeRecord;
    if n > 0 {
      TakeTail(rs, n);
      WholeAtLeast(rs[1..], n - 1, k - |EncodeRecord(rs[0])|);
    }
  }

  function SegmentBytes(first: u64, rs: seq<Record>): bytes
    requires forall i | 0 <= i < |rs| :: Encodable(rs[i])
  {
    EncodeSegmentHeader(first) + Body(rs)
  }

  /**
   * Torn-tail exactness: scanning any prefix of a segment that still holds its header
   * returns exactly the whole records in the prefix and never reports damage.
   */
  lemma TornTailExact(first: u64, rs: seq<Record>, k: nat)
    requires Run(rs, first)
    requires SEGMENT_HEADER_SIZE <= k <= |SegmentBytes(first, rs)|
    ensures
      var n := Whole(rs, k - SEGMENT_HEADER_SIZE);
      var end := SEGMENT_HEADER_SIZE + |Body(rs[..n])|;
      && DecodeSegmentHeader(SegmentBytes(first, rs)[..k]) == Some(first)
      && ScanFrom(SegmentBytes(first, rs)[..k], SEGMENT_HEADER_SIZE, first)
         == SegmentScan(rs[..n], end, if k == end then Clean else TornTail)
  {
    hide EncodeRecord, EncodeSegmentHeader, ScanRecord, DecodeSegmentHeader, Body, Whole, SegmentBytes;
    var h := EncodeSegmentHeader(first);
    var n := Whole(rs, k - SEGMENT_HEADER_SIZE);
    var t := CutSegment(first, rs, k);
    HeaderRoundTrip(first, Body(rs[..n]) + t);
    ScanBody(h, rs[..n], t, first);
    if t != [] {
      ScanCut(h + Body(rs[..n]), rs[n], |t|);
    }
  }

  /** The bytes left over after the whole records of a prefix. */
  lemma CutSegment(first: u64, rs: seq<Record>, k: nat) returns (t: bytes)
    requires Run(rs, first)
    requires SEGMENT_HEADER_SIZE <= k <= |SegmentBytes(first, rs)|
    ensures
      var n := Whole(rs, k - SEGMENT_HEADER_SIZE);
      var h := EncodeSegmentHeader(first);
      && SegmentBytes(first, rs)[..k] == h + Body(rs[..n]) + t == h + (Body(rs[..n]) + t)
      && k == SEGMENT_HEADER_SIZE + |Body(rs[..n])| + |t|
      && (t != [] ==> n < |rs| && |t| < |EncodeRecord(rs[n])| && t == EncodeRecord(rs[n])[..|t|])
  {
    hide EncodeRecord, EncodeSegmentHeader;
    var h := EncodeSegmentHeader(first);
    var m := k - SEGMENT_HEADER_SIZE;
    var n := Whole(rs, m);
    WholeSplits(rs, m);
    TakeOfConcat(h, Body(rs), k);
    if n < |rs| {
      t := EncodeRecord(rs[n])[..m - |Body(rs[..n])|];
    } else {
      t := [];
      assert rs[..n] == rs;
      assert Body(rs) + t == Body(rs);
    }
    Regroup(h, Body(rs[..n]), t, []);
    assert h + (Body(rs[..n]) + t) + [] == h + (Body(rs[..n]) + t);
  }

  /** A segment followed by unwritten zero bytes reads the same, with a torn tail. */
  lemma ZeroTailExact(first: u64, rs: seq<Record>, zeros: bytes)
    requires Run(rs, first) && AllZero(zeros)
    ensures
      var b := SegmentBytes(first, rs) + zeros;
      && DecodeSegmentHeader(b) == Some(first)
      && ScanFrom(b, SEGMENT_HEADER_SIZE, first)
         == SegmentScan(rs, SEGMENT_HEADER_SIZE + |Body(rs)|, if zeros == [] then Clean else TornTail)
  {
    var h := EncodeSegmentHeader(first);
    var b := SegmentBytes(first, rs) + zeros;
    assert b == h + Body(rs) + zeros == h + (Body(rs) + zeros);
    HeaderRoundTrip(first, Body(rs) + zeros);
    ScanBody(h, rs, zeros, first);
    assert b[|h| + |Body(rs)|..] == zeros;
  }

  // ---------------------------------------------------------------- the encoding is the only preimage

  lemma HeaderIsEncoding(b: bytes)
    requires DecodeSegmentHeader(b).Some?
    ensures
      var first := DecodeSegmentHeader(b).value;
      && |b| >= SEGMENT_HEADER_SIZE && first < 0x1_0000_0000_0000_0000
      && b[..SEGMENT_HEADER_SIZE] == EncodeSegmentHeader(first)
  {
    assert b[..20] == b[..8] + b[8..12] + b[12..20];
    assert b[..24] == b[..20] + b[20..24];
  }

  lemma FoundIsEncoding(b: bytes, offset: nat, expected: nat)
    requires offset <= |b| && ScanRecord(b, offset, expected).Found?
    ensures
      var f := ScanRecord(b, offset, expected);
      b[offset..f.end] == EncodeRecord(f.record)
  {
    var o, f := offset, ScanRecord(b, offset, expected);
    var r := f.record;
    assert |r.payload| == f.end - o - 21;
    assert b[o + 4..o + 17] == b[o + 4..o + 8] + b[o + 8..o + 16] + [b[o + 16]];
    assert b[o + 4..o + 17] == RecordBody(r);
    assert b[o..f.end] == b[o..o + 4] + b[o + 4..o + 17] + b[o + 17..o + 21] + b[o + 21..f.end];
  }

  /** Whatever a scan returns, the bytes it accepted are exactly the encoding of it. */
  lemma {:induction false} ScanIsEncoding(b: bytes, offset: nat, expected: nat)
    requires offset <= |b| && expected > 0
    ensures
      var s := ScanFrom(b, offset, expected);
      Run(s.records, expected) && b[offset..s.validEnd] == Body(s.records)
    decreases |b| - offset
  {
    hide ScanRecord, EncodeRecord;
    var f := ScanRecord(b, offset, expected);
    if f.Found? {
      FoundIsEncoding(b, offset, expected);
      ScanIsEncoding(b, f.end, expected + 1);
      var rest := ScanFrom(b, f.end, expected + 1);
      assert ([f.record] + rest.records)[1..] == rest.records;
      assert b[offset..rest.validEnd] == b[offset..f.end] + b[f.end..rest.validEnd];
    }
  }
}
