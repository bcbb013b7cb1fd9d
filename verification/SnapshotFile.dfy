/** packages/storage/src/engine/checkpoint.ts: the snapshot file, written in chunks and read back whole. */
module SnapshotFile {
  import opened Bytes
  import opened Text
  import opened Operations
  import opened Replaying
  import Memory = InMemoryCollection

  const CHECKPOINT_FORMAT_VERSION := 2
  const OLDEST_READABLE_VERSION := 1
  const MAGIC: bytes := [0x53, 0x49, 0x4E, 0x54, 0x53, 0x4E, 0x50, 0x00]
  const END_MAGIC: bytes := [0x53, 0x49, 0x4E, 0x54, 0x45, 0x4E, 0x44, 0x00]
  const HEADER_SIZE := 24
  const FOOTER_SIZE := 12

  datatype Saved = Saved(ns: Namespace, indexes: seq<IndexSpec>, documents: seq<Entry>)

  // ---------------------------------------------------------------- writing

  function EncodeEntry(e: Entry): bytes {
    e.id + (Be(|e.document|, 4) + e.document)
  }

  function EncodeEntries(es: seq<Entry>): bytes {
    if es == [] then [] else EncodeEntry(es[0]) + EncodeEntries(es[1..])
  }

  function EncodeSpecs(specs: seq<IndexSpec>): bytes {
    if specs == [] then [] else EncodeIndexSpec(specs[0]) + EncodeSpecs(specs[1..])
  }

  function EncodeSaved(c: Saved): bytes {
    EncodeNames(c.ns)
    + (Be(|c.indexes|, 2) + (EncodeSpecs(c.indexes) + (Be(|c.documents|, 4) + EncodeEntries(c.documents))))
  }

  function EncodeAll(cs: seq<Saved>): bytes {
    if cs == [] then [] else EncodeSaved(cs[0]) + EncodeAll(cs[1..])
  }

  function Header(lsn: nat, count: nat): (h: bytes)
    ensures |h| == HEADER_SIZE
  {
    MAGIC + Be(CHECKPOINT_FORMAT_VERSION, 4) + Be(lsn, 8) + Be(count, 4)
  }

  /** The file's bytes: header, collections, checksum of both, end marker. */
  function EncodeSnapshot(lsn: nat, cs: seq<Saved>): bytes {
    var body := Header(lsn, |cs|) + EncodeAll(cs);
    body + (U32(Crc(body, 0)) + END_MAGIC)
  }

  predicate EntryFits(e: Entry) {
    |e.id| == ID_BYTE_LENGTH && |e.document| < 0x1_0000_0000
  }

  /** What the engine holds: counts and lengths that fit their fields, and each key once. */
  ghost predicate SavedFits(c: Saved) {
    && NamespaceFits(c.ns) && |c.indexes| < 0x1_0000 && |c.documents| < 0x1_0000_0000
    && (forall i | 0 <= i < |c.indexes| :: SpecFits(c.indexes[i]))
    && (forall i | 0 <= i < |c.documents| :: EntryFits(c.documents[i]))
    && Memory.DistinctIds(c.documents)
  }

  /** No name in it starts with U+FEFF. */
  ghost predicate PlainSaved(c: Saved) {
    PlainNames(c.ns) && AllPlain(c.indexes)
  }

  ghost predicate AllPlain(specs: seq<IndexSpec>) {
    forall i | 0 <= i < |specs| :: PlainSpec(specs[i])
  }

  lemma AllPlainNone()
    ensures AllPlain([])
  {}

  lemma AllPlainCons(specs: seq<IndexSpec>)
    requires specs != []
    ensures AllPlain(specs) <==> PlainSpec(specs[0]) && AllPlain(specs[1..])
  {
    hide PlainSpec;
    if PlainSpec(specs[0]) && AllPlain(specs[1..]) {
      forall i | 0 <= i < |specs| ensures PlainSpec(specs[i]) {
        assert i > 0 ==> specs[i] == specs[1..][i - 1];
      }
    }
  }

  ghost predicate AllPlainSaved(cs: seq<Saved>) {
    forall i | 0 <= i < |cs| :: PlainSaved(cs[i])
  }

  lemma AllPlainSavedNone()
    ensures AllPlainSaved([])
  {}

  lemma AllPlainSavedCons(cs: seq<Saved>)
    requires cs != []
    ensures AllPlainSaved(cs) <==> PlainSaved(cs[0]) && AllPlainSaved(cs[1..])
  {
    hide PlainSaved;
    if PlainSaved(cs[0]) && AllPlainSaved(cs[1..]) {
      forall i | 0 <= i < |cs| ensures PlainSaved(cs[i]) {
        assert i > 0 ==> cs[i] == cs[1..][i - 1];
      }
    }
  }

  // ---------------------------------------------------------------- reading

  /** Reads documents into a map that keeps insertion order. */
  function ReadEntries(b: bytes, n: nat, documents: seq<Entry>): Read<seq<Entry>>
    decreases n
  {
    if n == 0 then Got(documents, b) else
    match Take(b, ID_BYTE_LENGTH)
    case Bad => Bad
    case Got(id, r1) =>
      match TakeNat(r1, 4)
      case Bad => Bad
      case Got(length, r2) =>
        match Take(r2, length)
        case Bad => Bad
        case Got(document, r3) => ReadEntries(r3, n - 1, SetDocument(documents, id, document))
  }

  function ReadSpecs(b: bytes, n: nat): Read<seq<IndexSpec>>
    decreases n
  {
    if n == 0 then Got([], b) else
    match ReadIndexSpec(b)
    case Bad => Bad
    case Got(s, r1) => match ReadSpecs(r1, n - 1) case Bad => Bad case Got(ss, r2) => Got([s] + ss, r2)
  }

  /** The index definitions of one collection; version 1 has none. */
  function ReadIndexes(b: bytes, version: nat): Read<seq<IndexSpec>> {
    if version < 2 then Got([], b) else
    match TakeNat(b, 2)
    case Bad => Bad
    case Got(n, rest) => ReadSpecs(rest, n)
  }

  function ReadDocuments(b: bytes): Read<seq<Entry>> {
    match TakeNat(b, 4)
    case Bad => Bad
    case Got(n, rest) => ReadEntries(rest, n, [])
  }

  function ReadSaved(b: bytes, version: nat): Read<Saved> {
    match ReadNames(b)
    case Bad => Bad
    case Got(ns, r1) =>
      match ReadIndexes(r1, version)
      case Bad => Bad
      case Got(indexes, r2) =>
        match ReadDocuments(r2)
        case Bad => Bad
        case Got(documents, r3) => Got(Saved(ns, indexes, documents), r3)
  }

  function ReadAllSaved(b: bytes, n: nat, version: nat): Read<seq<Saved>>
    decreases n
  {
    if n == 0 then Got([], b) else
    match ReadSaved(b, version)
    case Bad => Bad
    case Got(c, r1) => match ReadAllSaved(r1, n - 1, version) case Bad => Bad case Got(cs, r2) => Got([c] + cs, r2)
  }

  datatype Checkpoint = Checkpoint(lsn: nat, collections: seq<Saved>)

  /** `readCheckpoint`: None where it reports damage. */
  function ReadCheckpoint(file: bytes): Option<Checkpoint> {
    if |file| < HEADER_SIZE + FOOTER_SIZE then None else
    var footer := |file| - FOOTER_SIZE;
    if file[footer + 4..] != END_MAGIC then None
    else if ReadU32(file[footer..footer + 4]) != Crc(file[..footer], 0) then None
    else if file[..8] != MAGIC then None
    else
      var version := OfBe(file[8..12]);
      if version < OLDEST_READABLE_VERSION || version > CHECKPOINT_FORMAT_VERSION then None else
      match ReadAllSaved(file[HEADER_SIZE..footer], OfBe(file[20..24]), version)
      case Bad => None
      case Got(cs, rest) => if rest == [] then Some(Checkpoint(OfBe(file[12..20]), cs)) else None
  }

  // ---------------------------------------------------------------- round trip

  lemma EntryReads(e: Entry, more: bytes, n: nat, documents: seq<Entry>)
    requires EntryFits(e) && n > 0
    ensures ReadEntries(EncodeEntry(e) + more, n, documents) == ReadEntries(more, n - 1, SetDocument(documents, e.id, e.document))
  {
    hide SetDocument, Be, OfBe, Take, TakeNat;
    Widths();
    TakeFront(e.id, Be(|e.document|, 4) + (e.document + more));
    TakeNatFront(|e.document|, 4, e.document + more);
    TakeFront(e.document, more);
    assert EncodeEntry(e) + more == e.id + (Be(|e.document|, 4) + (e.document + more));
  }

  lemma NoEntries(b: bytes, documents: seq<Entry>)
    ensures ReadEntries(b, 0, documents) == Got(documents, b)
  {}

  lemma NewId(documents: seq<Entry>, es: seq<Entry>)
    requires es != [] && Memory.DistinctIds(documents + es)
    ensures documents + es == documents + [es[0]] + es[1..]
    ensures forall j | 0 <= j < |documents| :: documents[j].id != es[0].id
  {
    var all := documents + es;
    assert forall j | 0 <= j < |documents| :: documents[j] == all[j];
    assert all[|documents|] == es[0];
  }

  lemma {:induction false} EntriesRead(es: seq<Entry>, documents: seq<Entry>, t: bytes)
    requires (forall i | 0 <= i < |es| :: EntryFits(es[i])) && Memory.DistinctIds(documents + es)
    ensures ReadEntries(EncodeEntries(es) + t, |es|, documents) == Got(documents + es, t)
    decreases |es|
  {
    hide SetDocument, EncodeEntry, EntryFits, Memory.DistinctIds, ReadEntries;
    if es == [] {
      assert EncodeEntries(es) + t == t && documents + es == documents;
      NoEntries(t, documents);
    } else {
      var e, more := es[0], EncodeEntries(es[1..]) + t;
      assert EncodeEntries(es) + t == EncodeEntry(e) + more;
      EntryReads(e, more, |es|, documents);
      NewId(documents, es);
      Memory.SetNew(documents, e.id, e.document);
      EntriesRead(es[1..], documents + [e], t);
    }
  }

  lemma {:induction false} SpecsRead(specs: seq<IndexSpec>, t: bytes)
    requires forall i | 0 <= i < |specs| :: SpecFits(specs[i])
    ensures AllPlain(specs) ==> ReadSpecs(EncodeSpecs(specs) + t, |specs|) == Got(specs, t)
    ensures !AllPlain(specs) ==>
      var r := ReadSpecs(EncodeSpecs(specs) + t, |specs|); r.Got? ==> r.value != specs
  {
    hide EncodeIndexSpec, ReadIndexSpec, SpecFits, AllPlain;
    AllPlainNone();
    if specs == [] {
      assert EncodeSpecs(specs) + t == t;
    } else {
      var more := EncodeSpecs(specs[1..]) + t;
      assert EncodeSpecs(specs) + t == EncodeIndexSpec(specs[0]) + more;
      assert specs == [specs[0]] + specs[1..];
      SpecRead(specs[0], more);
      SpecsRead(specs[1..], t);
      AllPlainCons(specs);
    }
  }

  lemma DocumentsRead(es: seq<Entry>, t: bytes)
    requires (forall i | 0 <= i < |es| :: EntryFits(es[i])) && Memory.DistinctIds(es) && |es| < 0x1_0000_0000
    ensures ReadDocuments(Be(|es|, 4) + EncodeEntries(es) + t) == Got(es, t)
  {
    hide ReadEntries, EncodeEntries;
    Widths();
    TakeNatFront(|es|, 4, EncodeEntries(es) + t);
    assert Be(|es|, 4) + EncodeEntries(es) + t == Be(|es|, 4) + (EncodeEntries(es) + t);
    assert [] + es == es;
    EntriesRead(es, [], t);
  }

  lemma IndexesRead(specs: seq<IndexSpec>, t: bytes)
    requires (forall i | 0 <= i < |specs| :: SpecFits(specs[i])) && |specs| < 0x1_0000
    ensures AllPlain(specs) ==>
      ReadIndexes(Be(|specs|, 2) + (EncodeSpecs(specs) + t), CHECKPOINT_FORMAT_VERSION) == Got(specs, t)
    ensures !AllPlain(specs) ==>
      var r := ReadIndexes(Be(|specs|, 2) + (EncodeSpecs(specs) + t), CHECKPOINT_FORMAT_VERSION); r.Got? ==> r.value != specs
  {
    hide ReadSpecs, EncodeSpecs, SpecFits, AllPlain;
    Widths();
    TakeNatFront(|specs|, 2, EncodeSpecs(specs) + t);
    SpecsRead(specs, t);
  }

  lemma SavedRead(c: Saved, t: bytes)
    requires SavedFits(c)
    ensures PlainSaved(c) ==> ReadSaved(EncodeSaved(c) + t, CHECKPOINT_FORMAT_VERSION) == Got(c, t)
    ensures !PlainSaved(c) ==> var r := ReadSaved(EncodeSaved(c) + t, CHECKPOINT_FORMAT_VERSION); r.Got? ==> r.value != c
  {
    hide ReadNames, EncodeNames, ReadIndexes, ReadDocuments, EncodeSpecs, EncodeEntries, SpecFits, AllPlain, Be, NamespaceFits, PlainNames, EntryFits;
    var documents := Be(|c.documents|, 4) + EncodeEntries(c.documents) + t;
    var indexes := Be(|c.indexes|, 2) + (EncodeSpecs(c.indexes) + documents);
    SavedPieces(c, t);
    NamesRead(c.ns, indexes);
    IndexesRead(c.indexes, documents);
    DocumentsRead(c.documents, t);
  }

  lemma SavedPieces(c: Saved, t: bytes)
    ensures EncodeSaved(c) + t ==
      EncodeNames(c.ns) + (Be(|c.indexes|, 2) + (EncodeSpecs(c.indexes) + (Be(|c.documents|, 4) + EncodeEntries(c.documents) + t)))
  {
    hide EncodeNames, EncodeSpecs, EncodeEntries, Be;
    Nested(EncodeNames(c.ns), Be(|c.indexes|, 2), EncodeSpecs(c.indexes), Be(|c.documents|, 4), EncodeEntries(c.documents), t);
  }

  lemma Nested(a: bytes, b: bytes, c: bytes, d: bytes, e: bytes, t: bytes)
    ensures a + (b + (c + (d + e))) + t == a + (b + (c + (d + e + t)))
  {
    assert (d + e) + t == d + e + t;
    assert c + (d + e) + t == c + (d + e + t);
    assert b + (c + (d + e)) + t == b + (c + (d + e) + t);
  }

  lemma {:induction false} AllRead(cs: seq<Saved>, t: bytes)
    requires forall i | 0 <= i < |cs| :: SavedFits(cs[i])
    ensures AllPlainSaved(cs) ==>
      ReadAllSaved(EncodeAll(cs) + t, |cs|, CHECKPOINT_FORMAT_VERSION) == Got(cs, t)
    ensures !AllPlainSaved(cs) ==>
      var r := ReadAllSaved(EncodeAll(cs) + t, |cs|, CHECKPOINT_FORMAT_VERSION); r.Got? ==> r.value != cs
  {
    hide EncodeSaved, ReadSaved, SavedFits, PlainSaved, AllPlainSaved;
    AllPlainSavedNone();
    if cs == [] {
      assert EncodeAll(cs) + t == t;
    } else {
      var more := EncodeAll(cs[1..]) + t;
      assert EncodeAll(cs) + t == EncodeSaved(cs[0]) + more;
      assert cs == [cs[0]] + cs[1..];
      SavedRead(cs[0], more);
      AllRead(cs[1..], t);
      AllPlainSavedCons(cs);
    }
  }

  lemma HeaderFields(lsn: u64, count: u32, t: bytes)
    ensures
      var b := Header(lsn, count) + t;
      b[..8] == MAGIC && OfBe(b[8..12]) == CHECKPOINT_FORMAT_VERSION && OfBe(b[12..20]) == lsn && OfBe(b[20..24]) == count
  {
    Widths();
    BeRoundTrip(CHECKPOINT_FORMAT_VERSION, 4);
    BeRoundTrip(lsn, 8);
    BeRoundTrip(count, 4);
    hide Be, OfBe, Pow256;
    Pieces([], MAGIC, Be(CHECKPOINT_FORMAT_VERSION, 4), Be(lsn, 8), Be(count, 4), t);
    assert [] + Header(lsn, count) == Header(lsn, count);
    assert (Header(lsn, count) + t)[..8] == (Header(lsn, count) + t)[0..8];
  }

  /**
   * Reading a written snapshot gives back its LSN and the same collections, documents in the
   * same order, if and only if no name in it starts with U+FEFF.
   */
  lemma SnapshotRoundTrip(lsn: u64, cs: seq<Saved>)
    requires |cs| < 0x1_0000_0000 && forall i | 0 <= i < |cs| :: SavedFits(cs[i])
    ensures ReadCheckpoint(EncodeSnapshot(lsn, cs)) == Some(Checkpoint(lsn, cs)) <==> AllPlainSaved(cs)
  {
    hide Header, EncodeAll, ReadAllSaved, SavedFits, AllPlainSaved, Crc;
    var header, all := Header(lsn, |cs|), EncodeAll(cs);
    var body := header + all;
    var tail := U32(Crc(body, 0)) + END_MAGIC;
    var file := EncodeSnapshot(lsn, cs);
    var footer := |body|;
    assert file == body + tail;
    assert file[..footer] == body;
    assert file[footer..footer + 4] == U32(Crc(body, 0));
    assert file[footer + 4..] == END_MAGIC;
    assert file == header + (all + tail);
    HeaderFields(lsn, |cs|, all + tail);
    assert file[HEADER_SIZE..footer] == all;
    AllRead(cs, []);
    assert all + [] == all;
  }

  // ---------------------------------------------------------------- writing in chunks

  /** What `writeCheckpointSteps` keeps between two of its steps. */
  class SnapshotWriter {
    var pending: seq<bytes>
    var pendingBytes: nat
    var checksum: u32
    var written: bytes

    ghost predicate Valid()
      reads this
    {
      checksum == Crc(written, 0) && pendingBytes == |Joined(pending)|
    }

    /** Everything handed over so far. */
    ghost function Contents(): bytes
      reads this
    {
      written + Joined(pending)
    }

    constructor ()
      ensures Valid() && Contents() == []
    {
      pending, pendingBytes, checksum, written := [], 0, 0, [];
    }

    method Flush()
      requires Valid()
      modifies this
      ensures Valid() && Contents() == old(Contents()) && pending == [] && written == Contents()
    {
      if pendingBytes == 0 {
        assert Joined(pending) == [];
        pending := [];
        return;
      }
      var chunk := Joined(pending);
      CrcChain(written, chunk, 0);
      pending, pendingBytes := [], 0;
      checksum := Crc(chunk, checksum);
      written := written + chunk;
    }

    method Add(b: bytes)
      requires Valid()
      modifies this`pending, this`pendingBytes
      ensures Valid() && Contents() == old(Contents()) + b
    {
      assert (pending + [b])[..|pending|] == pending;
      Regroup(written, Joined(pending), b, []);
      pending := pending + [b];
      pendingBytes := pendingBytes + |b|;
    }

    /** One document; the writer flushes and pauses once enough is pending. */
    method AddEntry(e: Entry, threshold: nat)
      requires Valid()
      modifies this
      ensures Valid() && Contents() == old(Contents()) + EncodeEntry(e)
    {
      hide Be, Joined, Crc;
      Add(e.id + Be(|e.document|, 4));
      Add(e.document);
      Regroup(old(Contents()), e.id + Be(|e.document|, 4), e.document, []);
      assert e.id + Be(|e.document|, 4) + e.document == EncodeEntry(e);
      if pendingBytes >= threshold {
        Flush();
      }
    }

    method AddSaved(c: Saved, threshold: nat)
      requires Valid()
      modifies this
      ensures Valid() && Contents() == old(Contents()) + EncodeSaved(c)
    {
      hide Be, Joined, Crc, EncodeIndexSpec, EncodeEntry;
      Add(EncodeNames(c.ns));
      Add(Be(|c.indexes|, 2));
      ghost var base := Contents();
      for i := 0 to |c.indexes|
        invariant Valid() && Contents() + EncodeSpecs(c.indexes[i..]) == base + EncodeSpecs(c.indexes)
      {
        SpecsHead(c.indexes, i, Contents());
        Add(EncodeIndexSpec(c.indexes[i]));
      }
      assert EncodeSpecs(c.indexes[|c.indexes|..]) == [];
      assert Contents() == base + EncodeSpecs(c.indexes);
      Add(Be(|c.documents|, 4));
      ghost var middle := Contents();
      for i := 0 to |c.documents|
        invariant Valid() && Contents() + EncodeEntries(c.documents[i..]) == middle + EncodeEntries(c.documents)
      {
        EntriesHead(c.documents, i, Contents());
        AddEntry(c.documents[i], threshold);
      }
      assert EncodeEntries(c.documents[|c.documents|..]) == [];
      assert Contents() == middle + EncodeEntries(c.documents);
      SavedPrefix(old(Contents()), c);
    }
  }

  function Joined(parts: seq<bytes>): bytes {
    if parts == [] then [] else Joined(parts[..|parts| - 1]) + parts[|parts| - 1]
  }

  lemma SpecsHead(specs: seq<IndexSpec>, i: nat, before: bytes)
    requires i < |specs|
    ensures before + EncodeSpecs(specs[i..]) == before + EncodeIndexSpec(specs[i]) + EncodeSpecs(specs[i + 1..])
  {
    hide EncodeIndexSpec;
    assert specs[i..][0] == specs[i] && specs[i..][1..] == specs[i + 1..];
    Regroup(before, EncodeIndexSpec(specs[i]), EncodeSpecs(specs[i + 1..]), []);
  }

  lemma EntriesHead(es: seq<Entry>, i: nat, before: bytes)
    requires i < |es|
    ensures before + EncodeEntries(es[i..]) == before + EncodeEntry(es[i]) + EncodeEntries(es[i + 1..])
  {
    hide EncodeEntry;
    assert es[i..][0] == es[i] && es[i..][1..] == es[i + 1..];
    Regroup(before, EncodeEntry(es[i]), EncodeEntries(es[i + 1..]), []);
  }

  lemma SavedPrefix(before: bytes, c: Saved)
    ensures before + EncodeNames(c.ns) + Be(|c.indexes|, 2) + EncodeSpecs(c.indexes) + Be(|c.documents|, 4) + EncodeEntries(c.documents)
         == before + EncodeSaved(c)
  {
    hide EncodeNames, Be, EncodeSpecs, EncodeEntries;
    Flatten(before, EncodeNames(c.ns), Be(|c.indexes|, 2), EncodeSpecs(c.indexes), Be(|c.documents|, 4), EncodeEntries(c.documents));
  }

  lemma Flatten(p: bytes, a: bytes, b: bytes, c: bytes, d: bytes, e: bytes)
    ensures p + a + b + c + d + e == p + (a + (b + (c + (d + e))))
  {
    assert p + a + b + c + d + e == p + a + b + c + (d + e);
    assert p + a + b + c + (d + e) == p + a + b + (c + (d + e));
    assert p + a + b + (c + (d + e)) == p + a + (b + (c + (d + e)));
  }

  lemma AllHead(cs: seq<Saved>, i: nat, before: bytes)
    requires i < |cs|
    ensures before + EncodeAll(cs[i..]) == before + EncodeSaved(cs[i]) + EncodeAll(cs[i + 1..])
  {
    hide EncodeSaved;
    assert cs[i..][0] == cs[i] && cs[i..][1..] == cs[i + 1..];
    Regroup(before, EncodeSaved(cs[i]), EncodeAll(cs[i + 1..]), []);
  }

  /**
   * `writeCheckpointSteps`: whatever the threshold at which it flushes and pauses, the file is
   * the same, because the checksum of the chunks is the checksum of the whole.
   */
  method WriteSnapshot(lsn: nat, cs: seq<Saved>, threshold: nat) returns (file: bytes)
    ensures file == EncodeSnapshot(lsn, cs)
  {
    hide Header, Crc, EncodeSaved, Joined, U32;
    var writer := new SnapshotWriter();
    writer.Add(Header(lsn, |cs|));
    assert [] + Header(lsn, |cs|) == Header(lsn, |cs|);
    ghost var body := Header(lsn, |cs|) + EncodeAll(cs);
    assert cs[0..] == cs;
    for i := 0 to |cs|
      invariant writer.Valid() && writer.Contents() + EncodeAll(cs[i..]) == body
      invariant fresh(writer)
    {
      AllHead(cs, i, writer.Contents());
      writer.AddSaved(cs[i], threshold);
    }
    assert EncodeAll(cs[|cs|..]) == [];
    assert writer.Contents() == body;
    writer.Flush();
    return writer.written + (U32(writer.checksum) + END_MAGIC);
  }

  // ---------------------------------------------------------------- reading in loops

  /** What was read so far, in front of what the rest gives. */
  ghost function Preceded<T>(done: seq<T>, r: Read<seq<T>>): Read<seq<T>> {
    match r case Bad => Bad case Got(more, rest) => Got(done + more, rest)
  }

  lemma PrecededNone<T>(r: Read<seq<T>>)
    ensures Preceded([], r) == r
  {
    if r.Got? {
      assert [] + r.value == r.value;
    }
  }

  lemma PrecededOne<T>(done: seq<T>, x: T, r: Read<seq<T>>)
    ensures Preceded(done, Preceded([x], r)) == Preceded(done + [x], r)
  {
    if r.Got? {
      assert done + ([x] + r.value) == done + [x] + r.value;
    }
  }

  method LoadSpecs(b: bytes, n: nat) returns (r: Read<seq<IndexSpec>>)
    ensures r == ReadSpecs(b, n)
  {
    hide ReadIndexSpec;
    var specs: seq<IndexSpec>, rest := [], b;
    PrecededNone(ReadSpecs(b, n));
    for i := 0 to n
      invariant ReadSpecs(b, n) == Preceded(specs, ReadSpecs(rest, n - i))
    {
      var next := ReadIndexSpec(rest);
      if next.Bad? {
        return Bad;
      }
      PrecededOne(specs, next.value, ReadSpecs(next.rest, n - i - 1));
      specs, rest := specs + [next.value], next.rest;
    }
    assert specs + [] == specs;
    return Got(specs, rest);
  }

  method LoadDocuments(b: bytes) returns (r: Read<seq<Entry>>)
    ensures r == ReadDocuments(b)
  {
    hide SetDocument, Take, TakeNat, ReadEntries;
    var count := TakeNat(b, 4);
    if count.Bad? {
      return Bad;
    }
    var documents: seq<Entry>, rest := [], count.rest;
    for i := 0 to count.value
      invariant ReadEntries(count.rest, count.value, []) == ReadEntries(rest, count.value - i, documents)
    {
      NextEntry(rest, count.value - i, documents);
      var id := Take(rest, ID_BYTE_LENGTH);
      if id.Bad? {
        return Bad;
      }
      var length := TakeNat(id.rest, 4);
      if length.Bad? {
        return Bad;
      }
      var document := Take(length.rest, length.value);
      if document.Bad? {
        return Bad;
      }
      documents, rest := SetDocument(documents, id.value, document.value), document.rest;
    }
    NoEntries(rest, documents);
    return Got(documents, rest);
  }

  lemma NextEntry(b: bytes, n: nat, documents: seq<Entry>)
    requires n > 0
    ensures ReadEntries(b, n, documents) ==
      match Take(b, ID_BYTE_LENGTH)
      case Bad => Bad
      case Got(id, r1) =>
        match TakeNat(r1, 4)
        case Bad => Bad
        case Got(length, r2) =>
          match Take(r2, length)
          case Bad => Bad
          case Got(document, r3) => ReadEntries(r3, n - 1, SetDocument(documents, id, document))
  {
    hide SetDocument, Take, TakeNat;
  }

  method LoadSaved(b: bytes, version: nat) returns (r: Read<Saved>)
    ensures r == ReadSaved(b, version)
  {
    hide ReadNames, ReadSpecs, ReadDocuments, TakeNat;
    var ns := ReadNames(b);
    if ns.Bad? {
      return Bad;
    }
    var indexes: Read<seq<IndexSpec>> := Got([], ns.rest);
    if version >= 2 {
      var count := TakeNat(ns.rest, 2);
      if count.Bad? {
        return Bad;
      }
      indexes := LoadSpecs(count.rest, count.value);
    }
    if indexes.Bad? {
      return Bad;
    }
    var documents := LoadDocuments(indexes.rest);
    if documents.Bad? {
      return Bad;
    }
    return Got(Saved(ns.value, indexes.value, documents.value), documents.rest);
  }

  /** `readCheckpoint`, collection by collection. */
  method LoadCheckpoint(file: bytes) returns (r: Option<Checkpoint>)
    ensures r == ReadCheckpoint(file)
  {
    hide ReadSaved, Crc, OfBe, MAGIC, END_MAGIC;
    if |file| < HEADER_SIZE + FOOTER_SIZE {
      return None;
    }
    var footer := |file| - FOOTER_SIZE;
    if file[footer + 4..] != END_MAGIC || ReadU32(file[footer..footer + 4]) != Crc(file[..footer], 0) || file[..8] != MAGIC {
      return None;
    }
    var version := OfBe(file[8..12]);
    if version < OLDEST_READABLE_VERSION || version > CHECKPOINT_FORMAT_VERSION {
      return None;
    }
    var count, body := OfBe(file[20..24]), file[HEADER_SIZE..footer];
    var cs: seq<Saved>, rest := [], body;
    PrecededNone(ReadAllSaved(body, count, version));
    for i := 0 to count
      invariant ReadAllSaved(body, count, version) == Preceded(cs, ReadAllSaved(rest, count - i, version))
    {
      var next := LoadSaved(rest, version);
      if next.Bad? {
        return None;
      }
      PrecededOne(cs, next.value, ReadAllSaved(next.rest, count - i - 1, version));
      cs, rest := cs + [next.value], next.rest;
    }
    assert cs + [] == cs;
    return if rest == [] then Some(Checkpoint(OfBe(file[12..20]), cs)) else None;
  }

  // ---------------------------------------------------------------- snapshots and states

  /** The state `recover` starts from: each saved collection under its namespace. */
  function StateOf(cs: seq<Saved>): State {
    if cs == [] then map[] else StateOf(cs[..|cs| - 1])[cs[|cs| - 1].ns := Collection(cs[|cs| - 1].documents, cs[|cs| - 1].indexes)]
  }

  /** `cs` lists the collections of a state, in any order. */
  ghost predicate ListsState(cs: seq<Saved>, s: State) {
    && (forall i, j | 0 <= i < j < |cs| :: cs[i].ns != cs[j].ns)
    && (forall i | 0 <= i < |cs| :: cs[i].ns in s && s[cs[i].ns] == Collection(cs[i].documents, cs[i].indexes))
    && (forall ns | ns in s :: exists i | 0 <= i < |cs| :: cs[i].ns == ns)
  }

  lemma {:induction false} StateOfAt(cs: seq<Saved>, ns: Namespace)
    requires forall i, j | 0 <= i < j < |cs| :: cs[i].ns != cs[j].ns
    ensures ns in StateOf(cs) <==> exists i | 0 <= i < |cs| :: cs[i].ns == ns
    ensures forall i | 0 <= i < |cs| && cs[i].ns == ns :: StateOf(cs)[ns] == Collection(cs[i].documents, cs[i].indexes)
    decreases |cs|
  {
    if cs != [] {
      StateOfAt(cs[..|cs| - 1], ns);
    }
  }

  /** The order in which a snapshot lists its collections does not matter. */
  lemma StateOfListing(cs: seq<Saved>, s: State)
    requires ListsState(cs, s)
    ensures StateOf(cs) == s
  {
    forall ns: Namespace
      ensures ns in StateOf(cs) <==> ns in s
      ensures ns in s ==> StateOf(cs)[ns] == s[ns]
    {
      StateOfAt(cs, ns);
    }
  }
}
