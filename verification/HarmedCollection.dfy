/**
 * packages/storage/src/in-memory-collection.ts after an unreadable document has been stored
 * in a collection without indexes: what later calls can still do, and that none of them ever
 * gets rid of the document.
 */
module HarmedCollection {
  import opened Bytes
  import opened Text
  import opened Values
  import opened DocumentCodec
  import opened Filter
  import opened Operations
  import opened Replaying
  import opened Legibility
  import opened Planner
  import opened Index = FieldIndex
  import opened Indexes = IndexSet
  import Instructions = Update
  import opened Collection = InMemoryCollection

  /** A stored document that cannot be read, and no index. */
  ghost predicate Stuck(c: InMemoryCollection, e: Entry)
    reads c, c.indexes, c.indexes.indexes
  {
    c.Agreed() && c.indexes.indexes == [] && e in c.documents && !Readable(e.document)
  }

  // ---------------------------------------------------------------- finding a document

  datatype Located = LocateThrew | NotLocated | At(e: Entry)

  /** The scan of `locate`: it decodes one document after another up to the first match. */
  function Seek(entries: seq<Entry>, f: Value): Located {
    if entries == [] then NotLocated
    else if !Readable(entries[0].document) then LocateThrew
    else if Matches(f, DocOf(entries[0].document)) then At(entries[0])
    else Seek(entries[1..], f)
  }

  /** A filter with an `_id` decodes only the document under that id. */
  function SeekById(entries: seq<Entry>, f: Value, k: Key): Located {
    match Find(entries, k)
    case None => NotLocated
    case Some(encoded) =>
      if !Readable(encoded) then LocateThrew
      else if Matches(f, DocOf(encoded)) then At(Entry(k, encoded))
      else NotLocated
  }

  lemma {:induction false} SeekFinds(entries: seq<Entry>, f: Value)
    ensures Seek(entries, f).At? ==> Seek(entries, f).e in entries && Readable(Seek(entries, f).e.document)
  {
    hide Readable, Matches, DocOf;
    if entries != [] {
      SeekFinds(entries[1..], f);
    }
  }

  lemma SeekByIdFinds(entries: seq<Entry>, f: Value, k: Key)
    requires DistinctIds(entries)
    ensures SeekById(entries, f, k).At? ==> SeekById(entries, f, k).e in entries && Readable(SeekById(entries, f, k).e.document)
  {
    hide Readable, Matches, DocOf;
    FindIs(entries, k);
    if Find(entries, k).Some? {
      var i := PlaceOf(entries, k);
      assert entries[i] == Entry(k, Find(entries, k).value);
    }
  }

  method LocateHarmed(c: InMemoryCollection, f: Value) returns (r: Located)
    requires c.Agreed() && f.Doc?
    ensures r == if ID in f.fields && f.fields[ID].Id? then SeekById(c.documents, f, f.fields[ID].id) else Seek(c.documents, f)
    ensures r.At? ==> r.e in c.documents && Readable(r.e.document)
  {
    hide Readable, Matches, DocOf, IndexSet.Valid, DocsOf;
    if ID in f.fields && f.fields[ID].Id? {
      SeekByIdFinds(c.documents, f, f.fields[ID].id);
      return SeekById(c.documents, f, f.fields[ID].id);
    }
    SeekFinds(c.documents, f);
    assert c.documents[0..] == c.documents;
    for i := 0 to |c.documents|
      invariant Seek(c.documents, f) == Seek(c.documents[i..], f)
    {
      assert c.documents[i..][0] == c.documents[i] && c.documents[i..][1..] == c.documents[i + 1..];
      if !Readable(c.documents[i].document) {
        return LocateThrew;
      }
      if Matches(f, DocOf(c.documents[i].document)) {
        return At(c.documents[i]);
      }
    }
    return NotLocated;
  }

  /** The scan of every other call: it decodes all documents. */
  method DecodeAll(entries: seq<Entry>) returns (ok: bool)
    ensures ok <==> forall e | e in entries :: Readable(e.document)
  {
    hide Readable;
    for i := 0 to |entries|
      invariant forall j | 0 <= j < i :: Readable(entries[j].document)
    {
      if !Readable(entries[i].document) {
        assert entries[i] in entries;
        return false;
      }
    }
    return true;
  }

  // ---------------------------------------------------------------- changing it

  /** Changing another document leaves this one. */
  lemma EditKeeps(entries: seq<Entry>, edit: Edit, e: Entry)
    requires DistinctIds(entries) && e in entries && edit.key != e.id
    ensures e in Edited(entries, [edit])
  {
    hide SetDocument, DeleteDocument;
    OneEdit(entries, edit);
    if edit.PutOne? {
      PutPlaces(entries, edit.key, edit.encoded);
    } else {
      DeletePlaces(entries, edit.key);
    }
  }

  lemma OtherId(entries: seq<Entry>, a: Entry, b: Entry)
    requires DistinctIds(entries) && a in entries && b in entries && Readable(a.document) && !Readable(b.document)
    ensures a.id != b.id
  {
    hide Readable;
    var i :| 0 <= i < |entries| && entries[i] == a;
    var j :| 0 <= j < |entries| && entries[j] == b;
    assert i < j || j < i;
  }

  /** One journaled change to a readable document. */
  method Change(c: InMemoryCollection, located: Entry, edit: Edit, journalOk: bool, ghost e: Entry) returns (ok: bool)
    requires Stuck(c, e) && located in c.documents && Readable(located.document) && edit.key == located.id
    modifies c, c.indexes`docs, c.indexes.indexes
    ensures Stuck(c, e) && c.documents == if ok then Edited(old(c.documents), [edit]) else old(c.documents)
    ensures ok <==> journalOk
  {
    hide Readable, DocsOf, Edited, UniqueFor, DocOf;
    OtherId(c.documents, located, e);
    EditKeeps(c.documents, edit, e);
    ok := c.CommitEdits([edit], journalOk);
  }

  // ---------------------------------------------------------------- runs

  /** Calls that decode every document or need an index, and so can only fail. */
  predicate Hopeless(call: Call) {
    match call
    case InsertCall(_, _) => false
    case DeleteCall(_, many) => many
    case UpdateCall(_, _, many) => many
    case ReplaceCall(_, _) => false
    case CreateIndexCall(_) => true
    case DropIndexCall(_) => true
  }

  method DeleteHarmed(c: InMemoryCollection, f: Value, many: bool, journalOk: bool, ghost e: Entry) returns (ok: bool)
    requires Stuck(c, e)
    modifies c, c.indexes`docs, c.indexes.indexes
    ensures Stuck(c, e) && (many || !ok ==> c.documents == old(c.documents)) && (many ==> !ok)
  {
    hide Readable, Matches, DocOf, DocsOf, InMemoryCollection.Agreed, Edited, ValidPath, ValidOperators, Seek, SeekById;
    if !ValidFilter(f) {
      return false;
    }
    if many {
      ok := DecodeAll(c.documents);
      return;
    }
    var located := LocateHarmed(c, f);
    if !located.At? {
      return located.NotLocated?;
    }
    ok := Change(c, located.e, DeleteOne(located.e.id), journalOk, e);
  }

  method UpdateHarmed(c: InMemoryCollection, f: Value, list: seq<Instructions.Instruction>, many: bool, journalOk: bool, ghost e: Entry)
    returns (ok: bool)
    requires Stuck(c, e) && Instructions.Accepted(list)
    modifies c, c.indexes`docs, c.indexes.indexes
    ensures Stuck(c, e) && (many || !ok ==> c.documents == old(c.documents)) && (many ==> !ok)
  {
    hide Readable, Matches, DocOf, DocsOf, InMemoryCollection.Agreed, Edited, ValidPath, ValidOperators, Seek, SeekById,
         Compiled, Instructions.Overlap;
    if !ValidFilter(f) {
      return false;
    }
    if many {
      // Whatever else could stop it, it does not get past a document it cannot decode.
      ok := DecodeAll(c.documents);
      return;
    }
    var located := LocateHarmed(c, f);
    if !located.At? {
      return located.NotLocated?;
    }
    var encoded := Rewrite(located.e.document, list);
    if encoded.None? {
      return false;
    }
    if encoded.value == located.e.document {
      return true;
    }
    if !Readable(encoded.value) {
      return false;
    }
    ok := Change(c, located.e, PutOne(located.e.id, encoded.value), journalOk, e);
  }

  method ReplaceHarmed(c: InMemoryCollection, f: Value, replacement: Document, journalOk: bool, ghost e: Entry) returns (ok: bool)
    requires Stuck(c, e)
    modifies c, c.indexes`docs, c.indexes.indexes
    ensures Stuck(c, e) && (!ok ==> c.documents == old(c.documents))
  {
    hide Readable, Matches, DocOf, DocsOf, InMemoryCollection.Agreed, Edited, ValidPath, ValidOperators, Seek, SeekById,
         KeysStayDistinct, Replaces, Encode;
    if !ValidFilter(f) || !NoOperators(replacement) {
      return false;
    }
    var located := LocateHarmed(c, f);
    if !located.At? {
      return located.NotLocated?;
    }
    var encoded := EncodeReplacement(located.e, replacement);
    if encoded.None? {
      return false;
    }
    if encoded.value == located.e.document {
      return true;
    }
    if !Readable(encoded.value) {
      return false;
    }
    ok := Change(c, located.e, PutOne(located.e.id, encoded.value), journalOk, e);
  }

  method InsertHarmed(c: InMemoryCollection, docs: seq<Document>, generated: nat -> Key, journalOk: bool, ghost e: Entry)
    returns (ok: bool)
    requires Stuck(c, e)
    modifies c, c.indexes`docs, c.indexes.indexes
    ensures Stuck(c, e) && old(c.documents) <= c.documents
  {
    hide Readable, DocOf, DocsOf, Carries, CanInsert, WithId, KeysStayDistinct, Has, IndexSet.AllUnique, InMemoryCollection.Acceptable,
         InMemoryCollection.Agreed;
    var accepted, threw, batch;
    ok, accepted, threw, batch := c.InsertDocuments(docs, generated, journalOk);
    assert e in c.documents;
  }

  /** Performs one call on a harmed collection. */
  method PerformHarmed(c: InMemoryCollection, call: Call, journalOk: bool, ghost e: Entry) returns (ok: bool)
    requires Stuck(c, e) && Admissible(call)
    modifies c, c.indexes`docs, c.indexes.indexes
    ensures Stuck(c, e) && (Hopeless(call) ==> !ok && c.documents == old(c.documents))
  {
    hide Stuck, Instructions.Overlap, Readable;
    match call {
      case InsertCall(docs, generated) =>
        ok := InsertHarmed(c, docs, generated, journalOk, e);
      case DeleteCall(f, many) =>
        ok := DeleteHarmed(c, f, many, journalOk, e);
      case UpdateCall(f, list, many) =>
        ok := UpdateHarmed(c, f, list, many, journalOk, e);
      case ReplaceCall(f, replacement) =>
        ok := ReplaceHarmed(c, f, replacement, journalOk, e);
      case CreateIndexCall(_) =>
        ok := DecodeAll(c.documents);
        StuckFails(c, e);
      case DropIndexCall(name) =>
        ok := NamedIndex(c, name);
        NoIndex(c, e);
    }
  }

  lemma StuckFails(c: InMemoryCollection, e: Entry)
    requires Stuck(c, e)
    ensures e in c.documents && !Readable(e.document)
  {}

  lemma NoIndex(c: InMemoryCollection, e: Entry)
    requires Stuck(c, e)
    ensures c.indexes.indexes == []
  {}

  method NamedIndex(c: InMemoryCollection, name: text) returns (found: bool)
    ensures found <==> exists i | 0 <= i < |c.indexes.indexes| :: c.indexes.indexes[i].spec.name == name
  {
    var i := c.indexes.Find(name);
    return i < |c.indexes.indexes|;
  }

  /**
   * Whatever is called afterwards, in whatever order and with whatever journal: indexes and
   * documents stay in agreement, the unreadable document stays stored, and every call that
   * has to read all documents or build an index fails and changes nothing.
   */
  method RunHarmed(c: InMemoryCollection, calls: seq<Call>, journal: nat -> bool, ghost e: Entry) returns (done: seq<bool>)
    requires Stuck(c, e) && forall i | 0 <= i < |calls| :: Admissible(calls[i])
    modifies c, c.indexes, c.indexes.indexes
    ensures Stuck(c, e)
    ensures |done| == |calls| && forall i | 0 <= i < |calls| && Hopeless(calls[i]) :: !done[i]
  {
    hide Stuck, Admissible;
    done := [];
    for i := 0 to |calls|
      invariant Stuck(c, e) && c.indexes.indexes == old(c.indexes.indexes)
      invariant |done| == i && forall j | 0 <= j < i && Hopeless(calls[j]) :: !done[j]
    {
      var ok := PerformHarmed(c, calls[i], journal(i), e);
      done := done + [ok];
    }
  }

  lemma HarmedIsStuck(c: InMemoryCollection, o: Outcome) returns (e: Entry)
    requires c.Agreed() && c.indexes.indexes == [] && Harmed(c.documents, o) && !Stranded(o)
    ensures Stuck(c, e)
  {
    hide Readable, InMemoryCollection.Agreed;
    var i :| 0 <= i < |c.documents| && !Readable(c.documents[i].document);
    e := c.documents[i];
  }

  /**
   * Runs that go on: where a call has stored an unreadable document without an index, the
   * remaining calls are made as well. The collection ends valid, or in agreement with a
   * document that stays unreadable for good; only a call that leaves documents tracked that
   * are not stored, in an indexed collection, ends the run.
   */
  method RunOn(calls: seq<Call>, journal: nat -> bool, prefer: (Plan, Plan) -> bool)
    returns (c: InMemoryCollection, done: seq<Outcome>, rest: seq<bool>, ghost stuck: Option<Entry>)
    requires forall i | 0 <= i < |calls| :: Admissible(calls[i])
    ensures done == [] || !Stranded(done[|done| - 1]) ==> c.Agreed()
    ensures c.Valid() ==> |done| == |calls|
    ensures !c.Valid() ==> done != []
    ensures !c.Valid() && c.indexes.indexes == [] && !Stranded(done[|done| - 1]) ==>
      && |done| + |rest| == |calls| && stuck.Some? && Stuck(c, stuck.value)
      && forall i | 0 <= i < |rest| && Hopeless(calls[|done| + i]) :: !rest[i]
  {
    hide InMemoryCollection.Valid, InMemoryCollection.Agreed, Admissible, Harms, Harmed, Stuck;
    var issues;
    ghost var stored;
    c, done, issues, stored := Run(calls, journal, prefer);
    rest, stuck := [], None;
    if |done| == 0 || Stranded(done[|done| - 1]) || c.indexes.indexes != [] || !Harmed(c.documents, done[|done| - 1]) {
      return;
    }
    ghost var e := HarmedIsStuck(c, done[|done| - 1]);
    stuck := Some(e);
    var n := |done|;
    rest := RunHarmed(c, calls[n..], (i: nat) => journal(n + i), e);
    StuckParts(c, e);
  }

  lemma StuckParts(c: InMemoryCollection, e: Entry)
    requires Stuck(c, e)
    ensures c.Agreed() && !c.Valid()
  {
    hide InMemoryCollection.Agreed, Readable;
    if Sound(c.documents) {
      SoundReads(c.documents, e);
    }
  }

  lemma SoundReads(entries: seq<Entry>, e: Entry)
    requires Sound(entries) && e in entries
    ensures Readable(e.document)
  {
    hide Readable;
    var i :| 0 <= i < |entries| && entries[i] == e;
    assert Proper(entries[i]);
  }
}
