/**
 * packages/storage/src/in-memory-collection.ts: documents in insertion order, their indexes,
 * and the sequence numbers that put index results back in that order.
 */
module InMemoryCollection {
  import opened Bytes
  import opened Text
  import opened Values
  import opened DocumentCodec
  import opened Filter
  import opened Operations
  import opened Replaying
  import opened Index = FieldIndex
  import opened Indexes = IndexSet
  import opened Planner
  import opened Legibility
  import opened DocumentWriter
  import Instructions = Update
  import opened Effects = UpdateEffects
  import Sorting = Sort

  // ---------------------------------------------------------------- stored documents

  predicate Readable(encoded: bytes) {
    Decode(encoded).Some? && Decode(encoded).value.Doc?
  }

  /** The document stored as these bytes. */
  function DocOf(encoded: bytes): Document {
    if Readable(encoded) then Decode(encoded).value.fields else map[]
  }

  function Listing(entries: seq<Entry>): (list: seq<Listed>)
    ensures |list| == |entries|
    ensures forall i | 0 <= i < |entries| :: list[i] == Listed(entries[i].id, DocOf(entries[i].document))
  {
    seq(|entries|, i requires 0 <= i < |entries| => Listed(entries[i].id, DocOf(entries[i].document)))
  }

  ghost predicate DistinctIds(entries: seq<Entry>) {
    forall i, j | 0 <= i < j < |entries| :: entries[i].id != entries[j].id
  }

  ghost function DocsOf(entries: seq<Entry>): Documents {
    Table(Listing(entries))
  }

  lemma DocsAt(entries: seq<Entry>, k: Key)
    requires DistinctIds(entries)
    ensures k in DocsOf(entries) <==> exists i | 0 <= i < |entries| :: entries[i].id == k
    ensures forall i | 0 <= i < |entries| && entries[i].id == k :: k in DocsOf(entries) && DocsOf(entries)[k] == DocOf(entries[i].document)
  {
    hide DocOf;
    var list := Listing(entries);
    TableAt(list, k);
    forall i | 0 <= i < |entries| && entries[i].id == k ensures list[i].key == k {}
    if k in DocsOf(entries) {
      var i :| 0 <= i < |list| && list[i].key == k;
      assert entries[i].id == k;
    }
  }

  /** Everything stored is readable and stored under its own id. */
  ghost predicate Sound(entries: seq<Entry>) {
    && DistinctIds(entries)
    && forall i | 0 <= i < |entries| :: Proper(entries[i])
  }

  ghost predicate Proper(e: Entry) {
    && Readable(e.document)
    && ID in DocOf(e.document) && DocOf(e.document)[ID] == Id(e.id)
  }

  /** What an insert or update hands over: the encoding of a document that carries its id. */
  ghost predicate Prepared(e: Entry) {
    exists d: Document :: Carries(e, d)
  }

  ghost predicate Carries(e: Entry, d: Document) {
    Encodable(Doc(d)) && ID in d && d[ID] == Id(e.id) && e.document == Encode(Doc(d))
  }

  /** It can be read back, and then under its id, exactly when no two of its keys collide. */
  lemma CarriedIsReadable(e: Entry, d: Document)
    requires Carries(e, d)
    ensures Readable(e.document) <==> KeysStayDistinct(Doc(d))
    ensures Readable(e.document) <==> Proper(e)
  {
    hide Encode, Decode, KeysStayDistinct, DocumentCodec.Fits, TextOk, DecodeText;
    ReadableExactly(Doc(d));
    FitsField(Doc(d), 0, ID);
    IdKeyIsPlain();
    if Decode(Encode(Doc(d))).Some? {
      IdIsPlain(e.id);
      FieldsSurvive(d);
      assert TextOk(d[ID], DecodeText);
    }
  }

  lemma IdKeyIsPlain()
    ensures UTF8(ID) ==> DecodeText(ID) == Some(ID)
  {
    assert ID[0] != BOM[0];
  }

  lemma IdIsPlain(id: bytes)
    ensures TextOk(Id(id), DecodeText)
  {}

  lemma PreparedIsReadable(e: Entry)
    requires Prepared(e)
    ensures Readable(e.document) <==> Proper(e)
  {
    hide Carries, Proper, Readable;
    var d :| Carries(e, d);
    CarriedIsReadable(e, d);
  }

  lemma SoundIsIdentified(entries: seq<Entry>)
    requires Sound(entries)
    ensures Identified(DocsOf(entries))
  {
    hide DocOf, Readable;
    forall k | k in DocsOf(entries) ensures ID in DocsOf(entries)[k] && DocsOf(entries)[k][ID] == Id(k) {
      DocsAt(entries, k);
      var i :| 0 <= i < |entries| && entries[i].id == k;
      assert Proper(entries[i]);
    }
  }

  // ---------------------------------------------------------------- order

  /** The entries with these keys, in insertion order. */
  function Chosen(entries: seq<Entry>, keys: set<Key>): (r: seq<Entry>)
    ensures forall e | e in r :: e in entries && e.id in keys
  {
    if entries == [] then [] else (if entries[0].id in keys then [entries[0]] else []) + Chosen(entries[1..], keys)
  }

  /** The entries that match, in insertion order: what a query means. */
  function Matching(entries: seq<Entry>, f: Value): (r: seq<Entry>)
    ensures forall e | e in r :: e in entries && Matches(f, DocOf(e.document))
  {
    if entries == [] then []
    else (if Matches(f, DocOf(entries[0].document)) then [entries[0]] else []) + Matching(entries[1..], f)
  }

  lemma {:induction false} ChosenMatching(entries: seq<Entry>, keys: set<Key>, f: Value)
    requires forall i | 0 <= i < |entries| && Matches(f, DocOf(entries[i].document)) :: entries[i].id in keys
    ensures Matching(Chosen(entries, keys), f) == Matching(entries, f)
  {
    hide Matches, DocOf;
    if entries != [] {
      var first, rest := entries[0], entries[1..];
      ChosenMatching(rest, keys, f);
      assert entries == [first] + rest;
      MatchingCons(first, rest, f);
      if first.id in keys {
        MatchingCons(first, Chosen(rest, keys), f);
      } else {
        assert Chosen(entries, keys) == Chosen(rest, keys);
      }
    }
  }

  lemma MatchingCons(e: Entry, rest: seq<Entry>, f: Value)
    ensures Matching([e] + rest, f) == if Matches(f, DocOf(e.document)) then [e] + Matching(rest, f) else Matching(rest, f)
  {
    hide Matches, DocOf;
    assert ([e] + rest)[1..] == rest;
  }

  /** Sequence numbers rise along the entries. */
  ghost predicate Rising(entries: seq<Entry>, sequence: map<Key, nat>) {
    && (forall i | 0 <= i < |entries| :: entries[i].id in sequence)
    && (forall i, j | 0 <= i < j < |entries| :: sequence[entries[i].id] < sequence[entries[j].id])
  }

  ghost predicate Earliest(keys: set<Key>, sequence: map<Key, nat>, k: Key)
    requires forall j | j in keys :: j in sequence
  {
    k in keys && forall j | j in keys :: sequence[k] <= sequence[j]
  }

  lemma {:induction false} EarliestExists(keys: set<Key>, sequence: map<Key, nat>)
    requires keys != {} && forall j | j in keys :: j in sequence
    ensures exists k :: Earliest(keys, sequence, k)
    decreases |keys|
  {
    var x :| x in keys;
    if keys == {x} {
      assert Earliest(keys, sequence, x);
    } else {
      var rest := keys - {x};
      EarliestExists(rest, sequence);
      var y :| Earliest(rest, sequence, y);
      assert Earliest(keys, sequence, if sequence[x] <= sequence[y] then x else y);
    }
  }

  /** The key with the lowest number comes first in insertion order. */
  lemma {:induction false} ChosenEarliest(entries: seq<Entry>, keys: set<Key>, sequence: map<Key, nat>, i: nat)
    requires Rising(entries, sequence) && i < |entries|
    requires forall j | j in keys :: j in sequence && sequence[entries[i].id] <= sequence[j]
    requires entries[i].id in keys
    ensures Chosen(entries, keys) == [entries[i]] + Chosen(entries, keys - {entries[i].id})
    decreases |entries|
  {
    var k, rest := entries[i].id, entries[1..];
    if i == 0 {
      NotChosen(rest, keys, k);
      assert Chosen(entries, keys - {k}) == Chosen(rest, keys - {k});
    } else {
      assert sequence[entries[0].id] < sequence[k];
      ChosenEarliest(rest, keys, sequence, i - 1);
      assert Chosen(entries, keys) == Chosen(rest, keys);
      assert Chosen(entries, keys - {k}) == Chosen(rest, keys - {k});
    }
  }

  lemma {:induction false} NotChosen(entries: seq<Entry>, keys: set<Key>, k: Key)
    requires forall i | 0 <= i < |entries| :: entries[i].id != k
    ensures Chosen(entries, keys) == Chosen(entries, keys - {k})
  {
    if entries != [] {
      NotChosen(entries[1..], keys, k);
    }
  }

  /** Sorting keys by their numbers gives insertion order. */
  method SortBySequence(entries: seq<Entry>, keys: set<Key>, sequence: map<Key, nat>) returns (sorted: seq<Entry>)
    requires Rising(entries, sequence) && forall k | k in keys :: exists i | 0 <= i < |entries| :: entries[i].id == k
    requires forall k | k in keys :: k in sequence
    ensures sorted == Chosen(entries, keys)
  {
    hide Chosen, Rising;
    sorted := [];
    var remaining := keys;
    while remaining != {}
      invariant remaining <= keys
      invariant Chosen(entries, keys) == sorted + Chosen(entries, remaining)
      decreases |remaining|
    {
      EarliestExists(remaining, sequence);
      var k :| k in remaining && forall j | j in remaining :: sequence[k] <= sequence[j];
      var i :| 0 <= i < |entries| && entries[i].id == k;
      ChosenEarliest(entries, remaining, sequence, i);
      sorted := sorted + [entries[i]];
      remaining := remaining - {k};
    }
    NothingChosen(entries);
  }

  lemma {:induction false} NothingChosen(entries: seq<Entry>)
    ensures Chosen(entries, {}) == []
  {
    if entries != [] {
      NothingChosen(entries[1..]);
    }
  }

  // ---------------------------------------------------------------- edits

  /** One change to the stored documents, as it is journaled. */
  datatype Edit = PutOne(key: Key, encoded: bytes) | DeleteOne(key: Key)

  function EditOne(entries: seq<Entry>, e: Edit): seq<Entry> {
    match e
    case PutOne(k, encoded) => SetDocument(entries, k, encoded)
    case DeleteOne(k) => DeleteDocument(entries, k)
  }

  function Edited(entries: seq<Entry>, edits: seq<Edit>): seq<Entry>
    decreases |edits|
  {
    if edits == [] then entries else EditOne(Edited(entries, edits[..|edits| - 1]), edits[|edits| - 1])
  }

  function Operation(ns: Namespace, e: Edit): Operation {
    match e
    case PutOne(k, encoded) => Put(ns, k, encoded)
    case DeleteOne(k) => Delete(ns, k)
  }

  function OperationsOf(ns: Namespace, edits: seq<Edit>): (ops: seq<Operation>)
    ensures |ops| == |edits| && forall i | 0 <= i < |edits| :: ops[i] == Operation(ns, edits[i])
  {
    seq(|edits|, i requires 0 <= i < |edits| => Operation(ns, edits[i]))
  }

  lemma {:induction false} ApplySnoc(s: State, ops: seq<Operation>, op: Operation)
    ensures ApplyAll(s, ops + [op]) == match ApplyAll(s, ops) case None => None case Some(t) => Apply(t, op)
    decreases |ops|
  {
    hide Apply;
    if ops == [] {
      assert ops + [op] == [op] && [op][1..] == [];
      assert Apply(s, op).Some? ==> ApplyAll(Apply(s, op).value, [op][1..]) == Apply(s, op);
    } else {
      assert (ops + [op])[1..] == ops[1..] + [op] && (ops + [op])[0] == ops[0];
      if Apply(s, ops[0]).Some? {
        ApplySnoc(Apply(s, ops[0]).value, ops[1..], op);
      }
    }
  }

  /** Replaying what was journaled does to a recovered collection what the edits did to the live one. */
  lemma {:induction false} EditsReplay(s: State, ns: Namespace, edits: seq<Edit>)
    requires ns in s
    ensures ApplyAll(s, OperationsOf(ns, edits)) == Some(s[ns := s[ns].(documents := Edited(s[ns].documents, edits))])
    decreases |edits|
  {
    if edits == [] {
      assert s[ns := s[ns].(documents := s[ns].documents)] == s;
    } else {
      var n := |edits| - 1;
      EditsReplay(s, ns, edits[..n]);
      assert OperationsOf(ns, edits) == OperationsOf(ns, edits[..n]) + [Operation(ns, edits[n])];
      ApplySnoc(s, OperationsOf(ns, edits[..n]), Operation(ns, edits[n]));
      var mid := s[ns := s[ns].(documents := Edited(s[ns].documents, edits[..n]))];
      EditReplays(mid, ns, edits[n]);
      assert mid[ns := mid[ns].(documents := EditOne(mid[ns].documents, edits[n]))]
          == s[ns := s[ns].(documents := Edited(s[ns].documents, edits))];
    }
  }

  lemma EditReplays(s: State, ns: Namespace, e: Edit)
    requires ns in s
    ensures Apply(s, Operation(ns, e)) == Some(s[ns := s[ns].(documents := EditOne(s[ns].documents, e))])
  {}

  lemma {:induction false} SetAt(entries: seq<Entry>, i: nat, d: bytes)
    requires i < |entries| && forall j | 0 <= j < i :: entries[j].id != entries[i].id
    ensures SetDocument(entries, entries[i].id, d) == entries[i := Entry(entries[i].id, d)]
  {
    var k := entries[i].id;
    if i == 0 {
      assert [Entry(k, d)] + entries[1..] == entries[0 := Entry(k, d)];
    } else {
      SetAt(entries[1..], i - 1, d);
      assert [entries[0]] + entries[1..][i - 1 := Entry(k, d)] == entries[i := Entry(k, d)];
    }
  }

  lemma {:induction false} SetNew(entries: seq<Entry>, k: Key, d: bytes)
    requires forall j | 0 <= j < |entries| :: entries[j].id != k
    ensures SetDocument(entries, k, d) == entries + [Entry(k, d)]
  {
    if entries != [] {
      SetNew(entries[1..], k, d);
      assert [entries[0]] + (entries[1..] + [Entry(k, d)]) == entries + [Entry(k, d)];
    }
  }

  lemma SetShape(entries: seq<Entry>, k: Key, d: bytes)
    requires DistinctIds(entries)
    ensures (forall i | 0 <= i < |entries| :: entries[i].id != k) ==> SetDocument(entries, k, d) == entries + [Entry(k, d)]
    ensures forall i | 0 <= i < |entries| && entries[i].id == k :: SetDocument(entries, k, d) == entries[i := Entry(k, d)]
  {
    hide SetDocument;
    if forall i | 0 <= i < |entries| :: entries[i].id != k {
      SetNew(entries, k, d);
    }
    forall i | 0 <= i < |entries| && entries[i].id == k ensures SetDocument(entries, k, d) == entries[i := Entry(k, d)] {
      SetAt(entries, i, d);
    }
  }

  lemma {:induction false} DeleteAt(entries: seq<Entry>, i: nat)
    requires i < |entries| && forall j | 0 <= j < i :: entries[j].id != entries[i].id
    ensures DeleteDocument(entries, entries[i].id) == entries[..i] + entries[i + 1..]
  {
    if i == 0 {
      assert entries[..0] + entries[1..] == entries[1..];
    } else {
      DeleteAt(entries[1..], i - 1);
      assert entries[1..][..i - 1] == entries[1..i] && entries[1..][i..] == entries[i + 1..];
      assert [entries[0]] + entries[1..i] == entries[..i];
    }
  }

  lemma {:induction false} DeleteNone(entries: seq<Entry>, k: Key)
    requires forall j | 0 <= j < |entries| :: entries[j].id != k
    ensures DeleteDocument(entries, k) == entries
  {
    if entries != [] {
      DeleteNone(entries[1..], k);
    }
  }

  lemma DeleteShape(entries: seq<Entry>, k: Key)
    requires DistinctIds(entries)
    ensures (forall i | 0 <= i < |entries| :: entries[i].id != k) ==> DeleteDocument(entries, k) == entries
    ensures forall i | 0 <= i < |entries| && entries[i].id == k :: DeleteDocument(entries, k) == entries[..i] + entries[i + 1..]
  {
    hide DeleteDocument;
    if forall i | 0 <= i < |entries| :: entries[i].id != k {
      DeleteNone(entries, k);
    }
    forall i | 0 <= i < |entries| && entries[i].id == k ensures DeleteDocument(entries, k) == entries[..i] + entries[i + 1..] {
      DeleteAt(entries, i);
    }
  }

  /** One edit and the documents: ids stay distinct and only this key changes. */
  lemma EditDocs(entries: seq<Entry>, e: Edit)
    requires DistinctIds(entries)
    ensures DistinctIds(EditOne(entries, e))
    ensures DocsOf(EditOne(entries, e))
         == if e.PutOne? then DocsOf(entries)[e.key := DocOf(e.encoded)] else DocsOf(entries) - {e.key}
  {
    hide DocOf, DocsOf, SetDocument, DeleteDocument;
    var after := EditOne(entries, e);
    EditIds(entries, e);
    var expected := if e.PutOne? then DocsOf(entries)[e.key := DocOf(e.encoded)] else DocsOf(entries) - {e.key};
    forall k: Key
      ensures k in DocsOf(after) <==> k in expected
      ensures k in expected ==> DocsOf(after)[k] == expected[k]
    {
      EditAt(entries, e, k);
    }
  }

  lemma EditIds(entries: seq<Entry>, e: Edit)
    requires DistinctIds(entries)
    ensures DistinctIds(EditOne(entries, e))
  {
    hide SetDocument, DeleteDocument;
    if e.PutOne? {
      SetShape(entries, e.key, e.encoded);
    } else {
      DeleteShape(entries, e.key);
    }
  }

  lemma EditAt(entries: seq<Entry>, e: Edit, k: Key)
    requires DistinctIds(entries) && DistinctIds(EditOne(entries, e))
    ensures k == e.key && e.PutOne? ==> k in DocsOf(EditOne(entries, e)) && DocsOf(EditOne(entries, e))[k] == DocOf(e.encoded)
    ensures k == e.key && e.DeleteOne? ==> k !in DocsOf(EditOne(entries, e))
    ensures k != e.key ==> (k in DocsOf(EditOne(entries, e)) <==> k in DocsOf(entries))
    ensures k != e.key && k in DocsOf(entries) && k in DocsOf(EditOne(entries, e)) ==>
      DocsOf(EditOne(entries, e))[k] == DocsOf(entries)[k]
  {
    hide DocOf, DocsOf, SetDocument, DeleteDocument;
    var after := EditOne(entries, e);
    DocsAt(entries, k);
    DocsAt(after, k);
    if e.PutOne? {
      PutPlaces(entries, e.key, e.encoded);
    } else {
      DeletePlaces(entries, e.key);
    }
    if k != e.key && k in DocsOf(entries) {
      var i :| 0 <= i < |entries| && entries[i].id == k;
      assert entries[i] in after;
    }
    if k != e.key && k in DocsOf(after) {
      var i :| 0 <= i < |after| && after[i].id == k;
      assert after[i] in entries;
    }
  }

  lemma PutPlaces(entries: seq<Entry>, k: Key, d: bytes)
    requires DistinctIds(entries)
    ensures Entry(k, d) in SetDocument(entries, k, d)
    ensures forall e | e in entries && e.id != k :: e in SetDocument(entries, k, d)
    ensures forall e | e in SetDocument(entries, k, d) && e.id != k :: e in entries
  {
    hide SetDocument;
    SetShape(entries, k, d);
    var after := SetDocument(entries, k, d);
    if i :| 0 <= i < |entries| && entries[i].id == k {
      assert after[i] == Entry(k, d);
      forall e | e in entries && e.id != k ensures e in after {
        var j :| 0 <= j < |entries| && entries[j] == e;
        assert after[j] == e;
      }
    }
  }

  lemma DeletePlaces(entries: seq<Entry>, k: Key)
    requires DistinctIds(entries)
    ensures forall e | e in DeleteDocument(entries, k) :: e in entries && e.id != k
    ensures forall e | e in entries && e.id != k :: e in DeleteDocument(entries, k)
  {
    hide DeleteDocument;
    DeleteShape(entries, k);
    if i :| 0 <= i < |entries| && entries[i].id == k {
      CutPlaces(entries, i);
    }
  }

  lemma CutPlaces(entries: seq<Entry>, i: nat)
    requires DistinctIds(entries) && i < |entries|
    ensures forall e | e in entries[..i] + entries[i + 1..] :: e in entries && e.id != entries[i].id
    ensures forall e | e in entries && e.id != entries[i].id :: e in entries[..i] + entries[i + 1..]
  {
    var after := entries[..i] + entries[i + 1..];
    assert forall j | 0 <= j < |after| :: after[j] == entries[if j < i then j else j + 1];
    forall e | e in entries && e.id != entries[i].id ensures e in after {
      var j :| 0 <= j < |entries| && entries[j] == e;
      assert after[if j < i then j else j - 1] == e;
    }
  }

  // ---------------------------------------------------------------- edits and index changes

  ghost predicate DistinctEdits(edits: seq<Edit>) {
    forall i, j | 0 <= i < j < |edits| :: edits[i].key != edits[j].key
  }

  ghost function ChangeFor(docs: Documents, e: Edit): Change {
    Change(e.key, if e.key in docs then Some(docs[e.key]) else None, if e.PutOne? then Some(DocOf(e.encoded)) else None)
  }

  ghost function ChangesFor(docs: Documents, edits: seq<Edit>): (cs: seq<Change>)
    ensures |cs| == |edits| && forall i | 0 <= i < |edits| :: cs[i] == ChangeFor(docs, edits[i])
  {
    seq(|edits|, i requires 0 <= i < |edits| => ChangeFor(docs, edits[i]))
  }

  lemma ChangesFit(docs: Documents, edits: seq<Edit>)
    requires DistinctEdits(edits)
    ensures Fitting(docs, ChangesFor(docs, edits))
  {
    hide DocOf;
  }

  lemma {:induction false} EditedIds(entries: seq<Entry>, edits: seq<Edit>)
    requires DistinctIds(entries)
    ensures DistinctIds(Edited(entries, edits))
    decreases |edits|
  {
    hide EditOne;
    if edits != [] {
      EditedIds(entries, edits[..|edits| - 1]);
      EditIds(Edited(entries, edits[..|edits| - 1]), edits[|edits| - 1]);
    }
  }

  ghost predicate Touches(edits: seq<Edit>, k: Key) {
    exists i | 0 <= i < |edits| :: edits[i].key == k
  }

  lemma {:induction false} EditedUntouched(entries: seq<Entry>, edits: seq<Edit>, k: Key)
    requires DistinctIds(entries) && !Touches(edits, k)
    ensures k in DocsOf(Edited(entries, edits)) <==> k in DocsOf(entries)
    ensures k in DocsOf(entries) ==> DocsOf(Edited(entries, edits))[k] == DocsOf(entries)[k]
    decreases |edits|
  {
    hide DocOf, DocsOf, EditOne;
    if edits != [] {
      var n := |edits| - 1;
      assert !Touches(edits[..n], k) && edits[n].key != k;
      EditedUntouched(entries, edits[..n], k);
      EditedIds(entries, edits[..n]);
      EditDocs(Edited(entries, edits[..n]), edits[n]);
    }
  }

  lemma {:induction false} EditedTouched(entries: seq<Entry>, edits: seq<Edit>, i: nat)
    requires DistinctIds(entries) && DistinctEdits(edits) && i < |edits|
    ensures edits[i].PutOne? ==>
      edits[i].key in DocsOf(Edited(entries, edits)) && DocsOf(Edited(entries, edits))[edits[i].key] == DocOf(edits[i].encoded)
    ensures edits[i].DeleteOne? ==> edits[i].key !in DocsOf(Edited(entries, edits))
    decreases |edits|
  {
    hide DocOf, DocsOf, EditOne;
    var n := |edits| - 1;
    EditedIds(entries, edits[..n]);
    EditDocs(Edited(entries, edits[..n]), edits[n]);
    if i < n {
      EditedTouched(entries, edits[..n], i);
      assert edits[i].key != edits[n].key;
    }
  }

  lemma EditedAt(entries: seq<Entry>, edits: seq<Edit>, k: Key)
    requires DistinctIds(entries) && DistinctEdits(edits)
    ensures !Touches(edits, k) ==>
      && (k in DocsOf(Edited(entries, edits)) <==> k in DocsOf(entries))
      && (k in DocsOf(entries) ==> DocsOf(Edited(entries, edits))[k] == DocsOf(entries)[k])
    ensures forall i | 0 <= i < |edits| && edits[i].key == k ::
      if edits[i].PutOne? then k in DocsOf(Edited(entries, edits)) && DocsOf(Edited(entries, edits))[k] == DocOf(edits[i].encoded)
      else k !in DocsOf(Edited(entries, edits))
  {
    hide DocOf, DocsOf, Edited, Touches;
    if !Touches(edits, k) {
      EditedUntouched(entries, edits, k);
    }
    forall i | 0 <= i < |edits| && edits[i].key == k
      ensures if edits[i].PutOne? then k in DocsOf(Edited(entries, edits)) && DocsOf(Edited(entries, edits))[k] == DocOf(edits[i].encoded)
              else k !in DocsOf(Edited(entries, edits))
    {
      EditedTouched(entries, edits, i);
    }
  }

  /** What a batch of edits does to the documents is what its changes do to the indexes. */
  lemma ChangedIsEdited(entries: seq<Entry>, edits: seq<Edit>)
    requires DistinctIds(entries) && DistinctEdits(edits)
    ensures Changed(DocsOf(entries), ChangesFor(DocsOf(entries), edits)) == DocsOf(Edited(entries, edits))
    ensures DistinctIds(Edited(entries, edits))
  {
    hide DocOf, DocsOf, Edited, ChangesFor, Changed;
    var docs := DocsOf(entries);
    var a, b := Changed(docs, ChangesFor(docs, edits)), DocsOf(Edited(entries, edits));
    EditedIds(entries, edits);
    forall k: Key
      ensures k in a <==> k in b
      ensures k in a && k in b ==> a[k] == b[k]
    {
      EditedAt(entries, edits, k);
      ChangedAt(docs, edits, k);
    }
  }

  lemma ChangedAt(docs: Documents, edits: seq<Edit>, k: Key)
    requires DistinctEdits(edits)
    ensures
      var after := Changed(docs, ChangesFor(docs, edits));
      && (!Touches(edits, k) ==>
            (k in after <==> k in docs) && (k in docs ==> after[k] == docs[k]))
      && (forall i | 0 <= i < |edits| && edits[i].key == k ::
            if edits[i].PutOne? then k in after && after[k] == DocOf(edits[i].encoded) else k !in after)
  {
    hide DocOf, Removed, Added;
    var cs := ChangesFor(docs, edits);
    ChangesFit(docs, edits);
    RemovedAt(docs, cs, k);
    AddedAt(Removed(docs, cs), cs, k);
    assert forall i | 0 <= i < |edits| :: cs[i].key == edits[i].key;
    if i :| 0 <= i < |edits| && edits[i].key == k && edits[i].DeleteOne? {
      assert forall j | 0 <= j < |edits| && j != i :: cs[j].key != k;
    }
  }

  // ---------------------------------------------------------------- sequence numbers

  /** Exactly the stored documents are numbered, in rising order, below `next`. */
  ghost predicate Numbered(entries: seq<Entry>, sequence: map<Key, nat>, next: nat) {
    && Rising(entries, sequence)
    && (forall k | k in sequence :: sequence[k] < next)
    && (forall k | k in sequence :: Has(entries, k))
  }

  ghost predicate Has(entries: seq<Entry>, k: Key) {
    exists i | 0 <= i < |entries| :: entries[i].id == k
  }

  lemma NumberedAppend(entries: seq<Entry>, sequence: map<Key, nat>, next: nat, e: Entry)
    requires Numbered(entries, sequence, next) && e.id !in sequence
    ensures Numbered(entries + [e], sequence[e.id := next], next + 1)
  {
    hide Has;
    var after := entries + [e];
    HasPlace(after, |entries|);
    forall k | k in sequence ensures Has(after, k) {
      HasMore(entries, e, k);
    }
  }

  lemma HasPlace(entries: seq<Entry>, i: nat)
    requires i < |entries|
    ensures Has(entries, entries[i].id)
  {}

  lemma HasMore(entries: seq<Entry>, e: Entry, k: Key)
    requires Has(entries, k)
    ensures Has(entries + [e], k)
  {
    var i :| 0 <= i < |entries| && entries[i].id == k;
    assert (entries + [e])[i].id == k;
  }

  lemma NumberedReplace(entries: seq<Entry>, sequence: map<Key, nat>, next: nat, i: nat, d: bytes)
    requires Numbered(entries, sequence, next) && i < |entries|
    ensures Numbered(entries[i := Entry(entries[i].id, d)], sequence, next)
  {
    hide Has;
    var after := entries[i := Entry(entries[i].id, d)];
    assert forall j | 0 <= j < |entries| :: after[j].id == entries[j].id;
    forall k | k in sequence ensures Has(after, k) {
      HasSame(entries, after, k);
    }
  }

  lemma HasSame(entries: seq<Entry>, after: seq<Entry>, k: Key)
    requires Has(entries, k) && |after| == |entries| && forall j | 0 <= j < |entries| :: after[j].id == entries[j].id
    ensures Has(after, k)
  {
    var i :| 0 <= i < |entries| && entries[i].id == k;
    assert after[i].id == k;
  }

  lemma NumberedPut(entries: seq<Entry>, sequence: map<Key, nat>, next: nat, k: Key, d: bytes)
    requires DistinctIds(entries) && Numbered(entries, sequence, next)
    ensures k !in sequence ==> Numbered(SetDocument(entries, k, d), sequence[k := next], next + 1)
    ensures k in sequence ==> Numbered(SetDocument(entries, k, d), sequence, next)
  {
    hide SetDocument, Numbered;
    SetShape(entries, k, d);
    NumberedIds(entries, sequence, next);
    if k !in sequence {
      NumberedAppend(entries, sequence, next, Entry(k, d));
    } else {
      NumberedHas(entries, sequence, next, k);
      var i :| 0 <= i < |entries| && entries[i].id == k;
      NumberedReplace(entries, sequence, next, i, d);
    }
  }

  lemma NumberedIds(entries: seq<Entry>, sequence: map<Key, nat>, next: nat)
    requires Numbered(entries, sequence, next)
    ensures forall i | 0 <= i < |entries| :: entries[i].id in sequence
  {
    hide Has;
  }

  lemma NumberedHas(entries: seq<Entry>, sequence: map<Key, nat>, next: nat, k: Key)
    requires Numbered(entries, sequence, next) && k in sequence
    ensures Has(entries, k)
  {}

  lemma NumberedDelete(entries: seq<Entry>, sequence: map<Key, nat>, next: nat, k: Key)
    requires DistinctIds(entries) && Numbered(entries, sequence, next)
    ensures Numbered(DeleteDocument(entries, k), sequence - {k}, next)
  {
    hide DeleteDocument, Numbered, Has;
    DeleteShape(entries, k);
    NumberedIds(entries, sequence, next);
    if k in sequence {
      NumberedHas(entries, sequence, next, k);
      var i := PlaceOf(entries, k);
      NumberedCut(entries, sequence, next, i);
    } else {
      assert sequence - {k} == sequence;
    }
  }

  ghost function PlaceOf(entries: seq<Entry>, k: Key): (i: nat)
    requires Has(entries, k)
    ensures i < |entries| && entries[i].id == k
  {
    var i :| 0 <= i < |entries| && entries[i].id == k;
    i
  }

  lemma NumberedCut(entries: seq<Entry>, sequence: map<Key, nat>, next: nat, i: nat)
    requires DistinctIds(entries) && Numbered(entries, sequence, next) && i < |entries|
    ensures Numbered(entries[..i] + entries[i + 1..], sequence - {entries[i].id}, next)
  {
    hide Has;
    var k, after := entries[i].id, entries[..i] + entries[i + 1..];
    assert forall j | 0 <= j < |after| :: after[j] == entries[if j < i then j else j + 1];
    forall x | x in sequence && x != k ensures Has(after, x) {
      var j := PlaceOf(entries, x);
      HasPlace(after, if j < i then j else j - 1);
    }
  }

  // ---------------------------------------------------------------- the collection

  ghost predicate ProperEdits(edits: seq<Edit>) {
    forall i | 0 <= i < |edits| && edits[i].PutOne? :: Proper(Entry(edits[i].key, edits[i].encoded))
  }

  /** Everything stored stays readable exactly when everything put is. */
  lemma EditedSound(entries: seq<Entry>, edits: seq<Edit>)
    requires Sound(entries) && DistinctEdits(edits)
    ensures Sound(Edited(entries, edits)) <==> ProperEdits(edits)
  {
    hide Proper, Edited;
    if ProperEdits(edits) {
      ProperStaysSound(entries, edits);
    }
    if Sound(Edited(entries, edits)) {
      forall i | 0 <= i < |edits| && edits[i].PutOne? ensures Proper(Entry(edits[i].key, edits[i].encoded)) {
        EditedHolds(entries, edits, i);
        var e := Entry(edits[i].key, edits[i].encoded);
        assert e in Edited(entries, edits);
      }
    }
  }

  lemma {:induction false} EditedHolds(entries: seq<Entry>, edits: seq<Edit>, i: nat)
    requires DistinctIds(entries) && DistinctEdits(edits) && i < |edits| && edits[i].PutOne?
    ensures Entry(edits[i].key, edits[i].encoded) in Edited(entries, edits)
    decreases |edits|
  {
    hide SetDocument, DeleteDocument;
    var n := |edits| - 1;
    EditedIds(entries, edits[..n]);
    var before := Edited(entries, edits[..n]);
    if edits[n].PutOne? {
      PutPlaces(before, edits[n].key, edits[n].encoded);
    } else {
      DeletePlaces(before, edits[n].key);
    }
    if i < n {
      EditedHolds(entries, edits[..n], i);
      assert edits[i].key != edits[n].key;
    }
  }

  lemma {:induction false} ProperStaysSound(entries: seq<Entry>, edits: seq<Edit>)
    requires Sound(entries) && ProperEdits(edits)
    ensures Sound(Edited(entries, edits))
    decreases |edits|
  {
    hide Proper, SetDocument, DeleteDocument;
    if edits != [] {
      var n := |edits| - 1;
      ProperStaysSound(entries, edits[..n]);
      var before, e := Edited(entries, edits[..n]), edits[n];
      EditIds(before, e);
      if e.PutOne? {
        PutPlaces(before, e.key, e.encoded);
        SetIds(before, e.key, e.encoded);
      } else {
        DeletePlaces(before, e.key);
      }
      forall j | 0 <= j < |EditOne(before, e)| ensures Proper(EditOne(before, e)[j]) {
        assert EditOne(before, e)[j] in EditOne(before, e);
      }
    }
  }

  lemma SetIds(entries: seq<Entry>, k: Key, d: bytes)
    requires DistinctIds(entries)
    ensures forall e | e in SetDocument(entries, k, d) && e.id == k :: e == Entry(k, d)
  {
    hide SetDocument;
    SetShape(entries, k, d);
  }

  function Find(entries: seq<Entry>, k: Key): Option<bytes> {
    if entries == [] then None else if entries[0].id == k then Some(entries[0].document) else Find(entries[1..], k)
  }

  lemma {:induction false} FindAt(entries: seq<Entry>, k: Key)
    requires DistinctIds(entries)
    ensures Find(entries, k).Some? <==> k in DocsOf(entries)
    ensures k in DocsOf(entries) ==> DocsOf(entries)[k] == DocOf(Find(entries, k).value)
  {
    hide DocOf, DocsOf;
    DocsAt(entries, k);
    FindIs(entries, k);
  }

  lemma {:induction false} FindIs(entries: seq<Entry>, k: Key)
    requires DistinctIds(entries)
    ensures Find(entries, k).Some? <==> Has(entries, k)
    ensures forall i | 0 <= i < |entries| && entries[i].id == k :: Find(entries, k) == Some(entries[i].document)
  {
    if entries != [] {
      FindIs(entries[1..], k);
      if entries[0].id != k && Has(entries, k) {
        var i := PlaceOf(entries, k);
        assert entries[1..][i - 1].id == k;
      }
    }
  }

  class InMemoryCollection {
    const indexes: IndexSet
    var documents: seq<Entry>
    var sequence: Option<map<Key, nat>>
    var nextSequence: nat

    ghost predicate Sequenced()
      reads this, indexes`indexes
    {
      && (sequence.Some? <==> indexes.indexes != [])
      && (sequence.Some? ==> Numbered(documents, sequence.value, nextSequence))
    }

    /** Every index holds exactly the stored documents, and the numbers follow their order. */
    ghost predicate Agreed()
      reads this, indexes, indexes.indexes
    {
      DistinctIds(documents) && indexes.Valid() && indexes.docs == DocsOf(documents) && Sequenced()
    }

    /** And every stored document can be read. */
    ghost predicate Valid()
      reads this, indexes, indexes.indexes
    {
      Sound(documents) && Agreed()
    }

    constructor ()
      ensures Valid() && documents == [] && fresh(indexes) && indexes.indexes == []
    {
      indexes := new IndexSet();
      documents, sequence, nextSequence := [], None, 1;
    }

    method Put(k: Key, encoded: bytes)
      requires DistinctIds(documents) && Sequenced()
      modifies this
      ensures documents == SetDocument(old(documents), k, encoded) && DistinctIds(documents) && Sequenced()
    {
      hide Numbered, SetDocument;
      EditIds(documents, PutOne(k, encoded));
      if sequence.Some? {
        NumberedPut(documents, sequence.value, nextSequence, k, encoded);
        if k !in sequence.value {
          sequence := Some(sequence.value[k := nextSequence]);
          nextSequence := nextSequence + 1;
        }
      }
      documents := SetDocument(documents, k, encoded);
    }

    method Remove(k: Key)
      requires DistinctIds(documents) && Sequenced()
      modifies this
      ensures documents == DeleteDocument(old(documents), k) && DistinctIds(documents) && Sequenced()
    {
      hide Numbered, DeleteDocument;
      EditIds(documents, DeleteOne(k));
      if sequence.Some? {
        NumberedDelete(documents, sequence.value, nextSequence, k);
        sequence := Some(sequence.value - {k});
      }
      documents := DeleteDocument(documents, k);
    }

    method ApplyEdits(edits: seq<Edit>)
      requires DistinctIds(documents) && Sequenced()
      modifies this
      ensures documents == Edited(old(documents), edits) && DistinctIds(documents) && Sequenced()
    {
      hide Numbered, SetDocument, DeleteDocument;
      assert edits[..0] == [];
      for i := 0 to |edits|
        invariant documents == Edited(old(documents), edits[..i]) && DistinctIds(documents) && Sequenced()
      {
        assert edits[..i + 1][..i] == edits[..i];
        match edits[i] {
          case PutOne(k, encoded) => Put(k, encoded);
          case DeleteOne(k) => Remove(k);
        }
      }
      assert edits[..|edits|] == edits;
    }

    /** The index changes a batch of edits calls for. */
    method MakeChanges(edits: seq<Edit>) returns (changes: seq<Change>)
      requires DistinctIds(documents)
      ensures changes == ChangesFor(DocsOf(documents), edits)
    {
      hide DocOf, DocsOf;
      changes := [];
      for i := 0 to |edits|
        invariant |changes| == i && forall j | 0 <= j < i :: changes[j] == ChangeFor(DocsOf(documents), edits[j])
      {
        var before := Find(documents, edits[i].key);
        FindAt(documents, edits[i].key);
        var after := if edits[i].PutOne? then Some(DocOf(edits[i].encoded)) else None;
        changes := changes + [Change(edits[i].key, if before.Some? then Some(DocOf(before.value)) else None, after)];
      }
    }

    /**
     * A batch of edits: index first, then journal, then the documents. It succeeds if and only
     * if the resulting documents satisfy every unique index and the journal accepts it;
     * otherwise documents and indexes are as before. Indexed collections decode what they are
     * given beforehand; without indexes the documents stay readable iff the edits are.
     */
    method CommitEdits(edits: seq<Edit>, journalOk: bool) returns (ok: bool)
      requires Agreed() && DistinctEdits(edits) && (indexes.indexes != [] ==> ProperEdits(edits))
      modifies this, indexes`docs, indexes.indexes
      ensures Agreed() && documents == if ok then Edited(old(documents), edits) else old(documents)
      ensures ok <==> (edits == [] || journalOk) && indexes.AllUnique(DocsOf(Edited(old(documents), edits)))
      ensures old(Sound(documents)) ==> (Valid() <==> !ok || ProperEdits(edits))
    {
      hide Numbered, DocsOf, Edited, Changed, Sound, UniqueFor, FieldIndex.Valid, Proper;
      ChangedIsEdited(documents, edits);
      if Sound(documents) {
        EditedSound(documents, edits);
      }
      ghost var docs := DocsOf(documents);
      var changes := MakeChanges(edits);
      ChangesFit(docs, edits);
      var undo;
      ok, undo := indexes.ApplyChanges(changes);
      if !ok {
        return;
      }
      if edits != [] && !journalOk {
        indexes.UndoChanges(undo, docs);
        return false;
      }
      ApplyEdits(edits);
    }

    /** The documents a filter could match, in insertion order, however the plan finds them. */
    method Candidates(f: Value, prefer: (Plan, Plan) -> bool) returns (list: seq<Entry>)
      requires Valid() && f.Doc?
      ensures Matching(list, f) == Matching(documents, f)
    {
      hide Numbered, DocsOf, DocOf, Matches, UniqueFor, FieldIndex.Bulk, Proper, Chosen, Matching, Planner.Complete;
      if indexes.indexes == [] {
        return documents;
      }
      SoundIsIdentified(documents);
      var plan := PlanQuery(f, indexes, |documents|, prefer);
      if plan.CollectionScan? {
        return documents;
      }
      var keys := CandidateKeys(plan, f, indexes.docs);
      var present := set k | k in keys && Find(documents, k).Some?;
      PresentKeys(documents, sequence.value, nextSequence, present);
      list := SortBySequence(documents, present, sequence.value);
      MatchingPresent(documents, f, keys, present);
      ChosenMatching(documents, present, f);
    }

    /**
     * `find`: whatever plan is chosen, the result is the matching documents in insertion
     * order, or in the stable order of the sort keys, with `skip` dropped and at most `limit`
     * kept. None where the filter or the sort does not compile.
     */
    method Query(f: Value, sort: Option<seq<Sorting.SortEntry>>, skip: nat, limit: Option<nat>, prefer: (Plan, Plan) -> bool)
      returns (r: Option<seq<Document>>)
      requires Valid()
      ensures r.Some? <==> ValidFilter(f) && (sort.Some? ==> Sorting.ValidSort(sort.value))
      ensures
        var matched := DocList(Matching(documents, f));
        r.Some? ==> r.value == Slice(if sort.Some? then Sorting.SortDocuments(matched, Sorting.SortKeys(sort.value)) else matched, skip, limit)
      ensures r.Some? && sort.Some? ==> Sorting.OrderedBy(r.value, sort.value)
    {
      hide Matching, Matches, DocOf, Slice, InMemoryCollection.Valid, ValidPath, ValidOperators, Sorting.ValidSort, Sorting.SortDocuments, Sorting.OrderedBy;
      if !ValidFilter(f) {
        return None;
      }
      if sort.None? {
        var candidates := Candidates(f, prefer);
        var result := StreamMatches(candidates, f, skip, limit);
        return Some(result);
      }
      var keys := Sorting.ParseSort(sort.value);
      if keys.None? {
        return None;
      }
      var candidates := Candidates(f, prefer);
      var matched := CollectMatches(candidates, f);
      Sorting.SortedIsOrdered(DocList(matched), sort.value);
      SliceOrdered(Sorting.SortDocuments(DocList(matched), keys.value), sort.value, skip, limit);
      return Some(Slice(Sorting.SortDocuments(DocList(matched), keys.value), skip, limit));
    }

    /** The first document that matches; an `_id` in the filter is looked up directly. */
    method Locate(f: Value, prefer: (Plan, Plan) -> bool) returns (r: Option<Entry>)
      requires Valid() && f.Doc?
      ensures r == First(Matching(documents, f))
    {
      hide Matching, Matches, DocOf, Sound, Numbered, DocsOf, IndexSet.Valid;
      SoundIds(documents);
      if ID in f.fields && f.fields[ID].Id? {
        var k := f.fields[ID].id;
        var encoded := Find(documents, k);
        MatchingById(documents, f, k);
        return if encoded.Some? && Matches(f, DocOf(encoded.value)) then Some(Entry(k, encoded.value)) else None;
      }
      var candidates := Candidates(f, prefer);
      r := FirstMatch(candidates, f);
    }

    /** The matching documents a write works on: all of them, or the first. */
    method Select(f: Value, many: bool, prefer: (Plan, Plan) -> bool) returns (list: seq<Entry>)
      requires Valid() && f.Doc?
      ensures list == Selected(documents, f, many)
    {
      hide Matching, Matches, DocOf, InMemoryCollection.Valid;
      if many {
        var candidates := Candidates(f, prefer);
        list := CollectMatches(candidates, f);
      } else {
        var one := Locate(f, prefer);
        list := if one.Some? then [one.value] else [];
      }
    }

    /** `deleteOne` and `deleteMany`. */
    method Delete(f: Value, many: bool, journalOk: bool, prefer: (Plan, Plan) -> bool) returns (ok: bool, deleted: nat)
      requires Valid()
      modifies this, indexes`docs, indexes.indexes
      ensures Valid()
      ensures ok <==> ValidFilter(f) && (journalOk || Selected(old(documents), f, many) == [])
      ensures ok ==> deleted == |Selected(old(documents), f, many)|
      ensures ok ==> documents == Edited(old(documents), Deletions(Selected(old(documents), f, many)))
      ensures !ok ==> documents == old(documents)
    {
      hide Matching, Matches, DocOf, Numbered, DocsOf, Selected, Sound, UniqueFor, FieldIndex.Valid, Edited, ValidPath, ValidOperators;
      if !ValidFilter(f) {
        return false, 0;
      }
      SoundIds(documents);
      var list := Select(f, many, prefer);
      SelectedDistinct(documents, f, many);
      var edits := Deletions(list);
      DeletionsUnique(indexes, documents, list);
      ok := CommitEdits(edits, journalOk);
      deleted := |list|;
    }

    /**
     * `updateOne` and `updateMany` with the instructions of a parsed update. It succeeds if and
     * only if every selected document can be updated and encoded, every result that is decoded
     * again can be read, and journal and unique indexes accept the batch. `updateMany` decodes
     * results for the indexes only: without indexes it stores an unreadable result, and exactly
     * then the collection is no longer readable.
     */
    method Update(f: Value, list: seq<Instructions.Instruction>, many: bool, journalOk: bool, prefer: (Plan, Plan) -> bool)
      returns (ok: bool, matched: nat, modified: nat)
      requires Valid() && Instructions.Accepted(list)
      modifies this, indexes`docs, indexes.indexes
      ensures Agreed() && (!ok ==> documents == old(documents))
      ensures
        var chosen, apply := Selected(old(documents), f, many), Compiled(list);
        var edits := Updates(chosen, apply);
        && (ok ==> matched == |chosen| && modified == |edits| && documents == Edited(old(documents), edits))
        && (ok <==> ValidFilter(f) && Applies(chosen, apply) && (!many || indexes.indexes != [] ==> ReadableEdits(edits))
                    && (edits == [] || journalOk) && indexes.AllUnique(DocsOf(Edited(old(documents), edits))))
        && (Valid() <==> !ok || ReadableEdits(edits))
    {
      hide Matching, Matches, DocOf, Numbered, DocsOf, Selected, UniqueFor, FieldIndex.Valid, Edited, Proper, Readable,
           IndexSet.Valid, ValidPath, ValidOperators, Instructions.Overlap, Compiled;
      if !ValidFilter(f) {
        return false, 0, 0;
      }
      var chosen := Select(f, many, prefer);
      SelectedDistinct(documents, f, many);
      ListedProper(documents, chosen);
      UpdatesPrepared(chosen, list);
      var edits := PrepareUpdates(chosen, list, !many || indexes.indexes != []);
      matched, modified := |chosen|, 0;
      if edits.None? {
        return false, matched, 0;
      }
      ok := CommitEdits(edits.value, journalOk);
      modified := |edits.value|;
    }

    /**
     * `replaceOne`: the first match keeps its place and id. It succeeds if and only if nothing
     * matches or the replacement can be stored under that id: it has no operators and no other
     * id, can be encoded and, unless that changes nothing, can be read back, and journal and
     * unique indexes accept it.
     */
    method Replace(f: Value, replacement: Document, journalOk: bool, prefer: (Plan, Plan) -> bool) returns (ok: bool, modified: nat)
      requires Valid()
      modifies this, indexes`docs, indexes.indexes
      ensures Valid() && (!ok ==> documents == old(documents))
      ensures
        var chosen := Selected(old(documents), f, false);
        if chosen == [] then
          (ok <==> ValidFilter(f) && NoOperators(replacement)) && documents == old(documents)
        else
          var v, k := Doc(replacement[ID := Id(chosen[0].id)]), chosen[0].id;
          var after := SetDocument(old(documents), k, Encode(v));
          && (ok <==> ValidFilter(f) && Replaces(replacement, k)
                      && (after == old(documents) || (KeysStayDistinct(v) && journalOk && indexes.AllUnique(DocsOf(after)))))
          && (ok ==> documents == after && modified == if after == old(documents) then 0 else 1)
    {
      hide Matching, Matches, DocOf, Numbered, DocsOf, UniqueFor, FieldIndex.Valid, Edited, Proper, Readable,
           IndexSet.Valid, IndexSet.AllUnique, ValidPath, ValidOperators, Encode, SetDocument, KeysStayDistinct;
      if !ValidFilter(f) || !NoOperators(replacement) {
        return false, 0;
      }
      var located := Locate(f, prefer);
      if located.None? {
        return true, 0;
      }
      var e := located.value;
      SelectedDistinct(documents, f, false);
      var encoded := EncodeReplacement(e, replacement);
      if encoded.None? {
        return false, 0;
      }
      SetSame(documents, e, encoded.value);
      if encoded.value == e.document {
        return true, 0;
      }
      if !Readable(encoded.value) {
        return false, 0;
      }
      var edits := [PutOne(e.id, encoded.value)];
      OneEdit(documents, edits[0]);
      ok := CommitEdits(edits, journalOk);
      modified := 1;
    }

    /** Tracks one new document in every index. Only an indexed collection decodes it, and throws if it cannot. */
    method TrackInsert(e: Entry) returns (r: Tracked)
      requires indexes.Valid() && e.id !in indexes.docs
      modifies indexes`docs, indexes.indexes
      ensures indexes.Valid()
      ensures indexes.docs == if r.Tracked? then old(indexes.docs)[e.id := DocOf(e.document)] else old(indexes.docs)
      ensures r.Threw? <==> indexes.indexes != [] && !Readable(e.document)
      ensures r.Conflict? ==> !indexes.AllUnique(old(indexes.docs)[e.id := DocOf(e.document)])
      ensures r.Tracked? ==> indexes.UndoableFrom(r.undo, indexes.docs, old(indexes.docs))
    {
      hide DocOf, Readable, UniqueFor, FieldIndex.Valid, Unwinds;
      if indexes.indexes != [] && !Readable(e.document) {
        return Threw;
      }
      var changes := [Change(e.id, None, Some(DocOf(e.document)))];
      OneInsert(indexes.docs, e.id, DocOf(e.document));
      var ok, undo := indexes.ApplyChanges(changes);
      return if ok then Tracked(undo) else Conflict;
    }

    /** Undoes the tracking of several inserts, last first. */
    method UndoInserts(undos: seq<seq<Undo>>, ghost stages: seq<Documents>)
      requires indexes.Valid() && |stages| == |undos| + 1 && indexes.docs == stages[|undos|]
      requires forall i | 0 <= i < |stages| :: indexes.AllUnique(stages[i])
      requires forall i | 0 <= i < |undos| :: indexes.UndoableFrom(undos[i], stages[i + 1], stages[i])
      modifies indexes`docs, indexes.indexes
      ensures indexes.Valid() && indexes.docs == stages[0]
    {
      hide UniqueFor, FieldIndex.Valid, Unwinds;
      var i := |undos|;
      while i > 0
        invariant 0 <= i <= |undos| && indexes.Valid() && indexes.docs == stages[i]
      {
        i := i - 1;
        indexes.UndoChanges(undos[i], stages[i]);
      }
    }

    /** The first `n` documents of the batch have new ids, satisfy every unique index, and can be decoded if they must be. */
    ghost predicate Acceptable(entries: seq<Entry>, batch: seq<Entry>, n: nat)
      reads indexes`indexes
    {
      && n <= |batch| && DistinctIds(entries + batch[..n]) && indexes.AllUnique(DocsOf(entries + batch[..n]))
      && (indexes.indexes != [] ==> forall i | 0 <= i < n :: Readable(batch[i].document))
    }

    /** The loop of `insertMany` that checks and tracks documents until one is refused or cannot be decoded. */
    method TrackBatch(batch: seq<Entry>) returns (accepted: nat, threw: bool, undos: seq<seq<Undo>>, ghost stages: seq<Documents>)
      requires Agreed()
      modifies indexes`docs, indexes.indexes
      ensures accepted == |undos| <= |batch| && |stages| == accepted + 1
      ensures Acceptable(documents, batch, accepted) && (accepted < |batch| ==> !Acceptable(documents, batch, accepted + 1))
      ensures threw <==> accepted < |batch| && !Has(documents + batch[..accepted], batch[accepted].id)
                         && indexes.indexes != [] && !Readable(batch[accepted].document)
      ensures indexes.Valid() && indexes.docs == stages[accepted] == DocsOf(documents + batch[..accepted])
      ensures stages[0] == old(indexes.docs)
      ensures forall i | 0 <= i < |stages| :: indexes.AllUnique(stages[i])
      ensures forall i | 0 <= i < |undos| :: indexes.UndoableFrom(undos[i], stages[i + 1], stages[i])
    {
      hide UniqueFor, FieldIndex.Valid, Unwinds, DocsOf, DocOf, Readable, Numbered, Has, DistinctIds, IndexSet.UndoableFrom, IndexSet.AllUnique;
      accepted, threw, undos, stages := 0, false, [], [indexes.docs];
      UniqueNow(indexes);
      assert documents + batch[..0] == documents;
      while accepted < |batch|
        invariant accepted == |undos| <= |batch| && |stages| == accepted + 1 && !threw
        invariant Acceptable(documents, batch, accepted)
        invariant indexes.Valid() && indexes.docs == stages[accepted] == DocsOf(documents + batch[..accepted])
        invariant stages[0] == old(indexes.docs)
        invariant forall i | 0 <= i < |stages| :: indexes.AllUnique(stages[i])
        invariant forall i | 0 <= i < |undos| :: indexes.UndoableFrom(undos[i], stages[i + 1], stages[i])
        decreases |batch| - accepted
      {
        var e := batch[accepted];
        ghost var held := documents + batch[..accepted];
        assert documents + batch[..accepted + 1] == held + [e];
        var present := KeyPresent(documents, batch[..accepted], e.id);
        if present {
          NotDistinct(held, e);
          return;
        }
        AppendDocs(held, e);
        var r := TrackInsert(e);
        if !r.Tracked? {
          threw := r.Threw?;
          return;
        }
        UniqueNow(indexes);
        undos, stages := undos + [r.undo], stages + [indexes.docs];
        accepted := accepted + 1;
      }
    }

    /**
     * `insertMany`: inserts the longest acceptable prefix of the batch as one journaled unit; if
     * the journal refuses it, nothing is left of it. A document that an indexed collection
     * cannot decode makes it throw without undoing what it has tracked: afterwards the indexes
     * agree with the documents iff that document was the first of the batch. Without indexes
     * such documents are stored, and the collection stays readable iff none is.
     */
    method InsertMany(batch: seq<Entry>, journalOk: bool) returns (ok: bool, accepted: nat, threw: bool)
      requires Agreed() && forall i | 0 <= i < |batch| :: Prepared(batch[i])
      modifies this, indexes`docs, indexes.indexes
      ensures Acceptable(old(documents), batch, accepted)
      ensures accepted < |batch| ==> !Acceptable(old(documents), batch, accepted + 1)
      ensures threw <==> accepted < |batch| && !Has(old(documents) + batch[..accepted], batch[accepted].id)
                         && indexes.indexes != [] && !Readable(batch[accepted].document)
      ensures ok <==> !threw && (journalOk || accepted == 0)
      ensures documents == if ok then old(documents) + batch[..accepted] else old(documents)
      ensures Agreed() <==> !(threw && accepted > 0)
      ensures old(Sound(documents)) ==>
        (Valid() <==> !(threw && accepted > 0) && (ok ==> forall i | 0 <= i < accepted :: Readable(batch[i].document)))
      ensures threw ==> indexes.Valid() && indexes.docs == DocsOf(old(documents) + batch[..accepted])
    {
      hide UniqueFor, FieldIndex.Valid, Unwinds, DocsOf, DocOf, Readable, Proper, Numbered, Has, Sound, DistinctIds,
           IndexSet.UndoableFrom, IndexSet.AllUnique;
      var undos;
      ghost var stages;
      accepted, threw, undos, stages := TrackBatch(batch);
      if threw {
        NothingStranded(documents, batch, accepted);
        return false, accepted, true;
      }
      if accepted > 0 && !journalOk {
        UndoInserts(undos, stages);
        return false, accepted, false;
      }
      PutAll(batch, accepted);
      if old(Sound(documents)) {
        BatchSound(old(documents), batch, accepted);
      }
      return true, accepted, false;
    }

    /** `insertMany` from the documents it is given: `batch` are those that could be prepared. */
    method InsertDocuments(docs: seq<Document>, generated: nat -> Key, journalOk: bool)
      returns (ok: bool, accepted: nat, threw: bool, batch: seq<Entry>)
      requires Agreed()
      modifies this, indexes`docs, indexes.indexes
      ensures accepted <= |batch| <= |docs| && forall i | 0 <= i < |batch| :: Carries(batch[i], WithId(docs[i], generated(i)))
      ensures |batch| < |docs| ==> !CanInsert(WithId(docs[|batch|], generated(|batch|)))
      ensures Acceptable(old(documents), batch, accepted)
      ensures accepted < |batch| ==> !Acceptable(old(documents), batch, accepted + 1)
      ensures threw <==> accepted < |batch| && !Has(old(documents) + batch[..accepted], batch[accepted].id)
                         && indexes.indexes != [] && !KeysStayDistinct(Doc(WithId(docs[accepted], generated(accepted))))
      ensures ok <==> !threw && (journalOk || accepted == 0)
      ensures documents == if ok then old(documents) + batch[..accepted] else old(documents)
      ensures Agreed() <==> !(threw && accepted > 0)
      ensures old(Sound(documents)) ==>
        (Valid() <==> !(threw && accepted > 0)
                      && (ok ==> forall i | 0 <= i < accepted :: KeysStayDistinct(Doc(WithId(docs[i], generated(i))))))
    {
      hide Carries, CanInsert, Readable, Has, Sound, Numbered, DistinctIds, IndexSet.Valid, IndexSet.AllUnique, Acceptable, Agreed, Valid,
           KeysStayDistinct, WithId;
      batch := PrepareBatch(docs, generated);
      forall i | 0 <= i < |batch|
        ensures Prepared(batch[i]) && (Readable(batch[i].document) <==> KeysStayDistinct(Doc(WithId(docs[i], generated(i)))))
      {
        CarriedIsReadable(batch[i], WithId(docs[i], generated(i)));
      }
      AcceptableLength(batch);
      ok, accepted, threw := InsertMany(batch, journalOk);
    }

    lemma AcceptableLength(batch: seq<Entry>)
      ensures forall n: nat | Acceptable(documents, batch, n) :: n <= |batch|
    {}

    method PutAll(batch: seq<Entry>, n: nat)
      requires n <= |batch| && DistinctIds(documents + batch[..n]) && Sequenced()
      modifies this
      ensures documents == old(documents) + batch[..n] && Sequenced()
    {
      hide Numbered, SetDocument;
      PrefixIds(documents, batch, 0, n);
      for i := 0 to n
        invariant documents == old(documents) + batch[..i] && DistinctIds(documents) && Sequenced()
      {
        FreshId(old(documents), batch, i, n);
        SetNew(documents, batch[i].id, batch[i].document);
        Put(batch[i].id, batch[i].document);
        assert old(documents) + batch[..i + 1] == old(documents) + batch[..i] + [batch[i]];
      }
    }

    /** Numbers the documents when the first index appears. */
    method StartSequence()
      requires Sound(documents)
      modifies this`sequence, this`nextSequence
      ensures sequence.Some? && Numbered(documents, sequence.value, nextSequence)
    {
      hide Proper, Numbered;
      var numbers: map<Key, nat> := map[];
      NothingNumbered(nextSequence);
      assert documents[..0] == [];
      for i := 0 to |documents|
        invariant Numbered(documents[..i], numbers, nextSequence)
      {
        assert documents[..i + 1] == documents[..i] + [documents[i]];
        NotNumberedYet(documents, i, numbers, nextSequence);
        NumberedAppend(documents[..i], numbers, nextSequence, documents[i]);
        numbers := numbers[documents[i].id := nextSequence];
        nextSequence := nextSequence + 1;
      }
      assert documents[..|documents|] == documents;
      sequence := Some(numbers);
    }

    /** Forgets the numbers when the last index goes. */
    method RemoveIndex(name: text)
      requires Sound(documents) && indexes.Valid() && indexes.docs == DocsOf(documents)
      requires sequence.Some? && Numbered(documents, sequence.value, nextSequence)
      modifies this`sequence, indexes`indexes
      ensures Valid()
      ensures forall i | 0 <= i < |old(indexes.indexes)| && old(indexes.indexes)[i].spec.name == name ::
        indexes.indexes == old(indexes.indexes)[..i] + old(indexes.indexes)[i + 1..]
    {
      hide Numbered, DocsOf, Sound, IndexSet.Valid;
      SoundIds(documents);
      indexes.Drop(name);
      if indexes.indexes == [] {
        sequence := None;
      }
    }

    /** `createIndex`: the index is built before it is journaled, and removed again if that fails. */
    method CreateIndex(spec: IndexSpec, journalOk: bool) returns (r: CreateResult, ok: bool)
      requires Valid()
      modifies this`sequence, this`nextSequence, indexes`indexes
      ensures Valid()
      ensures r.Created? <==> old(indexes.Creatable(spec))
      ensures r.Exists? <==>
        exists i | 0 <= i < |old(indexes.indexes)| ::
          old(indexes.indexes)[i].spec.name == spec.name && SameDefinition(old(indexes.indexes)[i].spec, spec)
      ensures ok ==> IndexReplays(old(SpecsOf(indexes.indexes)), CreateOne(spec), SpecsOf(indexes.indexes))
      ensures ok <==> (r.Created? && journalOk) || r.Exists?
      ensures r.Created? && ok ==>
        && |indexes.indexes| == |old(indexes.indexes)| + 1 && indexes.indexes[|old(indexes.indexes)|].spec == spec
        && fresh(indexes.indexes[|old(indexes.indexes)|])
        && indexes.indexes[..|old(indexes.indexes)|] == old(indexes.indexes)
      ensures !(r.Created? && ok) ==> indexes.indexes == old(indexes.indexes)
    {
      hide Numbered, DocOf, Sound, UniqueFor, FieldIndex.Valid, IndexSet.AllAt, IndexSet.AllUnique;
      TabulatesListing(documents);
      r := indexes.Create(spec, Listing(documents));
      if !r.Created? {
        if r.Exists? {
          ExistingReplays(indexes, spec);
        }
        return r, r.Exists?;
      }
      CreatedReplays(old(indexes.indexes), indexes, spec);
      if sequence.None? {
        StartSequence();
      }
      if !journalOk {
        ghost var n := |old(indexes.indexes)|;
        assert indexes.indexes[n].spec.name == spec.name;
        assert indexes.indexes[..n] + indexes.indexes[n + 1..] == old(indexes.indexes);
        RemoveIndex(spec.name);
        return r, false;
      }
      return r, true;
    }

    /** `dropIndex`: journaled first; None of it happens if the index is unknown or the journal refuses. */
    method DropIndex(name: text, journalOk: bool) returns (ok: bool)
      requires Valid()
      modifies this`sequence, indexes`indexes
      ensures Valid()
      ensures ok <==> journalOk && exists i | 0 <= i < |old(indexes.indexes)| :: old(indexes.indexes)[i].spec.name == name
      ensures ok ==> forall i | 0 <= i < |old(indexes.indexes)| && old(indexes.indexes)[i].spec.name == name ::
        indexes.indexes == old(indexes.indexes)[..i] + old(indexes.indexes)[i + 1..]
      ensures ok ==> IndexReplays(old(SpecsOf(indexes.indexes)), DropOne(name), SpecsOf(indexes.indexes))
      ensures forall x | x in indexes.indexes :: x in old(indexes.indexes)
      ensures !ok ==> indexes.indexes == old(indexes.indexes)
    {
      hide Numbered, DocsOf, Sound, IndexSet.Valid, IndexReplays;
      var i := indexes.Find(name);
      if i == |indexes.indexes| || !journalOk {
        return false;
      }
      DroppedReplays(indexes, i);
      RemoveIndex(name);
      return true;
    }

    /** `validateIndexes` never has anything to report. */
    method ValidateIndexes() returns (issues: seq<text>)
      requires Valid()
      ensures issues == []
    {
      hide Numbered, DocOf, Sound, UniqueFor, FieldIndex.Valid;
      TabulatesListing(documents);
      issues := indexes.Validate(Listing(documents));
    }
  }

  // ---------------------------------------------------------------- index definitions

  function SpecsOf(indexes: seq<FieldIndex>): (specs: seq<IndexSpec>)
    ensures |specs| == |indexes| && forall i | 0 <= i < |indexes| :: specs[i] == indexes[i].spec
  {
    seq(|indexes|, i requires 0 <= i < |indexes| => indexes[i].spec)
  }

  /** One change to the indexes, as it is journaled. */
  datatype IndexEdit = CreateOne(spec: IndexSpec) | DropOne(name: text)

  function IndexOperation(ns: Namespace, e: IndexEdit): Operation {
    match e
    case CreateOne(spec) => Operations.CreateIndex(ns, spec)
    case DropOne(name) => Operations.DropIndex(ns, name)
  }

  /** Replaying what was journaled takes a recovered collection from these definitions to those, and changes nothing else. */
  ghost predicate IndexReplays(before: seq<IndexSpec>, e: IndexEdit, after: seq<IndexSpec>) {
    forall s: State, ns: Namespace | ns in s && s[ns].indexes == before ::
      Apply(s, IndexOperation(ns, e)) == Some(s[ns := s[ns].(indexes := after)])
  }

  lemma SpecsDistinct(all: IndexSet)
    requires all.Distinct()
    ensures DistinctNames(SpecsOf(all.indexes))
  {}

  lemma ExistingReplays(all: IndexSet, spec: IndexSpec)
    requires all.Valid()
    requires exists i | 0 <= i < |all.indexes| :: all.indexes[i].spec.name == spec.name && SameDefinition(all.indexes[i].spec, spec)
    ensures IndexReplays(SpecsOf(all.indexes), CreateOne(spec), SpecsOf(all.indexes))
  {
    hide Apply, FieldIndex.Valid, UniqueFor;
    var specs := SpecsOf(all.indexes);
    SpecsDistinct(all);
    var i :| 0 <= i < |all.indexes| && all.indexes[i].spec.name == spec.name && SameDefinition(all.indexes[i].spec, spec);
    forall s: State, ns: Namespace | ns in s && s[ns].indexes == specs
      ensures Apply(s, IndexOperation(ns, CreateOne(spec))) == Some(s[ns := s[ns].(indexes := specs)])
    {
      CreateIndexExactly(s, ns, spec);
      assert s[ns].indexes[i].name == spec.name;
      assert s[ns := s[ns].(indexes := specs)] == s;
    }
  }

  lemma CreatedReplays(before: seq<FieldIndex>, all: IndexSet, spec: IndexSpec)
    requires all.Valid() && |all.indexes| == |before| + 1 && all.indexes[..|before|] == before && all.indexes[|before|].spec == spec
    ensures IndexReplays(SpecsOf(before), CreateOne(spec), SpecsOf(all.indexes))
  {
    hide Apply, FieldIndex.Valid, UniqueFor;
    var specs := SpecsOf(before);
    assert forall i | 0 <= i < |before| :: before[i] == all.indexes[i];
    assert SpecsOf(all.indexes) == specs + [spec];
    assert DistinctNames(specs) && !Named(specs, spec.name);
    forall s: State, ns: Namespace | ns in s && s[ns].indexes == specs
      ensures Apply(s, IndexOperation(ns, CreateOne(spec))) == Some(s[ns := s[ns].(indexes := specs + [spec])])
    {
      CreateIndexExactly(s, ns, spec);
      assert s[ns].(indexes := specs + [spec]) == Collection(s[ns].documents, specs + [spec]);
    }
  }

  lemma DroppedReplays(all: IndexSet, i: nat)
    requires all.Valid() && i < |all.indexes|
    ensures IndexReplays(SpecsOf(all.indexes), DropOne(all.indexes[i].spec.name), SpecsOf(all.indexes[..i] + all.indexes[i + 1..]))
  {
    hide Apply, FieldIndex.Valid, UniqueFor;
    var specs, name := SpecsOf(all.indexes), all.indexes[i].spec.name;
    SpecsDistinct(all);
    OtherNamesCut(specs, i);
    var after := SpecsOf(all.indexes[..i] + all.indexes[i + 1..]);
    assert after == specs[..i] + specs[i + 1..];
    assert Named(specs, name);
    forall s: State, ns: Namespace | ns in s && s[ns].indexes == specs
      ensures Apply(s, IndexOperation(ns, DropOne(name))) == Some(s[ns := s[ns].(indexes := after)])
    {
      DropIndexExactly(s, ns, name);
      assert s[ns].(indexes := after) == Collection(s[ns].documents, after);
    }
  }

  lemma SoundIds(entries: seq<Entry>)
    requires Sound(entries)
    ensures DistinctIds(entries)
  {}

  lemma PresentKeys(entries: seq<Entry>, sequence: map<Key, nat>, next: nat, keys: set<Key>)
    requires DistinctIds(entries) && Numbered(entries, sequence, next) && forall k | k in keys :: Find(entries, k).Some?
    ensures Rising(entries, sequence)
    ensures forall k | k in keys :: k in sequence && exists i | 0 <= i < |entries| :: entries[i].id == k
  {
    forall k | k in keys ensures k in sequence && exists i | 0 <= i < |entries| :: entries[i].id == k {
      FindIs(entries, k);
      var i := PlaceOf(entries, k);
      assert entries[i].id == k;
    }
  }

  lemma MatchingPresent(entries: seq<Entry>, f: Value, keys: set<Key>, present: set<Key>)
    requires DistinctIds(entries) && present == set k | k in keys && Find(entries, k).Some?
    requires forall k | k in DocsOf(entries) && Matches(f, DocsOf(entries)[k]) :: k in keys
    ensures forall i | 0 <= i < |entries| && Matches(f, DocOf(entries[i].document)) :: entries[i].id in present
  {
    hide Matches, DocOf, DocsOf;
    forall i | 0 <= i < |entries| && Matches(f, DocOf(entries[i].document)) ensures entries[i].id in present {
      DocsAt(entries, entries[i].id);
      FindIs(entries, entries[i].id);
      HasPlace(entries, i);
    }
  }

  // ---------------------------------------------------------------- reading

  function DocList(entries: seq<Entry>): (docs: seq<Document>)
    ensures |docs| == |entries| && forall i | 0 <= i < |entries| :: docs[i] == DocOf(entries[i].document)
  {
    seq(|entries|, i requires 0 <= i < |entries| => DocOf(entries[i].document))
  }

  function Slice<T>(s: seq<T>, skip: nat, limit: Option<nat>): seq<T> {
    if skip >= |s| then []
    else if limit.None? || skip + limit.value >= |s| then s[skip..]
    else s[skip..skip + limit.value]
  }

  lemma SliceOrdered(docs: seq<Document>, sort: seq<Sorting.SortEntry>, skip: nat, limit: Option<nat>)
    requires Sorting.OrderedBy(docs, sort)
    ensures Sorting.OrderedBy(Slice(docs, skip, limit), sort)
  {
    hide Sorting.OrderedBy;
    var from := if skip >= |docs| then |docs| else skip;
    var to := if limit.None? || skip + limit.value >= |docs| then |docs| else skip + limit.value;
    Sorting.OrderedPart(docs, sort, from, to);
    assert Slice(docs, skip, limit) == docs[from..to];
  }

  /** `skip` documents are dropped and at most `limit` of the rest kept. */
  lemma SliceExactly<T>(s: seq<T>, skip: nat, limit: Option<nat>)
    ensures
      var r := Slice(s, skip, limit);
      && (forall i | 0 <= i < |r| :: skip + i < |s| && r[i] == s[skip + i])
      && (limit.Some? ==> |r| <= limit.value)
      && (|r| == |s| - skip || (limit.Some? && |r| == limit.value) || (|r| == 0 && skip >= |s|))
  {}

  /** Matching keeps exactly the documents that match, each where it was. */
  lemma {:induction false} MatchingExactly(entries: seq<Entry>, f: Value)
    ensures forall e | e in entries && Matches(f, DocOf(e.document)) :: e in Matching(entries, f)
    ensures (forall e | e in entries :: Matches(f, DocOf(e.document))) ==> Matching(entries, f) == entries
    ensures |Matching(entries, f)| <= |entries|
  {
    hide Matches, DocOf;
    if entries != [] {
      MatchingExactly(entries[1..], f);
    }
  }

  lemma {:induction false} MatchingAppend(a: seq<Entry>, b: seq<Entry>, f: Value)
    ensures Matching(a + b, f) == Matching(a, f) + Matching(b, f)
  {
    hide Matches, DocOf;
    if a == [] {
      assert a + b == b;
    } else {
      assert (a + b)[1..] == a[1..] + b;
      MatchingAppend(a[1..], b, f);
    }
  }

  function First<T>(s: seq<T>): Option<T> {
    if s == [] then None else Some(s[0])
  }

  function Selected(entries: seq<Entry>, f: Value, many: bool): seq<Entry> {
    var all := Matching(entries, f);
    if many || all == [] then all else [all[0]]
  }

  lemma MatchingStep(candidates: seq<Entry>, f: Value, i: nat)
    requires i < |candidates|
    ensures Matching(candidates[i..], f)
         == (if Matches(f, DocOf(candidates[i].document)) then [candidates[i]] else []) + Matching(candidates[i + 1..], f)
  {
    hide Matches, DocOf;
    assert candidates[i..][0] == candidates[i] && candidates[i..][1..] == candidates[i + 1..];
  }

  lemma NoMoreMatching(candidates: seq<Entry>, f: Value)
    ensures Matching(candidates[|candidates|..], f) == []
  {}

  method CollectMatches(candidates: seq<Entry>, f: Value) returns (matched: seq<Entry>)
    ensures matched == Matching(candidates, f)
  {
    hide Matching, Matches, DocOf;
    matched := [];
    assert candidates[0..] == candidates;
    for i := 0 to |candidates|
      invariant Matching(candidates, f) == matched + Matching(candidates[i..], f)
    {
      MatchingStep(candidates, f, i);
      if Matches(f, DocOf(candidates[i].document)) {
        matched := matched + [candidates[i]];
      }
    }
    NoMoreMatching(candidates, f);
  }

  method FirstMatch(candidates: seq<Entry>, f: Value) returns (r: Option<Entry>)
    ensures r == First(Matching(candidates, f))
  {
    hide Matching, Matches, DocOf;
    assert candidates[0..] == candidates;
    for i := 0 to |candidates|
      invariant Matching(candidates, f) == Matching(candidates[i..], f)
    {
      MatchingStep(candidates, f, i);
      if Matches(f, DocOf(candidates[i].document)) {
        return Some(candidates[i]);
      }
    }
    NoMoreMatching(candidates, f);
    return None;
  }

  /** The unsorted loop of `scan`: skip, then yield until the limit. */
  method StreamMatches(candidates: seq<Entry>, f: Value, skip: nat, limit: Option<nat>) returns (out: seq<Document>)
    ensures out == Slice(DocList(Matching(candidates, f)), skip, limit)
  {
    hide Matching, Matches, DocOf;
    out := [];
    var skipped := 0;
    ghost var seen: seq<Entry> := [];
    assert candidates[0..] == candidates;
    for i := 0 to |candidates|
      invariant Matching(candidates, f) == seen + Matching(candidates[i..], f)
      invariant skipped == if |seen| < skip then |seen| else skip
      invariant out == Dropped(DocList(seen), skip) && (limit.Some? ==> |out| <= limit.value)
    {
      if limit.Some? && |out| >= limit.value {
        StreamDone(Matching(candidates, f), seen, out, skip, limit);
        return;
      }
      MatchingStep(candidates, f, i);
      if Matches(f, DocOf(candidates[i].document)) {
        DroppedSnoc(seen, candidates[i], skip);
        seen := seen + [candidates[i]];
        if skipped < skip {
          skipped := skipped + 1;
        } else {
          out := out + [DocOf(candidates[i].document)];
        }
      }
    }
    NoMoreMatching(candidates, f);
    assert Matching(candidates, f) == seen;
    StreamDone(seen, seen, out, skip, limit);
  }

  function Dropped<T>(s: seq<T>, n: nat): seq<T> {
    if n >= |s| then [] else s[n..]
  }

  lemma DroppedSnoc(seen: seq<Entry>, e: Entry, n: nat)
    ensures Dropped(DocList(seen + [e]), n)
         == if |seen| < n then Dropped(DocList(seen), n) else Dropped(DocList(seen), n) + [DocOf(e.document)]
  {
    hide DocOf;
    assert DocList(seen + [e]) == DocList(seen) + [DocOf(e.document)];
  }

  lemma StreamDone(all: seq<Entry>, seen: seq<Entry>, out: seq<Document>, skip: nat, limit: Option<nat>)
    requires seen <= all && (seen == all || (limit.Some? && |out| == limit.value))
    requires limit.Some? ==> |out| <= limit.value
    requires out == Dropped(DocList(seen), skip)
    ensures out == Slice(DocList(all), skip, limit)
  {
    hide DocOf;
    assert DocList(seen) == DocList(all)[..|seen|];
  }

  // ---------------------------------------------------------------- what writes select and change

  lemma {:induction false} MatchingIds(entries: seq<Entry>, f: Value)
    requires DistinctIds(entries)
    ensures DistinctIds(Matching(entries, f))
  {
    hide Matches, DocOf;
    if entries != [] {
      MatchingIds(entries[1..], f);
      forall e | e in Matching(entries[1..], f) ensures e.id != entries[0].id {
        var i :| 0 <= i < |entries[1..]| && entries[1..][i] == e;
        assert entries[i + 1] == e;
      }
    }
  }

  lemma SelectedDistinct(entries: seq<Entry>, f: Value, many: bool)
    requires DistinctIds(entries)
    ensures DistinctIds(Selected(entries, f, many))
    ensures forall e | e in Selected(entries, f, many) :: e in entries
  {
    hide Matching;
    MatchingIds(entries, f);
  }

  /** A filter on an id matches at most the document stored under it. */
  lemma {:induction false} MatchingById(entries: seq<Entry>, f: Value, k: Key)
    requires Sound(entries) && f.Doc? && ID in f.fields && f.fields[ID] == Id(k)
    ensures First(Matching(entries, f)) ==
      if Find(entries, k).Some? && Matches(f, DocOf(Find(entries, k).value)) then Some(Entry(k, Find(entries, k).value)) else None
    ensures Find(entries, k).None? ==> Matching(entries, f) == []
  {
    hide Matches, DocOf;
    if entries != [] {
      var e := entries[0];
      assert Proper(e);
      if Matches(f, DocOf(e.document)) {
        OnlyItsId(f, k, DocOf(e.document));
      }
      MatchingById(entries[1..], f, k);
      if e.id == k {
        assert Find(entries[1..], k).None? by {
          FindIs(entries[1..], k);
        }
      }
    }
  }

  lemma OnlyItsId(f: Value, k: Key, d: Document)
    requires f.Doc? && ID in f.fields && f.fields[ID] == Id(k) && ID in d && Matches(f, d)
    ensures d[ID] == Id(k)
  {
    IdResolves(d);
    assert FieldMatches(f.fields[ID], Resolve(d, Split(ID)));
  }

  function Deletions(list: seq<Entry>): (edits: seq<Edit>)
    ensures |edits| == |list| && forall i | 0 <= i < |list| :: edits[i] == DeleteOne(list[i].id)
  {
    seq(|list|, i requires 0 <= i < |list| => DeleteOne(list[i].id))
  }

  /** Deleting never breaks a unique index. */
  lemma DeletionsUnique(all: IndexSet, entries: seq<Entry>, list: seq<Entry>)
    requires DistinctIds(entries) && DistinctIds(list) && all.AllUnique(DocsOf(entries))
    ensures DistinctEdits(Deletions(list)) && ProperEdits(Deletions(list))
    ensures all.AllUnique(DocsOf(Edited(entries, Deletions(list))))
  {
    hide DocOf, DocsOf, Edited, UniqueFor, IndexSet.AllUnique;
    var after := DocsOf(Edited(entries, Deletions(list)));
    forall k | k in after ensures k in DocsOf(entries) && after[k] == DocsOf(entries)[k] {
      EditedAt(entries, Deletions(list), k);
    }
    all.UniqueBelow(after, DocsOf(entries));
  }

  /** The function the source computes: decode, apply the instructions, encode; None where it throws. */
  ghost function Compiled(list: seq<Instructions.Instruction>): bytes -> Option<bytes>
    requires forall i | 0 <= i < |list| :: list[i].segments != []
  {
    encoded => Rewritten(Instructions.ApplyAll(Some(DocOf(encoded)), list))
  }

  ghost function Rewritten(d: Option<Document>): Option<bytes> {
    if d.Some? && Encodable(Doc(d.value)) then Some(Encode(Doc(d.value))) else None
  }

  ghost predicate Applies(list: seq<Entry>, apply: bytes -> Option<bytes>) {
    forall e | e in list :: apply(e.document).Some?
  }

  /** The documents an update changes; one whose bytes stay the same is left alone. */
  ghost function Updates(list: seq<Entry>, apply: bytes -> Option<bytes>): seq<Edit> {
    if list == [] then []
    else
      var next := apply(list[0].document);
      (if next.Some? && next.value != list[0].document then [PutOne(list[0].id, next.value)] else []) + Updates(list[1..], apply)
  }

  ghost predicate ReadableEdits(edits: seq<Edit>) {
    forall i | 0 <= i < |edits| && edits[i].PutOne? :: Readable(edits[i].encoded)
  }

  lemma ListedProper(entries: seq<Entry>, list: seq<Entry>)
    requires Sound(entries) && forall e | e in list :: e in entries
    ensures forall e | e in list :: Proper(e)
  {
    hide Proper;
  }

  /**
   * What an accepted update makes of a stored document: it fails exactly if an instruction
   * throws on it or the result cannot be encoded, and otherwise stores the encoding of a
   * document in which each path has what its instruction asks and every other path is as it was.
   */
  lemma CompiledDoes(encoded: bytes, list: seq<Instructions.Instruction>)
    requires Instructions.Accepted(list)
    ensures
      var d, next := DocOf(encoded), Compiled(list)(encoded);
      var r := Instructions.ApplyAll(Some(d), list);
      && (next.Some? <==>
            && (forall i | 0 <= i < |list| :: Instructions.ApplyAt(d, list[i].segments, list[i].operator, list[i].operand).Some?)
            && (r.Some? ==> Encodable(Doc(r.value))))
      && (next.Some? ==>
            r.Some? &&
            var e := r.value;
            && next.value == Encode(Doc(e))
            && (forall i | 0 <= i < |list| ::
                  Effect(list[i].operator, list[i].operand, Resolve(d, list[i].segments), Resolve(e, list[i].segments)))
            && (forall q: seq<text> | q != [] && (forall i | 0 <= i < |list| :: !Instructions.Overlap(list[i].segments, q)) ::
                  Resolve(e, q) == Resolve(d, q)))
  {
    hide DocOf, Encode, Effect, DocumentCodec.Fits, Instructions.Overlap, Instructions.ApplyAt, Instructions.ApplyAll, Resolve;
    UpdateSucceeds(DocOf(encoded), list);
    if Instructions.ApplyAll(Some(DocOf(encoded)), list).Some? {
      UpdateEffects(DocOf(encoded), list);
    }
  }

  /** An accepted update leaves a document under its own id, and readable exactly when its keys do not collide. */
  lemma CompiledKeepsId(e: Entry, list: seq<Instructions.Instruction>, d: Document)
    requires Proper(e) && Instructions.Accepted(list) && Instructions.ApplyAll(Some(DocOf(e.document)), list) == Some(d)
    requires Encodable(Doc(d))
    ensures Carries(Entry(e.id, Encode(Doc(d))), d)
    ensures Readable(Encode(Doc(d))) <==> KeysStayDistinct(Doc(d))
  {
    hide Encode, Decode, DocOf, Readable, KeysStayDistinct, Instructions.Accepted, Instructions.ApplyAll, DocumentCodec.Fits;
    Instructions.IdUnchanged(DocOf(e.document), list);
    CarriedIsReadable(Entry(e.id, Encode(Doc(d))), d);
  }

  /** The edits of an update, the first one apart. */
  lemma UpdatesFirst(list: seq<Entry>, apply: bytes -> Option<bytes>)
    requires list != []
    ensures
      var next, rest := apply(list[0].document), Updates(list[1..], apply);
      Updates(list, apply) ==
        if next.Some? && next.value != list[0].document then [PutOne(list[0].id, next.value)] + rest else rest
  {
    var rest := Updates(list[1..], apply);
    assert [] + rest == rest;
  }

  lemma {:induction false} UpdatesKeyed(list: seq<Entry>, apply: bytes -> Option<bytes>)
    requires DistinctIds(list)
    ensures
      var edits := Updates(list, apply);
      DistinctEdits(edits) && forall i | 0 <= i < |edits| :: edits[i].PutOne? && Has(list, edits[i].key)
  {
    hide Has, Updates;
    if list == [] {
      NoUpdates(list, apply);
    } else {
      var rest := Updates(list[1..], apply);
      UpdatesKeyed(list[1..], apply);
      UpdatesFirst(list, apply);
      HasPlace(list, 0);
      forall i | 0 <= i < |rest| ensures Has(list, rest[i].key) && rest[i].key != list[0].id {
        HasLater(list, rest[i].key);
      }
      var next := apply(list[0].document);
      if next.Some? && next.value != list[0].document {
        DistinctCons(PutOne(list[0].id, next.value), rest);
      }
    }
  }

  lemma HasLater(list: seq<Entry>, k: Key)
    requires DistinctIds(list) && list != [] && Has(list[1..], k)
    ensures Has(list, k) && k != list[0].id
  {
    var j := PlaceOf(list[1..], k);
    assert list[1..][j] == list[j + 1];
    HasPlace(list, j + 1);
  }

  lemma DistinctCons(e: Edit, rest: seq<Edit>)
    requires DistinctEdits(rest) && forall i | 0 <= i < |rest| :: rest[i].key != e.key
    ensures DistinctEdits([e] + rest)
    ensures forall i | 0 <= i < |rest| :: ([e] + rest)[i + 1] == rest[i]
  {
    var all := [e] + rest;
    assert forall i | 0 < i < |all| :: all[i] == rest[i - 1];
  }

  lemma {:induction false} UpdatesReadable(list: seq<Entry>, instructions: seq<Instructions.Instruction>)
    requires Instructions.Accepted(instructions) && forall e | e in list :: Proper(e)
    ensures
      var edits := Updates(list, Compiled(instructions));
      ReadableEdits(edits) <==> ProperEdits(edits)
  {
    hide Proper, Readable, Instructions.Overlap, Compiled, ReadableEdits, ProperEdits, Updates;
    ghost var apply := Compiled(instructions);
    if list == [] {
      NoUpdates(list, apply);
    } else {
      var rest := Updates(list[1..], apply);
      UpdatesReadable(list[1..], instructions);
      UpdatesFirst(list, apply);
      assert list[0] in list;
      UpdatePrepared(list[0], instructions);
      var next := apply(list[0].document);
      if next.Some? && next.value != list[0].document {
        ReadableCons(PutOne(list[0].id, next.value), rest);
        ProperCons(PutOne(list[0].id, next.value), rest);
      }
    }
  }

  /** The edits of an update are prepared, so they are proper exactly when they are readable. */
  lemma UpdatesPrepared(list: seq<Entry>, instructions: seq<Instructions.Instruction>)
    requires DistinctIds(list) && Instructions.Accepted(instructions) && forall e | e in list :: Proper(e)
    ensures
      var edits := Updates(list, Compiled(instructions));
      && DistinctEdits(edits) && (ReadableEdits(edits) <==> ProperEdits(edits))
      && forall i | 0 <= i < |edits| :: edits[i].PutOne? && Has(list, edits[i].key)
  {
    hide Proper, Has, Instructions.Overlap, Compiled, ReadableEdits, ProperEdits, Updates, DistinctEdits;
    UpdatesKeyed(list, Compiled(instructions));
    UpdatesReadable(list, instructions);
  }

  lemma ReadableCons(e: Edit, rest: seq<Edit>)
    requires e.PutOne?
    ensures ReadableEdits([e] + rest) <==> Readable(e.encoded) && ReadableEdits(rest)
  {
    hide Readable;
    var all := [e] + rest;
    assert forall i | 0 <= i < |rest| :: rest[i] == all[i + 1];
    assert all[0] == e;
  }

  lemma ProperCons(e: Edit, rest: seq<Edit>)
    requires e.PutOne?
    ensures ProperEdits([e] + rest) <==> Proper(Entry(e.key, e.encoded)) && ProperEdits(rest)
  {
    hide Proper;
    var all := [e] + rest;
    assert forall i | 0 <= i < |rest| :: rest[i] == all[i + 1];
    assert all[0] == e;
  }

  lemma UpdatePrepared(e: Entry, instructions: seq<Instructions.Instruction>)
    requires Proper(e) && Instructions.Accepted(instructions)
    ensures
      var next := Compiled(instructions)(e.document);
      next.Some? ==> (Readable(next.value) <==> Proper(Entry(e.id, next.value)))
  {
    hide Proper, Readable, DocOf, Encode, Instructions.Overlap, Instructions.ApplyAll, DocumentCodec.Fits, Carries;
    var d := Instructions.ApplyAll(Some(DocOf(e.document)), instructions);
    if d.Some? && Encodable(Doc(d.value)) {
      CompiledKeepsId(e, instructions, d.value);
      CarriedIsReadable(Entry(e.id, Encode(Doc(d.value))), d.value);
    }
  }

  /** Applies, encodes and, if asked to, decodes again every selected document; None where one of these throws. */
  method PrepareUpdates(list: seq<Entry>, instructions: seq<Instructions.Instruction>, decodes: bool) returns (r: Option<seq<Edit>>)
    requires forall i | 0 <= i < |instructions| :: instructions[i].segments != []
    ensures
      var edits := Updates(list, Compiled(instructions));
      && (r.Some? <==> Applies(list, Compiled(instructions)) && (decodes ==> ReadableEdits(edits)))
      && (r.Some? ==> r.value == edits)
  {
    hide Readable, DocOf, Encode, Instructions.ApplyAll, Compiled, Updates, ReadableEdits, DocumentCodec.Fits, Rewritten;
    ghost var apply := Compiled(instructions);
    var edits: seq<Edit> := [];
    NoUpdates(list, apply);
    for i := 0 to |list|
      invariant Updates(list, apply) == edits + Updates(list[i..], apply)
      invariant forall j | 0 <= j < i :: apply(list[j].document).Some?
      invariant decodes ==> ReadableEdits(edits)
    {
      UpdatesStep(list, i, apply);
      assert list[i] in list;
      var encoded := Rewrite(list[i].document, instructions);
      if encoded.None? {
        return None;
      }
      if encoded.value != list[i].document {
        ghost var rest := Updates(list[i + 1..], apply);
        var edit := PutOne(list[i].id, encoded.value);
        assert edits + ([edit] + rest) == (edits + [edit]) + rest;
        ReadableSnoc(edits, edit, rest);
        edits := edits + [edit];
        if decodes && !Readable(encoded.value) {
          return None;
        }
      } else {
        assert edits + ([] + Updates(list[i + 1..], apply)) == edits + Updates(list[i + 1..], apply);
      }
    }
    return Some(edits);
  }

  method Rewrite(encoded: bytes, instructions: seq<Instructions.Instruction>) returns (r: Option<bytes>)
    requires forall i | 0 <= i < |instructions| :: instructions[i].segments != []
    ensures r == Compiled(instructions)(encoded)
  {
    hide DocOf, Encode, Instructions.ApplyAll, DocumentCodec.Fits;
    var d := Instructions.ApplyAll(Some(DocOf(encoded)), instructions);
    if d.None? {
      return None;
    }
    r := EncodeDocumentValue(Doc(d.value));
  }

  lemma NoUpdates(list: seq<Entry>, apply: bytes -> Option<bytes>)
    ensures list[0..] == list && Updates(list[|list|..], apply) == []
    ensures ReadableEdits([]) && ProperEdits([])
  {}

  lemma UpdatesStep(list: seq<Entry>, i: nat, apply: bytes -> Option<bytes>)
    requires i < |list|
    ensures
      var next := apply(list[i].document);
      Updates(list[i..], apply) ==
        (if next.Some? && next.value != list[i].document then [PutOne(list[i].id, next.value)] else []) + Updates(list[i + 1..], apply)
  {
    assert list[i..][0] == list[i] && list[i..][1..] == list[i + 1..];
  }

  lemma ReadableSnoc(edits: seq<Edit>, e: Edit, rest: seq<Edit>)
    requires e.PutOne?
    ensures ReadableEdits(edits + [e]) <==> ReadableEdits(edits) && Readable(e.encoded)
    ensures ReadableEdits(edits + [e] + rest) ==> Readable(e.encoded)
  {
    hide Readable;
    var more := edits + [e];
    assert forall i | 0 <= i < |edits| :: edits[i] == more[i];
    assert more[|edits|] == e && (more + rest)[|edits|] == e;
  }

  predicate NoOperators(d: Document) {
    forall k | k in d :: k == [] || k[0] != DOLLAR
  }

  /** The replacement can be stored under this id. */
  ghost predicate Replaces(d: Document, id: Key) {
    NoOperators(d) && (ID in d ==> d[ID] == Id(id)) && Encodable(Doc(d[ID := Id(id)]))
  }

  /** Gives the replacement the id of the document it replaces, and encodes it. */
  method EncodeReplacement(e: Entry, replacement: Document) returns (r: Option<bytes>)
    requires NoOperators(replacement)
    ensures r.Some? <==> Replaces(replacement, e.id)
    ensures r.Some? ==>
      var v := Doc(replacement[ID := Id(e.id)]);
      && r.value == Encode(v) && (Readable(r.value) <==> KeysStayDistinct(v))
      && (Readable(r.value) <==> Proper(Entry(e.id, r.value)))
  {
    hide DocumentCodec.Fits, Encode, Readable, Proper, KeysStayDistinct, NoOperators;
    if ID in replacement && replacement[ID] != Id(e.id) {
      return None;
    }
    var d := replacement[ID := Id(e.id)];
    r := EncodeDocumentValue(Doc(d));
    if r.Some? {
      CarriedIsReadable(Entry(e.id, r.value), d);
    }
  }

  lemma SetSame(entries: seq<Entry>, e: Entry, encoded: bytes)
    requires DistinctIds(entries) && e in entries
    ensures SetDocument(entries, e.id, encoded) == entries <==> encoded == e.document
  {
    hide SetDocument;
    var i :| 0 <= i < |entries| && entries[i] == e;
    SetShape(entries, e.id, encoded);
    var after := entries[i := Entry(e.id, encoded)];
    assert after[i] == Entry(e.id, encoded);
    if encoded == e.document {
      assert after == entries;
    }
  }

  lemma OneEdit(entries: seq<Entry>, e: Edit)
    ensures Edited(entries, [e]) == EditOne(entries, e)
  {
    var edits := [e];
    assert edits[..0] == [];
    assert Edited(entries, edits[..0]) == entries;
  }

  // ---------------------------------------------------------------- inserting

  /** The document with its id, one it has or a generated one. */
  function WithId(d: Document, generated: Key): (r: Document)
    ensures ID in r && r[ID] == if ID in d then d[ID] else Id(generated)
    ensures forall k | k != ID :: (k in r <==> k in d) && (k in d ==> r[k] == d[k])
  {
    if ID in d then d else d[ID := Id(generated)]
  }

  ghost predicate CanInsert(d: Document) {
    ID in d && d[ID].Id? && Encodable(Doc(d))
  }

  /**
   * `prepareInsert` of one document after another, up to the first that has an `_id` of
   * another kind or cannot be encoded; the batch ends there as it does at a duplicate.
   */
  method PrepareBatch(docs: seq<Document>, generated: nat -> Key) returns (batch: seq<Entry>)
    ensures |batch| <= |docs| && forall i | 0 <= i < |batch| :: Carries(batch[i], WithId(docs[i], generated(i)))
    ensures forall i | 0 <= i < |batch| :: CanInsert(WithId(docs[i], generated(i)))
    ensures |batch| < |docs| ==> !CanInsert(WithId(docs[|batch|], generated(|batch|)))
  {
    hide Encode, DocumentCodec.Fits;
    batch := [];
    for i := 0 to |docs|
      invariant |batch| == i && forall j | 0 <= j < i :: Carries(batch[j], WithId(docs[j], generated(j)))
      invariant forall j | 0 <= j < i :: CanInsert(WithId(docs[j], generated(j)))
    {
      var d := WithId(docs[i], generated(i));
      if !d[ID].Id? {
        return;
      }
      var encoded := EncodeDocumentValue(Doc(d));
      if encoded.None? {
        return;
      }
      batch := batch + [Entry(d[ID].id, encoded.value)];
    }
  }

  datatype Tracked = Tracked(undo: seq<Undo>) | Conflict | Threw

  lemma NotDistinct(entries: seq<Entry>, e: Entry)
    requires Has(entries, e.id)
    ensures !DistinctIds(entries + [e])
  {
    var i := PlaceOf(entries, e.id);
    var all := entries + [e];
    assert all[i].id == all[|entries|].id;
  }

  lemma PrefixIds(entries: seq<Entry>, batch: seq<Entry>, i: nat, n: nat)
    requires i <= n <= |batch| && DistinctIds(entries + batch[..n])
    ensures DistinctIds(entries + batch[..i])
  {
    var all, some := entries + batch[..n], entries + batch[..i];
    assert forall j | 0 <= j < |some| :: some[j] == all[j];
  }

  /** Documents that are tracked but not stored are a disagreement, unless there is none. */
  lemma NothingStranded(entries: seq<Entry>, batch: seq<Entry>, n: nat)
    requires n <= |batch| && DistinctIds(entries + batch[..n]) && DistinctIds(entries)
    ensures DocsOf(entries + batch[..n]) == DocsOf(entries) <==> n == 0
  {
    hide DocsOf, DocOf;
    if n == 0 {
      assert entries + batch[..0] == entries;
    } else {
      var all := entries + batch[..n];
      assert all[|entries|] == batch[0];
      HasPlace(all, |entries|);
      DocsAt(all, batch[0].id);
      DocsAt(entries, batch[0].id);
      FreshId(entries, batch, 0, n);
      assert entries + batch[..0] == entries;
    }
  }

  lemma BatchSound(entries: seq<Entry>, batch: seq<Entry>, n: nat)
    requires Sound(entries) && n <= |batch| && DistinctIds(entries + batch[..n])
    requires forall i | 0 <= i < |batch| :: Prepared(batch[i])
    ensures Sound(entries + batch[..n]) <==> forall i | 0 <= i < n :: Readable(batch[i].document)
  {
    hide Proper, Readable, Prepared;
    var all := entries + batch[..n];
    forall i | 0 <= i < n ensures Readable(batch[i].document) <==> Proper(all[|entries| + i]) {
      PreparedIsReadable(batch[i]);
      assert all[|entries| + i] == batch[i];
    }
    assert forall j | 0 <= j < |entries| :: all[j] == entries[j];
    if forall i | 0 <= i < n :: Readable(batch[i].document) {
      forall j | 0 <= j < |all| ensures Proper(all[j]) {
        assert j >= |entries| ==> all[j] == batch[j - |entries|];
      }
    }
  }

  lemma FreshId(entries: seq<Entry>, batch: seq<Entry>, i: nat, n: nat)
    requires i < n <= |batch| && DistinctIds(entries + batch[..n])
    ensures forall j | 0 <= j < |entries + batch[..i]| :: (entries + batch[..i])[j].id != batch[i].id
  {
    var all := entries + batch[..n];
    assert all[|entries| + i] == batch[i];
    assert forall j | 0 <= j < |entries| + i :: (entries + batch[..i])[j] == all[j];
  }

  lemma UniqueNow(all: IndexSet)
    requires all.Valid()
    ensures all.AllUnique(all.docs)
  {}

  lemma OneInsert(docs: Documents, k: Key, d: Document)
    requires k !in docs
    ensures
      var changes := [Change(k, None, Some(d))];
      Fitting(docs, changes) && Changed(docs, changes) == docs[k := d]
  {
    var changes := [Change(k, None, Some(d))];
    assert changes[..0] == [];
    assert Removed(docs, changes[..0]) == docs && Removed(docs, changes) == docs;
    assert Added(docs, changes[..0]) == docs;
  }

  lemma AppendDocs(entries: seq<Entry>, e: Entry)
    requires DistinctIds(entries) && !Has(entries, e.id)
    ensures DistinctIds(entries + [e]) && DocsOf(entries + [e]) == DocsOf(entries)[e.id := DocOf(e.document)]
    ensures e.id !in DocsOf(entries)
  {
    hide DocOf, DocsOf;
    SetNew(entries, e.id, e.document);
    EditDocs(entries, PutOne(e.id, e.document));
    DocsAt(entries, e.id);
  }

  method KeyPresent(entries: seq<Entry>, pending: seq<Entry>, k: Key) returns (present: bool)
    ensures present <==> Has(entries + pending, k)
  {
    var all := entries + pending;
    present := exists i | 0 <= i < |all| :: all[i].id == k;
  }

  lemma NothingNumbered(next: nat)
    ensures Numbered([], map[], next)
  {}

  lemma NotNumberedYet(entries: seq<Entry>, i: nat, numbers: map<Key, nat>, next: nat)
    requires DistinctIds(entries) && i < |entries| && Numbered(entries[..i], numbers, next)
    ensures entries[i].id !in numbers
  {
    hide Rising;
    assert entries[i].id in numbers ==> Has(entries[..i], entries[i].id);
  }

  lemma TabulatesListing(entries: seq<Entry>)
    requires Sound(entries)
    ensures Tabulates(Listing(entries), DocsOf(entries))
  {
    hide DocOf, Proper;
  }

  // ---------------------------------------------------------------- whole runs

  datatype Call =
    | InsertCall(docs: seq<Document>, generated: nat -> Key)
    | DeleteCall(f: Value, many: bool)
    | UpdateCall(f: Value, list: seq<Instructions.Instruction>, many: bool)
    | ReplaceCall(f: Value, replacement: Document)
    | CreateIndexCall(spec: IndexSpec)
    | DropIndexCall(name: text)

  datatype Outcome = Outcome(ok: bool, accepted: nat, threw: bool)

  /** It left documents tracked that are not stored. */
  predicate Stranded(o: Outcome) {
    o.threw && o.accepted > 0
  }

  /** What the caller guarantees: updates are parsed. */
  ghost predicate Admissible(c: Call) {
    c.UpdateCall? ==> Instructions.Accepted(c.list)
  }

  /**
   * The calls that harm a collection: an insert that fails to decode a document after it has
   * tracked others, or a write that stores a document which cannot be decoded.
   */
  ghost predicate Harms(c: Call, before: seq<Entry>, o: Outcome)
    requires Admissible(c)
  {
    match c
    case InsertCall(docs, generated) =>
      Stranded(o)
      || (o.ok && exists i | 0 <= i < o.accepted && i < |docs| :: !KeysStayDistinct(Doc(WithId(docs[i], generated(i)))))
    case UpdateCall(f, list, many) => o.ok && !ReadableEdits(Updates(Selected(before, f, many), Compiled(list)))
    case _ => false
  }

  /** Seen from outside: tracked documents that are not stored, or stored ones that cannot be read. */
  predicate Harmed(entries: seq<Entry>, o: Outcome) {
    Stranded(o) || exists i | 0 <= i < |entries| :: !Readable(entries[i].document)
  }

  lemma SoundUnharmed(entries: seq<Entry>, o: Outcome)
    requires Sound(entries)
    ensures Harmed(entries, o) <==> Stranded(o)
  {
    assert forall i | 0 <= i < |entries| :: Proper(entries[i]);
  }

  lemma BatchHarmed(entries: seq<Entry>, batch: seq<Entry>, n: nat, o: Outcome)
    requires n <= |batch| && exists i | 0 <= i < n :: !Readable(batch[i].document)
    ensures Harmed(entries + batch[..n], o)
  {
    hide Readable;
    var i :| 0 <= i < n && !Readable(batch[i].document);
    assert (entries + batch[..n])[|entries| + i] == batch[i];
  }

  lemma EditsHarmed(entries: seq<Entry>, edits: seq<Edit>, o: Outcome)
    requires DistinctIds(entries) && DistinctEdits(edits) && !ReadableEdits(edits)
    ensures Harmed(Edited(entries, edits), o)
  {
    hide Readable, Edited;
    var i :| 0 <= i < |edits| && edits[i].PutOne? && !Readable(edits[i].encoded);
    EditedHolds(entries, edits, i);
    var after := Edited(entries, edits);
    var j :| 0 <= j < |after| && after[j] == Entry(edits[i].key, edits[i].encoded);
    assert !Readable(after[j].document);
  }

  lemma ValidParts(c: InMemoryCollection)
    requires c.Valid()
    ensures Sound(c.documents) && DistinctIds(c.documents) && c.Agreed()
  {}

  method PerformInsert(c: InMemoryCollection, docs: seq<Document>, generated: nat -> Key, journalOk: bool) returns (o: Outcome)
    requires c.Valid()
    modifies c, c.indexes`docs, c.indexes.indexes
    ensures c.Valid() <==> !Harms(InsertCall(docs, generated), old(c.documents), o)
    ensures Harmed(c.documents, o) <==> Harms(InsertCall(docs, generated), old(c.documents), o)
    ensures c.Agreed() <==> !Stranded(o)
  {
    hide InMemoryCollection.Valid, InMemoryCollection.Agreed, Carries, CanInsert, Readable, Harmed, Has, DocsOf, IndexSet.AllUnique,
         KeysStayDistinct, WithId, InMemoryCollection.Acceptable;
    ghost var before := c.documents;
    ValidParts(c);
    var ok, accepted, threw, batch := c.InsertDocuments(docs, generated, journalOk);
    o := Outcome(ok, accepted, threw);
    if c.Valid() {
      ValidParts(c);
      SoundUnharmed(c.documents, o);
    } else if ok {
      forall i | 0 <= i < accepted ensures Readable(batch[i].document) <==> KeysStayDistinct(Doc(WithId(docs[i], generated(i)))) {
        CarriedIsReadable(batch[i], WithId(docs[i], generated(i)));
      }
      BatchHarmed(before, batch, accepted, o);
    } else {
      StrandedHarmed(c.documents, o);
    }
  }

  lemma StrandedHarmed(entries: seq<Entry>, o: Outcome)
    requires Stranded(o)
    ensures Harmed(entries, o)
  {}

  method PerformUpdate(c: InMemoryCollection, f: Value, list: seq<Instructions.Instruction>, many: bool, journalOk: bool,
                       prefer: (Plan, Plan) -> bool)
    returns (o: Outcome)
    requires c.Valid() && Admissible(UpdateCall(f, list, many))
    modifies c, c.indexes`docs, c.indexes.indexes
    ensures c.Agreed() && !Stranded(o) && (c.Valid() <==> !Harms(UpdateCall(f, list, many), old(c.documents), o))
    ensures Harmed(c.documents, o) <==> Harms(UpdateCall(f, list, many), old(c.documents), o)
  {
    hide InMemoryCollection.Valid, InMemoryCollection.Agreed, Readable, ReadableEdits, Harmed, Selected, Compiled, Updates, Applies,
         Instructions.Overlap, IndexSet.AllUnique, ValidFilter, DocsOf, Edited, Proper;
    ghost var before := c.documents;
    ValidParts(c);
    var ok, matched, modified := c.Update(f, list, many, journalOk, prefer);
    o := Outcome(ok, 0, false);
    if c.Valid() {
      ValidParts(c);
      SoundUnharmed(c.documents, o);
    } else {
      ghost var chosen := Selected(before, f, many);
      SelectedDistinct(before, f, many);
      ListedProper(before, chosen);
      UpdatesPrepared(chosen, list);
      EditsHarmed(before, Updates(chosen, Compiled(list)), o);
    }
  }

  method PerformOther(c: InMemoryCollection, call: Call, journalOk: bool, prefer: (Plan, Plan) -> bool) returns (o: Outcome)
    requires c.Valid() && !call.InsertCall? && !call.UpdateCall?
    modifies c, c.indexes, c.indexes.indexes
    ensures c.Valid() && !Harmed(c.documents, o) && !Stranded(o)
    ensures forall x | x in c.indexes.indexes :: x in old(c.indexes.indexes) || fresh(x)
  {
    hide InMemoryCollection.Valid, Readable, Harmed, Selected, IndexSet.Creatable, ValidFilter, Edited, SetDocument, Encode, DocumentCodec.Fits;
    o := Outcome(false, 0, false);
    match call {
      case DeleteCall(f, many) =>
        var ok, deleted := c.Delete(f, many, journalOk, prefer);
        o := Outcome(ok, 0, false);
      case ReplaceCall(f, replacement) =>
        var ok, modified := c.Replace(f, replacement, journalOk, prefer);
        o := Outcome(ok, 0, false);
      case CreateIndexCall(spec) =>
        ghost var was := c.indexes.indexes;
        var r, ok := c.CreateIndex(spec, journalOk);
        assert r.Created? && ok ==> c.indexes.indexes == was + [c.indexes.indexes[|was|]];
        o := Outcome(ok, 0, false);
      case DropIndexCall(name) =>
        var ok := c.DropIndex(name, journalOk);
        o := Outcome(ok, 0, false);
    }
    ValidParts(c);
    SoundUnharmed(c.documents, o);
  }

  /** Performs one call. The collection stays valid exactly when the call does not harm it. */
  method Perform(c: InMemoryCollection, call: Call, journalOk: bool, prefer: (Plan, Plan) -> bool) returns (o: Outcome)
    requires c.Valid() && Admissible(call)
    modifies c, c.indexes, c.indexes.indexes
    ensures c.Valid() <==> !Harms(call, old(c.documents), o)
    ensures Harmed(c.documents, o) <==> Harms(call, old(c.documents), o)
    ensures c.Agreed() <==> !Stranded(o)
    ensures forall x | x in c.indexes.indexes :: x in old(c.indexes.indexes) || fresh(x)
  {
    hide InMemoryCollection.Valid, InMemoryCollection.Agreed, Admissible, Readable, ReadableEdits, Harmed, Selected, Compiled, Updates;
    if call.InsertCall? {
      o := PerformInsert(c, call.docs, call.generated, journalOk);
    } else if call.UpdateCall? {
      o := PerformUpdate(c, call.f, call.list, call.many, journalOk, prefer);
    } else {
      o := PerformOther(c, call, journalOk, prefer);
      ValidParts(c);
    }
  }

  /**
   * Index agreement over whole runs: after any sequence of calls, each with a journal that
   * accepts or refuses it, every index is exactly what a rebuild from the documents gives and
   * validation has nothing to report, unless and until a call harms the collection; the run
   * ends there.
   */
  method Run(calls: seq<Call>, journal: nat -> bool, prefer: (Plan, Plan) -> bool)
    returns (c: InMemoryCollection, done: seq<Outcome>, issues: seq<text>, ghost stored: seq<seq<Entry>>)
    requires forall i | 0 <= i < |calls| :: Admissible(calls[i])
    ensures |done| <= |calls| && |stored| == |done| && forall i | 0 <= i < |done| - 1 :: !Harms(calls[i], stored[i], done[i])
    ensures c.Valid() <==> done == [] || !Harms(calls[|done| - 1], stored[|done| - 1], done[|done| - 1])
    ensures fresh(c) && fresh(c.indexes) && fresh(c.indexes.indexes)
    ensures c.Valid() ==> |done| == |calls| && issues == []
    ensures c.Agreed() <==> done == [] || !Stranded(done[|done| - 1])
    ensures !c.Valid() ==> Harmed(c.documents, done[|done| - 1])
  {
    hide InMemoryCollection.Valid, InMemoryCollection.Agreed, Admissible, Harms, Harmed;
    c := new InMemoryCollection();
    done, stored, issues := [], [], [];
    ValidParts(c);
    for i := 0 to |calls|
      invariant fresh(c) && fresh(c.indexes) && c.Valid() && c.Agreed()
      invariant done == [] || !Stranded(done[|done| - 1])
      invariant fresh(c.indexes.indexes)
      invariant |done| == |stored| == i
      invariant forall j | 0 <= j < i :: !Harms(calls[j], stored[j], done[j])
    {
      stored := stored + [c.documents];
      ghost var was := c.indexes.indexes;
      var o := Perform(c, calls[i], journal(i), prefer);
      if !Harmed(c.documents, o) {
        ValidParts(c);
      }
      assert forall x | x in c.indexes.indexes :: x in was || fresh(x);
      assert forall j | 0 <= j < |c.indexes.indexes| :: c.indexes.indexes[j] in c.indexes.indexes;
      done := done + [o];
      if Harmed(c.documents, o) {
        return;
      }
    }
    issues := c.ValidateIndexes();
  }
}
