/**
 * Documents with keys that collide once a leading U+FEFF is dropped, and what they do to
 * packages/storage/src/in-memory-collection.ts.
 */
module CollidingKeys {
  import opened Bytes
  import opened Text
  import opened Values
  import opened DocumentCodec
  import opened Filter
  import opened Operations
  import opened Replaying
  import opened Legibility
  import opened Cursor
  import opened Index = FieldIndex
  import opened Indexes = IndexSet
  import Instructions = Update
  import opened Collection = InMemoryCollection

  const A: text := [0x61]
  const MARKED_A: text := BOM + A
  const TWICE_MARKED_A: text := BOM + MARKED_A
  const N: text := [0x6E]

  function KeyOf(n: byte): (k: bytes)
    ensures |k| == CUSTOM_ID_BYTE_LENGTH
  {
    seq(CUSTOM_ID_BYTE_LENGTH, _ => n)
  }

  function Simple(n: byte): Document {
    map[ID := Id(KeyOf(n))]
  }

  function Colliding(n: byte): Document {
    map[ID := Id(KeyOf(n)), A := Null, MARKED_A := Null]
  }

  ghost function Stored(n: byte, d: Document): Entry {
    Entry(KeyOf(n), Encode(Doc(d)))
  }

  ghost predicate AllUtf8() {
    UTF8(ID) && UTF8(A) && UTF8(MARKED_A) && UTF8(TWICE_MARKED_A) && UTF8(N)
  }

  /** Short keys, and no values but ids and null. */
  ghost predicate Small(d: Document) {
    |d| <= 4 && forall k | k in d :: UTF8(k) && |k| <= 7 && (d[k] == Null || (d[k].Id? && |d[k].id| == CUSTOM_ID_BYTE_LENGTH))
  }

  lemma {:induction false} SmallFields(d: Document, keys: set<text>)
    requires Small(d) && keys <= d.Keys
    ensures FieldsSize(Doc(d), keys) <= 28 * |keys|
    decreases |keys|
  {
    if keys != {} {
      var k :| k in keys;
      SmallField(d, keys, k);
      SmallFields(d, keys - {k});
    } else {
      Cursor.NoFields(Doc(d));
    }
  }

  lemma SmallField(d: Document, keys: set<text>, k: text)
    requires Small(d) && keys <= d.Keys && k in keys
    ensures FieldsSize(Doc(d), keys) <= 28 + FieldsSize(Doc(d), keys - {k})
  {
    hide FieldsSize;
    AnySize(Doc(d), keys, k);
  }

  lemma SmallFits(d: Document)
    requires Small(d)
    ensures DocumentCodec.Fits(Doc(d), 0)
  {
    assert forall k | k in d :: DocumentCodec.Fits(d[k], 1);
  }

  lemma SmallEncodable(d: Document)
    requires Small(d)
    ensures Encodable(Doc(d))
  {
    hide Encode, FieldsSize, Estimate;
    DocumentSize(Doc(d));
    EstimateCovers(Doc(d));
    SmallFields(d, d.Keys);
    assert |d.Keys| == |d|;
    SmallFits(d);
  }

  lemma SimpleStored(n: byte)
    requires AllUtf8()
    ensures Prepared(Stored(n, Simple(n))) && Readable(Stored(n, Simple(n)).document) && DocOf(Stored(n, Simple(n)).document) == Simple(n)
  {
    hide Encode, Decode, DocumentCodec.Fits, KeyOf;
    var d := Simple(n);
    SmallEncodable(d);
    assert Carries(Stored(n, d), d);
    assert ID[0] != BOM[0];
    assert Unmarked(Id(KeyOf(n)));
    DocumentRoundTrip(Doc(d));
  }

  lemma CollidingStored(n: byte)
    requires AllUtf8()
    ensures Prepared(Stored(n, Colliding(n))) && !Readable(Stored(n, Colliding(n)).document)
  {
    hide Encode, Decode, DocumentCodec.Fits, DecodeText, KeyOf;
    var d := Colliding(n);
    CollidingIsSmall(n);
    SmallEncodable(d);
    assert Carries(Stored(n, d), d);
    MarkIsDropped();
    CollidingKeysUnreadable(Doc(d), A, MARKED_A);
  }

  lemma CollidingIsSmall(n: byte)
    requires AllUtf8()
    ensures Small(Colliding(n)) && ID in Colliding(n) && Colliding(n)[ID] == Id(KeyOf(n)) && A in Colliding(n) && MARKED_A in Colliding(n)
  {
    hide KeyOf;
    AddSmall(map[], ID, Id(KeyOf(n)));
    AddSmall(map[ID := Id(KeyOf(n))], A, Null);
    AddSmall(map[ID := Id(KeyOf(n)), A := Null], MARKED_A, Null);
    KeyLengths();
  }

  lemma KeyLengths()
    ensures |ID| == 3 && |A| == 1 && |MARKED_A| == 4 && |TWICE_MARKED_A| == 7 && |N| == 1
  {}

  lemma AddSmall(d: Document, k: text, v: Value)
    requires Small(d) && |d| < 4 && UTF8(k) && |k| <= 7 && (v == Null || (v.Id? && |v.id| == CUSTOM_ID_BYTE_LENGTH))
    ensures Small(d[k := v])
  {}

  lemma MarkIsDropped()
    requires AllUtf8()
    ensures A != MARKED_A && DecodeText(MARKED_A) == DecodeText(A)
  {
    assert |A| == 1 && |MARKED_A| == 4 && MARKED_A[3..] == A;
    assert A[0] != BOM[0];
  }

  lemma KeysApart(m: byte, n: byte)
    requires m != n
    ensures KeyOf(m) != KeyOf(n)
  {
    assert KeyOf(m)[0] == m && KeyOf(n)[0] == n;
  }

  ghost predicate OneUnique(c: InMemoryCollection)
    reads c.indexes, c.indexes.indexes
  {
    && |c.indexes.indexes| == 1 && c.indexes.indexes[0].segments == Split(N)
    && c.indexes.indexes[0].spec == IndexSpec(N, N, false, true, false)
  }

  /** One document is always unique. */
  lemma OneIsUnique(c: InMemoryCollection, e: Entry)
    requires OneUnique(c)
    ensures DistinctIds([e]) && c.indexes.AllUnique(DocsOf([e]))
    ensures DocsOf([e]) == map[e.id := DocOf(e.document)]
  {
    hide DocOf, DocsOf, Split;
    forall k: bytes
      ensures k in DocsOf([e]) <==> k == e.id
      ensures k == e.id ==> DocsOf([e])[k] == DocOf(e.document)
    {
      assert [e][0] == e;
      DocsAt([e], k);
    }
  }

  /** Two documents without the field are not. */
  lemma TwoClash(c: InMemoryCollection, m: byte, n: byte)
    requires OneUnique(c) && m != n
    ensures !c.indexes.AllUnique(map[KeyOf(m) := Simple(m)][KeyOf(n) := Simple(n)])
  {
    hide Split, KeyOf;
    KeysApart(m, n);
    var docs := map[KeyOf(m) := Simple(m)][KeyOf(n) := Simple(n)];
    NoField(m);
    NoField(n);
    assert KeyOf(m) in docs && KeyOf(n) in docs;
    assert !UniqueFor(c.indexes.indexes[0].spec, c.indexes.indexes[0].segments, docs);
  }

  lemma NoField(n: byte)
    ensures Resolve(Simple(n), Split(N)) == None
  {
    hide KeyOf;
    assert Split(N)[0] == N;
    assert N[0] != ID[0];
  }

  /**
   * One unique index, and the batch of a simple document and a colliding one: the insert
   * fails and stores nothing, yet the index holds the first document, so another document
   * with the same missing field is refused by an empty collection.
   */
  method Strand(batch: seq<Entry>, other: Entry) returns (c: InMemoryCollection, threw: bool, r: Tracked)
    requires AllUtf8()
    requires batch == [Stored(1, Simple(1)), Stored(2, Colliding(2))] && other == Stored(3, Simple(3))
    ensures threw && c.documents == [] && c.indexes.docs == map[KeyOf(1) := Simple(1)] && !c.Agreed() && r.Conflict?
  {
    hide DocOf, DocsOf, Readable, Prepared, Encode, Simple, Colliding, Split, KeyOf, FieldIndex.Valid, UniqueFor, Sound, Numbered,
         IndexSet.AllUnique, IndexSet.AllAt, IndexSet.UndoableFrom;
    SimpleStored(1);
    SimpleStored(3);
    CollidingStored(2);
    KeysApart(1, 2);
    KeysApart(1, 3);
    c := Indexed();
    threw := InsertBoth(c, batch);
    TwoClash(c, 1, 3);
    r := c.TrackInsert(other);
  }

  method InsertBoth(c: InMemoryCollection, batch: seq<Entry>) returns (threw: bool)
    requires c.Valid() && c.documents == [] && OneUnique(c) && |batch| == 2 && batch[0].id != batch[1].id
    requires Prepared(batch[0]) && Prepared(batch[1]) && Readable(batch[0].document) && !Readable(batch[1].document)
    modifies c, c.indexes`docs, c.indexes.indexes
    ensures threw && c.documents == [] && c.indexes.Valid() && c.indexes.docs == map[batch[0].id := DocOf(batch[0].document)]
    ensures !c.Agreed()
  {
    hide DocOf, DocsOf, Readable, Prepared, FieldIndex.Valid, UniqueFor, Sound, Numbered, IndexSet.AllUnique, IndexSet.AllAt;
    OneIsUnique(c, batch[0]);
    assert batch[..1] == [batch[0]] && [] + [batch[0]] == [batch[0]] && batch[..2] == batch;
    assert c.Acceptable([], batch, 1);
    assert !c.Acceptable([], batch, 2) by {
      assert !Readable(batch[1].document);
    }
    var ok, accepted;
    ok, accepted, threw := c.InsertMany(batch, true);
  }

  lemma NothingStored(c: InMemoryCollection)
    requires c.Valid() && c.documents == []
    ensures c.indexes.docs == map[]
  {
    hide DocOf;
    forall k: bytes ensures k !in DocsOf([]) {
      DocsAt([], k);
    }
  }

  lemma FieldOf(c: InMemoryCollection)
    requires c.Valid() && |c.indexes.indexes| > 0
    ensures var x := c.indexes.indexes[0]; x.segments == Split(x.spec.field)
  {
    hide ValuesAgree, Split, DocsOf, Sound, Numbered, UniqueFor;
    assert c.indexes.indexes[0].Valid();
  }

  method Indexed() returns (c: InMemoryCollection)
    ensures c.Valid() && c.documents == [] && OneUnique(c) && fresh(c) && fresh(c.indexes) && fresh(c.indexes.indexes)
  {
    hide DocOf, DocsOf, Split, FieldIndex.Valid;
    c := new InMemoryCollection();
    var spec := IndexSpec(N, N, false, true, false);
    NothingStored(c);
    assert c.indexes.Creatable(spec);
    var created, ok := c.CreateIndex(spec, true);
    FieldOf(c);
  }

  // ---------------------------------------------------------------- updates

  function Marked(n: byte): Document {
    map[ID := Id(KeyOf(n)), A := Null, TWICE_MARKED_A := Null]
  }

  /** This one can be read: one mark is dropped, and the keys still differ. */
  lemma MarkedStored(n: byte)
    requires AllUtf8()
    ensures Proper(Stored(n, Marked(n))) && DocOf(Stored(n, Marked(n)).document) == Colliding(n)
  {
    hide Encode, Decode, DocumentCodec.Fits, KeyOf, KeysStayDistinct, TextOk, DecodeText;
    var d := Marked(n);
    MarkedIsSmall(n);
    SmallEncodable(d);
    assert Carries(Stored(n, d), d);
    MarkedKeys(n);
    CarriedIsReadable(Stored(n, d), d);
    FieldsSurvive(d);
    ReadsMarked(n, DocOf(Stored(n, d).document));
  }

  lemma MarkedIsSmall(n: byte)
    requires AllUtf8()
    ensures Small(Marked(n)) && Marked(n).Keys == {ID, A, TWICE_MARKED_A} && ID in Marked(n) && Marked(n)[ID] == Id(KeyOf(n))
  {
    hide KeyOf;
    KeyLengths();
    AddSmall(map[], ID, Id(KeyOf(n)));
    AddSmall(map[ID := Id(KeyOf(n))], A, Null);
    AddSmall(map[ID := Id(KeyOf(n)), A := Null], TWICE_MARKED_A, Null);
  }

  lemma Decoded()
    requires AllUtf8()
    ensures DecodeText(ID) == Some(ID) && DecodeText(A) == Some(A) && DecodeText(TWICE_MARKED_A) == Some(MARKED_A)
    ensures |{ID, A, MARKED_A}| == 3
  {
    KeyLengths();
    assert ID[0] != BOM[0] && A[0] != BOM[0];
    assert TWICE_MARKED_A[3..] == MARKED_A;
  }

  lemma MarkedKeys(n: byte)
    requires AllUtf8()
    ensures KeysStayDistinct(Doc(Marked(n)))
  {
    hide KeyOf, DecodeText;
    Decoded();
    KeyLengths();
    MarkedIsSmall(n);
    assert forall k | k in Marked(n) :: KeysStayDistinct(Marked(n)[k]);
  }

  lemma ThreeFields(d: Document, w: Document, x: text, y: text, z: text, name: text)
    requires ReadsAs(d, w) && d.Keys == {x, y, z} && x != y && name != x && name != y
    requires DecodeText(x) == Some(x) && DecodeText(y) == Some(y) && DecodeText(z) == Some(name)
    requires forall k | k in d :: TextOk(d[k], DecodeText)
    ensures w == map[x := d[x], y := d[y], name := d[z]]
  {
    hide DecodeText, TextOk;
    assert x in d && y in d && z in d;
    forall j | j in w ensures j in {x, y, name} {
      assert FromSome(d, j);
    }
    assert w.Keys == {x, y, name};
  }

  lemma ReadsMarked(n: byte, w: Document)
    requires AllUtf8() && ReadsAs(Marked(n), w)
    ensures w == Colliding(n)
  {
    hide KeyOf, DecodeText, ReadsAs, Small;
    Decoded();
    MarkedIsSmall(n);
    KeyLengths();
    assert forall k | k in Marked(n) :: TextOk(Marked(n)[k], DecodeText);
    ThreeFields(Marked(n), w, ID, A, TWICE_MARKED_A, MARKED_A);
  }

  /**
   * Setting another field of that document gives one that cannot be read any more. An indexed
   * collection and `updateOne` refuse it; `updateMany` without an index stores it.
   */
  lemma MarksWearOff(n: byte)
    requires AllUtf8()
    ensures
      var list := [Instructions.Instruction(Instructions.Set, [N], Null)];
      var next := Compiled(list)(Stored(n, Marked(n)).document);
      Instructions.Accepted(list) && next.Some? && !Readable(next.value)
  {
    hide Encode, Decode, DocumentCodec.Fits, KeyOf, KeysStayDistinct, DecodeText, Small, DocOf;
    var list := [Instructions.Instruction(Instructions.Set, [N], Null)];
    MarkedStored(n);
    CollidingIsSmall(n);
    KeyLengths();
    assert N[0] != ID[0] && N[0] != A[0];
    var d := Colliding(n);
    var after := d[N := Null];
    SetsField(d, N, Null);
    SmallAfter(n);
    SmallEncodable(after);
    MarkIsDropped();
    CollidingKeysUnreadable(Doc(after), A, MARKED_A);
  }

  lemma SetsField(d: Document, k: text, v: Value)
    ensures Instructions.ApplyAll(Some(d), [Instructions.Instruction(Instructions.Set, [k], v)]) == Some(d[k := v])
  {
    var i := Instructions.Instruction(Instructions.Set, [k], v);
    assert [i][1..] == [] && [k][1..] == [];
    assert Instructions.ApplyAt(d, [k], Instructions.Set, v) == Some(d[k := v]);
    assert Instructions.ApplyAll(Instructions.Then(Some(d), i), []) == Instructions.Then(Some(d), i);
  }

  lemma SmallAfter(n: byte)
    requires AllUtf8()
    ensures Small(Colliding(n)[N := Null])
  {
    hide KeyOf;
    CollidingIsSmall(n);
    KeyLengths();
    assert |Colliding(n)| <= 3;
    AddSmall(Colliding(n), N, Null);
  }
}
