/** Replaying log records over a snapshot: `applyRecovered` in packages/storage/src/engine/storage-engine.ts. */
module Replaying {
  import opened Bytes
  import opened Text
  import opened WalFormat
  import opened Operations

  datatype Entry = Entry(id: bytes, document: bytes)

  /** A collection: its documents in insertion order, and its index definitions in creation order. */
  datatype Collection = Collection(documents: seq<Entry>, indexes: seq<IndexSpec>)

  type State = map<Namespace, Collection>

  /** Setting a key keeps its place in the order; a new key goes last. */
  function SetDocument(docs: seq<Entry>, id: bytes, document: bytes): seq<Entry> {
    if docs == [] then [Entry(id, document)]
    else if docs[0].id == id then [Entry(id, document)] + docs[1..]
    else [docs[0]] + SetDocument(docs[1..], id, document)
  }

  function DeleteDocument(docs: seq<Entry>, id: bytes): seq<Entry> {
    if docs == [] then []
    else if docs[0].id == id then docs[1..]
    else [docs[0]] + DeleteDocument(docs[1..], id)
  }

  function FindIndex(indexes: seq<IndexSpec>, name: text): (i: nat)
    ensures i <= |indexes|
    ensures i < |indexes| ==> indexes[i].name == name
    ensures forall j | 0 <= j < i :: indexes[j].name != name
  {
    if indexes == [] || indexes[0].name == name then 0 else 1 + FindIndex(indexes[1..], name)
  }

  predicate SameDefinition(a: IndexSpec, b: IndexSpec) {
    a.field == b.field && a.descending == b.descending && a.unique == b.unique && a.sparse == b.sparse
  }

  /** None when the record cannot be applied, which makes recovery fail. */
  function Apply(s: State, op: Operation): Option<State> {
    if op.CreateCollection? then
      Some(if op.ns in s then s else s[op.ns := Collection([], [])])
    else if op.ns !in s then None
    else
      var c := s[op.ns];
      match op
      case Put(ns, id, document) => Some(s[ns := c.(documents := SetDocument(c.documents, id, document))])
      case Delete(ns, id) => Some(s[ns := c.(documents := DeleteDocument(c.documents, id))])
      case CreateIndex(ns, index) =>
        var i := FindIndex(c.indexes, index.name);
        if i == |c.indexes| then Some(s[ns := c.(indexes := c.indexes + [index])])
        else if SameDefinition(c.indexes[i], index) then Some(s)
        else None
      case DropIndex(ns, name) =>
        var i := FindIndex(c.indexes, name);
        if i == |c.indexes| then None
        else Some(s[ns := c.(indexes := c.indexes[..i] + c.indexes[i + 1..])])
  }

  function ApplyAll(s: State, ops: seq<Operation>): Option<State>
    decreases |ops|
  {
    if ops == [] then Some(s) else
    match Apply(s, ops[0])
    case None => None
    case Some(s') => ApplyAll(s', ops[1..])
  }

  /** A record takes effect as a whole or stops recovery. */
  function ApplyRecord(s: State, r: Record): Option<State> {
    if r.kind != TRANSACTION then None else
    match DecodeOperations(r.payload)
    case None => None
    case Some(ops) => ApplyAll(s, ops)
  }

  function Replay(s: State, rs: seq<Record>): Option<State>
    decreases |rs|
  {
    if rs == [] then Some(s) else
    match ApplyRecord(s, rs[0])
    case None => None
    case Some(s') => Replay(s', rs[1..])
  }

  lemma {:induction false} ReplayAppend(s: State, a: seq<Record>, b: seq<Record>)
    ensures Replay(s, a + b) == match Replay(s, a) case None => None case Some(s') => Replay(s', b)
    decreases |a|
  {
    hide ApplyRecord;
    if a == [] {
      assert a + b == b;
    } else {
      assert (a + b)[1..] == a[1..] + b;
      if ApplyRecord(s, a[0]).Some? {
        ReplayAppend(ApplyRecord(s, a[0]).value, a[1..], b);
      }
    }
  }

  lemma ReplayOne(s: State, r: Record)
    ensures Replay(s, [r]) == ApplyRecord(s, r)
  {
    hide ApplyRecord;
    if ApplyRecord(s, r).Some? {
      assert [r][1..] == [];
    }
  }

  /** Creating an index that is already there changes nothing: this is what absorbs a snapshot taken early. */
  lemma CreateIndexTwice(s: State, op: Operation)
    requires op.CreateIndex? && Apply(s, op).Some?
    ensures Apply(Apply(s, op).value, op) == Apply(s, op)
  {
    var c := s[op.ns];
    var i := FindIndex(c.indexes, op.index.name);
    if i == |c.indexes| {
      var c' := Apply(s, op).value[op.ns];
      assert c'.indexes == c.indexes + [op.index];
      var j := FindIndex(c'.indexes, op.index.name);
      assert forall k | 0 <= k < |c.indexes| :: c'.indexes[k] == c.indexes[k];
      assert c'.indexes[|c.indexes|] == op.index;
      assert j == |c.indexes|;
      assert Apply(s, op).value[op.ns := c'] == Apply(s, op).value;
    }
  }

  // ---------------------------------------------------------------- what an operation does

  /** Index definitions are known by their names. */
  ghost predicate DistinctNames(indexes: seq<IndexSpec>) {
    forall i, j | 0 <= i < j < |indexes| :: indexes[i].name != indexes[j].name
  }

  /** The definitions with other names, in their order. */
  function OtherNames(indexes: seq<IndexSpec>, name: text): (r: seq<IndexSpec>)
    ensures forall x | x in r :: x in indexes && x.name != name
  {
    if indexes == [] then []
    else (if indexes[0].name != name then [indexes[0]] else []) + OtherNames(indexes[1..], name)
  }

  lemma {:induction false} OtherNamesCut(indexes: seq<IndexSpec>, i: nat)
    requires DistinctNames(indexes) && i < |indexes|
    ensures OtherNames(indexes, indexes[i].name) == indexes[..i] + indexes[i + 1..]
  {
    hide OtherNames;
    var name := indexes[i].name;
    OtherNamesStep(indexes, name);
    if i == 0 {
      NoSuchName(indexes[1..], name);
      assert indexes[..0] + indexes[1..] == indexes[1..];
    } else {
      OtherNamesCut(indexes[1..], i - 1);
      CutTail(indexes, i);
    }
  }

  lemma OtherNamesStep(indexes: seq<IndexSpec>, name: text)
    requires indexes != []
    ensures indexes[0].name == name ==> OtherNames(indexes, name) == OtherNames(indexes[1..], name)
    ensures indexes[0].name != name ==> OtherNames(indexes, name) == [indexes[0]] + OtherNames(indexes[1..], name)
  {}

  lemma CutTail<T>(s: seq<T>, i: nat)
    requires 0 < i < |s|
    ensures [s[0]] + (s[1..][..i - 1] + s[1..][i..]) == s[..i] + s[i + 1..]
  {}

  lemma {:induction false} NoSuchName(indexes: seq<IndexSpec>, name: text)
    requires forall i | 0 <= i < |indexes| :: indexes[i].name != name
    ensures OtherNames(indexes, name) == indexes
  {
    if indexes != [] {
      NoSuchName(indexes[1..], name);
    }
  }

  lemma {:induction false} OtherNamesKeep(indexes: seq<IndexSpec>, name: text, x: IndexSpec)
    requires x in indexes && x.name != name
    ensures x in OtherNames(indexes, name)
  {
    if indexes[0] != x {
      OtherNamesKeep(indexes[1..], name, x);
    }
  }

  ghost predicate Named(indexes: seq<IndexSpec>, name: text) {
    exists i | 0 <= i < |indexes| :: indexes[i].name == name
  }

  /**
   * Replaying the drop of an index fails exactly if there is none of that name. It takes away
   * that definition and keeps every other one, in order, and the documents and every other
   * collection as they are.
   */
  lemma DropIndexExactly(s: State, ns: Namespace, name: text)
    requires ns in s && DistinctNames(s[ns].indexes)
    ensures Apply(s, DropIndex(ns, name)).Some? <==> Named(s[ns].indexes, name)
    ensures Apply(s, DropIndex(ns, name)).Some? ==>
      var after := OtherNames(s[ns].indexes, name);
      && Apply(s, DropIndex(ns, name)) == Some(s[ns := Collection(s[ns].documents, after)])
      && !Named(after, name) && |after| == |s[ns].indexes| - 1
      && forall x | x in s[ns].indexes && x.name != name :: x in after
  {
    var indexes := s[ns].indexes;
    var i := FindIndex(indexes, name);
    if i < |indexes| {
      OtherNamesCut(indexes, i);
      var after := OtherNames(indexes, name);
      assert forall j | 0 <= j < |after| :: after[j] in after;
      forall x | x in indexes && x.name != name ensures x in after {
        OtherNamesKeep(indexes, name, x);
      }
    }
  }

  /**
   * Replaying the creation of an index adds the definition last if its name is free, changes
   * nothing if the same definition is there, and fails if another one has the name.
   */
  lemma CreateIndexExactly(s: State, ns: Namespace, x: IndexSpec)
    requires ns in s && DistinctNames(s[ns].indexes)
    ensures !Named(s[ns].indexes, x.name) ==>
      Apply(s, CreateIndex(ns, x)) == Some(s[ns := Collection(s[ns].documents, s[ns].indexes + [x])])
    ensures forall i | 0 <= i < |s[ns].indexes| && s[ns].indexes[i].name == x.name ::
      Apply(s, CreateIndex(ns, x)) == if SameDefinition(s[ns].indexes[i], x) then Some(s) else None
  {}

  /** Replaying the creation of a collection never touches one that is there. */
  lemma CreateCollectionExactly(s: State, ns: Namespace)
    ensures
      var t := Apply(s, CreateCollection(ns));
      && t.Some? && t.value.Keys == s.Keys + {ns}
      && (forall m | m in s :: t.value[m] == s[m])
      && (ns !in s ==> t.value[ns] == Collection([], []))
  {}

  ghost predicate AllDistinct(s: State) {
    forall ns | ns in s :: DistinctNames(s[ns].indexes)
  }

  lemma ApplyKeepsNames(s: State, op: Operation)
    requires AllDistinct(s) && Apply(s, op).Some?
    ensures AllDistinct(Apply(s, op).value)
  {
    var t := Apply(s, op).value;
    forall ns | ns in t ensures DistinctNames(t[ns].indexes) {
      if ns != op.ns {
        ApplyElsewhere(s, op, ns);
      }
    }
  }

  lemma {:induction false} ApplyAllKeepsNames(s: State, ops: seq<Operation>)
    requires AllDistinct(s) && ApplyAll(s, ops).Some?
    ensures AllDistinct(ApplyAll(s, ops).value)
    decreases |ops|
  {
    hide Apply, AllDistinct;
    if ops != [] {
      ApplyKeepsNames(s, ops[0]);
      ApplyAllKeepsNames(Apply(s, ops[0]).value, ops[1..]);
    }
  }

  /** Whatever a log holds, the state it replays to has no two indexes of one name in a collection. */
  lemma {:induction false} ReplayKeepsNames(s: State, rs: seq<Record>)
    requires AllDistinct(s) && Replay(s, rs).Some?
    ensures AllDistinct(Replay(s, rs).value)
    decreases |rs|
  {
    hide ApplyAll, DecodeOperations, AllDistinct;
    if rs != [] {
      var ops := DecodeOperations(rs[0].payload).value;
      ApplyAllKeepsNames(s, ops);
      ReplayKeepsNames(ApplyRecord(s, rs[0]).value, rs[1..]);
    }
  }

  // ---------------------------------------------------------------- marked names

  /** Removing two different elements leaves two different lists. */
  lemma {:induction false} RemovalsDiffer<T>(list: seq<T>, i: nat, j: nat)
    requires i < j < |list| && list[i] != list[j]
    ensures list[..i] + list[i + 1..] != list[..j] + list[j + 1..]
    decreases j - i
  {
    var a, b := list[..i] + list[i + 1..], list[..j] + list[j + 1..];
    if j == i + 1 {
      assert a[i] == list[j] && b[i] == list[i];
    } else if list[i] != list[i + 1] {
      assert a[i] == list[i + 1] && b[i] == list[i];
    } else {
      RemovalsDiffer(list, i + 1, j);
      assert list[..i + 1] + list[i + 2..] == a;
    }
  }

  /** An operation touches no namespace but its own. */
  lemma ApplyElsewhere(s: State, op: Operation, ns: Namespace)
    requires op.ns != ns && Apply(s, op).Some?
    ensures
      var t := Apply(s, op).value;
      (ns in t <==> ns in s) && (ns in s ==> t[ns] == s[ns])
  {}

  lemma DropOther(s: State, a: Operation, b: Operation)
    requires a.DropIndex? && b.DropIndex? && a.ns == b.ns && a.name != b.name && Apply(s, a).Some?
    ensures Apply(s, b) != Apply(s, a)
  {
    var list := s[a.ns].indexes;
    var i, j := FindIndex(list, a.name), FindIndex(list, b.name);
    if j < |list| {
      RemovalsDiffer(list, if i < j then i else j, if i < j then j else i);
      assert Apply(s, a).value[a.ns].indexes != Apply(s, b).value[a.ns].indexes;
    }
  }

  lemma CreateOther(s: State, a: Operation, b: Operation)
    requires a.CreateIndex? && b.CreateIndex? && a.ns == b.ns && a.index != b.index
    requires Apply(s, a).Some? && Apply(s, a) != Some(s)
    ensures Apply(s, b) != Apply(s, a)
  {
    var list := s[a.ns].indexes;
    assert Apply(s, a).value[a.ns].indexes == list + [a.index];
    if Apply(s, b).Some? {
      var after := Apply(s, b).value[a.ns].indexes;
      assert after == list || after == list + [b.index];
      assert (list + [a.index])[|list|] == a.index && (list + [b.index])[|list|] == b.index;
    }
  }

  /** Another operation of the same kind, on another namespace or another index, does something else. */
  lemma OtherEffect(s: State, a: Operation, b: Operation)
    requires KindOf(a) == KindOf(b) && a != b && Apply(s, a).Some? && Apply(s, a) != Some(s)
    requires a.ns != b.ns || a.CreateIndex? || a.DropIndex?
    ensures Apply(s, b) != Apply(s, a)
  {
    hide Apply;
    if a.ns != b.ns {
      if Apply(s, b).Some? {
        ApplyElsewhere(s, b, a.ns);
        ChangesItsOwn(s, a);
      }
    } else if a.CreateIndex? {
      CreateOther(s, a, b);
    } else {
      DropOther(s, a, b);
    }
  }

  lemma ChangesItsOwn(s: State, op: Operation)
    requires Apply(s, op).Some? && Apply(s, op) != Some(s)
    ensures
      var t := Apply(s, op).value;
      op.ns in t && (op.ns in s ==> t[op.ns] != s[op.ns])
  {
    var t := Apply(s, op).value;
    assert op.ns in s && t[op.ns] == s[op.ns] ==> t == s;
  }

  lemma OneOperation(op: Operation)
    requires Fits(op)
    ensures EncodeOperations([op]).Some?
    ensures
      var r := ReadOperation(EncodeOperation(op) + []);
      DecodeOperations(EncodeOperations([op]).value) == if r.Got? && r.rest == [] then Some([r.value]) else None
  {
    hide ReadOperation, EncodeOperation, Fits;
    assert [op][0] == op && [op][1..] == [] && EncodeList([op]) == EncodeOperation(op) + [];
    Widths();
    TakeNatFront(1, 4, EncodeList([op]));
    var b := EncodeOperation(op) + [];
    ReadNextOperation(b, 1);
    var r := ReadOperation(b);
    if r.Got? {
      NothingToRead(r.rest);
      assert [r.value] + [] == [r.value];
    }
  }

  /**
   * What a name with a leading U+FEFF does: an operation that changes something is replayed
   * from the log with the same effect if and only if no name in it has that mark. With one,
   * what recovery restores is not what was in memory.
   */
  lemma MarkedNamesDiverge(s: State, op: Operation, lsn: nat)
    requires Fits(op) && Apply(s, op).Some? && Apply(s, op) != Some(s)
    ensures EncodeOperations([op]).Some?
    ensures ApplyRecord(s, Record(lsn, TRANSACTION, EncodeOperations([op]).value)) == Apply(s, op) <==> PlainOp(op)
  {
    hide Apply, ReadOperation, EncodeOperation, Fits, EncodeOperations, DecodeOperations;
    OneOperation(op);
    OperationRead(op, []);
    var r := ReadOperation(EncodeOperation(op) + []);
    if r.Got? {
      ApplyOne(s, r.value);
      if !PlainOp(op) {
        OtherEffect(s, op, r.value);
      }
    }
  }

  lemma ApplyOne(s: State, op: Operation)
    ensures ApplyAll(s, [op]) == Apply(s, op)
  {
    hide Apply;
    if Apply(s, op).Some? {
      assert [op][1..] == [];
      assert ApplyAll(Apply(s, op).value, [op][1..]) == Apply(s, op);
    }
  }
}
