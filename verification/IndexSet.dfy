/** packages/storage/src/indexing/index-set.ts: all indexes of one collection, changed as one unit. */
module IndexSet {
  import opened Bytes
  import opened Text
  import opened Values
  import opened Filter
  import opened Operations
  import opened Index = FieldIndex
  import Replaying

  const MAX_INDEXES_PER_COLLECTION := 32

  datatype Change = Change(key: Key, before: Option<Document>, after: Option<Document>)

  /** One entry of the undo list: add the document back, or remove it again. */
  datatype Undo = Undo(index: FieldIndex, add: bool, key: Key, document: Document)

  /** Undoing the list from its end takes what `x` holds from `docs` back to `goal`. */
  ghost predicate Unwinds(x: FieldIndex, docs: Documents, undo: seq<Undo>, goal: Documents)
    decreases |undo|
  {
    if undo == [] then docs == goal else
    var last, rest := undo[|undo| - 1], undo[..|undo| - 1];
    if last.index != x then Unwinds(x, docs, rest, goal)
    else if last.add then last.key !in docs && Unwinds(x, docs[last.key := last.document], rest, goal)
    else last.key in docs && docs[last.key] == last.document && Unwinds(x, docs - {last.key}, rest, goal)
  }

  lemma UnwindsOther(x: FieldIndex, docs: Documents, undo: seq<Undo>, goal: Documents, step: Undo)
    requires Unwinds(x, docs, undo, goal) && step.index != x
    ensures Unwinds(x, docs, undo + [step], goal)
  {
    assert (undo + [step])[..|undo|] == undo;
  }

  lemma UnwindsRemove(x: FieldIndex, docs: Documents, undo: seq<Undo>, goal: Documents, k: Key)
    requires Unwinds(x, docs, undo, goal) && k in docs
    ensures Unwinds(x, docs - {k}, undo + [Undo(x, true, k, docs[k])], goal)
  {
    assert (undo + [Undo(x, true, k, docs[k])])[..|undo|] == undo;
    assert (docs - {k})[k := docs[k]] == docs;
  }

  lemma UnwindsAdd(x: FieldIndex, docs: Documents, undo: seq<Undo>, goal: Documents, k: Key, d: Document)
    requires Unwinds(x, docs, undo, goal) && k !in docs
    ensures Unwinds(x, docs[k := d], undo + [Undo(x, false, k, d)], goal)
  {
    assert (undo + [Undo(x, false, k, d)])[..|undo|] == undo;
    assert docs[k := d] - {k} == docs;
  }

  /** Uniqueness of documents does not survive only by adding a document that clashes. */
  lemma UniqueAdd(spec: IndexSpec, segments: seq<text>, docs: Documents, k: Key, d: Document)
    requires UniqueFor(spec, segments, docs) && k !in docs
    ensures UniqueFor(spec, segments, docs[k := d]) <==>
      !(spec.unique && exists j | j in docs :: Clash(segments, spec.sparse, docs[j], d))
  {
    hide Resolve;
    var docs' := docs[k := d];
    if spec.unique && UniqueFor(spec, segments, docs') {
      forall j | j in docs ensures !Clash(segments, spec.sparse, docs[j], d) {
        assert docs'[j] == docs[j] && docs'[k] == d;
      }
    }
  }

  lemma UniqueSubset(spec: IndexSpec, segments: seq<text>, docs: Documents, more: Documents)
    requires UniqueFor(spec, segments, more) && forall k | k in docs :: k in more && docs[k] == more[k]
    ensures UniqueFor(spec, segments, docs)
  {
    hide Resolve;
  }

  // ---------------------------------------------------------------- what a batch does to the documents

  ghost function Removed(docs: Documents, changes: seq<Change>): Documents
    decreases |changes|
  {
    if changes == [] then docs else
    var rest := Removed(docs, changes[..|changes| - 1]);
    var c := changes[|changes| - 1];
    if c.before.Some? then rest - {c.key} else rest
  }

  ghost function Added(docs: Documents, changes: seq<Change>): Documents
    decreases |changes|
  {
    if changes == [] then docs else
    var rest := Added(docs, changes[..|changes| - 1]);
    var c := changes[|changes| - 1];
    if c.after.Some? then rest[c.key := c.after.value] else rest
  }

  /** The documents once the whole batch is in. */
  ghost function Changed(docs: Documents, changes: seq<Change>): Documents {
    Added(Removed(docs, changes), changes)
  }

  /** Keys are distinct, and each change starts from what is stored under its key. */
  ghost predicate Fitting(docs: Documents, changes: seq<Change>) {
    && (forall i, j | 0 <= i < j < |changes| :: changes[i].key != changes[j].key)
    && (forall i | 0 <= i < |changes| ::
          changes[i].before == if changes[i].key in docs then Some(docs[changes[i].key]) else None)
  }

  lemma {:induction false} RemovedAt(docs: Documents, changes: seq<Change>, k: Key)
    requires Fitting(docs, changes)
    ensures k in Removed(docs, changes) <==> k in docs && forall i | 0 <= i < |changes| :: changes[i].key != k
    ensures k in Removed(docs, changes) ==> Removed(docs, changes)[k] == docs[k]
    decreases |changes|
  {
    if changes != [] {
      RemovedAt(docs, changes[..|changes| - 1], k);
    }
  }

  lemma {:induction false} AddedAt(docs: Documents, changes: seq<Change>, k: Key)
    requires forall i, j | 0 <= i < j < |changes| :: changes[i].key != changes[j].key
    ensures (forall i | 0 <= i < |changes| :: changes[i].key != k || changes[i].after.None?) ==>
      (k in Added(docs, changes) <==> k in docs) && (k in docs ==> Added(docs, changes)[k] == docs[k])
    ensures forall i | 0 <= i < |changes| && changes[i].key == k && changes[i].after.Some? ::
      k in Added(docs, changes) && Added(docs, changes)[k] == changes[i].after.value
    decreases |changes|
  {
    if changes != [] {
      AddedAt(docs, changes[..|changes| - 1], k);
    }
  }

  lemma AddedGrows(docs: Documents, changes: seq<Change>, n: nat, k: Key)
    requires n <= |changes| && forall i, j | 0 <= i < j < |changes| :: changes[i].key != changes[j].key
    requires k in Added(docs, changes[..n])
    requires forall i | 0 <= i < |changes| :: changes[i].key !in docs
    ensures k in Added(docs, changes) && Added(docs, changes)[k] == Added(docs, changes[..n])[k]
  {
    AddedAt(docs, changes, k);
    AddedAt(docs, changes[..n], k);
  }

  lemma RemovedIsBelow(docs: Documents, changes: seq<Change>)
    requires Fitting(docs, changes)
    ensures forall k | k in Removed(docs, changes) :: k in docs && Removed(docs, changes)[k] == docs[k]
    ensures forall i | 0 <= i < |changes| :: changes[i].key !in Removed(docs, changes)
  {
    hide Removed;
    forall k | k in Removed(docs, changes) ensures k in docs && Removed(docs, changes)[k] == docs[k] {
      RemovedAt(docs, changes, k);
    }
    forall i | 0 <= i < |changes| ensures changes[i].key !in Removed(docs, changes) {
      RemovedAt(docs, changes, changes[i].key);
    }
  }

  // ---------------------------------------------------------------- the set

  class IndexSet {
    var indexes: seq<FieldIndex>
    ghost var docs: Documents

    constructor ()
      ensures Valid() && indexes == [] && docs == map[]
    {
      indexes, docs := [], map[];
    }

    ghost predicate Distinct()
      reads this`indexes
    {
      && (forall i, j | 0 <= i < j < |indexes| :: indexes[i] != indexes[j])
      && (forall i, j | 0 <= i < j < |indexes| ::
            indexes[i].spec.name != indexes[j].spec.name && indexes[i].spec.field != indexes[j].spec.field)
    }

    /** Every index holds exactly `d`. */
    ghost predicate AllAt(d: Documents)
      reads this`indexes, indexes
    {
      forall i | 0 <= i < |indexes| :: indexes[i].Valid() && indexes[i].docs == d
    }

    ghost predicate AllUnique(d: Documents)
      reads this`indexes
    {
      forall i | 0 <= i < |indexes| :: UniqueFor(indexes[i].spec, indexes[i].segments, d)
    }

    ghost predicate Valid()
      reads this, indexes
    {
      Distinct() && AllAt(docs) && AllUnique(docs)
    }

    /** Each index, wherever it is, is taken back to `goal` by the undo list. */
    ghost predicate Undoable(undo: seq<Undo>, goal: Documents)
      reads this`indexes, indexes
    {
      && (forall i | 0 <= i < |undo| :: undo[i].index in indexes)
      && (forall i | 0 <= i < |indexes| :: indexes[i].Valid() && Unwinds(indexes[i], indexes[i].docs, undo, goal))
    }

    /** The undo list takes an index that holds `from` to `goal`. */
    ghost predicate UndoableFrom(undo: seq<Undo>, from: Documents, goal: Documents)
      reads this`indexes
    {
      && (forall i | 0 <= i < |undo| :: undo[i].index in indexes)
      && (forall i | 0 <= i < |indexes| :: Unwinds(indexes[i], from, undo, goal))
    }

    /** Runs the undo list from its end. */
    method Rollback(undo: seq<Undo>, ghost goal: Documents)
      requires Distinct() && Undoable(undo, goal)
      modifies indexes
      ensures AllAt(goal)
    {
      hide FieldIndex.Valid;
      var position := |undo|;
      assert undo[..position] == undo;
      while position > 0
        invariant 0 <= position <= |undo| && Undoable(undo[..position], goal)
      {
        var step := undo[position - 1];
        assert undo[..position][..position - 1] == undo[..position - 1];
        assert step == undo[..position][position - 1];
        Step(undo[..position], goal);
        position := position - 1;
      }
    }

    method Step(undo: seq<Undo>, ghost goal: Documents)
      requires undo != [] && Distinct() && Undoable(undo, goal)
      modifies undo[|undo| - 1].index
      ensures Undoable(undo[..|undo| - 1], goal)
    {
      hide FieldIndex.Bulk;
      var step := undo[|undo| - 1];
      if step.add {
        step.index.Add(step.key, step.document, false);
      } else {
        step.index.Remove(step.key, step.document);
      }
    }

    method RemoveFromOne(i: nat, k: Key, d: Document, undo: seq<Undo>, ghost goal: Documents) returns (more: seq<Undo>)
      requires i < |indexes| && Distinct() && Undoable(undo, goal) && k in indexes[i].docs && indexes[i].docs[k] == d
      modifies indexes[i]
      ensures Undoable(more, goal) && indexes[i].docs == old(indexes[i].docs) - {k}
    {
      hide FieldIndex.Bulk, Unwinds;
      var x := indexes[i];
      more := undo + [Undo(x, true, k, d)];
      UnwindsRemove(x, x.docs, undo, goal, k);
      forall j | 0 <= j < |indexes| && j != i ensures Unwinds(indexes[j], indexes[j].docs, more, goal) {
        UnwindsOther(indexes[j], indexes[j].docs, undo, goal, Undo(x, true, k, d));
      }
      x.Remove(k, d);
    }

    method AddToOne(i: nat, k: Key, d: Document, undo: seq<Undo>, ghost goal: Documents) returns (more: seq<Undo>)
      requires i < |indexes| && Distinct() && Undoable(undo, goal) && k !in indexes[i].docs
      modifies indexes[i]
      ensures Undoable(more, goal) && indexes[i].docs == old(indexes[i].docs)[k := d]
    {
      hide FieldIndex.Bulk, Unwinds;
      var x := indexes[i];
      more := undo + [Undo(x, false, k, d)];
      UnwindsAdd(x, x.docs, undo, goal, k, d);
      forall j | 0 <= j < |indexes| && j != i ensures Unwinds(indexes[j], indexes[j].docs, more, goal) {
        UnwindsOther(indexes[j], indexes[j].docs, undo, goal, Undo(x, false, k, d));
      }
      x.Add(k, d, false);
    }

    /** Takes one document out of every index. */
    method RemoveFromAll(k: Key, d: Document, undo: seq<Undo>, ghost cur: Documents, ghost goal: Documents) returns (more: seq<Undo>)
      requires Distinct() && AllAt(cur) && Undoable(undo, goal) && k in cur && cur[k] == d
      modifies indexes
      ensures AllAt(cur - {k}) && Undoable(more, goal)
    {
      hide FieldIndex.Valid, Unwinds;
      more := undo;
      for i := 0 to |indexes|
        invariant Undoable(more, goal)
        invariant forall j | 0 <= j < i :: indexes[j].docs == cur - {k}
        invariant forall j | i <= j < |indexes| :: indexes[j].docs == cur
      {
        more := RemoveFromOne(i, k, d, more, goal);
      }
    }

    /** Adds one document to every index, or stops at the first whose uniqueness it would break. */
    method AddToAll(k: Key, d: Document, undo: seq<Undo>, ghost cur: Documents, ghost goal: Documents) returns (ok: bool, more: seq<Undo>)
      requires Distinct() && AllAt(cur) && AllUnique(cur) && Undoable(undo, goal) && k !in cur
      modifies indexes
      ensures Undoable(more, goal)
      ensures ok ==> AllAt(cur[k := d])
      ensures ok <==> AllUnique(cur[k := d])
    {
      hide FieldIndex.Bulk, Unwinds, UniqueFor, Clash;
      more := undo;
      for i := 0 to |indexes|
        invariant Undoable(more, goal)
        invariant forall j | 0 <= j < i :: indexes[j].docs == cur[k := d]
        invariant forall j | 0 <= j < i :: UniqueFor(indexes[j].spec, indexes[j].segments, cur[k := d])
        invariant forall j | i <= j < |indexes| :: indexes[j].docs == cur
      {
        UniqueAdd(indexes[i].spec, indexes[i].segments, cur, k, d);
        var conflict := indexes[i].ConflictFor(k, d);
        if conflict {
          return false, more;
        }
        more := AddToOne(i, k, d, more, goal);
      }
      return true, more;
    }

    lemma UniqueBelow(small: Documents, large: Documents)
      requires AllUnique(large) && forall k | k in small :: k in large && small[k] == large[k]
      ensures AllUnique(small)
    {
      hide UniqueFor;
      forall i | 0 <= i < |indexes| ensures UniqueFor(indexes[i].spec, indexes[i].segments, small) {
        UniqueSubset(indexes[i].spec, indexes[i].segments, small, large);
      }
    }

    /** All removals of a batch. */
    method RemoveBefores(changes: seq<Change>, ghost start: Documents) returns (undo: seq<Undo>)
      requires Distinct() && AllAt(start) && Fitting(start, changes)
      modifies indexes
      ensures AllAt(Removed(start, changes)) && Undoable(undo, start)
    {
      hide FieldIndex.Valid;
      undo := [];
      assert changes[..0] == [];
      for i := 0 to |changes|
        invariant AllAt(Removed(start, changes[..i])) && Undoable(undo, start)
      {
        var c := changes[i];
        assert changes[..i + 1][..i] == changes[..i];
        if c.before.Some? {
          RemovedAt(start, changes[..i], c.key);
          undo := RemoveFromAll(c.key, c.before.value, undo, Removed(start, changes[..i]), start);
        }
      }
      assert changes[..|changes|] == changes;
    }

    /** All additions of a batch, up to the first that would break a unique index. */
    method AddAfters(changes: seq<Change>, undo: seq<Undo>, ghost rest: Documents, ghost start: Documents) returns (ok: bool, more: seq<Undo>)
      requires Distinct() && AllAt(rest) && AllUnique(rest) && Undoable(undo, start)
      requires forall i, j | 0 <= i < j < |changes| :: changes[i].key != changes[j].key
      requires forall i | 0 <= i < |changes| :: changes[i].key !in rest
      modifies indexes
      ensures Undoable(more, start)
      ensures ok <==> AllUnique(Added(rest, changes))
      ensures ok ==> AllAt(Added(rest, changes))
    {
      hide FieldIndex.Valid, Unwinds, UniqueFor;
      more := undo;
      assert changes[..0] == [];
      for i := 0 to |changes|
        invariant AllAt(Added(rest, changes[..i])) && AllUnique(Added(rest, changes[..i])) && Undoable(more, start)
      {
        var c := changes[i];
        assert changes[..i + 1][..i] == changes[..i];
        if c.after.Some? {
          AddedAt(rest, changes[..i], c.key);
          ok, more := AddToAll(c.key, c.after.value, more, Added(rest, changes[..i]), start);
          if !ok {
            PrefixUnique(rest, changes, i + 1);
            return false, more;
          }
        }
      }
      assert changes[..|changes|] == changes;
      return true, more;
    }

    lemma PrefixUnique(rest: Documents, changes: seq<Change>, n: nat)
      requires n <= |changes| && forall i, j | 0 <= i < j < |changes| :: changes[i].key != changes[j].key
      requires forall i | 0 <= i < |changes| :: changes[i].key !in rest
      ensures AllUnique(Added(rest, changes)) ==> AllUnique(Added(rest, changes[..n]))
    {
      hide UniqueFor, AllUnique;
      if AllUnique(Added(rest, changes)) {
        forall k | k in Added(rest, changes[..n])
          ensures k in Added(rest, changes) && Added(rest, changes)[k] == Added(rest, changes[..n])[k]
        {
          AddedGrows(rest, changes, n, k);
        }
        UniqueBelow(Added(rest, changes[..n]), Added(rest, changes));
      }
    }

    /**
     * Changes every index as one unit. It succeeds if and only if the documents it leads to
     * satisfy every unique index, so a batch may permute unique values; otherwise every index
     * is left holding what it held.
     */
    method ApplyChanges(changes: seq<Change>) returns (ok: bool, undo: seq<Undo>)
      requires Valid() && Fitting(docs, changes)
      modifies this`docs, indexes
      ensures Valid() && docs == if ok then Changed(old(docs), changes) else old(docs)
      ensures ok <==> AllUnique(Changed(old(docs), changes))
      ensures ok ==> UndoableFrom(undo, docs, old(docs))
    {
      hide FieldIndex.Valid, Unwinds, UniqueFor, Removed, Added, AllAt, AllUnique, Distinct, Undoable;
      ghost var start := docs;
      if indexes == [] {
        NoIndexes(Changed(start, changes), start);
        docs := Changed(docs, changes);
        return true, [];
      }
      ghost var rest := Removed(start, changes);
      undo := RemoveBefores(changes, start);
      RemovedIsBelow(start, changes);
      UniqueBelow(rest, start);
      ok, undo := AddAfters(changes, undo, rest, start);
      if !ok {
        Rollback(undo, start);
        return;
      }
      docs := Changed(start, changes);
      UndoableNow(undo, docs, start);
    }

    lemma UndoableNow(undo: seq<Undo>, from: Documents, goal: Documents)
      requires AllAt(from) && Undoable(undo, goal)
      ensures UndoableFrom(undo, from, goal)
    {
      hide FieldIndex.Valid, Unwinds;
    }

    lemma NoIndexes(d: Documents, goal: Documents)
      requires indexes == []
      ensures AllAt(d) && AllUnique(d) && UndoableFrom([], d, goal)
    {}

    /** Calling the function `applyChanges` returned. */
    method UndoChanges(undo: seq<Undo>, ghost goal: Documents)
      requires Valid() && UndoableFrom(undo, docs, goal) && AllUnique(goal)
      modifies this`docs, indexes
      ensures Valid() && docs == goal
    {
      hide FieldIndex.Valid, Unwinds, UniqueFor;
      Rollback(undo, goal);
      docs := goal;
    }

    /** A new index over the documents; None when two of them clash. */
    method Build(spec: IndexSpec, list: seq<Listed>) returns (r: Option<FieldIndex>)
      requires Valid() && Tabulates(list, docs)
      ensures r.Some? <==> UniqueFor(spec, Split(spec.field), docs)
      ensures r.Some? ==> fresh(r.value) && r.value.Valid() && r.value.docs == docs && r.value.spec == spec
    {
      hide FieldIndex.Bulk, UniqueFor, Clash;
      var index := new FieldIndex(spec);
      NothingClashes(spec, Split(spec.field));
      SegmentsOf(index);
      for i := 0 to |list|
        invariant fresh(index) && index.Bulk() && index.spec == spec && index.docs == Table(list[..i])
        invariant UniqueFor(spec, index.segments, Table(list[..i]))
      {
        TableSnoc(list, i);
        UniqueAdd(spec, index.segments, Table(list[..i]), list[i].key, list[i].document);
        var conflict := index.ConflictFor(list[i].key, list[i].document);
        if conflict {
          UniqueTable(spec, index.segments, list, i + 1);
          return None;
        }
        index.Add(list[i].key, list[i].document, true);
      }
      assert list[..|list|] == list;
      index.FinishBulk();
      return Some(index);
    }

    method Find(name: text) returns (i: nat)
      ensures i <= |indexes| && (i < |indexes| ==> indexes[i].spec.name == name)
      ensures forall j | 0 <= j < i :: indexes[j].spec.name != name
    {
      i := 0;
      while i < |indexes|
        invariant i <= |indexes| && forall j | 0 <= j < i :: indexes[j].spec.name != name
      {
        if indexes[i].spec.name == name {
          return;
        }
        i := i + 1;
      }
    }

    /** A new index is allowed when its name and field are free, there is room, and no documents clash. */
    ghost predicate Creatable(spec: IndexSpec)
      reads this
    {
      && (forall i | 0 <= i < |indexes| :: indexes[i].spec.name != spec.name && indexes[i].spec.field != spec.field)
      && |indexes| < MAX_INDEXES_PER_COLLECTION
      && UniqueFor(spec, Split(spec.field), docs)
    }

    method Create(spec: IndexSpec, list: seq<Listed>) returns (r: CreateResult)
      requires Valid() && Tabulates(list, docs)
      modifies this`indexes
      ensures Valid()
      ensures r.Created? <==> old(Creatable(spec))
      ensures r.Created? ==> |indexes| == |old(indexes)| + 1 && indexes[..|old(indexes)|] == old(indexes)
      ensures r.Created? ==> fresh(indexes[|old(indexes)|]) && indexes[|old(indexes)|].spec == spec
      ensures !r.Created? ==> indexes == old(indexes)
      ensures r.Exists? <==>
        exists i | 0 <= i < |old(indexes)| :: old(indexes)[i].spec.name == spec.name && Replaying.SameDefinition(old(indexes)[i].spec, spec)
    {
      hide FieldIndex.Bulk, UniqueFor;
      var i := Find(spec.name);
      if i < |indexes| {
        return if Replaying.SameDefinition(indexes[i].spec, spec) then Exists else Refused;
      }
      if exists j | 0 <= j < |indexes| :: indexes[j].spec.field == spec.field {
        return Refused;
      }
      if |indexes| >= MAX_INDEXES_PER_COLLECTION {
        return Refused;
      }
      var built := Build(spec, list);
      if built.None? {
        return Refused;
      }
      SegmentsOf(built.value);
      indexes := indexes + [built.value];
      return Created;
    }

    method Drop(name: text)
      requires Valid()
      modifies this`indexes
      ensures Valid()
      ensures forall i | 0 <= i < |old(indexes)| && old(indexes)[i].spec.name == name ::
        indexes == old(indexes)[..i] + old(indexes)[i + 1..]
      ensures (forall i | 0 <= i < |old(indexes)| :: old(indexes)[i].spec.name != name) ==> indexes == old(indexes)
    {
      hide FieldIndex.Valid, UniqueFor;
      var i := Find(name);
      if i < |indexes| {
        assert forall j | i < j < |indexes| :: indexes[j].spec.name != name;
        indexes := indexes[..i] + indexes[i + 1..];
      }
    }

    /** Compares every index with one rebuilt from the documents; in a valid set there is nothing to report. */
    method Validate(list: seq<Listed>) returns (issues: seq<text>)
      requires Valid() && Tabulates(list, docs)
      ensures issues == []
    {
      hide FieldIndex.Bulk, UniqueFor;
      issues := [];
      for i := 0 to |indexes|
        invariant issues == []
      {
        var live := indexes[i];
        var name := live.spec.name;
        SegmentsOf(live);
        var rebuilt := Build(live.spec, list);
        NoIssue(live, rebuilt.value);
        if HasIssue(live, rebuilt.value) {
          issues := issues + [name];
        }
      }
    }

    lemma SegmentsOf(x: FieldIndex)
      requires x.Bulk()
      ensures x.segments == Split(x.spec.field)
    {}
  }

  datatype CreateResult = Created | Exists | Refused

  predicate InOrder(entries: seq<Value>) {
    forall p | 0 < p < |entries| && ClassOf(entries[p - 1]).Some? && ClassOf(entries[p]).Some? ::
      Compare(entries[p - 1], entries[p]) <= 0
  }

  /** What `validate` reports about a live index, compared with a rebuilt one. */
  predicate HasIssue(live: FieldIndex, rebuilt: FieldIndex)
    reads live, rebuilt
  {
    || (exists c | c in live.ordered :: !InOrder(live.ordered[c]) || exists v | v in live.ordered[c] :: v !in live.byValue)
    || (exists v | v in live.byValue :: live.byValue[v] == {})
    || live.indexedDocuments != rebuilt.indexedDocuments
    || (live.arrayValues > 0) != (rebuilt.arrayValues > 0)
    || (exists v | v in rebuilt.byValue :: v !in live.byValue || live.byValue[v] != rebuilt.byValue[v])
    || (exists v | v in live.byValue :: v !in rebuilt.byValue)
    || live.missing != rebuilt.missing
    || (live.spec.unique && exists v | v in rebuilt.byValue :: |rebuilt.byValue[v]| > 1)
    || (live.spec.unique && !live.spec.sparse && |rebuilt.missing| > 1)
  }

  /** A valid index over documents that satisfy it has no issue. */
  lemma NoIssue(live: FieldIndex, rebuilt: FieldIndex)
    requires live.Valid() && rebuilt.Valid() && live.docs == rebuilt.docs && live.spec == rebuilt.spec
    requires UniqueFor(live.spec, live.segments, live.docs)
    ensures !HasIssue(live, rebuilt)
  {
    hide Resolve, Compare, Clash, FieldIndex.Bulk;
    SameContents(live, rebuilt);
    if live.spec.unique {
      NoDuplicates(rebuilt);
    }
  }

  /** Two valid indexes over the same documents hold the same. */
  lemma SameContents(a: FieldIndex, b: FieldIndex)
    requires a.Valid() && b.Valid() && a.docs == b.docs && a.spec == b.spec
    ensures a.byValue == b.byValue && a.missing == b.missing && a.segments == b.segments
    ensures a.arrayValues == b.arrayValues && a.indexedDocuments == b.indexedDocuments
    ensures forall v | v in a.byValue :: a.byValue[v] != {}
    ensures forall c | c in a.ordered :: InOrder(a.ordered[c]) && forall v | v in a.ordered[c] :: v in a.byValue
  {
    hide Resolve, Compare;
    forall v: Value ensures v in a.byValue <==> v in b.byValue {
      HeldValue(a.byValue, b.byValue, a.docs, a.segments, v);
      HeldValue(b.byValue, a.byValue, a.docs, a.segments, v);
    }
    assert a.byValue.Keys == b.byValue.Keys;
    forall c | c in a.ordered ensures InOrder(a.ordered[c]) && forall v | v in a.ordered[c] :: v in a.byValue {
      OrderAt(a.ordered, a.unsorted, a.byValue.Keys, c);
      assert EntriesFor(a.ordered, c) == a.ordered[c];
    }
  }

  lemma HeldValue(a: map<Value, set<Key>>, b: map<Value, set<Key>>, docs: Documents, segments: seq<text>, v: Value)
    requires ValuesAgree(a, docs, segments) && ValuesAgree(b, docs, segments)
    ensures v in a ==> v in b
  {
    hide Resolve;
    if v in a {
      var k :| k in a[v];
      assert k in docs && Resolve(docs[k], segments) == Some(v);
    }
  }

  lemma NoDuplicates(x: FieldIndex)
    requires x.Valid() && x.spec.unique && UniqueFor(x.spec, x.segments, x.docs)
    ensures forall v | v in x.byValue :: |x.byValue[v]| <= 1
    ensures !x.spec.sparse ==> |x.missing| <= 1
  {
    hide Resolve, OrderFor;
    forall v | v in x.byValue ensures |x.byValue[v]| <= 1 {
      AtMostOne(x.byValue[v]);
    }
    if !x.spec.sparse {
      AtMostOne(x.missing);
    }
  }

  lemma AtMostOne(s: set<Key>)
    requires forall j, k | j in s && k in s :: j == k
    ensures |s| <= 1
  {
    if s != {} {
      var k :| k in s;
      assert s == {k};
    }
  }

  // ---------------------------------------------------------------- documents in order

  datatype Listed = Listed(key: Key, document: Document)

  ghost function Table(list: seq<Listed>): Documents {
    if list == [] then map[] else Table(list[..|list| - 1])[list[|list| - 1].key := list[|list| - 1].document]
  }

  ghost predicate Tabulates(list: seq<Listed>, docs: Documents) {
    && (forall i, j | 0 <= i < j < |list| :: list[i].key != list[j].key)
    && docs == Table(list)
  }

  lemma {:induction false} TableAt(list: seq<Listed>, k: Key)
    requires forall i, j | 0 <= i < j < |list| :: list[i].key != list[j].key
    ensures k in Table(list) <==> exists i | 0 <= i < |list| :: list[i].key == k
    ensures forall i | 0 <= i < |list| && list[i].key == k :: Table(list)[k] == list[i].document
    decreases |list|
  {
    if list != [] {
      TableAt(list[..|list| - 1], k);
    }
  }

  lemma TableSnoc(list: seq<Listed>, i: nat)
    requires i < |list| && forall i, j | 0 <= i < j < |list| :: list[i].key != list[j].key
    ensures Table(list[..i + 1]) == Table(list[..i])[list[i].key := list[i].document]
    ensures list[i].key !in Table(list[..i])
  {
    assert list[..i + 1][..i] == list[..i];
    TableAt(list[..i], list[i].key);
  }

  lemma UniqueTable(spec: IndexSpec, segments: seq<text>, list: seq<Listed>, n: nat)
    requires n <= |list| && forall i, j | 0 <= i < j < |list| :: list[i].key != list[j].key
    ensures UniqueFor(spec, segments, Table(list)) ==> UniqueFor(spec, segments, Table(list[..n]))
  {
    hide UniqueFor, Table;
    if UniqueFor(spec, segments, Table(list)) {
      forall k | k in Table(list[..n]) ensures k in Table(list) && Table(list)[k] == Table(list[..n])[k] {
        TableAt(list, k);
        TableAt(list[..n], k);
        var i :| 0 <= i < n && list[..n][i].key == k;
        assert list[i].key == k;
      }
      UniqueSubset(spec, segments, Table(list[..n]), Table(list));
    }
  }

  lemma NothingClashes(spec: IndexSpec, segments: seq<text>)
    ensures UniqueFor(spec, segments, map[]) && Table([]) == map[]
  {}
}
