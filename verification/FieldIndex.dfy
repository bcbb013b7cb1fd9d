/**
 * packages/storage/src/indexing/field-index.ts: one index over one field.
 *
 * A value stands for its canonical key, which is the same thing by `EncodingIsInjective`.
 */
module FieldIndex {
  import opened Bytes
  import opened Text
  import opened Values
  import opened Filter
  import opened Operations

  type Key = bytes
  type Documents = map<Key, Document>

  // ---------------------------------------------------------------- sorted entries

  /** Comparable values of one class, in order. Ties are possible. */
  ghost predicate Ordered(entries: seq<Value>, c: ValueClass) {
    && (forall i | 0 <= i < |entries| :: ClassOf(entries[i]) == Some(c))
    && (forall i, j | 0 <= i < j < |entries| :: Compare(entries[i], entries[j]) <= 0)
  }

  ghost predicate NoRepeats<T>(s: seq<T>) {
    forall i, j | 0 <= i < j < |s| :: s[i] != s[j]
  }

  /** `p` splits the entries into those before the value and the others. */
  ghost predicate SplitsBefore(entries: seq<Value>, v: Value, p: nat)
    requires ClassOf(v).Some? && forall i | 0 <= i < |entries| :: ClassOf(entries[i]).Some?
  {
    && p <= |entries|
    && (forall i | 0 <= i < p :: Compare(entries[i], v) < 0)
    && (forall i | p <= i < |entries| :: Compare(entries[i], v) >= 0)
  }

  ghost predicate SplitsAfter(entries: seq<Value>, v: Value, p: nat)
    requires ClassOf(v).Some? && forall i | 0 <= i < |entries| :: ClassOf(entries[i]).Some?
  {
    && p <= |entries|
    && (forall i | 0 <= i < p :: Compare(entries[i], v) <= 0)
    && (forall i | p <= i < |entries| :: Compare(entries[i], v) > 0)
  }

  method LowerBound(entries: seq<Value>, v: Value, ghost c: ValueClass) returns (low: nat)
    requires Ordered(entries, c) && ClassOf(v) == Some(c)
    ensures SplitsBefore(entries, v, low)
  {
    hide Compare;
    low := 0;
    var high := |entries|;
    while low < high
      invariant 0 <= low <= high <= |entries|
      invariant forall i | 0 <= i < low :: Compare(entries[i], v) < 0
      invariant forall i | high <= i < |entries| :: Compare(entries[i], v) >= 0
    {
      var middle := (low + high) / 2;
      if Compare(entries[middle], v) < 0 {
        forall i | 0 <= i < middle ensures Compare(entries[i], v) < 0 {
          CompareLaws(entries[i], entries[middle], v);
        }
        low := middle + 1;
      } else {
        forall i | middle < i < |entries| ensures Compare(entries[i], v) >= 0 {
          CompareLaws(entries[middle], entries[i], v);
        }
        high := middle;
      }
    }
  }

  method UpperBound(entries: seq<Value>, v: Value, ghost c: ValueClass) returns (low: nat)
    requires Ordered(entries, c) && ClassOf(v) == Some(c)
    ensures SplitsAfter(entries, v, low)
  {
    hide Compare;
    low := 0;
    var high := |entries|;
    while low < high
      invariant 0 <= low <= high <= |entries|
      invariant forall i | 0 <= i < low :: Compare(entries[i], v) <= 0
      invariant forall i | high <= i < |entries| :: Compare(entries[i], v) > 0
    {
      var middle := (low + high) / 2;
      if Compare(entries[middle], v) <= 0 {
        forall i | 0 <= i < middle ensures Compare(entries[i], v) <= 0 {
          CompareLaws(entries[i], entries[middle], v);
        }
        low := middle + 1;
      } else {
        forall i | middle < i < |entries| ensures Compare(entries[i], v) > 0 {
          CompareLaws(entries[middle], entries[i], v);
          CompareLaws(v, entries[middle], entries[i]);
          CompareLaws(entries[i], v, v);
        }
        high := middle;
      }
    }
  }

  lemma InsertKeepsOrder(entries: seq<Value>, v: Value, p: nat, c: ValueClass)
    requires Ordered(entries, c) && ClassOf(v) == Some(c) && SplitsBefore(entries, v, p)
    ensures Ordered(entries[..p] + [v] + entries[p..], c)
  {
    hide Compare;
    var after := entries[..p] + [v] + entries[p..];
    forall i, j | 0 <= i < j < |after| ensures Compare(after[i], after[j]) <= 0 {
      if i == p {
        CompareLaws(v, after[j], v);
      }
    }
  }

  lemma RemoveKeepsOrder(entries: seq<Value>, p: nat, c: ValueClass)
    requires Ordered(entries, c) && p < |entries|
    ensures Ordered(entries[..p] + entries[p + 1..], c)
  {
    hide Compare;
  }

  /** Exactly the members of `s`, each once. */
  ghost predicate Lists<T>(entries: seq<T>, s: set<T>) {
    NoRepeats(entries) && (forall i | 0 <= i < |entries| :: entries[i] in s) && (forall v | v in s :: v in entries)
  }

  lemma InsertLists<T>(entries: seq<T>, s: set<T>, v: T, p: nat)
    requires Lists(entries, s) && v !in s && p <= |entries|
    ensures Lists(entries[..p] + [v] + entries[p..], s + {v})
  {
    var after := entries[..p] + [v] + entries[p..];
    assert entries == entries[..p] + entries[p..];
    assert forall i | 0 <= i < |entries| :: entries[i] in entries;
  }

  lemma RemoveLists<T>(entries: seq<T>, s: set<T>, p: nat)
    requires Lists(entries, s) && p < |entries|
    ensures Lists(entries[..p] + entries[p + 1..], s - {entries[p]})
  {
    var after := entries[..p] + entries[p + 1..];
    assert entries == entries[..p] + [entries[p]] + entries[p + 1..];
    forall i | 0 <= i < |after| ensures after[i] != entries[p] {
      assert after[i] == entries[if i < p then i else i + 1];
    }
  }

  // ---------------------------------------------------------------- what an index should hold

  ghost function Holders(docs: Documents, segments: seq<text>, v: Value): set<Key> {
    set k | k in docs && Resolve(docs[k], segments) == Some(v)
  }

  ghost function Lacking(docs: Documents, segments: seq<text>): set<Key> {
    set k | k in docs && Resolve(docs[k], segments).None?
  }

  ghost function ArrayHolders(docs: Documents, segments: seq<text>): set<Key> {
    set k | k in docs && Resolve(docs[k], segments).Some? && Resolve(docs[k], segments).value.Arr?
  }

  ghost function CoveredKeys(docs: Documents, segments: seq<text>, sparse: bool): set<Key> {
    set k | k in docs && (Resolve(docs[k], segments).Some? || !sparse)
  }

  ghost function ClassValues(values: set<Value>, c: ValueClass): set<Value> {
    set v | v in values && ClassOf(v) == Some(c)
  }

  function EntriesFor(ordered: map<ValueClass, seq<Value>>, c: ValueClass): seq<Value> {
    if c in ordered then ordered[c] else []
  }

  /** Each class lists its values; in order unless it still has to be sorted. */
  ghost predicate OrderFor(ordered: map<ValueClass, seq<Value>>, unsorted: set<ValueClass>, values: set<Value>) {
    forall c: ValueClass ::
      && Lists(EntriesFor(ordered, c), ClassValues(values, c))
      && (c !in unsorted ==> Ordered(EntriesFor(ordered, c), c))
  }

  lemma OrderUpdate(ordered: map<ValueClass, seq<Value>>, unsorted: set<ValueClass>, values: set<Value>,
                    entries: seq<Value>, unsorted': set<ValueClass>, values': set<Value>, v: Value)
    requires OrderFor(ordered, unsorted, values) && ClassOf(v).Some?
    requires values' == values + {v} || values' == values - {v}
    requires unsorted' == unsorted || unsorted' == unsorted + {ClassOf(v).value}
    requires Lists(entries, ClassValues(values', ClassOf(v).value))
    requires ClassOf(v).value !in unsorted' ==> Ordered(entries, ClassOf(v).value)
    ensures OrderFor(ordered[ClassOf(v).value := entries], unsorted', values')
  {
    hide Ordered, Lists, ClassOf;
    var ordered' := ordered[ClassOf(v).value := entries];
    forall c: ValueClass
      ensures Lists(EntriesFor(ordered', c), ClassValues(values', c))
      ensures c !in unsorted' ==> Ordered(EntriesFor(ordered', c), c)
    {
      if c != ClassOf(v).value {
        assert EntriesFor(ordered', c) == EntriesFor(ordered, c);
        assert ClassValues(values', c) == ClassValues(values, c);
      }
    }
  }

  lemma OrderIgnores(ordered: map<ValueClass, seq<Value>>, unsorted: set<ValueClass>, values: set<Value>, v: Value)
    requires OrderFor(ordered, unsorted, values) && ClassOf(v).None?
    ensures OrderFor(ordered, unsorted, values + {v}) && OrderFor(ordered, unsorted, values - {v})
  {
    hide Ordered, Lists;
    forall c: ValueClass ensures ClassValues(values + {v}, c) == ClassValues(values, c) == ClassValues(values - {v}, c) {}
  }

  /** Exactly the values the documents hold, each with exactly the documents that hold it. */
  ghost predicate ValuesAgree(byValue: map<Value, set<Key>>, docs: Documents, segments: seq<text>) {
    && (forall v | v in byValue :: byValue[v] == Holders(docs, segments, v) != {})
    && (forall k | k in docs && Resolve(docs[k], segments).Some? :: Resolve(docs[k], segments).value in byValue)
  }

  // How these sets change with one document.

  lemma HoldersAdd(docs: Documents, k: Key, d: Document, segments: seq<text>, v: Value)
    requires k !in docs
    ensures Holders(docs[k := d], segments, v)
         == if Resolve(d, segments) == Some(v) then Holders(docs, segments, v) + {k} else Holders(docs, segments, v)
    ensures k !in Holders(docs, segments, v)
  {
    hide Resolve;
  }

  lemma LackingAdd(docs: Documents, k: Key, d: Document, segments: seq<text>)
    requires k !in docs
    ensures Lacking(docs[k := d], segments)
         == if Resolve(d, segments).None? then Lacking(docs, segments) + {k} else Lacking(docs, segments)
    ensures k !in Lacking(docs, segments)
  {
    hide Resolve;
  }

  lemma CountsAdd(docs: Documents, k: Key, d: Document, segments: seq<text>, sparse: bool)
    requires k !in docs
    ensures
      var f := Resolve(d, segments);
      && |ArrayHolders(docs[k := d], segments)| == |ArrayHolders(docs, segments)| + (if f.Some? && f.value.Arr? then 1 else 0)
      && |CoveredKeys(docs[k := d], segments, sparse)|
         == |CoveredKeys(docs, segments, sparse)| + (if f.Some? || !sparse then 1 else 0)
  {
    ArraysAdd(docs, k, d, segments);
    CoveredAdd(docs, k, d, segments, sparse);
    hide *;
  }

  lemma ArraysAdd(docs: Documents, k: Key, d: Document, segments: seq<text>)
    requires k !in docs
    ensures k !in ArrayHolders(docs, segments)
    ensures ArrayHolders(docs[k := d], segments)
         == if Resolve(d, segments).Some? && Resolve(d, segments).value.Arr?
            then ArrayHolders(docs, segments) + {k} else ArrayHolders(docs, segments)
  {
    hide Resolve;
  }

  lemma CoveredAdd(docs: Documents, k: Key, d: Document, segments: seq<text>, sparse: bool)
    requires k !in docs
    ensures k !in CoveredKeys(docs, segments, sparse)
    ensures CoveredKeys(docs[k := d], segments, sparse)
         == if Resolve(d, segments).Some? || !sparse
            then CoveredKeys(docs, segments, sparse) + {k} else CoveredKeys(docs, segments, sparse)
  {
    hide Resolve;
  }

  /** Two documents that a unique index cannot both hold. */
  predicate Clash(segments: seq<text>, sparse: bool, a: Document, b: Document) {
    var f, g := Resolve(a, segments), Resolve(b, segments);
    f == g && (f.Some? || !sparse)
  }

  ghost predicate UniqueFor(spec: IndexSpec, segments: seq<text>, docs: Documents) {
    spec.unique ==> forall j, k | j in docs && k in docs && j != k :: !Clash(segments, spec.sparse, docs[j], docs[k])
  }

  class FieldIndex {
    const spec: IndexSpec
    const segments: seq<text>
    var byValue: map<Value, set<Key>>
    var missing: set<Key>
    var ordered: map<ValueClass, seq<Value>>
    var unsorted: set<ValueClass>
    var arrayValues: int
    var indexedDocuments: int
    ghost var docs: Documents

    constructor (spec: IndexSpec)
      ensures Bulk() && this.spec == spec && docs == map[] && unsorted == {}
    {
      this.spec, segments := spec, Split(spec.field);
      byValue, missing, ordered, unsorted := map[], {}, map[], {};
      arrayValues, indexedDocuments, docs := 0, 0, map[];
      new;
      assert ArrayHolders(docs, segments) == {} && CoveredKeys(docs, segments, spec.sparse) == {} && Lacking(docs, segments) == {};
      assert forall c: ValueClass :: ClassValues(byValue.Keys, c) == {};
    }

    /** Everything but the order of classes still to be sorted is exactly what the documents call for. */
    ghost predicate Bulk()
      reads this
    {
      && segments == Split(spec.field)
      && ValuesAgree(byValue, docs, segments)
      && missing == (if spec.sparse then {} else Lacking(docs, segments))
      && arrayValues == |ArrayHolders(docs, segments)|
      && indexedDocuments == |CoveredKeys(docs, segments, spec.sparse)|
      && OrderFor(ordered, unsorted, byValue.Keys)
    }

    ghost predicate Valid()
      reads this
    {
      Bulk() && unsorted == {}
    }

    method InsertOrdered(v: Value, bulk: bool, ghost values: set<Value>)
      requires OrderFor(ordered, unsorted, values) && v !in values && (!bulk ==> unsorted == {})
      modifies this`ordered, this`unsorted
      ensures OrderFor(ordered, unsorted, values + {v}) && (!bulk ==> unsorted == {})
    {
      hide Ordered, Lists;
      var c := ClassOf(v);
      if c.None? {
        OrderIgnores(ordered, unsorted, values, v);
        return;
      }
      var entries := EntriesFor(ordered, c.value);
      assert ClassValues(values + {v}, c.value) == ClassValues(values, c.value) + {v};
      if bulk {
        InsertLists(entries, ClassValues(values, c.value), v, |entries|);
        assert entries[..|entries|] + [v] + entries[|entries|..] == entries + [v];
        OrderUpdate(ordered, unsorted, values, entries + [v], unsorted + {c.value}, values + {v}, v);
        ordered := ordered[c.value := entries + [v]];
        unsorted := unsorted + {c.value};
        return;
      }
      var p := LowerBound(entries, v, c.value);
      InsertLists(entries, ClassValues(values, c.value), v, p);
      InsertKeepsOrder(entries, v, p, c.value);
      OrderUpdate(ordered, unsorted, values, entries[..p] + [v] + entries[p..], unsorted, values + {v}, v);
      ordered := ordered[c.value := entries[..p] + [v] + entries[p..]];
    }

    method RemoveOrdered(v: Value, ghost values: set<Value>)
      requires OrderFor(ordered, unsorted, values) && v in values && unsorted == {}
      modifies this`ordered
      ensures OrderFor(ordered, unsorted, values - {v})
    {
      hide Ordered, Lists;
      var c := ClassOf(v);
      if c.None? {
        OrderIgnores(ordered, unsorted, values, v);
        return;
      }
      var entries := EntriesFor(ordered, c.value);
      var p := FindEntry(entries, v, c.value, ClassValues(values, c.value));
      RemoveLists(entries, ClassValues(values, c.value), p);
      RemoveKeepsOrder(entries, p, c.value);
      assert ClassValues(values - {v}, c.value) == ClassValues(values, c.value) - {v};
      OrderUpdate(ordered, unsorted, values, entries[..p] + entries[p + 1..], unsorted, values - {v}, v);
      ordered := ordered[c.value := entries[..p] + entries[p + 1..]];
    }

    /** Adds a document that the index does not hold yet. */
    method Add(k: Key, d: Document, bulk: bool)
      requires Bulk() && k !in docs && (!bulk ==> unsorted == {})
      modifies this
      ensures Bulk() && docs == old(docs)[k := d] && (!bulk ==> unsorted == {})
    {
      hide Resolve, OrderFor, ValuesAgree, Lacking, ArrayHolders, CoveredKeys;
      var field := ResolveField(d, segments);
      LackingAdd(docs, k, d, segments);
      CountsAdd(docs, k, d, segments, spec.sparse);
      ValuesAdd(byValue, docs, k, d, segments);
      docs := docs[k := d];
      if field.None? {
        if !spec.sparse {
          missing := missing + {k};
          indexedDocuments := indexedDocuments + 1;
        }
        return;
      }
      var v := field.value;
      if v !in byValue {
        InsertOrdered(v, bulk, byValue.Keys);
        byValue := byValue[v := {k}];
      } else {
        byValue := byValue[v := byValue[v] + {k}];
        assert byValue.Keys == old(byValue.Keys);
      }
      assert byValue.Keys == old(byValue.Keys) + {v};
      if v.Arr? {
        arrayValues := arrayValues + 1;
      }
      indexedDocuments := indexedDocuments + 1;
    }

    /** Takes a document out of the entry of its value, and the entry out of the index once it is empty. */
    method RemoveHolder(k: Key, v: Value)
      requires v in byValue && k in byValue[v] && OrderFor(ordered, unsorted, byValue.Keys) && unsorted == {}
      modifies this`byValue, this`ordered
      ensures OrderFor(ordered, unsorted, byValue.Keys)
      ensures byValue == if old(byValue)[v] - {k} == {} then old(byValue) - {v} else old(byValue)[v := old(byValue)[v] - {k}]
    {
      hide OrderFor;
      byValue := byValue[v := byValue[v] - {k}];
      ghost var values := byValue.Keys;
      assert values == old(byValue.Keys);
      if byValue[v] == {} {
        byValue := byValue - {v};
        assert byValue == old(byValue) - {v};
        RemoveOrdered(v, values);
        assert byValue.Keys == values - {v};
      }
    }

    /** Removes a document that the index holds. */
    method Remove(k: Key, d: Document)
      requires Valid() && k in docs && docs[k] == d
      modifies this
      ensures Valid() && docs == old(docs) - {k}
    {
      hide Resolve, OrderFor, ValuesAgree, Lacking, ArrayHolders, CoveredKeys;
      var field := ResolveField(d, segments);
      ghost var rest := docs - {k};
      assert rest[k := d] == docs;
      LackingAdd(rest, k, d, segments);
      CountsAdd(rest, k, d, segments, spec.sparse);
      ValuesRemove(byValue, rest, k, d, segments);
      docs := rest;
      if field.None? {
        if !spec.sparse && k in missing {
          missing := missing - {k};
          indexedDocuments := indexedDocuments - 1;
        }
        return;
      }
      var v := field.value;
      if v !in byValue || k !in byValue[v] {
        return;
      }
      RemoveHolder(k, v);
      if v.Arr? {
        arrayValues := arrayValues - 1;
      }
      indexedDocuments := indexedDocuments - 1;
    }

    /** Whether adding the document would break the index's uniqueness. */
    method ConflictFor(k: Key, d: Document) returns (conflict: bool)
      requires Bulk() && k !in docs
      ensures conflict <==> spec.unique && exists j | j in docs :: Clash(segments, spec.sparse, docs[j], d)
    {
      hide Resolve, OrderFor, CoveredKeys, ArrayHolders;
      if !spec.unique {
        return false;
      }
      var field := ResolveField(d, segments);
      if field.None? {
        if spec.sparse {
          return false;
        }
        var others := missing - {k};
        assert forall j | j in docs :: Clash(segments, spec.sparse, docs[j], d) <==> j in Lacking(docs, segments);
        assert others == Lacking(docs, segments);
        conflict := others != {};
        if conflict {
          var j :| j in others;
          assert j in docs && Clash(segments, spec.sparse, docs[j], d);
        }
        return;
      }
      assert forall j | j in docs :: Clash(segments, spec.sparse, docs[j], d) <==> j in Holders(docs, segments, field.value);
      if field.value !in byValue {
        NoHolders(docs, segments, field.value, byValue.Keys);
        return false;
      }
      conflict := exists j | j in byValue[field.value] :: j != k;
      if conflict {
        var j :| j in byValue[field.value] && j != k;
        assert j in docs && Clash(segments, spec.sparse, docs[j], d);
      }
    }

    /** Sorts the classes that bulk loading left unsorted. */
    method FinishBulk()
      requires Bulk()
      modifies this`ordered, this`unsorted
      ensures Valid()
    {
      hide Lists, Ordered, ValuesAgree, Lacking, ArrayHolders, CoveredKeys, Resolve;
      while unsorted != {}
        invariant Bulk()
        decreases |unsorted|
      {
        var c :| c in unsorted;
        var entries := EntriesFor(ordered, c);
        var sorted := SortEntries(entries, c, ClassValues(byValue.Keys, c));
        ghost var was := ordered;
        ordered := ordered[c := sorted];
        unsorted := unsorted - {c};
        forall x: ValueClass
          ensures Lists(EntriesFor(ordered, x), ClassValues(byValue.Keys, x))
          ensures x !in unsorted ==> Ordered(EntriesFor(ordered, x), x)
        {
          if x != c {
            assert EntriesFor(ordered, x) == EntriesFor(was, x);
          }
        }
      }
    }

    method LookupEqual(v: Value) returns (keys: set<Key>)
      requires Valid()
      ensures keys == Holders(docs, segments, v)
    {
      hide Resolve, OrderFor;
      if v in byValue {
        return byValue[v];
      }
      NoHolders(docs, segments, v, byValue.Keys);
      return {};
    }

    /** Every document whose field is a value of the class within the bounds. */
    method LookupRange(c: ValueClass, lower: Option<Bound>, upper: Option<Bound>) returns (keys: set<Key>)
      requires Valid() && BoundOf(lower, c) && BoundOf(upper, c)
      ensures keys == set k | k in docs && Resolve(docs[k], segments).Some? && Within(Resolve(docs[k], segments).value, c, lower, upper)
    {
      hide Resolve, Compare, OrderFor, Lists, Ordered;
      OrderAt(ordered, unsorted, byValue.Keys, c);
      var entries := EntriesFor(ordered, c);
      var start, end := RangeEntries(entries, c, lower, upper);
      keys := {};
      for index := start to end
        invariant keys == set i, k | start <= i < index && k in byValue[entries[i]] :: k
      {
        keys := keys + byValue[entries[index]];
      }
      RangeKeys(byValue, docs, segments, entries, c, lower, upper, start, end);
    }
  }

  datatype Bound = Bound(value: Value, inclusive: bool)

  predicate BoundOf(b: Option<Bound>, c: ValueClass) {
    b.Some? ==> ClassOf(b.value.value) == Some(c)
  }

  predicate AboveLower(v: Value, lower: Option<Bound>)
    requires ClassOf(v).Some? && BoundOf(lower, ClassOf(v).value)
  {
    lower.None? || Compare(v, lower.value.value) > 0 || (lower.value.inclusive && Compare(v, lower.value.value) == 0)
  }

  predicate BelowUpper(v: Value, upper: Option<Bound>)
    requires ClassOf(v).Some? && BoundOf(upper, ClassOf(v).value)
  {
    upper.None? || Compare(v, upper.value.value) < 0 || (upper.value.inclusive && Compare(v, upper.value.value) == 0)
  }

  predicate Within(v: Value, c: ValueClass, lower: Option<Bound>, upper: Option<Bound>)
    requires BoundOf(lower, c) && BoundOf(upper, c)
  {
    ClassOf(v) == Some(c) && AboveLower(v, lower) && BelowUpper(v, upper)
  }

  lemma OrderAt(ordered: map<ValueClass, seq<Value>>, unsorted: set<ValueClass>, values: set<Value>, c: ValueClass)
    requires OrderFor(ordered, unsorted, values) && c !in unsorted
    ensures Lists(EntriesFor(ordered, c), ClassValues(values, c)) && Ordered(EntriesFor(ordered, c), c)
    ensures forall i | 0 <= i < |EntriesFor(ordered, c)| :: EntriesFor(ordered, c)[i] in values
  {
    hide Ordered;
  }

  /** The entries within the bounds are those from `start` up to `end`. */
  method RangeEntries(entries: seq<Value>, c: ValueClass, lower: Option<Bound>, upper: Option<Bound>) returns (start: nat, end: nat)
    requires Ordered(entries, c) && BoundOf(lower, c) && BoundOf(upper, c)
    ensures start <= end <= |entries|
    ensures forall i | 0 <= i < |entries| :: Within(entries[i], c, lower, upper) <==> start <= i < end
  {
    hide Compare;
    start, end := 0, |entries|;
    if lower.Some? {
      if lower.value.inclusive {
        start := LowerBound(entries, lower.value.value, c);
      } else {
        start := UpperBound(entries, lower.value.value, c);
      }
    }
    if upper.Some? {
      if upper.value.inclusive {
        end := UpperBound(entries, upper.value.value, c);
      } else {
        end := LowerBound(entries, upper.value.value, c);
      }
    }
    end := if start > end then start else end;
  }

  lemma RangeKeys(byValue: map<Value, set<Key>>, docs: Documents, segments: seq<text>, entries: seq<Value>,
                  c: ValueClass, lower: Option<Bound>, upper: Option<Bound>, start: nat, end: nat)
    requires ValuesAgree(byValue, docs, segments) && Lists(entries, ClassValues(byValue.Keys, c))
    requires BoundOf(lower, c) && BoundOf(upper, c) && start <= end <= |entries|
    requires forall i | 0 <= i < |entries| :: entries[i] in byValue
    requires forall i | 0 <= i < |entries| :: Within(entries[i], c, lower, upper) <==> start <= i < end
    ensures (set i, k | start <= i < end && k in byValue[entries[i]] :: k)
         == set k | k in docs && Resolve(docs[k], segments).Some? && Within(Resolve(docs[k], segments).value, c, lower, upper)
  {
    hide Resolve, Compare, AboveLower, BelowUpper;
    var found := set i, k | start <= i < end && k in byValue[entries[i]] :: k;
    forall k | k in docs && Resolve(docs[k], segments).Some? && Within(Resolve(docs[k], segments).value, c, lower, upper)
      ensures k in found
    {
      var v := Resolve(docs[k], segments).value;
      assert v in ClassValues(byValue.Keys, c);
      var i :| 0 <= i < |entries| && entries[i] == v;
      assert k in byValue[entries[i]];
    }
  }

  /** A sort of one class's entries by value. */
  method SortEntries(entries: seq<Value>, c: ValueClass, ghost values: set<Value>) returns (sorted: seq<Value>)
    requires Lists(entries, values) && forall v | v in values :: ClassOf(v) == Some(c)
    ensures Lists(sorted, values) && Ordered(sorted, c)
  {
    hide Compare;
    sorted := [];
    ghost var done: set<Value> := {};
    for i := 0 to |entries|
      invariant Ordered(sorted, c) && Lists(sorted, done)
      invariant done == set j | 0 <= j < i :: entries[j]
    {
      var p := LowerBound(sorted, entries[i], c);
      assert entries[i] !in done;
      InsertKeepsOrder(sorted, entries[i], p, c);
      InsertLists(sorted, done, entries[i], p);
      sorted := sorted[..p] + [entries[i]] + sorted[p..];
      done := done + {entries[i]};
    }
    assert done == values;
  }

  lemma ValuesRemove(byValue: map<Value, set<Key>>, docs: Documents, k: Key, d: Document, segments: seq<text>)
    requires k !in docs && ValuesAgree(byValue, docs[k := d], segments)
    ensures
      var f := Resolve(d, segments);
      && (f.None? ==> ValuesAgree(byValue, docs, segments))
      && (f.Some? ==>
            && f.value in byValue && k in byValue[f.value]
            && (byValue[f.value] - {k} == {} ==> ValuesAgree(byValue - {f.value}, docs, segments))
            && (byValue[f.value] - {k} != {} ==> ValuesAgree(byValue[f.value := byValue[f.value] - {k}], docs, segments)))
  {
    hide Resolve, Holders;
    var f, docs' := Resolve(d, segments), docs[k := d];
    forall v: Value
      ensures Holders(docs', segments, v)
        == if f == Some(v) then Holders(docs, segments, v) + {k} else Holders(docs, segments, v)
      ensures k !in Holders(docs, segments, v)
    {
      HoldersAdd(docs, k, d, segments, v);
    }
    assert docs'[k] == d;
    assert forall j | j in docs :: j in docs' && docs'[j] == docs[j];
    if f.Some? && byValue[f.value] - {k} == {} {
      assert Holders(docs, segments, f.value) == {};
      forall j | j in docs && Resolve(docs[j], segments).Some?
        ensures Resolve(docs[j], segments).value in byValue - {f.value}
      {
        HolderIsHolder(docs, segments, j);
      }
    }
  }

  lemma HolderIsHolder(docs: Documents, segments: seq<text>, j: Key)
    requires j in docs && Resolve(docs[j], segments).Some?
    ensures j in Holders(docs, segments, Resolve(docs[j], segments).value)
  {}

  lemma ValuesAdd(byValue: map<Value, set<Key>>, docs: Documents, k: Key, d: Document, segments: seq<text>)
    requires ValuesAgree(byValue, docs, segments) && k !in docs
    ensures
      var f := Resolve(d, segments);
      && (f.None? ==> ValuesAgree(byValue, docs[k := d], segments))
      && (f.Some? && f.value in byValue ==> ValuesAgree(byValue[f.value := byValue[f.value] + {k}], docs[k := d], segments))
      && (f.Some? && f.value !in byValue ==> ValuesAgree(byValue[f.value := {k}], docs[k := d], segments))
  {
    hide Resolve, Holders;
    var f, docs' := Resolve(d, segments), docs[k := d];
    forall v: Value ensures Holders(docs', segments, v)
        == if f == Some(v) then Holders(docs, segments, v) + {k} else Holders(docs, segments, v)
    {
      HoldersAdd(docs, k, d, segments, v);
    }
    if f.Some? && f.value !in byValue {
      NoHolders(docs, segments, f.value, byValue.Keys);
    }
    assert forall j | j in docs' :: j == k || (j in docs && docs'[j] == docs[j]);
  }

  lemma NoHolders(docs: Documents, segments: seq<text>, v: Value, values: set<Value>)
    requires forall k | k in docs && Resolve(docs[k], segments).Some? :: Resolve(docs[k], segments).value in values
    requires v !in values
    ensures Holders(docs, segments, v) == {}
  {
    hide Resolve;
  }

  /** The scan of `removeOrdered`: past the values before `v`, then along its ties. */
  method FindEntry(entries: seq<Value>, v: Value, ghost c: ValueClass, ghost values: set<Value>) returns (p: nat)
    requires Ordered(entries, c) && ClassOf(v) == Some(c) && Lists(entries, values) && v in values
    ensures p < |entries| && entries[p] == v
  {
    hide Compare;
    p := LowerBound(entries, v, c);
    assert v in entries;
    CompareLaws(v, v, v);
    ghost var q :| 0 <= q < |entries| && entries[q] == v;
    ghost var low := p;
    while p < |entries| && Compare(entries[p], v) == 0
      invariant low <= p <= q && Compare(entries[p], v) == 0
    {
      if entries[p] == v {
        return p;
      }
      p := p + 1;
    }
    assert false;
  }
}
