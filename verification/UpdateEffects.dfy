/**
 * packages/storage/src/update.ts, `applyInstruction`: what each operator leaves at its path,
 * seen through the paths of the document before and after.
 */
module UpdateEffects {
  import opened Bytes
  import opened Text
  import opened Values
  import opened Filter
  import opened Sort
  import opened Update

  // ---------------------------------------------------------------- what each operator asks

  /** `a` is what is left of `b` when some items are taken out. */
  predicate Subsequence(a: seq<Value>, b: seq<Value>) {
    if a == [] then true
    else if b == [] then false
    else if a[0] == b[0] then Subsequence(a[1..], b[1..])
    else Subsequence(a, b[1..])
  }

  /** Exactly the items equal to `v` are gone, and the others are in their order. */
  ghost predicate Pulled(before: seq<Value>, after: seq<Value>, v: Value) {
    && v !in after && Subsequence(after, before)
    && forall x | x != v :: multiset(after)[x] == multiset(before)[x]
  }

  /** Where an operator throws, by what is at its path. */
  predicate Throws(op: Operator, operand: Value, before: Option<Value>) {
    match op
    case Inc =>
      && before.Some?
      && !(before.value.Big? && operand.Big?)
      && !(Number(before.value) && Number(operand) && Sum(before.value, operand).Some?)
    case Push => before.Some? && !before.value.Arr?
    case AddToSet => before.Some? && !before.value.Arr?
    case Pull => before.Some? && !before.value.Arr?
    case _ => false
  }

  /** What an operator leaves at its path. */
  ghost predicate Effect(op: Operator, operand: Value, before: Option<Value>, after: Option<Value>) {
    match op
    case Set => after == Some(operand)
    case Unset => after == None
    case Inc =>
      && after.Some?
      && (before.None? ==> after.value == operand)
      && (before.Some? && before.value.Int? && operand.Int? && -MAX_SAFE_INTEGER <= before.value.i + operand.i <= MAX_SAFE_INTEGER ==>
            after.value == Int(before.value.i + operand.i))
      && (before.Some? && before.value.Big? && operand.Big? ==> after.value == Big(before.value.n + operand.n))
      && (before.Some? && Number(before.value) ==> after == Sum(before.value, operand))
    case Min => Extremum(operand, before, after, -1)
    case Max => Extremum(operand, before, after, 1)
    case Push => after.Some? && after.value == Arr(ItemsOf(before) + [operand])
    case AddToSet =>
      && after.Some? && after.value.Arr? && operand in after.value.items
      && (operand in ItemsOf(before) ==> after == before)
      && (operand !in ItemsOf(before) ==> after.value.items == ItemsOf(before) + [operand])
    case Pull =>
      && (before.None? ==> after.None?)
      && (before.Some? ==> after.Some? && after.value.Arr? && Pulled(ItemsOf(before), after.value.items, operand))
  }

  function ItemsOf(v: Option<Value>): seq<Value> {
    if v.Some? && v.value.Arr? then v.value.items else []
  }

  /**
   * One of the two values, with neither of them further in the direction (-1 smaller, 1
   * greater); the one that was there if they tie.
   */
  ghost predicate Extremum(operand: Value, before: Option<Value>, after: Option<Value>, direction: int) {
    && after.Some?
    && (before.None? ==> after.value == operand)
    && (before.Some? ==>
          && (after == before || after.value == operand)
          && CompareDocumentValues(operand, after.value) * direction <= 0
          && CompareDocumentValues(before.value, after.value) * direction <= 0
          && (CompareDocumentValues(operand, before.value) == 0 ==> after == before))
  }

  lemma {:induction false} WithoutPulls(items: seq<Value>, v: Value)
    ensures Pulled(items, Without(items, v), v)
  {
    if items != [] {
      WithoutPulls(items[1..], v);
      assert items == [items[0]] + items[1..];
      var rest := Without(items[1..], v);
      if items[0] == v {
        assert Without(items, v) == rest;
        SkipFirst(rest, items[0], items[1..]);
      } else {
        assert Without(items, v) == [items[0]] + rest;
        assert ([items[0]] + rest)[1..] == rest;
      }
    }
  }

  lemma SkipFirst(a: seq<Value>, x: Value, b: seq<Value>)
    requires Subsequence(a, b) && x !in a
    ensures Subsequence(a, [x] + b)
  {
    assert ([x] + b)[1..] == b;
  }

  /** Each operator does what it is asked, or throws exactly where it must. */
  lemma OperatorEffects(op: Operator, operand: Value, before: Option<Value>)
    ensures Operate(before, op, operand).None? <==> Throws(op, operand, before)
    ensures Operate(before, op, operand).Some? ==> Effect(op, operand, before, Operate(before, op, operand).value)
  {
    hide CompareDocumentValues, Without, Pulled;
    if before.Some? {
      Ties(operand, before.value);
      if op.Pull? && before.value.Arr? {
        WithoutPulls(before.value.items, operand);
      }
    }
  }

  lemma Ties(a: Value, b: Value)
    ensures CompareDocumentValues(a, a) == 0 && CompareDocumentValues(b, b) == 0
    ensures CompareDocumentValues(a, b) == -CompareDocumentValues(b, a)
  {
    hide CompareSortValues;
    SortLaws(Some(a), Some(b), Some(b));
    SortLaws(Some(b), Some(b), Some(b));
  }

  // ---------------------------------------------------------------- at a path

  /** Something on the way to the last segment is not a document. */
  predicate Blocked(d: Document, path: seq<text>)
    decreases |path|
  {
    |path| > 1 && path[0] in d && (!d[path[0]].Doc? || Blocked(d[path[0]].fields, path[1..]))
  }

  lemma AppliesHere(d: Document, key: text, op: Operator, operand: Value)
    ensures ApplyAt(d, [key], op, operand).Some? <==> Operate(Resolve(d, [key]), op, operand).Some?
    ensures ApplyAt(d, [key], op, operand).Some? ==>
      Resolve(ApplyAt(d, [key], op, operand).value, [key]) == Operate(Resolve(d, [key]), op, operand).value
  {
    hide Operate;
    assert [key][1..] == [];
  }

  /** Whether the instruction gets past the first segment of a longer path. */
  lemma AppliesBelow(d: Document, path: seq<text>, op: Operator, operand: Value)
    requires |path| > 1
    ensures path[0] in d && d[path[0]].Doc? ==> (ApplyAt(d, path, op, operand).Some? <==> ApplyAt(d[path[0]].fields, path[1..], op, operand).Some?)
    ensures path[0] in d && !d[path[0]].Doc? ==> (ApplyAt(d, path, op, operand).Some? <==> !Creates(op))
    ensures path[0] !in d && Creates(op) ==> (ApplyAt(d, path, op, operand).Some? <==> ApplyAt(map[], path[1..], op, operand).Some?)
    ensures path[0] !in d && !Creates(op) ==> ApplyAt(d, path, op, operand).Some?
  {
    hide Operate;
  }

  /**
   * An instruction is carried out exactly if no value that is not a document stands in the
   * way of one that has to create its path, and the operator does not throw; then it leaves
   * at its path what its operator leaves of the value there.
   */
  lemma {:induction false} AppliesAtPath(d: Document, path: seq<text>, op: Operator, operand: Value)
    requires path != []
    ensures ApplyAt(d, path, op, operand).Some? <==> !(Creates(op) && Blocked(d, path)) && !Throws(op, operand, Resolve(d, path))
    ensures ApplyAt(d, path, op, operand).Some? ==>
      Effect(op, operand, Resolve(d, path), Resolve(ApplyAt(d, path, op, operand).value, path))
    decreases |path|
  {
    hide Operate, Effect, Throws, ApplyAt, Creates;
    var key, rest := path[0], path[1..];
    if rest == [] {
      assert path == [key];
      AppliesHere(d, key, op, operand);
      OperatorEffects(op, operand, Resolve(d, path));
    } else {
      NothingThere(op, operand);
      AppliesBelow(d, path, op, operand);
      if ApplyAt(d, path, op, operand).Some? {
        FirstField(d, path, op, operand);
      }
      if key in d && d[key].Doc? {
        AppliesAtPath(d[key].fields, rest, op, operand);
      } else if key !in d && Creates(op) {
        NothingAt(rest);
        AppliesAtPath(map[], rest, op, operand);
      }
    }
  }

  lemma NothingAt(path: seq<text>)
    ensures Resolve(map[], path) == None && !Blocked(map[], path)
  {}

  lemma NothingThere(op: Operator, operand: Value)
    ensures !Creates(op) ==> Effect(op, operand, None, None) && !Throws(op, operand, None)
  {}

  /** Paths that part after their first segment. */
  lemma TailsApart(a: seq<text>, b: seq<text>)
    requires a != [] && b != [] && a[0] == b[0] && !Overlap(a, b)
    ensures a[1..] != [] && b[1..] != [] && !Overlap(a[1..], b[1..])
  {
    assert a == [a[0]] + a[1..] && b == [b[0]] + b[1..];
  }

  /** What an instruction makes of the field its path starts with, and that it touches no other. */
  lemma FirstField(d: Document, path: seq<text>, op: Operator, operand: Value)
    requires |path| > 1 && ApplyAt(d, path, op, operand).Some?
    ensures
      var e, key, rest := ApplyAt(d, path, op, operand).value, path[0], path[1..];
      && (forall k | k != key :: (k in e <==> k in d) && (k in d ==> e[k] == d[k]))
      && (key in d && d[key].Doc? ==>
            ApplyAt(d[key].fields, rest, op, operand).Some? && key in e && e[key] == Doc(ApplyAt(d[key].fields, rest, op, operand).value))
      && (key in d && !d[key].Doc? ==> key in e && e[key] == d[key])
      && (key !in d && Creates(op) ==>
            ApplyAt(map[], rest, op, operand).Some? && key in e && e[key] == Doc(ApplyAt(map[], rest, op, operand).value))
      && (key !in d && !Creates(op) ==> key !in e)
  {
    hide Operate;
  }

  lemma OtherField(d: Document, path: seq<text>, op: Operator, operand: Value, k: text)
    requires path != [] && path[0] != k && ApplyAt(d, path, op, operand).Some?
    ensures var e := ApplyAt(d, path, op, operand).value; (k in e <==> k in d) && (k in d ==> e[k] == d[k])
  {
    hide Descend;
  }

  /** Every path that does not overlap resolves as before. */
  lemma {:induction false} OthersStay(d: Document, path: seq<text>, op: Operator, operand: Value, other: seq<text>)
    requires path != [] && other != [] && !Overlap(path, other) && ApplyAt(d, path, op, operand).Some?
    ensures Resolve(ApplyAt(d, path, op, operand).value, other) == Resolve(d, other)
    decreases |path|
  {
    hide ApplyAt, Overlap;
    var key, rest, later := path[0], path[1..], other[1..];
    if other[0] != key {
      OtherField(d, path, op, operand, other[0]);
    } else {
      TailsApart(path, other);
      FirstField(d, path, op, operand);
      if key in d && d[key].Doc? {
        OthersStay(d[key].fields, rest, op, operand, later);
      } else if key !in d && Creates(op) {
        OthersStay(map[], rest, op, operand, later);
        NothingAt(later);
      }
    }
  }

  // ---------------------------------------------------------------- whole updates

  lemma Paths(list: seq<Instruction>)
    requires Accepted(list)
    ensures forall i | 0 <= i < |list| :: list[i].segments != []
    ensures forall i, j | 0 <= i < |list| && 0 <= j < |list| && i != j :: !Overlap(list[i].segments, list[j].segments)
  {}

  /**
   * An accepted update, when it succeeds, does at each of its paths what its instruction asks
   * of the value that was there before, and leaves every path that overlaps none of them alone.
   */
  lemma {:induction false} UpdateEffects(d: Document, list: seq<Instruction>)
    requires Accepted(list) && ApplyAll(Some(d), list).Some?
    ensures
      var e := ApplyAll(Some(d), list).value;
      && (forall i | 0 <= i < |list| ::
            Effect(list[i].operator, list[i].operand, Resolve(d, list[i].segments), Resolve(e, list[i].segments)))
      && (forall q: seq<text> | q != [] && (forall i | 0 <= i < |list| :: !Overlap(list[i].segments, q)) :: Resolve(e, q) == Resolve(d, q))
    decreases |list|
  {
    hide Effect, Overlap, ApplyAt, Resolve;
    Paths(list);
    if list != [] {
      var first, rest := list[0], list[1..];
      NothingFrom(Then(Some(d), first), rest);
      var d1 := ApplyAt(d, first.segments, first.operator, first.operand).value;
      var e := ApplyAll(Some(d), list).value;
      AppliesAtPath(d, first.segments, first.operator, first.operand);
      RestAccepted(list);
      UpdateEffects(d1, rest);
      forall i | 0 <= i < |list|
        ensures Effect(list[i].operator, list[i].operand, Resolve(d, list[i].segments), Resolve(e, list[i].segments))
      {
        if i > 0 {
          assert rest[i - 1] == list[i];
          OthersStay(d, first.segments, first.operator, first.operand, list[i].segments);
        } else {
          forall j | 0 <= j < |rest| ensures !Overlap(rest[j].segments, first.segments) {
            assert rest[j] == list[j + 1];
          }
        }
      }
      forall q: seq<text> | q != [] && (forall i | 0 <= i < |list| :: !Overlap(list[i].segments, q))
        ensures Resolve(e, q) == Resolve(d, q)
      {
        OthersStay(d, first.segments, first.operator, first.operand, q);
        forall j | 0 <= j < |rest| ensures !Overlap(rest[j].segments, q) {
          assert rest[j] == list[j + 1];
        }
      }
    }
  }

  lemma RestAccepted(list: seq<Instruction>)
    requires Accepted(list) && list != []
    ensures Accepted(list[1..])
  {
    hide Overlap;
  }

  /** A failure is never undone. */
  lemma {:induction false} NothingFrom(d: Option<Document>, list: seq<Instruction>)
    requires forall i | 0 <= i < |list| :: list[i].segments != []
    requires ApplyAll(d, list).Some?
    ensures d.Some?
    decreases |list|
  {
    hide ApplyAt;
    if list != [] {
      NothingFrom(Then(d, list[0]), list[1..]);
    }
  }

  /** An accepted update fails exactly if one of its instructions would fail on the document as it was. */
  lemma {:induction false} UpdateSucceeds(d: Document, list: seq<Instruction>)
    requires Accepted(list)
    ensures ApplyAll(Some(d), list).Some? <==>
      forall i | 0 <= i < |list| :: ApplyAt(d, list[i].segments, list[i].operator, list[i].operand).Some?
    decreases |list|
  {
    hide Overlap, ApplyAt;
    Paths(list);
    if list != [] {
      var first, rest := list[0], list[1..];
      RestAccepted(list);
      var d1 := Then(Some(d), first);
      if d1.Some? {
        UpdateSucceeds(d1.value, rest);
        forall i | 0 < i < |list|
          ensures rest[i - 1] == list[i]
          ensures ApplyAt(d1.value, list[i].segments, list[i].operator, list[i].operand).Some?
             <==> ApplyAt(d, list[i].segments, list[i].operator, list[i].operand).Some?
        {
          StillApplies(d, first, list[i]);
        }
      } else if ApplyAll(Some(d), list).Some? {
        NothingFrom(d1, rest);
      }
    }
  }

  lemma StillApplies(d: Document, a: Instruction, b: Instruction)
    requires a.segments != [] && b.segments != [] && !Overlap(a.segments, b.segments) && Then(Some(d), a).Some?
    ensures Then(Then(Some(d), a), b).Some? <==> Then(Some(d), b).Some?
  {
    hide ApplyAt, Overlap;
    StaysBlocked(d, a.segments, a.operator, a.operand, b.segments);
    AppliesAtPath(d, b.segments, b.operator, b.operand);
    AppliesAtPath(Then(Some(d), a).value, b.segments, b.operator, b.operand);
    OthersStay(d, a.segments, a.operator, a.operand, b.segments);
  }

  lemma {:induction false} StaysBlocked(d: Document, path: seq<text>, op: Operator, operand: Value, other: seq<text>)
    requires path != [] && other != [] && !Overlap(path, other) && ApplyAt(d, path, op, operand).Some?
    ensures Blocked(ApplyAt(d, path, op, operand).value, other) <==> Blocked(d, other)
    decreases |path|
  {
    hide ApplyAt, Overlap;
    var key, rest, later := path[0], path[1..], other[1..];
    if other[0] != key {
      OtherField(d, path, op, operand, other[0]);
    } else {
      TailsApart(path, other);
      FirstField(d, path, op, operand);
      if key in d && d[key].Doc? {
        StaysBlocked(d[key].fields, rest, op, operand, later);
      } else if key !in d && Creates(op) {
        StaysBlocked(map[], rest, op, operand, later);
        NothingAt(later);
      }
    }
  }
}
