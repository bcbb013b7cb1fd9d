/** packages/storage/src/update.ts: update operators, and why the order of their paths does not matter. */
module Update {
  import opened Bytes
  import opened Text
  import opened Values
  import opened Filter
  import opened Sort

  datatype Operator = Set | Unset | Inc | Min | Max | Push | Pull | AddToSet

  datatype Instruction = Instruction(operator: Operator, segments: seq<text>, operand: Value)

  // The sum of two numbers that are not both integers, or whose sum is not one that is held
  // exactly, if it is finite. Nothing depends on which it is.
  const SUM: (Value, Value) -> Option<Value>

  predicate Number(v: Value) {
    v.Int? || v.Double?
  }

  /** Adding two numbers; None where the result is not finite. */
  function Sum(a: Value, b: Value): Option<Value> {
    if a.Int? && b.Int? && -MAX_SAFE_INTEGER <= a.i + b.i <= MAX_SAFE_INTEGER then Some(Int(a.i + b.i)) else SUM(a, b)
  }

  /** Unsetting and pulling never create what is not there. */
  predicate Creates(op: Operator) {
    op != Unset && op != Pull
  }

  function Without(items: seq<Value>, v: Value): seq<Value> {
    if items == [] then []
    else (if items[0] == v then [] else [items[0]]) + Without(items[1..], v)
  }

  /** A field that may be absent. */
  type Slot = Option<Value>

  /** What an operator leaves in the field it names; None where it throws. */
  function Operate(was: Slot, op: Operator, operand: Value): Option<Slot> {
    match op
    case Set => Some(Some(operand))
    case Unset => Some(None)
    case Inc =>
      if was.None? then Some(Some(operand))
      else if Number(was.value) && Number(operand) then
        (if Sum(was.value, operand).Some? then Some(Some(Sum(was.value, operand).value)) else None)
      else if was.value.Big? && operand.Big? then Some(Some(Big(was.value.n + operand.n)))
      else None
    case Min => Some(if was.None? || CompareDocumentValues(operand, was.value) < 0 then Some(operand) else was)
    case Max => Some(if was.None? || CompareDocumentValues(operand, was.value) > 0 then Some(operand) else was)
    case Push =>
      if was.None? then Some(Some(Arr([operand])))
      else if was.value.Arr? then Some(Some(Arr(was.value.items + [operand])))
      else None
    case AddToSet =>
      if was.None? then Some(Some(Arr([operand])))
      else if !was.value.Arr? then None
      else if operand in was.value.items then Some(was)
      else Some(Some(Arr(was.value.items + [operand])))
    case Pull =>
      if was.None? then Some(None)
      else if was.value.Arr? then Some(Some(Arr(Without(was.value.items, operand))))
      else None
  }

  function Get(d: Document, key: text): Slot {
    if key in d then Some(d[key]) else None
  }

  function Store(d: Document, key: text, s: Slot): Document {
    if s.Some? then d[key := s.value] else d - {key}
  }

  /** `applyInstruction` from the field `segments[0]` of `d` down; None where it throws. */
  function ApplyAt(d: Document, segments: seq<text>, op: Operator, operand: Value): Option<Document>
    requires segments != []
    decreases |segments|, 1
  {
    match Descend(Get(d, segments[0]), segments[1..], op, operand)
    case None => None
    case Some(s) => Some(Store(d, segments[0], s))
  }

  function Descend(was: Slot, rest: seq<text>, op: Operator, operand: Value): Option<Slot>
    decreases |rest|, 2
  {
    if rest == [] then Operate(was, op, operand)
    else if was.None? && !Creates(op) then Some(None)
    else if was.Some? && !was.value.Doc? then (if Creates(op) then None else Some(was))
    else
      match ApplyAt(if was.Some? then was.value.fields else map[], rest, op, operand)
      case None => None
      case Some(d) => Some(Some(Doc(d)))
  }

  // ---------------------------------------------------------------- commuting

  predicate Overlap(a: seq<text>, b: seq<text>) {
    a <= b || b <= a
  }

  /** The loop of `overlaps`. */
  method Overlaps(left: seq<text>, right: seq<text>) returns (r: bool)
    ensures r <==> Overlap(left, right)
  {
    var length := if |left| < |right| then |left| else |right|;
    for index := 0 to length
      invariant left[..index] == right[..index]
    {
      if left[index] != right[index] {
        return false;
      }
    }
    return true;
  }

  function Then(d: Option<Document>, i: Instruction): Option<Document>
    requires i.segments != []
  {
    if d.None? then None else ApplyAt(d.value, i.segments, i.operator, i.operand)
  }

  lemma StoreOther(d: Document, j: text, k: text, s: Slot, t: Slot)
    requires j != k
    ensures Get(Store(d, j, s), k) == Get(d, k)
    ensures Store(Store(d, j, s), k, t) == Store(Store(d, k, t), j, s)
  {}

  lemma StoreSame(d: Document, k: text, s: Slot, t: Slot)
    ensures Get(Store(d, k, s), k) == s
    ensures Store(Store(d, k, s), k, t) == Store(d, k, t)
  {}

  /** Without creating, an empty document stays empty. */
  lemma {:induction false} NothingToUndo(segments: seq<text>, op: Operator, operand: Value)
    requires segments != [] && !Creates(op)
    ensures ApplyAt(map[], segments, op, operand) == Some(map[])
  {}

  /** Two instructions whose paths do not overlap can be applied in either order, failures included. */
  lemma {:induction false} Commute(d: Document, a: Instruction, b: Instruction)
    requires a.segments != [] && b.segments != [] && !Overlap(a.segments, b.segments)
    ensures Then(Then(Some(d), a), b) == Then(Then(Some(d), b), a)
    decreases |a.segments|
  {
    hide Operate, Descend;
    var j, k := a.segments[0], b.segments[0];
    if j != k {
      var s := Descend(Get(d, j), a.segments[1..], a.operator, a.operand);
      var t := Descend(Get(d, k), b.segments[1..], b.operator, b.operand);
      if s.Some? {
        StoreOther(d, j, k, s.value, if t.Some? then t.value else None);
      }
      if t.Some? {
        StoreOther(d, k, j, t.value, if s.Some? then s.value else None);
      }
    } else {
      SlotsCommute(Get(d, k), a, b);
      SameKey(d, a, b);
    }
  }

  ghost function Both(was: Slot, a: Instruction, b: Instruction): Option<Slot>
    requires a.segments != [] && b.segments != []
  {
    match Descend(was, a.segments[1..], a.operator, a.operand)
    case None => None
    case Some(s) => Descend(s, b.segments[1..], b.operator, b.operand)
  }

  lemma SameKey(d: Document, a: Instruction, b: Instruction)
    requires a.segments != [] && b.segments != [] && a.segments[0] == b.segments[0]
    requires Both(Get(d, a.segments[0]), a, b) == Both(Get(d, a.segments[0]), b, a)
    ensures Then(Then(Some(d), a), b) == Then(Then(Some(d), b), a)
  {
    SameKeyOne(d, a, b);
    SameKeyOne(d, b, a);
  }

  lemma SameKeyOne(d: Document, a: Instruction, b: Instruction)
    requires a.segments != [] && b.segments != [] && a.segments[0] == b.segments[0]
    ensures Then(Then(Some(d), a), b) ==
      match Both(Get(d, a.segments[0]), a, b) case None => None case Some(s) => Some(Store(d, a.segments[0], s))
  {
    hide Descend;
    var k := a.segments[0];
    var s := Descend(Get(d, k), a.segments[1..], a.operator, a.operand);
    if s.Some? {
      var t := Descend(s.value, b.segments[1..], b.operator, b.operand);
      StoreSame(d, k, s.value, if t.Some? then t.value else None);
    }
  }

  lemma {:induction false} SlotsCommute(was: Slot, a: Instruction, b: Instruction)
    requires a.segments != [] && b.segments != [] && !Overlap(a.segments, b.segments) && a.segments[0] == b.segments[0]
    ensures Both(was, a, b) == Both(was, b, a)
    decreases |a.segments|, 0
  {
    hide Operate;
    var a', b' := a.(segments := a.segments[1..]), b.(segments := b.segments[1..]);
    assert a'.segments != [] && b'.segments != [] && !Overlap(a'.segments, b'.segments) by {
      assert a.segments == [a.segments[0]] + a'.segments && b.segments == [b.segments[0]] + b'.segments;
    }
    if was.None? || was.value.Doc? {
      var d := if was.None? then map[] else was.value.fields;
      Commute(d, a', b');
      if !Creates(a.operator) && was.None? {
        NothingToUndo(a'.segments, a.operator, a.operand);
      }
      if !Creates(b.operator) && was.None? {
        NothingToUndo(b'.segments, b.operator, b.operand);
      }
    }
  }

  // ---------------------------------------------------------------- any order

  /** What `parseUpdate` lets through: paths that do not overlap and leave `_id` alone. */
  ghost predicate Accepted(list: seq<Instruction>) {
    && (forall i | 0 <= i < |list| :: list[i].segments != [] && list[i].segments[0] != ID)
    && (forall i, j | 0 <= i < j < |list| :: !Overlap(list[i].segments, list[j].segments))
  }

  function ApplyAll(d: Option<Document>, list: seq<Instruction>): Option<Document>
    requires forall i | 0 <= i < |list| :: list[i].segments != []
    decreases |list|
  {
    if list == [] then d else ApplyAll(Then(d, list[0]), list[1..])
  }

  /** Moving an instruction to the front changes nothing. */
  lemma {:induction false} MoveToFront(d: Option<Document>, list: seq<Instruction>, i: nat)
    requires Accepted(list) && i < |list|
    ensures ApplyAll(d, list) == ApplyAll(Then(d, list[i]), list[..i] + list[i + 1..])
    decreases i
  {
    hide Then, Overlap;
    if i == 0 {
      assert list[..0] + list[1..] == list[1..];
    } else {
      var rest := list[1..];
      assert rest[i - 1] == list[i];
      MoveToFront(Then(d, list[0]), rest, i - 1);
      var others := list[..i] + list[i + 1..];
      assert others[0] == list[0] && others[1..] == rest[..i - 1] + rest[i..];
      ThenCommutes(d, list[0], list[i]);
    }
  }

  lemma ThenCommutes(d: Option<Document>, a: Instruction, b: Instruction)
    requires a.segments != [] && b.segments != [] && !Overlap(a.segments, b.segments)
    ensures Then(Then(d, a), b) == Then(Then(d, b), a)
  {
    hide ApplyAt;
    if d.Some? {
      Commute(d.value, a, b);
    }
  }

  /**
   * Applying the instructions of an accepted update in any order gives the same document, or
   * fails in every order.
   */
  lemma {:induction false} OrderIndependent(d: Option<Document>, a: seq<Instruction>, b: seq<Instruction>)
    requires Accepted(a) && Accepted(b) && multiset(a) == multiset(b)
    ensures ApplyAll(d, a) == ApplyAll(d, b)
    decreases |a|
  {
    hide Then, Accepted;
    Nonempty(a);
    if a == [] {
      assert |multiset(b)| == 0;
    } else {
      var i := PlaceIn(a[0], b, multiset(a));
      MoveToFront(d, b, i);
      AcceptedRest(a, 0);
      AcceptedRest(b, i);
      assert a[..0] + a[1..] == a[1..];
      SameRest(a, b, i);
      OrderIndependent(Then(d, a[0]), a[1..], b[..i] + b[i + 1..]);
    }
  }

  lemma Nonempty(list: seq<Instruction>)
    requires Accepted(list)
    ensures forall i | 0 <= i < |list| :: list[i].segments != []
  {
    hide Overlap;
  }

  ghost function PlaceIn<T>(x: T, b: seq<T>, m: multiset<T>): (i: nat)
    requires x in m && m == multiset(b)
    ensures i < |b| && b[i] == x
  {
    assert x in b;
    var i :| 0 <= i < |b| && b[i] == x;
    i
  }

  lemma AcceptedRest(list: seq<Instruction>, i: nat)
    requires Accepted(list) && i < |list|
    ensures Accepted(list[..i] + list[i + 1..])
  {
    hide Overlap;
    var rest := list[..i] + list[i + 1..];
    assert forall j | 0 <= j < |rest| :: rest[j] == list[if j < i then j else j + 1];
  }

  lemma SameRest<T>(a: seq<T>, b: seq<T>, i: nat)
    requires a != [] && i < |b| && b[i] == a[0] && multiset(a) == multiset(b)
    ensures multiset(a[1..]) == multiset(b[..i] + b[i + 1..])
  {
    assert a == [a[0]] + a[1..];
    assert b == b[..i] + [b[i]] + b[i + 1..];
    assert multiset(b) == multiset(b[..i] + b[i + 1..]) + multiset{b[i]};
    assert multiset(a) == multiset(a[1..]) + multiset{a[0]};
    Cancel(multiset(a[1..]), multiset(b[..i] + b[i + 1..]), a[0]);
  }

  lemma Cancel<T>(m: multiset<T>, n: multiset<T>, x: T)
    requires m + multiset{x} == n + multiset{x}
    ensures m == n
  {
    assert m == m + multiset{x} - multiset{x};
    assert n == n + multiset{x} - multiset{x};
  }

  /** No accepted update changes `_id`. */
  lemma {:induction false} IdUnchanged(d: Document, list: seq<Instruction>)
    requires Accepted(list) && ApplyAll(Some(d), list).Some?
    ensures Get(ApplyAll(Some(d), list).value, ID) == Get(d, ID)
    decreases |list|
  {
    hide Descend, Overlap;
    if list != [] {
      var next := Then(Some(d), list[0]);
      if next.None? {
        FailureStays(list[1..]);
      } else {
        IdUnchanged(next.value, list[1..]);
      }
    }
  }

  lemma {:induction false} FailureStays(list: seq<Instruction>)
    requires forall i | 0 <= i < |list| :: list[i].segments != []
    ensures ApplyAll(None, list) == None
    decreases |list|
  {
    if list != [] {
      FailureStays(list[1..]);
    }
  }

  // ---------------------------------------------------------------- parsing

  const PROTO: text := [0x5F, 0x5F, 0x70, 0x72, 0x6F, 0x74, 0x6F, 0x5F, 0x5F]

  // The operator an update key names. Nothing depends on the spelling.
  const OPERATORS: text -> Option<Operator>

  predicate PathOk(segments: seq<text>) {
    && (forall i | 0 <= i < |segments| :: segments[i] != [] && !Dollar(segments[i]) && segments[i] != PROTO)
    && segments != [] && segments[0] != ID
  }

  predicate OperandOk(op: Operator, operand: Value) {
    match op
    case Inc => operand.Big? || (Number(operand) && ClassOf(operand).Some?)
    case Min => !operand.Arr? && !operand.Doc?
    case Max => !operand.Arr? && !operand.Doc?
    case _ => true
  }

  /** An operator name and a path under it. */
  datatype Place = Place(name: text, path: text)

  predicate At(update: Value, p: Place) {
    update.Doc? && p.name in update.fields && update.fields[p.name].Doc? && p.path in update.fields[p.name].fields
  }

  /** The instruction the update has at a place. */
  predicate Written(update: Value, p: Place, i: Instruction) {
    && At(update, p) && OPERATORS(p.name) == Some(i.operator)
    && i.segments == Split(p.path) && i.operand == update.fields[p.name].fields[p.path]
  }

  /** Every operator is known and has operands, and every path and operand is allowed. */
  predicate WellFormed(update: Value) {
    && update.Doc? && update.fields != map[]
    && (forall name | name in update.fields ::
          OPERATORS(name).Some? && update.fields[name].Doc? && update.fields[name].fields != map[])
    && (forall name | name in update.fields :: AllowedUnder(update, name))
  }

  predicate AllowedUnder(update: Value, name: text)
    requires update.Doc? && name in update.fields && OPERATORS(name).Some? && update.fields[name].Doc?
  {
    forall path | path in update.fields[name].fields ::
      PathOk(Split(path)) && OperandOk(OPERATORS(name).value, update.fields[name].fields[path])
  }

  /** Two places of the update have overlapping paths. */
  ghost predicate Conflicting(update: Value) {
    exists p, q :: At(update, p) && At(update, q) && p != q && Overlap(Split(p.path), Split(q.path))
  }

  /** The list has one instruction for each of `places`, in the same order. */
  ghost predicate Transcribes(update: Value, places: seq<Place>, list: seq<Instruction>) {
    && |places| == |list|
    && (forall i | 0 <= i < |list| :: Written(update, places[i], list[i]) && PathOk(list[i].segments))
    && (forall i, j | 0 <= i < j < |places| :: places[i] != places[j])
  }

  /** The instructions under one operator, appended to `list`. */
  method ParseOperator(update: Value, name: text, list: seq<Instruction>, ghost places: seq<Place>)
    returns (r: Option<seq<Instruction>>, ghost more: seq<Place>)
    requires update.Doc? && name in update.fields && OPERATORS(name).Some? && update.fields[name].Doc?
    requires Transcribes(update, places, list) && forall i | 0 <= i < |places| :: places[i].name != name
    ensures r.Some? <==> AllowedUnder(update, name)
    ensures r.Some? ==> Transcribes(update, more, r.value)
    ensures r.Some? ==> forall p | p in more :: p in places || p.name == name
    ensures r.Some? ==> forall p | p in places || (At(update, p) && p.name == name) :: p in more
  {
    hide Split, PathOk, OperandOk;
    var op, operands := OPERATORS(name).value, update.fields[name].fields;
    var out := list;
    more := places;
    var remaining := operands.Keys;
    while remaining != {}
      invariant remaining <= operands.Keys && Transcribes(update, more, out)
      invariant forall p | p in more :: p in places || (p.name == name && p.path !in remaining)
      invariant forall p | p in places :: p in more
      invariant forall path | path in operands && path !in remaining ::
        Place(name, path) in more && PathOk(Split(path)) && OperandOk(op, operands[path])
      decreases |remaining|
    {
      var path :| path in remaining;
      if !PathOk(Split(path)) || !OperandOk(op, operands[path]) {
        return None, more;
      }
      ghost var place := Place(name, path);
      assert place !in places;
      out := out + [Instruction(op, Split(path), operands[path])];
      more := more + [place];
      remaining := remaining - {path};
    }
    return Some(out), more;
  }

  /** The check that no two paths overlap. */
  method Separate(list: seq<Instruction>) returns (ok: bool)
    ensures ok <==> forall i, j | 0 <= i < j < |list| :: !Overlap(list[i].segments, list[j].segments)
  {
    hide Overlap;
    for left := 0 to |list|
      invariant forall i, j | 0 <= i < left && i < j < |list| :: !Overlap(list[i].segments, list[j].segments)
    {
      for right := left + 1 to |list|
        invariant forall j | left < j < right :: !Overlap(list[left].segments, list[j].segments)
      {
        var overlap := Overlaps(list[left].segments, list[right].segments);
        if overlap {
          return false;
        }
      }
    }
    return true;
  }

  /**
   * `parseUpdate`: accepts exactly the updates that are well formed and whose paths do not
   * overlap. What it accepts can be applied in any order and leaves `_id` alone.
   */
  method ParseUpdate(update: Value) returns (r: Option<seq<Instruction>>, ghost places: seq<Place>)
    ensures r.Some? <==> WellFormed(update) && !Conflicting(update)
    ensures r.Some? ==> Accepted(r.value) && Transcribes(update, places, r.value) && forall p :: At(update, p) <==> p in places
  {
    hide Split, PathOk, OperandOk, Overlap, AllowedUnder;
    places := [];
    if !update.Doc? || update.fields == map[] {
      return None, places;
    }
    var list: seq<Instruction> := [];
    var remaining := update.fields.Keys;
    while remaining != {}
      invariant remaining <= update.fields.Keys && Transcribes(update, places, list)
      invariant forall p | p in places :: p.name !in remaining
      invariant forall p | At(update, p) && p.name !in remaining :: p in places
      invariant forall name | name in update.fields && name !in remaining ::
        OPERATORS(name).Some? && update.fields[name].Doc? && update.fields[name].fields != map[] && AllowedUnder(update, name)
      decreases |remaining|
    {
      var name :| name in remaining;
      var op, operands := OPERATORS(name), update.fields[name];
      if op.None? || !operands.Doc? || operands.fields == map[] {
        return None, places;
      }
      var parsed;
      ghost var more;
      parsed, more := ParseOperator(update, name, list, places);
      if parsed.None? {
        return None, places;
      }
      list, places := parsed.value, more;
      remaining := remaining - {name};
    }
    var separate := Separate(list);
    SeparateIsConflictFree(update, places, list);
    if !separate {
      return None, places;
    }
    PathsAccepted(list);
    return Some(list), places;
  }

  lemma SeparateIsConflictFree(update: Value, places: seq<Place>, list: seq<Instruction>)
    requires Transcribes(update, places, list) && forall p | At(update, p) :: p in places
    ensures (forall i, j | 0 <= i < j < |list| :: !Overlap(list[i].segments, list[j].segments)) <==> !Conflicting(update)
  {
    hide Split, PathOk, Overlap;
    if i, j :| 0 <= i < j < |list| && Overlap(list[i].segments, list[j].segments) {
      assert At(update, places[i]) && At(update, places[j]) && places[i] != places[j];
    }
    if Conflicting(update) {
      var i, j := ConflictPlaces(update, places, list);
    }
  }

  lemma ConflictPlaces(update: Value, places: seq<Place>, list: seq<Instruction>) returns (i: nat, j: nat)
    requires Transcribes(update, places, list) && (forall p | At(update, p) :: p in places) && Conflicting(update)
    ensures i < j < |list| && Overlap(list[i].segments, list[j].segments)
  {
    hide Split, PathOk, Overlap;
    var p, q :| At(update, p) && At(update, q) && p != q && Overlap(Split(p.path), Split(q.path));
    i :| 0 <= i < |places| && places[i] == p;
    j :| 0 <= j < |places| && places[j] == q;
    OverlapSymmetric(Split(p.path), Split(q.path));
    if j < i {
      i, j := j, i;
    }
  }

  lemma OverlapSymmetric(a: seq<text>, b: seq<text>)
    ensures Overlap(a, b) == Overlap(b, a)
  {}

  lemma PathsAccepted(list: seq<Instruction>)
    requires forall i | 0 <= i < |list| :: PathOk(list[i].segments)
    requires forall i, j | 0 <= i < j < |list| :: !Overlap(list[i].segments, list[j].segments)
    ensures Accepted(list)
  {
    hide Overlap;
  }
}
