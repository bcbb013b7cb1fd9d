/** packages/storage/src/indexing/planner.ts: choosing how to find the documents a filter may match. */
module Planner {
  import opened Bytes
  import opened Text
  import opened Values
  import opened Filter
  import opened Operations
  import opened Index = FieldIndex
  import opened Indexes = IndexSet

  /** Something the filter demands of one field. */
  datatype Constraint =
    | Equal(value: Value)
    | Member(values: seq<Value>)
    | Lower(bound: Bound)
    | Upper(bound: Bound)

  datatype Access =
    | EqualTo(values: seq<Value>)
    | Range(c: ValueClass, lower: Option<Bound>, upper: Option<Bound>)

  datatype Plan =
    | CollectionScan
    | IdLookup(keys: seq<Key>)
    | IndexScan(index: FieldIndex, access: Access)

  type Constraints = map<text, seq<Constraint>>

  predicate Satisfies(c: Constraint, field: Option<Value>) {
    match c
    case Equal(v) => field == Some(v)
    case Member(vs) => field.Some? && InList(field.value, vs)
    case Lower(b) =>
      field.Some? && CompareValues(field.value, b.value).Some?
      && var n := CompareValues(field.value, b.value).value; n > 0 || (b.inclusive && n == 0)
    case Upper(b) =>
      field.Some? && CompareValues(field.value, b.value).Some?
      && var n := CompareValues(field.value, b.value).value; n < 0 || (b.inclusive && n == 0)
  }

  ghost predicate AllSatisfied(cs: seq<Constraint>, field: Option<Value>) {
    forall i | 0 <= i < |cs| :: Satisfies(cs[i], field)
  }

  /** The document meets every constraint collected. */
  ghost predicate Holds(out: Constraints, d: Document) {
    forall path | path in out :: AllSatisfied(out[path], Resolve(d, Split(path)))
  }

  // ---------------------------------------------------------------- collecting

  /** The constraint an operator contributes, if any. */
  function OperatorConstraint(name: text, operand: Value): Option<Constraint> {
    if name == EQ then Some(Equal(operand))
    else if name == IN then (if operand.Arr? then Some(Member(operand.items)) else None)
    else if name == GT || name == GTE then Some(Lower(Bound(operand, name == GTE)))
    else if name == LT || name == LTE then Some(Upper(Bound(operand, name == LTE)))
    else None
  }

  lemma OperatorImplies(name: text, operand: Value, field: Option<Value>)
    requires OperatorMatches(name, operand, field) && OperatorConstraint(name, operand).Some?
    ensures Satisfies(OperatorConstraint(name, operand).value, field)
  {
    hide Compare;
  }

  lemma AllSatisfiedSnoc(cs: seq<Constraint>, c: Constraint, field: Option<Value>)
    requires AllSatisfied(cs, field) && Satisfies(c, field)
    ensures AllSatisfied(cs + [c], field)
  {
    hide Satisfies;
  }

  /** The constraints a field of the filter stands for: itself, or what its operators say. */
  predicate FieldContributes(v: Value, c: Constraint) {
    if OperatorDocument(v) then exists name | name in v.fields :: OperatorConstraint(name, v.fields[name]) == Some(c)
    else c == Equal(v)
  }

  /** The constraints a filter states about a path, outside of every `$or`, `$nor` and `$not`. */
  ghost predicate Contributes(f: Value, path: text, c: Constraint) {
    && f.Doc?
    && ((path in f.fields && !Dollar(path) && FieldContributes(f.fields[path], c))
        || (AND in f.fields && f.fields[AND].Arr? && exists x | x in f.fields[AND].items :: Contributes(x, path, c)))
  }

  /** The same about the first clauses of an `$and`. */
  ghost predicate ContributedIn(items: seq<Value>, path: text, c: Constraint) {
    exists x | x in items :: Contributes(x, path, c)
  }

  lemma OneMoreClause(items: seq<Value>, i: nat)
    requires i < |items|
    ensures forall path, c :: ContributedIn(items[..i + 1], path, c) <==> ContributedIn(items[..i], path, c) || Contributes(items[i], path, c)
  {
    hide Contributes;
    assert items[..i + 1] == items[..i] + [items[i]];
  }

  ghost predicate KeyContributes(f: Value, key: text, path: text, c: Constraint)
    requires f.Doc? && key in f.fields
  {
    || (path == key && !Dollar(key) && FieldContributes(f.fields[key], c))
    || (key == AND && f.fields[key].Arr? && ContributedIn(f.fields[key].items, path, c))
  }

  /** What one key of the filter adds. */
  ghost predicate Gained(before: Constraints, after: Constraints, f: Value, key: text)
    requires f.Doc? && key in f.fields
  {
    forall path, c :: Listed(after, path, c) <==> Listed(before, path, c) || KeyContributes(f, key, path, c)
  }

  lemma NothingGained(out: Constraints, f: Value, key: text)
    requires f.Doc? && key in f.fields && Dollar(key) && (key == AND ==> !f.fields[key].Arr?)
    ensures Gained(out, out, f, key)
  {}

  lemma ClausesGained(before: Constraints, after: Constraints, f: Value, key: text)
    requires f.Doc? && key in f.fields && key == AND && f.fields[key].Arr?
    requires forall path, c :: Listed(after, path, c) <==> Listed(before, path, c) || ContributedIn(f.fields[key].items, path, c)
    ensures Gained(before, after, f, key)
  {
    hide ContributedIn;
    assert Dollar(AND);
  }

  lemma FieldGained(before: Constraints, f: Value, key: text, cs: seq<Constraint>)
    requires f.Doc? && key in f.fields && !Dollar(key)
    requires forall c :: c in cs <==> (key in before && c in before[key]) || FieldContributes(f.fields[key], c)
    ensures Gained(before, before[key := cs], f, key)
  {
    hide FieldContributes;
    assert Dollar(AND);
  }

  lemma GainedOn(out: Constraints, before: Constraints, after: Constraints, f: Value, keys: set<text>, key: text)
    requires f.Doc? && keys <= f.fields.Keys && key in f.fields && key !in keys
    requires forall path, c :: Listed(before, path, c) <==> Listed(out, path, c) || ContributedBy(f, keys, path, c)
    requires Gained(before, after, f, key)
    ensures forall path, c :: Listed(after, path, c) <==> Listed(out, path, c) || ContributedBy(f, keys + {key}, path, c)
  {
    hide Listed, ContributedBy, KeyContributes;
    OneMoreKey(f, keys, key);
  }

  lemma OneMoreKey(f: Value, keys: set<text>, key: text)
    requires f.Doc? && keys <= f.fields.Keys && key in f.fields && key !in keys
    ensures forall path, c :: ContributedBy(f, keys + {key}, path, c) <==>
      ContributedBy(f, keys, path, c) || KeyContributes(f, key, path, c)
  {
    hide Contributes, FieldContributes;
  }

  lemma NoKeys(f: Value)
    requires f.Doc?
    ensures forall path, c :: !ContributedBy(f, {}, path, c)
    ensures forall path, c :: ContributedBy(f, f.fields.Keys, path, c) <==> Contributes(f, path, c)
    ensures forall path, c :: !ContributedIn([], path, c)
    ensures forall x: Value, path, c | !x.Doc? :: !Contributes(x, path, c)
  {
    hide FieldContributes;
  }

  predicate Listed(out: Constraints, path: text, c: Constraint) {
    path in out && c in out[path]
  }

  /** The constraints of one field of the filter. */
  method CollectField(v: Value, list: seq<Constraint>) returns (cs: seq<Constraint>)
    ensures forall field :: FieldMatches(v, field) && AllSatisfied(list, field) ==> AllSatisfied(cs, field)
    ensures forall c :: c in cs <==> c in list || FieldContributes(v, c)
  {
    hide OperatorMatches, OperatorConstraint, Satisfies;
    cs := list;
    if !OperatorDocument(v) {
      forall field | FieldMatches(v, field) && AllSatisfied(list, field) ensures AllSatisfied(list + [Equal(v)], field) {
        EqualSatisfied(v, field);
        AllSatisfiedSnoc(list, Equal(v), field);
      }
      return list + [Equal(v)];
    }
    var remaining := v.fields.Keys;
    while remaining != {}
      invariant remaining <= v.fields.Keys
      invariant forall field :: FieldMatches(v, field) && AllSatisfied(list, field) ==> AllSatisfied(cs, field)
      invariant forall c :: c in cs <==>
        c in list || exists name | name in v.fields && name !in remaining :: OperatorConstraint(name, v.fields[name]) == Some(c)
      decreases |remaining|
    {
      var name :| name in remaining;
      var c := OperatorConstraint(name, v.fields[name]);
      if c.Some? {
        ghost var before := cs;
        forall field | FieldMatches(v, field) && AllSatisfied(list, field) ensures AllSatisfied(before + [c.value], field) {
          OperatorImplies(name, v.fields[name], field);
          AllSatisfiedSnoc(before, c.value, field);
        }
        cs := cs + [c.value];
      }
      remaining := remaining - {name};
    }
  }

  lemma EqualSatisfied(v: Value, field: Option<Value>)
    requires FieldMatches(v, field) && !OperatorDocument(v)
    ensures Satisfies(Equal(v), field)
  {}

  /** What these fields of the filter contribute. */
  ghost predicate ContributedBy(f: Value, keys: set<text>, path: text, c: Constraint)
    requires f.Doc? && keys <= f.fields.Keys
  {
    || (path in keys && !Dollar(path) && FieldContributes(f.fields[path], c))
    || (AND in keys && f.fields[AND].Arr? && exists x | x in f.fields[AND].items :: Contributes(x, path, c))
  }

  /**
   * Collects constraints from the filter's own fields and its `$and` clauses. Every document
   * that matches the filter meets what was collected.
   */
  method Collect(f: Value, out: Constraints) returns (result: Constraints)
    requires f.Doc?
    ensures forall d :: Matches(f, d) && Holds(out, d) ==> Holds(result, d)
    ensures forall path, c :: Listed(result, path, c) <==> Listed(out, path, c) || Contributes(f, path, c)
    decreases f
  {
    hide FieldMatches, FieldContributes, Contributes, ContributedBy, ContributedIn, Gained, Listed, AllSatisfied, Resolve, Split;
    result := out;
    NoKeys(f);
    var remaining := f.fields.Keys;
    assert f.fields.Keys - remaining == {};
    while remaining != {}
      invariant remaining <= f.fields.Keys
      invariant forall d :: Matches(f, d) && Holds(out, d) ==> Holds(result, d)
      invariant forall path, c :: Listed(result, path, c) <==> Listed(out, path, c) || ContributedBy(f, f.fields.Keys - remaining, path, c)
      decreases |remaining|
    {
      var key :| key in remaining;
      var v := f.fields[key];
      ghost var before, keys := result, f.fields.Keys - remaining;
      remaining := remaining - {key};
      assert f.fields.Keys - remaining == keys + {key};
      if key == AND && v.Arr? {
        assert v.items[..0] == [];
        var i := 0;
        while i < |v.items|
          invariant 0 <= i <= |v.items|
          invariant forall d :: Matches(f, d) && Holds(out, d) ==> Holds(result, d)
          invariant forall path, c :: Listed(result, path, c) <==> Listed(before, path, c) || ContributedIn(v.items[..i], path, c)
        {
          if v.items[i].Doc? {
            result := Collect(v.items[i], result);
          }
          OneMoreClause(v.items, i);
          i := i + 1;
        }
        assert v.items[..i] == v.items;
        ClausesGained(before, result, f, key);
      } else if !Dollar(key) {
        var list := if key in result then result[key] else [];
        var cs := CollectField(v, list);
        result := result[key := cs];
        forall d | Matches(f, d) && Holds(out, d) ensures Holds(result, d) {
          FieldCollected(f, key, d, before, list, cs);
        }
        FieldGained(before, f, key, cs);
      } else {
        NothingGained(before, f, key);
      }
      GainedOn(out, before, result, f, keys, key);
    }
    assert f.fields.Keys - remaining == f.fields.Keys;
  }

  lemma FieldCollected(f: Value, key: text, d: Document, before: Constraints, list: seq<Constraint>, cs: seq<Constraint>)
    requires Matches(f, d) && Holds(before, d) && key in f.fields && !Dollar(key)
    requires list == if key in before then before[key] else []
    requires forall field :: FieldMatches(f.fields[key], field) && AllSatisfied(list, field) ==> AllSatisfied(cs, field)
    ensures Holds(before[key := cs], d)
  {
    hide FieldMatches, Resolve, Split;
    assert AllSatisfied(list, Resolve(d, Split(key)));
    assert FieldMatches(f.fields[key], Resolve(d, Split(key)));
  }

  // ---------------------------------------------------------------- bounds

  function Tighter(current: Option<Bound>, next: Bound, lower: bool): Option<Bound>
    requires ClassOf(next.value).Some? && (current.Some? ==> ClassOf(current.value.value).Some?)
  {
    if current.None? then Some(next) else
    var comparison := Compare(next.value, current.value.value);
    if comparison == 0 then (if next.inclusive then current else Some(next))
    else if (if lower then comparison > 0 else comparison < 0) then Some(next) else current
  }

  /** The tighter of two bounds says what both say together. */
  lemma TighterExact(v: Value, current: Option<Bound>, next: Bound)
    requires ClassOf(v).Some? && BoundOf(current, ClassOf(v).value) && ClassOf(next.value) == ClassOf(v)
    ensures BoundOf(Tighter(current, next, true), ClassOf(v).value) && BoundOf(Tighter(current, next, false), ClassOf(v).value)
    ensures AboveLower(v, Tighter(current, next, true)) <==> AboveLower(v, current) && AboveLower(v, Some(next))
    ensures BelowUpper(v, Tighter(current, next, false)) <==> BelowUpper(v, current) && BelowUpper(v, Some(next))
  {
    hide Compare;
    if current.Some? {
      CompareLaws(v, next.value, current.value.value);
      CompareLaws(v, current.value.value, next.value);
      CompareLaws(next.value, current.value.value, v);
      CompareLaws(current.value.value, next.value, v);
    }
  }

  /** The access finds the document if this is its field. */
  predicate Finds(access: Access, field: Option<Value>)
    requires access.Range? ==> BoundOf(access.lower, access.c) && BoundOf(access.upper, access.c)
  {
    field.Some?
    && match access
       case EqualTo(values) => field.value in values
       case Range(c, lower, upper) => Within(field.value, c, lower, upper)
  }

  predicate Sensible(access: Access) {
    access.Range? ==> BoundOf(access.lower, access.c) && BoundOf(access.upper, access.c)
  }

  predicate IsBound(c: Constraint) {
    c.Lower? || c.Upper?
  }

  /** There are range constraints, and all of one class. */
  predicate Rangeable(cs: seq<Constraint>) {
    && (exists i | 0 <= i < |cs| :: IsBound(cs[i]))
    && forall i, j | 0 <= i < |cs| && 0 <= j < |cs| && IsBound(cs[i]) && IsBound(cs[j]) ::
      ClassOf(cs[i].bound.value).Some? && ClassOf(cs[j].bound.value) == ClassOf(cs[i].bound.value)
  }

  ghost predicate BoundsSatisfied(cs: seq<Constraint>, field: Option<Value>) {
    forall i | 0 <= i < |cs| && IsBound(cs[i]) :: Satisfies(cs[i], field)
  }

  /** Combines every range constraint into one range that says what they say together; None when there is none or they differ in class. */
  method PlanRange(cs: seq<Constraint>) returns (r: Option<Access>)
    ensures r.Some? <==> Rangeable(cs)
    ensures r.Some? ==> r.value.Range? && Sensible(r.value) && forall field :: Finds(r.value, field) <==> BoundsSatisfied(cs, field)
  {
    hide Compare, BoundsSatisfied, AboveLower, BelowUpper;
    var c: Option<ValueClass>, lower: Option<Bound>, upper: Option<Bound> := None, None, None;
    for i := 0 to |cs|
      invariant c.Some? ==> BoundOf(lower, c.value) && BoundOf(upper, c.value)
      invariant c.None? ==> lower == None && upper == None && forall j | 0 <= j < i :: !IsBound(cs[j])
      invariant c.Some? ==> exists j | 0 <= j < i :: IsBound(cs[j])
      invariant forall j | 0 <= j < i && IsBound(cs[j]) :: ClassOf(cs[j].bound.value) == c
      invariant c.Some? ==> forall field :: Finds(Range(c.value, lower, upper), field) <==> BoundsSatisfied(cs[..i], field)
    {
      if cs[i].Lower? || cs[i].Upper? {
        var operandClass := ClassOf(cs[i].bound.value);
        if operandClass.None? || (c.Some? && c != operandClass) {
          assert IsBound(cs[i]);
          return None;
        }
        ghost var lower0, upper0, c0 := lower, upper, c;
        c := operandClass;
        if cs[i].Lower? {
          lower := Tighter(lower, cs[i].bound, true);
        } else {
          upper := Tighter(upper, cs[i].bound, false);
        }
        BoundsStay(cs[i], c.value, lower0, upper0);
        forall field ensures Finds(Range(c.value, lower, upper), field) <==> BoundsSatisfied(cs[..i + 1], field) {
          RangeStep(cs, i, field, c.value, lower0, upper0, c0);
        }
      } else {
        forall field ensures BoundsSatisfied(cs[..i + 1], field) <==> BoundsSatisfied(cs[..i], field) {
          BoundsSnoc(cs, i, field);
        }
      }
    }
    assert cs[..|cs|] == cs;
    return if c.Some? then Some(Range(c.value, lower, upper)) else None;
  }

  lemma BoundsSnoc(cs: seq<Constraint>, i: nat, field: Option<Value>)
    requires i < |cs|
    ensures BoundsSatisfied(cs[..i + 1], field) <==> BoundsSatisfied(cs[..i], field) && (IsBound(cs[i]) ==> Satisfies(cs[i], field))
  {
    hide Satisfies;
    var now := cs[..i + 1];
    assert now == cs[..i] + [cs[i]];
    if BoundsSatisfied(now, field) {
      assert now[i] == cs[i];
      forall j | 0 <= j < i && IsBound(cs[..i][j]) ensures Satisfies(cs[..i][j], field) {
        assert now[j] == cs[..i][j];
      }
    }
  }

  lemma BoundsStay(k: Constraint, c: ValueClass, lower: Option<Bound>, upper: Option<Bound>)
    requires (k.Lower? || k.Upper?) && ClassOf(k.bound.value) == Some(c) && BoundOf(lower, c) && BoundOf(upper, c)
    ensures BoundOf(Tighter(lower, k.bound, true), c) && BoundOf(Tighter(upper, k.bound, false), c)
  {
    hide Compare;
  }

  /** A bound is met exactly by the values of its class on its side. */
  lemma SatisfiesBound(k: Constraint, field: Option<Value>, c: ValueClass)
    requires IsBound(k) && ClassOf(k.bound.value) == Some(c)
    ensures Satisfies(k, field) <==>
      && field.Some? && ClassOf(field.value) == Some(c)
      && if k.Lower? then AboveLower(field.value, Some(k.bound)) else BelowUpper(field.value, Some(k.bound))
  {
    hide Compare;
  }

  lemma NoBounds(cs: seq<Constraint>, field: Option<Value>)
    requires forall j | 0 <= j < |cs| :: !IsBound(cs[j])
    ensures BoundsSatisfied(cs, field)
  {}

  lemma RangeStep(cs: seq<Constraint>, i: nat, field: Option<Value>, c: ValueClass,
                  lower: Option<Bound>, upper: Option<Bound>, c0: Option<ValueClass>)
    requires i < |cs| && IsBound(cs[i]) && ClassOf(cs[i].bound.value) == Some(c)
    requires BoundOf(lower, c) && BoundOf(upper, c)
    requires c0.None? ==> lower == None && upper == None && forall j | 0 <= j < i :: !IsBound(cs[j])
    requires c0.Some? ==> c0.value == c && (Finds(Range(c, lower, upper), field) <==> BoundsSatisfied(cs[..i], field))
    ensures
      var lower', upper' := if cs[i].Lower? then Tighter(lower, cs[i].bound, true) else lower,
                            if cs[i].Upper? then Tighter(upper, cs[i].bound, false) else upper;
      && BoundOf(lower', c) && BoundOf(upper', c)
      && (Finds(Range(c, lower', upper'), field) <==> BoundsSatisfied(cs[..i + 1], field))
  {
    hide Compare, Satisfies, BoundsSatisfied, Tighter;
    BoundsSnoc(cs, i, field);
    BoundsStay(cs[i], c, lower, upper);
    SatisfiesBound(cs[i], field, c);
    if c0.None? {
      NoBounds(cs[..i], field);
    }
    if field.Some? && ClassOf(field.value) == Some(c) {
      if cs[i].Lower? {
        TighterExact(field.value, lower, cs[i].bound);
      } else {
        TighterExact(field.value, upper, cs[i].bound);
      }
    }
  }

  // ---------------------------------------------------------------- plans

  function IdKeys(values: seq<Value>): (keys: seq<Key>)
    ensures forall k: Key :: k in keys <==> Id(k) in values
    ensures forall i, j | 0 <= i < j < |keys| :: keys[i] != keys[j]
  {
    if values == [] then []
    else if values[0].Id? && values[0].id !in IdKeys(values[1..]) then [values[0].id] + IdKeys(values[1..])
    else IdKeys(values[1..])
  }

  /** The ids an equality or a membership on `_id` leaves. */
  function IdsOf(c: Constraint): (r: Option<seq<Key>>)
    ensures r.Some? <==> !IsBound(c)
    ensures r.Some? ==> forall k :: k in r.value <==> Satisfies(c, Some(Id(k)))
  {
    if c.Equal? then Some(if c.value.Id? then [c.value.id] else [])
    else if c.Member? then Some(IdKeys(c.values))
    else None
  }

  /** The shortest list of ids that an equality or membership on `_id` leaves. */
  method PlanId(cs: seq<Constraint>) returns (best: Option<seq<Key>>)
    ensures best.None? <==> forall i | 0 <= i < |cs| :: IsBound(cs[i])
    ensures best.Some? ==> exists i | 0 <= i < |cs| :: IdsOf(cs[i]) == best
    ensures best.Some? ==> forall i | 0 <= i < |cs| && IdsOf(cs[i]).Some? :: |best.value| <= |IdsOf(cs[i]).value|
  {
    hide IdKeys, IdsOf, Satisfies;
    best := None;
    for i := 0 to |cs|
      invariant best.None? <==> forall j | 0 <= j < i :: IsBound(cs[j])
      invariant best.Some? ==> exists j | 0 <= j < i :: IdsOf(cs[j]) == best
      invariant best.Some? ==> forall j | 0 <= j < i && IdsOf(cs[j]).Some? :: |best.value| <= |IdsOf(cs[j]).value|
    {
      var keys := IdsOf(cs[i]);
      if keys.Some? && (best.None? || |keys.value| < |best.value|) {
        best := keys;
      }
    }
  }

  lemma IdsSuffice(cs: seq<Constraint>, keys: seq<Key>)
    requires exists i | 0 <= i < |cs| :: IdsOf(cs[i]) == Some(keys)
    ensures forall k :: AllSatisfied(cs, Some(Id(k))) ==> k in keys
  {
    hide IdsOf, Satisfies;
  }

  /** What the index has to be like for the access to find every document that meets the constraints. */
  ghost predicate Serves(access: Access, cs: seq<Constraint>, arrays: bool) {
    && Sensible(access)
    && forall field :: AllSatisfied(cs, field) && (field.Some? && field.value.Arr? ==> arrays) ==> Finds(access, field)
  }

  /** The access an equality or a membership stands for; membership only without arrays. */
  function Direct(c: Constraint, arrays: bool): Option<Access> {
    if c.Equal? then Some(EqualTo([c.value]))
    else if c.Member? && !arrays then Some(EqualTo(c.values))
    else None
  }

  /** Every way to use an index with these constraints. */
  method PlanIndex(cs: seq<Constraint>, arrays: bool) returns (plans: seq<Access>)
    ensures forall p | p in plans :: Serves(p, cs, arrays)
    ensures forall i | 0 <= i < |cs| && Direct(cs[i], arrays).Some? :: Direct(cs[i], arrays).value in plans
    ensures Rangeable(cs) ==> exists p | p in plans :: p.Range?
  {
    hide Compare, Serves, Rangeable;
    plans := [];
    for i := 0 to |cs|
      invariant forall p | p in plans :: Serves(p, cs, arrays)
      invariant forall j | 0 <= j < i && Direct(cs[j], arrays).Some? :: Direct(cs[j], arrays).value in plans
    {
      if cs[i].Equal? {
        EqualServes(cs, i, arrays);
        plans := plans + [EqualTo([cs[i].value])];
      } else if cs[i].Member? && !arrays {
        EqualServes(cs, i, arrays);
        plans := plans + [EqualTo(cs[i].values)];
      }
    }
    var range := PlanRange(cs);
    if range.Some? {
      RangeServes(cs, range.value, arrays);
      plans := plans + [range.value];
    }
  }

  lemma RangeServes(cs: seq<Constraint>, range: Access, arrays: bool)
    requires range.Range? && Sensible(range) && forall field :: BoundsSatisfied(cs, field) ==> Finds(range, field)
    ensures Serves(range, cs, arrays)
  {
    hide Satisfies;
  }

  lemma EqualServes(cs: seq<Constraint>, i: nat, arrays: bool)
    requires i < |cs|
    ensures cs[i].Equal? ==> Serves(EqualTo([cs[i].value]), cs, arrays)
    ensures cs[i].Member? && !arrays ==> Serves(EqualTo(cs[i].values), cs, arrays)
  {
    hide Compare;
    forall field | AllSatisfied(cs, field) ensures Satisfies(cs[i], field) {}
  }

  /** Every document is stored under its own id. */
  ghost predicate Identified(docs: Documents) {
    forall k | k in docs :: ID in docs[k] && docs[k][ID] == Id(k)
  }

  lemma IdResolves(d: Document)
    requires ID in d
    ensures Resolve(d, Split(ID)) == Some(d[ID])
  {
    SplitWhole(ID);
  }

  lemma {:induction false} SplitWhole(path: text)
    requires forall i | 0 <= i < |path| :: path[i] != DOT
    ensures Split(path) == [path]
  {
    if path != [] {
      SplitWhole(path[1..]);
      assert [path[0]] + path[1..] == path;
    }
  }

  /** No document that matches is left out. */
  ghost predicate Complete(plan: Plan, f: Value, docs: Documents) {
    match plan
    case CollectionScan => true
    case IdLookup(keys) => forall k | k in docs && Matches(f, docs[k]) :: k in keys
    case IndexScan(x, access) =>
      Sensible(access) && forall k | k in docs && Matches(f, docs[k]) :: Finds(access, Resolve(docs[k], x.segments))
  }

  lemma IdComplete(cs: Constraints, keys: seq<Key>, f: Value, docs: Documents)
    requires Identified(docs) && ID in cs && forall d :: Matches(f, d) ==> Holds(cs, d)
    requires forall k :: AllSatisfied(cs[ID], Some(Id(k))) ==> k in keys
    ensures Complete(IdLookup(keys), f, docs)
  {
    hide Matches, AllSatisfied, Resolve, Split;
    forall k | k in docs && Matches(f, docs[k]) ensures k in keys {
      IdResolves(docs[k]);
      assert Holds(cs, docs[k]);
    }
  }

  lemma IndexComplete(cs: Constraints, x: FieldIndex, access: Access, f: Value)
    requires x.Valid() && x.spec.field in cs && Serves(access, cs[x.spec.field], x.arrayValues > 0)
    requires forall d :: Matches(f, d) ==> Holds(cs, d)
    ensures Complete(IndexScan(x, access), f, x.docs)
  {
    hide Matches, AllSatisfied, Resolve, Split, OrderFor;
    forall k | k in x.docs && Matches(f, x.docs[k]) ensures Finds(access, Resolve(x.docs[k], x.segments)) {
      assert Holds(cs, x.docs[k]);
      var field := Resolve(x.docs[k], x.segments);
      if field.Some? && field.value.Arr? {
        assert k in ArrayHolders(x.docs, x.segments);
      }
    }
  }

  /** Some clause states which ids a document may have. */
  ghost predicate NamesIds(f: Value) {
    exists c :: Contributes(f, ID, c) && !IsBound(c)
  }

  /** No equality or membership the filter states about the field of the index was preferred to a scan. */
  ghost predicate NotPreferred(f: Value, x: FieldIndex, prefer: (Plan, Plan) -> bool)
    reads x
  {
    forall c | Contributes(f, x.spec.field, c) && Direct(c, x.arrayValues > 0).Some? ::
      !prefer(IndexScan(x, Direct(c, x.arrayValues > 0).value), CollectionScan)
  }

  ghost predicate NothingPreferred(f: Value, indexes: seq<FieldIndex>, prefer: (Plan, Plan) -> bool)
    reads indexes
  {
    forall i | 0 <= i < |indexes| :: NotPreferred(f, indexes[i], prefer)
  }

  /**
   * Chooses a plan. Ids come first, as few as possible; among the indexes it depends on cost
   * estimates, here any preference at all; and a scan is what is left. Whichever it is, it
   * leaves out no document that matches.
   */
  method PlanQuery(f: Value, all: IndexSet, total: nat, prefer: (Plan, Plan) -> bool) returns (plan: Plan)
    requires f.Doc? && all.Valid() && Identified(all.docs)
    ensures Complete(plan, f, all.docs)
    ensures plan.IndexScan? ==> plan.index in all.indexes
    ensures plan.IdLookup? <==> total != 0 && NamesIds(f)
    ensures plan.IdLookup? ==> forall c | Contributes(f, ID, c) && IdsOf(c).Some? :: |plan.keys| <= |IdsOf(c).value|
    ensures plan.CollectionScan? && total != 0 ==> NothingPreferred(f, all.indexes, prefer)
  {
    hide Matches, AllSatisfied, Resolve, Split, Finds, UniqueFor, FieldIndex.Bulk, Identified, Contributes, IdsOf, Direct, FieldIndex.Valid, Rangeable;
    if total == 0 {
      return CollectionScan;
    }
    var cs := Collect(f, map[]);
    assert forall d :: Matches(f, d) ==> Holds(cs, d) by { NothingCollected(); }
    assert forall path, c :: Listed(cs, path, c) <==> Contributes(f, path, c);
    if ID in cs {
      var keys := PlanId(cs[ID]);
      ghost var list := cs[ID];
      if keys.Some? {
        IdsSuffice(list, keys.value);
        IdComplete(cs, keys.value, f, all.docs);
        IdsNamed(f, list);
        return IdLookup(keys.value);
      }
      IdsNamed(f, list);
    }
    plan := PlanIndexes(f, cs, all, prefer);
  }

  lemma IdsNamed(f: Value, list: seq<Constraint>)
    requires forall c :: c in list <==> Contributes(f, ID, c)
    ensures NamesIds(f) <==> exists i | 0 <= i < |list| :: !IsBound(list[i])
  {
    hide Contributes;
  }

  /** The best plan so far, or a way to use this index. */
  method PlanWith(f: Value, cs: Constraints, x: FieldIndex, best: Plan, prefer: (Plan, Plan) -> bool) returns (plan: Plan)
    requires x.Valid() && (forall d :: Matches(f, d) ==> Holds(cs, d)) && (forall path, c :: Listed(cs, path, c) <==> Contributes(f, path, c))
    requires Complete(best, f, x.docs) && !best.IdLookup?
    ensures Complete(plan, f, x.docs) && !plan.IdLookup?
    ensures plan == best || (plan.IndexScan? && plan.index == x)
    ensures plan.CollectionScan? ==> NotPreferred(f, x, prefer)
  {
    hide Matches, Contributes, Direct, Rangeable, FieldIndex.Valid, Complete, Holds, Serves;
    plan := best;
    if x.spec.field !in cs {
      assert forall c :: !Listed(cs, x.spec.field, c);
      return;
    }
    var list := cs[x.spec.field];
    var accesses := PlanIndex(list, x.arrayValues > 0);
    for j := 0 to |accesses|
      invariant Complete(plan, f, x.docs) && !plan.IdLookup? && (plan == best || (plan.IndexScan? && plan.index == x))
      invariant plan.CollectionScan? ==> forall k | 0 <= k < j :: !prefer(IndexScan(x, accesses[k]), CollectionScan)
    {
      if prefer(IndexScan(x, accesses[j]), plan) {
        IndexComplete(cs, x, accesses[j], f);
        plan := IndexScan(x, accesses[j]);
      }
    }
    if plan.CollectionScan? {
      forall c | Contributes(f, x.spec.field, c) && Direct(c, x.arrayValues > 0).Some?
        ensures !prefer(IndexScan(x, Direct(c, x.arrayValues > 0).value), CollectionScan)
      {
        assert Listed(cs, x.spec.field, c);
      }
    }
  }

  /** The cheapest way to use an index, or a scan. */
  method PlanIndexes(f: Value, cs: Constraints, all: IndexSet, prefer: (Plan, Plan) -> bool) returns (plan: Plan)
    requires all.Valid() && (forall d :: Matches(f, d) ==> Holds(cs, d)) && (forall path, c :: Listed(cs, path, c) <==> Contributes(f, path, c))
    ensures Complete(plan, f, all.docs) && !plan.IdLookup?
    ensures plan.IndexScan? ==> plan.index in all.indexes
    ensures plan.CollectionScan? ==> NothingPreferred(f, all.indexes, prefer)
  {
    hide Matches, Holds, Listed, Contributes, NotPreferred, FieldIndex.Valid, UniqueFor;
    plan := CollectionScan;
    for i := 0 to |all.indexes|
      invariant Complete(plan, f, all.docs) && !plan.IdLookup? && (plan.IndexScan? ==> plan.index in all.indexes)
      invariant plan.CollectionScan? ==> forall k | 0 <= k < i :: NotPreferred(f, all.indexes[k], prefer)
    {
      plan := PlanWith(f, cs, all.indexes[i], plan, prefer);
    }
  }

  lemma NothingCollected()
    ensures forall d :: Holds(map[], d)
  {}

  /** The keys a plan stands for. */
  ghost predicate Yields(plan: Plan, docs: Documents, k: Key)
    requires !plan.CollectionScan? && (plan.IndexScan? ==> Sensible(plan.access))
    reads if plan.IndexScan? then {plan.index} else {}
  {
    if plan.IdLookup? then k in plan.keys else k in docs && Finds(plan.access, Resolve(docs[k], plan.index.segments))
  }

  /** The keys a lookup plan yields, exactly; every document of the collection that matches is among them. */
  method CandidateKeys(plan: Plan, ghost f: Value, ghost docs: Documents) returns (keys: set<Key>)
    requires !plan.CollectionScan? && Complete(plan, f, docs)
    requires plan.IndexScan? ==> plan.index.Valid() && plan.index.docs == docs
    ensures forall k :: k in keys <==> Yields(plan, docs, k)
    ensures forall k | k in docs && Matches(f, docs[k]) :: k in keys
  {
    hide Matches, Resolve, Split, AboveLower, BelowUpper, OrderFor, ValuesAgree;
    if plan.IdLookup? {
      return set k | k in plan.keys;
    }
    var x := plan.index;
    if plan.access.Range? {
      keys := x.LookupRange(plan.access.c, plan.access.lower, plan.access.upper);
      return;
    }
    keys := {};
    var values := plan.access.values;
    for i := 0 to |values|
      invariant forall k :: k in keys <==> k in docs && Resolve(docs[k], x.segments).Some? && Resolve(docs[k], x.segments).value in values[..i]
    {
      var found := x.LookupEqual(values[i]);
      keys := keys + found;
      assert values[..i + 1] == values[..i] + [values[i]];
    }
    assert values[..|values|] == values;
  }
}
