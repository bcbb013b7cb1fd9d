/** packages/storage/src/filter.ts: which documents a filter matches, and how values compare. */
module Filter {
  import opened Bytes
  import opened Text
  import opened Values

  // ---------------------------------------------------------------- comparing values

  // The finite number a double stands for, and the UTF-16 units of a string. Nothing
  // depends on which they are.
  const NUMERIC: u64 -> Option<real>
  const UNITS: text -> seq<int>

  datatype ValueClass = StringClass | NumberClass | BigClass | DateClass | BinaryClass | IdClass

  /** The class of a comparable value; None for everything range operators never match. */
  function ClassOf(v: Value): Option<ValueClass> {
    match v
    case Str(_) => Some(StringClass)
    case Int(_) => Some(NumberClass)
    case Double(bits) => if NUMERIC(bits).Some? then Some(NumberClass) else None
    case Big(_) => Some(BigClass)
    case Date(_) => Some(DateClass)
    case Bin(_) => Some(BinaryClass)
    case Id(_) => Some(IdClass)
    case _ => None
  }

  datatype Rank = Amount(r: real) | Units(u: seq<int>)

  /** What a comparable value is ordered by within its class. */
  function RankOf(v: Value): Rank
    requires ClassOf(v).Some?
  {
    match v
    case Str(t) => Units(UNITS(t))
    case Int(i) => Amount(i as real)
    case Double(bits) => Amount(NUMERIC(bits).value)
    case Big(n) => Amount(n as real)
    case Date(ms) => Amount(ms as real)
    case Bin(data) => Units(data)
    case Id(id) => Units(id)
  }

  predicate RankBefore(a: Rank, b: Rank) {
    match (a, b)
    case (Amount(x), Amount(y)) => x < y
    case (Units(x), Units(y)) => Before(x, y)
    case (Amount(_), Units(_)) => true
    case (Units(_), Amount(_)) => false
  }

  /** Negative, zero or positive, for values of one class. Zero does not mean equal: 0 and -0 tie. */
  function Compare(a: Value, b: Value): (c: int)
    requires ClassOf(a).Some? && ClassOf(b).Some?
  {
    if RankBefore(RankOf(a), RankOf(b)) then -1 else if RankBefore(RankOf(b), RankOf(a)) then 1 else 0
  }

  /** `compareValues`: None when the two cannot be compared. */
  function CompareValues(actual: Value, expected: Value): Option<int> {
    if ClassOf(expected).Some? && ClassOf(actual) == ClassOf(expected) then Some(Compare(actual, expected)) else None
  }

  lemma RankTotal(a: Rank, b: Rank)
    ensures RankBefore(a, b) || RankBefore(b, a) || a == b
    ensures !(RankBefore(a, b) && RankBefore(b, a)) && !RankBefore(a, a)
  {
    if a.Units? && b.Units? {
      BeforeTotal(a.u, b.u);
    }
    if a.Units? {
      BeforeTotal(a.u, a.u);
    }
  }

  lemma RankTransitive(a: Rank, b: Rank, c: Rank)
    requires RankBefore(a, b) && RankBefore(b, c)
    ensures RankBefore(a, c)
  {
    if a.Units? && b.Units? && c.Units? {
      BeforeTransitive(a.u, b.u, c.u);
    }
  }

  /** Comparison is a total preorder. */
  lemma CompareLaws(a: Value, b: Value, c: Value)
    requires ClassOf(a).Some? && ClassOf(b).Some? && ClassOf(c).Some?
    ensures Compare(a, a) == 0
    ensures Compare(a, b) == -Compare(b, a)
    ensures Compare(a, b) <= 0 && Compare(b, c) <= 0 ==> Compare(a, c) <= 0
    ensures Compare(a, b) <= 0 && Compare(b, c) < 0 ==> Compare(a, c) < 0
    ensures Compare(a, b) < 0 && Compare(b, c) <= 0 ==> Compare(a, c) < 0
  {
    hide RankBefore;
    var x, y, z := RankOf(a), RankOf(b), RankOf(c);
    RankTotal(x, y);
    RankTotal(y, z);
    RankTotal(x, z);
    if RankBefore(x, y) && RankBefore(y, z) {
      RankTransitive(x, y, z);
    }
  }

  // ---------------------------------------------------------------- field paths

  const DOT: byte := 0x2E
  const DOLLAR: byte := 0x24

  function Split(path: text): (segments: seq<text>)
    ensures segments != []
  {
    if path == [] then [[]] else
    var rest := Split(path[1..]);
    if path[0] == DOT then [[]] + rest else [[path[0]] + rest[0]] + rest[1..]
  }

  /** The value at a path, through documents only. */
  function Resolve(d: Document, segments: seq<text>): Option<Value>
    decreases |segments|
  {
    if segments == [] || segments[0] !in d then None
    else if |segments| == 1 then Some(d[segments[0]])
    else if d[segments[0]].Doc? then Resolve(d[segments[0]].fields, segments[1..])
    else None
  }

  method ResolveField(d: Document, segments: seq<text>) returns (r: Option<Value>)
    ensures r == Resolve(d, segments)
  {
    var current := d;
    for index := 0 to |segments|
      invariant Resolve(d, segments) == Resolve(current, segments[index..])
    {
      assert segments[index..][1..] == segments[index + 1..];
      if segments[index] !in current {
        return None;
      }
      var value := current[segments[index]];
      if index == |segments| - 1 {
        return Some(value);
      }
      if !value.Doc? {
        return None;
      }
      current := value.fields;
    }
    return None;
  }

  // ---------------------------------------------------------------- filters

  const AND: text := [0x24, 0x61, 0x6E, 0x64]
  const OR: text := [0x24, 0x6F, 0x72]
  const NOR: text := [0x24, 0x6E, 0x6F, 0x72]
  const EQ: text := [0x24, 0x65, 0x71]
  const NE: text := [0x24, 0x6E, 0x65]
  const GT: text := [0x24, 0x67, 0x74]
  const GTE: text := [0x24, 0x67, 0x74, 0x65]
  const LT: text := [0x24, 0x6C, 0x74]
  const LTE: text := [0x24, 0x6C, 0x74, 0x65]
  const IN: text := [0x24, 0x69, 0x6E]
  const NIN: text := [0x24, 0x6E, 0x69, 0x6E]
  const EXISTS: text := [0x24, 0x65, 0x78, 0x69, 0x73, 0x74, 0x73]
  const NOT: text := [0x24, 0x6E, 0x6F, 0x74]
  const ID: text := [0x5F, 0x69, 0x64]

  predicate Dollar(name: text) {
    name != [] && name[0] == DOLLAR
  }

  predicate OperatorDocument(v: Value) {
    v.Doc? && exists name | name in v.fields :: Dollar(name)
  }

  predicate ValidPath(path: text) {
    forall i | 0 <= i < |Split(path)| :: Split(path)[i] != [] && !Dollar(Split(path)[i])
  }

  predicate ValidOperators(v: Value) {
    && v.Doc?
    && forall name | name in v.fields ::
      var operand := v.fields[name];
      if name == EQ || name == NE then true
      else if name == GT || name == GTE || name == LT || name == LTE then ClassOf(operand).Some?
      else if name == IN || name == NIN then operand.Arr?
      else if name == EXISTS then operand.Bool?
      else name == NOT && OperatorDocument(operand) && ValidOperators(operand)
  }

  /** What `compileFilter` accepts. */
  predicate ValidFilter(f: Value) {
    && f.Doc?
    && forall key | key in f.fields ::
      var v := f.fields[key];
      if key == AND || key == OR || key == NOR
      then v.Arr? && v.items != [] && forall i | 0 <= i < |v.items| :: ValidFilter(v.items[i])
      else !Dollar(key) && ValidPath(key) && (OperatorDocument(v) ==> ValidOperators(v))
  }

  predicate InList(v: Value, items: seq<Value>) {
    v in items || (v.Arr? && exists i | 0 <= i < |v.items| :: v.items[i] in items)
  }

  predicate OperatorMatches(name: text, operand: Value, field: Option<Value>)
    decreases operand
  {
    if name == EQ then field == Some(operand)
    else if name == NE then field != Some(operand)
    else if name == IN then field.Some? && operand.Arr? && InList(field.value, operand.items)
    else if name == NIN then !(field.Some? && operand.Arr? && InList(field.value, operand.items))
    else if name == EXISTS then operand == Bool(field.Some?)
    else if name == NOT then
      !(operand.Doc? && forall inner | inner in operand.fields :: OperatorMatches(inner, operand.fields[inner], field))
    else
      && field.Some? && CompareValues(field.value, operand).Some?
      && var c := CompareValues(field.value, operand).value;
         if name == GT then c > 0 else if name == GTE then c >= 0 else if name == LT then c < 0 else c <= 0
  }

  predicate FieldMatches(v: Value, field: Option<Value>) {
    if OperatorDocument(v) then forall name | name in v.fields :: OperatorMatches(name, v.fields[name], field)
    else field == Some(v)
  }

  /** Whether a document matches a valid filter. */
  predicate Matches(f: Value, d: Document) {
    && f.Doc?
    && forall key | key in f.fields ::
      var v := f.fields[key];
      if key == AND then v.Arr? && forall i | 0 <= i < |v.items| :: Matches(v.items[i], d)
      else if key == OR then v.Arr? && exists i | 0 <= i < |v.items| :: Matches(v.items[i], d)
      else if key == NOR then v.Arr? && !exists i | 0 <= i < |v.items| :: Matches(v.items[i], d)
      else FieldMatches(v, Resolve(d, Split(key)))
  }

  // ---------------------------------------------------------------- what paths and operators mean

  function Join(segments: seq<text>): text
    requires segments != []
  {
    if |segments| == 1 then segments[0] else segments[0] + [DOT] + Join(segments[1..])
  }

  /** Splitting a path gives the pieces between its dots: joined again they are the path, and none has a dot. */
  lemma {:induction false} SplitJoins(path: text)
    ensures Join(Split(path)) == path
    ensures forall i | 0 <= i < |Split(path)| :: DOT !in Split(path)[i]
  {
    if path != [] {
      var rest := Split(path[1..]);
      SplitJoins(path[1..]);
      assert path == [path[0]] + path[1..];
      if path[0] == DOT {
        assert ([[]] + rest)[1..] == rest;
        assert Join([[]] + rest) == [] + [DOT] + Join(rest);
      } else {
        var whole := [[path[0]] + rest[0]] + rest[1..];
        assert whole[1..] == rest[1..];
        if |rest| > 1 {
          assert Join(whole) == [path[0]] + rest[0] + [DOT] + Join(rest[1..]);
        }
      }
    }
  }

  lemma {:induction false} OneSegment(path: text)
    requires DOT !in path
    ensures Split(path) == [path]
  {
    if path != [] {
      assert path == [path[0]] + path[1..];
      OneSegment(path[1..]);
    }
  }

  /** A path resolves one segment at a time, through documents. */
  lemma ResolveStep(d: Document, key: text, rest: seq<text>)
    ensures Resolve(d, [key]) == if key in d then Some(d[key]) else None
    ensures rest != [] ==> Resolve(d, [key] + rest) == if key in d && d[key].Doc? then Resolve(d[key].fields, rest) else None
  {
    assert ([key] + rest)[1..] == rest;
  }

  /** The direction of a comparison. */
  lemma CompareDirection(a: Value, b: Value)
    requires ClassOf(a).Some? && ClassOf(a) == ClassOf(b)
    ensures a.Int? && b.Int? ==> (Compare(a, b) < 0 <==> a.i < b.i) && (Compare(a, b) > 0 <==> a.i > b.i)
    ensures a.Int? && b.Double? ==> (Compare(a, b) < 0 <==> a.i as real < NUMERIC(b.bits).value) && (Compare(a, b) > 0 <==> a.i as real > NUMERIC(b.bits).value)
    ensures a.Double? && b.Double? ==> (Compare(a, b) < 0 <==> NUMERIC(a.bits).value < NUMERIC(b.bits).value)
    ensures a.Big? ==> (Compare(a, b) < 0 <==> a.n < b.n) && (Compare(a, b) > 0 <==> a.n > b.n)
    ensures a.Date? ==> (Compare(a, b) < 0 <==> a.ms < b.ms) && (Compare(a, b) > 0 <==> a.ms > b.ms)
    ensures a.Bin? ==> (Compare(a, b) < 0 <==> Before(a.data, b.data)) && (Compare(a, b) > 0 <==> Before(b.data, a.data))
    ensures a.Id? ==> (Compare(a, b) < 0 <==> Before(a.id, b.id)) && (Compare(a, b) > 0 <==> Before(b.id, a.id))
    ensures a.Str? ==> (Compare(a, b) < 0 <==> Before(UNITS(a.t), UNITS(b.t))) && (Compare(a, b) > 0 <==> Before(UNITS(b.t), UNITS(a.t)))
  {
    hide Before;
    if a.Bin? {
      BeforeTotal(a.data, b.data);
    } else if a.Id? {
      BeforeTotal(a.id, b.id);
    } else if a.Str? {
      BeforeTotal(UNITS(a.t), UNITS(b.t));
    }
  }

  /**
   * Equality and membership: `$eq` holds for exactly that value, `$ne` exactly where `$eq`
   * does not, also for a missing field; `$in` holds where `$eq` does for some item, for the
   * value or for an element of an array, and `$nin` exactly where `$in` does not.
   */
  lemma EqualityLaws(operand: Value, field: Option<Value>)
    ensures OperatorMatches(EQ, operand, field) <==> field.Some? && field.value == operand
    ensures OperatorMatches(NE, operand, field) <==> !OperatorMatches(EQ, operand, field)
    ensures field.None? ==> OperatorMatches(NE, operand, field) && OperatorMatches(NIN, operand, field)
    ensures OperatorMatches(NIN, operand, field) <==> !OperatorMatches(IN, operand, field)
    ensures operand.Arr? ==>
      (OperatorMatches(IN, operand, field) <==>
        exists i | 0 <= i < |operand.items| ::
          OperatorMatches(EQ, operand.items[i], field)
          || (field.Some? && field.value.Arr? && operand.items[i] in field.value.items))
  {
    if operand.Arr? && field.Some? {
      if InList(field.value, operand.items) {
        if field.value in operand.items {
          var i :| 0 <= i < |operand.items| && operand.items[i] == field.value;
          assert OperatorMatches(EQ, operand.items[i], field);
        } else {
          var j :| 0 <= j < |field.value.items| && field.value.items[j] in operand.items;
          var i :| 0 <= i < |operand.items| && operand.items[i] == field.value.items[j];
          assert operand.items[i] in field.value.items;
        }
      }
    }
  }

  /** `$exists` asks whether the path resolves, and `$not` is the complement of the operators in it. */
  lemma PresenceLaws(operand: Value, field: Option<Value>)
    ensures OperatorMatches(EXISTS, Bool(true), field) <==> field.Some?
    ensures OperatorMatches(EXISTS, Bool(false), field) <==> !OperatorMatches(EXISTS, Bool(true), field)
    ensures OperatorDocument(operand) ==> (OperatorMatches(NOT, operand, field) <==> !FieldMatches(operand, field))
  {}

  /**
   * Range operators hold for comparable values only; on those `$gt` and `$lte` are
   * complements, `$gte` and `$lt` are, and a tie meets `$gte` and `$lte`.
   */
  lemma RangeLaws(operand: Value, field: Option<Value>)
    ensures
      var comparable := field.Some? && ClassOf(operand).Some? && ClassOf(field.value) == ClassOf(operand);
      && (comparable ==>
            && (OperatorMatches(GT, operand, field) <==> !OperatorMatches(LTE, operand, field))
            && (OperatorMatches(GTE, operand, field) <==> !OperatorMatches(LT, operand, field))
            && (OperatorMatches(GT, operand, field) <==> Compare(field.value, operand) > 0)
            && (OperatorMatches(LT, operand, field) <==> Compare(operand, field.value) > 0)
            && (OperatorMatches(GTE, operand, field) && OperatorMatches(LTE, operand, field) <==> Compare(field.value, operand) == 0))
      && (!comparable ==>
            !OperatorMatches(GT, operand, field) && !OperatorMatches(GTE, operand, field)
            && !OperatorMatches(LT, operand, field) && !OperatorMatches(LTE, operand, field))
  {
    hide RankBefore;
    if field.Some? && ClassOf(operand).Some? && ClassOf(field.value) == ClassOf(operand) {
      CompareLaws(field.value, operand, operand);
    }
  }

  /** On numbers a range operator is the one of integers. */
  lemma IntegerRanges(i: int, j: int)
    ensures OperatorMatches(GT, Int(j), Some(Int(i))) <==> i > j
    ensures OperatorMatches(GTE, Int(j), Some(Int(i))) <==> i >= j
    ensures OperatorMatches(LT, Int(j), Some(Int(i))) <==> i < j
    ensures OperatorMatches(LTE, Int(j), Some(Int(i))) <==> i <= j
  {
    hide OperatorMatches, Compare;
    RangeLaws(Int(j), Some(Int(i)));
    CompareDirection(Int(i), Int(j));
    CompareDirection(Int(j), Int(i));
  }

  function Clause(key: text, v: Value): Value {
    Doc(map[key := v])
  }

  /** A document matches a filter exactly when it matches every clause of it. */
  lemma ClausesConjoin(f: Value, d: Document)
    requires f.Doc?
    ensures Matches(f, d) <==> forall key | key in f.fields :: Matches(Clause(key, f.fields[key]), d)
  {
    hide FieldMatches, Resolve;
    forall key | key in f.fields ensures Matches(Clause(key, f.fields[key]), d) <==> ClauseHolds(key, f.fields[key], d) {
      ClauseIs(key, f.fields[key], d);
    }
  }

  predicate ClauseHolds(key: text, v: Value, d: Document) {
    if key == AND then v.Arr? && forall i | 0 <= i < |v.items| :: Matches(v.items[i], d)
    else if key == OR then v.Arr? && exists i | 0 <= i < |v.items| :: Matches(v.items[i], d)
    else if key == NOR then v.Arr? && !exists i | 0 <= i < |v.items| :: Matches(v.items[i], d)
    else FieldMatches(v, Resolve(d, Split(key)))
  }

  lemma ClauseIs(key: text, v: Value, d: Document)
    ensures Matches(Clause(key, v), d) <==> ClauseHolds(key, v, d)
  {
    hide FieldMatches, Resolve;
    assert Clause(key, v).fields.Keys == {key} && Clause(key, v).fields[key] == v;
  }

  /** `$and` is all of its clauses, `$or` any of them, and `$nor` the complement of `$or`; of one clause the first two are that clause. */
  lemma ConnectiveLaws(items: seq<Value>, d: Document)
    ensures Matches(Clause(AND, Arr(items)), d) <==> forall i | 0 <= i < |items| :: Matches(items[i], d)
    ensures Matches(Clause(OR, Arr(items)), d) <==> exists i | 0 <= i < |items| :: Matches(items[i], d)
    ensures Matches(Clause(NOR, Arr(items)), d) <==> !Matches(Clause(OR, Arr(items)), d)
    ensures |items| == 1 ==>
      && (Matches(Clause(AND, Arr(items)), d) <==> Matches(items[0], d))
      && (Matches(Clause(OR, Arr(items)), d) <==> Matches(items[0], d))
  {
    hide Matches, FieldMatches, Resolve;
    assert AND != OR && AND != NOR && OR != NOR by {
      assert |AND| == 4 && |OR| == 3 && |NOR| == 4 && AND[1] != NOR[1];
    }
    ClauseIs(AND, Arr(items), d);
    ClauseIs(OR, Arr(items), d);
    ClauseIs(NOR, Arr(items), d);
  }

  /**
   * A clause on a path: the operators in it all hold of the value there, or, without
   * operators, the value there is exactly that one.
   */
  lemma PathLaws(path: text, v: Value, d: Document)
    requires !Dollar(path)
    ensures
      var field := Resolve(d, Split(path));
      && (OperatorDocument(v) ==>
            (Matches(Clause(path, v), d) <==> forall name | name in v.fields :: OperatorMatches(name, v.fields[name], field)))
      && (!OperatorDocument(v) ==> (Matches(Clause(path, v), d) <==> field == Some(v)))
  {
    hide Matches, OperatorMatches, Resolve;
    ClauseIs(path, v, d);
  }

  // ---------------------------------------------------------------- which filters compile

  const FILTER_OPERATORS: set<text> := {EQ, NE, GT, GTE, LT, LTE, IN, NIN, EXISTS, NOT}

  /** Which operands an operator takes: any, one that has an order, an array, a boolean, or an operator document. */
  lemma OperandLaws(name: text, operand: Value)
    ensures ValidOperators(Clause(name, operand)) ==> name in FILTER_OPERATORS
    ensures name in {EQ, NE} ==> ValidOperators(Clause(name, operand))
    ensures name in {GT, GTE, LT, LTE} ==> (ValidOperators(Clause(name, operand)) <==> ClassOf(operand).Some?)
    ensures name in {IN, NIN} ==> (ValidOperators(Clause(name, operand)) <==> operand.Arr?)
    ensures name == EXISTS ==> (ValidOperators(Clause(name, operand)) <==> operand.Bool?)
    ensures name == NOT ==> (ValidOperators(Clause(name, operand)) <==> OperatorDocument(operand) && ValidOperators(operand))
  {
    hide OperatorDocument;
    assert Clause(name, operand).fields.Keys == {name} && Clause(name, operand).fields[name] == operand;
    assert |EQ| == |NE| == |GT| == |LT| == |IN| == 3 && |GTE| == |LTE| == |NIN| == |NOT| == 4 && |EXISTS| == 7;
    assert EQ[1] == 0x65 && NE[1] == 0x6E && GT[1] == 0x67 && LT[1] == 0x6C && IN[1] == 0x69;
    assert GTE[1] == 0x67 && LTE[1] == 0x6C && NIN[1] == NOT[1] && NIN[2] != NOT[2];
  }

  /** Operators are accepted each on its own; other fields among them are not. */
  lemma OperatorsConjoin(v: Value)
    requires v.Doc?
    ensures ValidOperators(v) <==> forall name | name in v.fields :: ValidOperators(Clause(name, v.fields[name]))
  {
    hide OperatorDocument, ClassOf;
    forall name | name in v.fields ensures ValidOperators(Clause(name, v.fields[name])) <==> OperatorAllowed(name, v.fields[name]) {
      assert Clause(name, v.fields[name]).fields.Keys == {name} && Clause(name, v.fields[name]).fields[name] == v.fields[name];
    }
  }

  predicate OperatorAllowed(name: text, operand: Value) {
    if name == EQ || name == NE then true
    else if name == GT || name == GTE || name == LT || name == LTE then ClassOf(operand).Some?
    else if name == IN || name == NIN then operand.Arr?
    else if name == EXISTS then operand.Bool?
    else name == NOT && OperatorDocument(operand) && ValidOperators(operand)
  }

  /**
   * A filter compiles exactly when each of its clauses does: `$and`, `$or` and `$nor` take a
   * non-empty array of filters, there is no other operator at the top, and a path without empty
   * segments or operators in it takes any value, but if that holds an operator, only operators.
   */
  lemma ValidityLaws(f: Value, key: text, v: Value)
    requires f.Doc? && key in f.fields && v == f.fields[key]
    ensures ValidFilter(f) ==> ValidFilter(Clause(key, v))
    ensures (forall k | k in f.fields :: ValidFilter(Clause(k, f.fields[k]))) ==> ValidFilter(f)
    ensures key in {AND, OR, NOR} ==>
      (ValidFilter(Clause(key, v)) <==> v.Arr? && v.items != [] && forall i | 0 <= i < |v.items| :: ValidFilter(v.items[i]))
    ensures Dollar(key) && key !in {AND, OR, NOR} ==> !ValidFilter(Clause(key, v))
    ensures !Dollar(key) ==> (ValidFilter(Clause(key, v)) <==> ValidPath(key) && (OperatorDocument(v) ==> ValidOperators(v)))
  {
    hide ValidPath, ValidOperators, OperatorDocument;
    forall k | k in f.fields ensures ValidFilter(Clause(k, f.fields[k])) <==> ClauseAllowed(k, f.fields[k]) {
      assert Clause(k, f.fields[k]).fields.Keys == {k} && Clause(k, f.fields[k]).fields[k] == f.fields[k];
    }
    assert Dollar(AND) && Dollar(OR) && Dollar(NOR);
  }

  predicate ClauseAllowed(key: text, v: Value) {
    if key == AND || key == OR || key == NOR
    then v.Arr? && v.items != [] && forall i | 0 <= i < |v.items| :: ValidFilter(v.items[i])
    else !Dollar(key) && ValidPath(key) && (OperatorDocument(v) ==> ValidOperators(v))
  }
}
