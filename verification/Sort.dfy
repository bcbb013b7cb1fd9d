/** packages/storage/src/sort.ts: the order of values of any kind, and sorting documents by it. */
module Sort {
  import opened Bytes
  import opened Text
  import opened Values
  import opened Filter

  // ---------------------------------------------------------------- comparing values

  /** The rank of a value that may be missing; values of different ranks never tie. */
  function SortRank(v: Option<Value>): nat {
    if v.None? then 0 else
    match v.value
    case Null => 1
    case Int(_) => 2
    case Double(_) => 2
    case Big(_) => 2
    case Str(_) => 3
    case Bin(_) => 4
    case Id(_) => 5
    case Bool(_) => 6
    case Date(_) => 7
    case Arr(_) => 8
    case Doc(_) => 9
  }

  const PLUS_INFINITY: u64 := 0x7FF0_0000_0000_0000
  const MINUS_INFINITY: u64 := 0xFFF0_0000_0000_0000

  /** A JavaScript number or bigint, by its place on the line. */
  datatype Place = NotANumber | Lowest | At(r: real) | Highest

  function PlaceOf(v: Value): Place
    requires SortRank(Some(v)) == 2
  {
    match v
    case Int(i) => At(i as real)
    case Big(n) => At(n as real)
    case Double(bits) =>
      if NUMERIC(bits).Some? then At(NUMERIC(bits).value)
      else if bits == PLUS_INFINITY then Highest
      else if bits == MINUS_INFINITY then Lowest
      else NotANumber
  }

  /** `<` on numbers that are not NaN. */
  predicate Less(a: Place, b: Place) {
    match (a, b)
    case (At(x), At(y)) => x < y
    case (Lowest, At(_)) => true
    case (Lowest, Highest) => true
    case (At(_), Highest) => true
    case _ => false
  }

  function CompareNumbers(a: Place, b: Place): int {
    if a.NotANumber? || b.NotANumber? then (if a == b then 0 else if a.NotANumber? then -1 else 1)
    else if Less(a, b) then -1
    else if Less(b, a) then 1
    else 0
  }

  function CompareUnits(a: seq<int>, b: seq<int>): int {
    if Before(a, b) then -1 else if Before(b, a) then 1 else 0
  }

  function CompareInts(a: int, b: int): int {
    if a < b then -1 else if a > b then 1 else 0
  }

  function CompareSortValues(left: Option<Value>, right: Option<Value>): int {
    if SortRank(left) != SortRank(right) then CompareInts(SortRank(left), SortRank(right))
    else if left.None? then 0
    else
      match left.value
      case Str(t) => CompareUnits(UNITS(t), UNITS(right.value.t))
      case Bin(data) => CompareUnits(data, right.value.data)
      case Id(id) => CompareUnits(id, right.value.id)
      case Bool(x) => CompareInts(if x then 1 else 0, if right.value.b then 1 else 0)
      case Date(ms) => CompareInts(ms, right.value.ms)
      case Int(_) => CompareNumbers(PlaceOf(left.value), PlaceOf(right.value))
      case Double(_) => CompareNumbers(PlaceOf(left.value), PlaceOf(right.value))
      case Big(_) => CompareNumbers(PlaceOf(left.value), PlaceOf(right.value))
      case _ => 0
  }

  function CompareDocumentValues(left: Value, right: Value): int {
    CompareSortValues(Some(left), Some(right))
  }

  /** The laws of a comparison: x, y and z are compare(a, b), compare(b, c) and compare(a, c). */
  predicate Lawful(x: int, y: int, z: int) {
    && (x <= 0 && y <= 0 ==> z <= 0) && (x < 0 && y <= 0 ==> z < 0) && (x <= 0 && y < 0 ==> z < 0)
  }

  lemma UnitsLaws(a: seq<int>, b: seq<int>, c: seq<int>)
    ensures CompareUnits(a, a) == 0 && CompareUnits(a, b) == -CompareUnits(b, a)
    ensures Lawful(CompareUnits(a, b), CompareUnits(b, c), CompareUnits(a, c))
  {
    hide Before;
    BeforeTotal(a, a);
    BeforeTotal(a, b);
    BeforeTotal(b, c);
    BeforeTotal(a, c);
    if Before(a, b) && Before(b, c) {
      BeforeTransitive(a, b, c);
    }
  }

  lemma NumbersLaws(a: Place, b: Place, c: Place)
    ensures CompareNumbers(a, a) == 0 && CompareNumbers(a, b) == -CompareNumbers(b, a)
    ensures Lawful(CompareNumbers(a, b), CompareNumbers(b, c), CompareNumbers(a, c))
  {}

  /**
   * Values of all kinds, present or not, are totally preordered: kinds by rank, numbers and
   * bigints together by size with NaN first, strings by their UTF-16 units, bytes by bytes.
   */
  lemma SortLaws(a: Option<Value>, b: Option<Value>, c: Option<Value>)
    ensures CompareSortValues(a, a) == 0 && CompareSortValues(a, b) == -CompareSortValues(b, a)
    ensures Lawful(CompareSortValues(a, b), CompareSortValues(b, c), CompareSortValues(a, c))
  {
    hide CompareUnits, CompareNumbers, PlaceOf;
    SameRankLaws(a, a, a);
    if SortRank(a) == SortRank(b) {
      SameRankLaws(a, b, b);
    }
    if SortRank(a) == SortRank(b) == SortRank(c) {
      SameRankLaws(a, b, c);
    }
  }

  lemma SameRankLaws(a: Option<Value>, b: Option<Value>, c: Option<Value>)
    requires SortRank(a) == SortRank(b) == SortRank(c)
    ensures CompareSortValues(a, a) == 0 && CompareSortValues(a, b) == -CompareSortValues(b, a)
    ensures Lawful(CompareSortValues(a, b), CompareSortValues(b, c), CompareSortValues(a, c))
  {
    hide CompareUnits, CompareNumbers, PlaceOf;
    if a.Some? {
      match a.value
      case Str(t) => UnitsLaws(UNITS(t), UNITS(b.value.t), UNITS(c.value.t));
      case Bin(data) => UnitsLaws(data, b.value.data, c.value.data);
      case Id(id) => UnitsLaws(id, b.value.id, c.value.id);
      case Int(_) => NumbersLaws(PlaceOf(a.value), PlaceOf(b.value), PlaceOf(c.value));
      case Double(_) => NumbersLaws(PlaceOf(a.value), PlaceOf(b.value), PlaceOf(c.value));
      case Big(_) => NumbersLaws(PlaceOf(a.value), PlaceOf(b.value), PlaceOf(c.value));
      case _ =>
    }
  }

  /** A double that is not a number: it has no numeric value and is no infinity. */
  predicate IsNaN(v: Value) {
    v.Double? && NUMERIC(v.bits).None? && v.bits != PLUS_INFINITY && v.bits != MINUS_INFINITY
  }

  /** The direction of a comparison between values of one kind. */
  lemma SortDirection(a: Value, b: Value)
    ensures a.Int? && b.Int? ==> (CompareDocumentValues(a, b) < 0 <==> a.i < b.i) && (CompareDocumentValues(a, b) > 0 <==> a.i > b.i)
    ensures a.Big? && b.Big? ==> (CompareDocumentValues(a, b) < 0 <==> a.n < b.n) && (CompareDocumentValues(a, b) > 0 <==> a.n > b.n)
    ensures a.Int? && b.Big? ==> (CompareDocumentValues(a, b) < 0 <==> a.i < b.n) && (CompareDocumentValues(a, b) > 0 <==> a.i > b.n)
    ensures a.Date? && b.Date? ==> (CompareDocumentValues(a, b) < 0 <==> a.ms < b.ms) && (CompareDocumentValues(a, b) > 0 <==> a.ms > b.ms)
    ensures a.Bool? && b.Bool? ==> (CompareDocumentValues(a, b) < 0 <==> !a.b && b.b)
    ensures a.Str? && b.Str? ==> (CompareDocumentValues(a, b) < 0 <==> Before(UNITS(a.t), UNITS(b.t)))
    ensures a.Bin? && b.Bin? ==> (CompareDocumentValues(a, b) < 0 <==> Before(a.data, b.data))
    ensures a.Id? && b.Id? ==> (CompareDocumentValues(a, b) < 0 <==> Before(a.id, b.id))
    ensures (a.Arr? && b.Arr?) || (a.Doc? && b.Doc?) ==> CompareDocumentValues(a, b) == 0
    ensures IsNaN(a) && (b.Int? || b.Big? || (b.Double? && !IsNaN(b))) ==> CompareDocumentValues(a, b) < 0
  {
    hide Before;
  }

  /** The finite number that a value holds. */
  predicate Amounts(v: Value, r: real) {
    (v.Int? && r == v.i as real) || (v.Big? && r == v.n as real) || (v.Double? && NUMERIC(v.bits) == Some(r))
  }

  /** Numbers of whatever type compare as numbers, between the infinities. */
  lemma NumberDirection(a: Value, b: Value, x: real, y: real)
    requires Amounts(a, x) && Amounts(b, y)
    ensures CompareDocumentValues(a, b) < 0 <==> x < y
    ensures CompareDocumentValues(a, b) > 0 <==> x > y
    ensures NUMERIC(PLUS_INFINITY).None? ==> CompareDocumentValues(a, Double(PLUS_INFINITY)) < 0
    ensures NUMERIC(MINUS_INFINITY).None? ==> CompareDocumentValues(Double(MINUS_INFINITY), a) < 0
  {}

  /**
   * The order of kinds: a missing value before every present one, then null, numbers,
   * strings, binary data, ids, booleans, dates, arrays and documents.
   */
  lemma KindOrder(a: Value, b: Value)
    ensures CompareSortValues(None, Some(a)) < 0 && CompareSortValues(Some(a), None) > 0
    ensures a.Null? && !b.Null? ==> CompareDocumentValues(a, b) < 0
    ensures (a.Int? || a.Big? || a.Double?) && !b.Null? && !b.Int? && !b.Big? && !b.Double? ==> CompareDocumentValues(a, b) < 0
    ensures a.Str? && (b.Bin? || b.Id? || b.Bool? || b.Date? || b.Arr? || b.Doc?) ==> CompareDocumentValues(a, b) < 0
    ensures a.Bin? && (b.Id? || b.Bool? || b.Date? || b.Arr? || b.Doc?) ==> CompareDocumentValues(a, b) < 0
    ensures a.Id? && (b.Bool? || b.Date? || b.Arr? || b.Doc?) ==> CompareDocumentValues(a, b) < 0
    ensures a.Bool? && (b.Date? || b.Arr? || b.Doc?) ==> CompareDocumentValues(a, b) < 0
    ensures a.Date? && (b.Arr? || b.Doc?) ==> CompareDocumentValues(a, b) < 0
    ensures a.Arr? && b.Doc? ==> CompareDocumentValues(a, b) < 0
  {}

  // ---------------------------------------------------------------- comparing documents

  datatype SortKey = SortKey(segments: seq<text>, descending: bool)

  /** The loop of the comparator over the decorated values: the first key that differs decides. */
  function CompareFrom(a: seq<Option<Value>>, b: seq<Option<Value>>, keys: seq<SortKey>, i: nat): int
    requires i <= |keys| && |a| == |b| == |keys|
    decreases |keys| - i
  {
    if i == |keys| then 0
    else
      var c := CompareSortValues(a[i], b[i]);
      if c != 0 then (if keys[i].descending then -c else c) else CompareFrom(a, b, keys, i + 1)
  }

  lemma {:induction false} CompareLaws(a: seq<Option<Value>>, b: seq<Option<Value>>, c: seq<Option<Value>>, keys: seq<SortKey>, i: nat)
    requires i <= |keys| && |a| == |b| == |c| == |keys|
    ensures CompareFrom(a, a, keys, i) == 0 && CompareFrom(a, b, keys, i) == -CompareFrom(b, a, keys, i)
    ensures Lawful(CompareFrom(a, b, keys, i), CompareFrom(b, c, keys, i), CompareFrom(a, c, keys, i))
    decreases |keys| - i
  {
    hide CompareSortValues;
    if i < |keys| {
      SortLaws(a[i], b[i], c[i]);
      SortLaws(b[i], c[i], a[i]);
      SortLaws(c[i], b[i], a[i]);
      SortLaws(c[i], a[i], b[i]);
      SortLaws(a[i], a[i], a[i]);
      CompareLaws(a, b, c, keys, i + 1);
    }
  }

  // ---------------------------------------------------------------- the stable order

  /** The values each document is sorted by. */
  type Rows = seq<seq<Option<Value>>>

  ghost predicate Fitted(rows: Rows, keys: seq<SortKey>) {
    forall i | 0 <= i < |rows| :: |rows[i]| == |keys|
  }

  /** Document `x` comes before document `y`: it is smaller, or ties and came first. */
  predicate Comes(rows: Rows, keys: seq<SortKey>, x: nat, y: nat)
    requires x < |rows| && y < |rows| && |rows[x]| == |rows[y]| == |keys|
  {
    var c := CompareFrom(rows[x], rows[y], keys, 0);
    c < 0 || (c == 0 && x < y)
  }

  lemma ComesLaws(rows: Rows, keys: seq<SortKey>, x: nat, y: nat, z: nat)
    requires Fitted(rows, keys) && x < |rows| && y < |rows| && z < |rows|
    ensures !(Comes(rows, keys, x, y) && Comes(rows, keys, y, x))
    ensures x != y ==> Comes(rows, keys, x, y) || Comes(rows, keys, y, x)
    ensures Comes(rows, keys, x, y) && Comes(rows, keys, y, z) ==> Comes(rows, keys, x, z)
  {
    hide CompareFrom;
    CompareLaws(rows[x], rows[y], rows[z], keys, 0);
    CompareLaws(rows[x], rows[y], rows[x], keys, 0);
  }

  function Positions(n: nat): (p: seq<nat>)
    ensures |p| == n && forall i | 0 <= i < n :: p[i] == i
  {
    seq(n, i => i)
  }

  /** An arrangement of documents: each of the first `n` once. */
  ghost predicate Arrangement(p: seq<nat>, n: nat) {
    multiset(p) == multiset(Positions(n))
  }

  lemma ArrangementBounds(p: seq<nat>, n: nat)
    requires Arrangement(p, n)
    ensures |p| == n && forall i | 0 <= i < |p| :: p[i] < n
  {
    assert |p| == |multiset(p)| == |multiset(Positions(n))|;
    forall i | 0 <= i < |p| ensures p[i] < n {
      assert p[i] in multiset(p);
      assert p[i] in Positions(n);
    }
  }

  /** It is sorted, and documents that tie keep their order. */
  ghost predicate InOrder(p: seq<nat>, rows: Rows, keys: seq<SortKey>)
    requires Fitted(rows, keys) && forall i | 0 <= i < |p| :: p[i] < |rows|
  {
    forall i, j | 0 <= i < j < |p| :: Comes(rows, keys, p[i], p[j])
  }

  /** Where document `x` goes: after everything that comes before it. */
  function Insert(p: seq<nat>, x: nat, rows: Rows, keys: seq<SortKey>): (q: seq<nat>)
    requires Fitted(rows, keys) && x < |rows| && forall i | 0 <= i < |p| :: p[i] < |rows|
    ensures |q| == |p| + 1 && forall i | 0 <= i < |q| :: q[i] == x || q[i] in p
  {
    if p == [] || Comes(rows, keys, x, p[0]) then [x] + p else [p[0]] + Insert(p[1..], x, rows, keys)
  }

  lemma {:induction false} InsertHolds(p: seq<nat>, x: nat, rows: Rows, keys: seq<SortKey>)
    requires Fitted(rows, keys) && x < |rows| && (forall i | 0 <= i < |p| :: p[i] < |rows| && p[i] != x) && InOrder(p, rows, keys)
    ensures
      var q := Insert(p, x, rows, keys);
      (forall i | 0 <= i < |q| :: q[i] < |rows|) && InOrder(q, rows, keys) && multiset(q) == multiset(p) + multiset{x}
  {
    hide Comes, InOrder;
    if p == [] {
      OneInOrder(x, rows, keys);
      assert Insert(p, x, rows, keys) == [x] + p == [x] && p == [];
      return;
    }
    TailCounts(p);
    if Comes(rows, keys, x, p[0]) {
      FirstFirst(p, x, rows, keys);
      InOrderCons(x, p, rows, keys);
    } else {
      ComesLaws(rows, keys, x, p[0], x);
      TailInOrder(p, rows, keys);
      FirstOfOrder(p, rows, keys);
      assert forall i | 0 <= i < |p[1..]| :: p[1..][i] == p[i + 1];
      InsertHolds(p[1..], x, rows, keys);
      InOrderCons(p[0], Insert(p[1..], x, rows, keys), rows, keys);
    }
  }

  lemma OneInOrder(x: nat, rows: Rows, keys: seq<SortKey>)
    requires Fitted(rows, keys) && x < |rows|
    ensures InOrder([x], rows, keys)
  {}

  lemma InOrderCons(x: nat, p: seq<nat>, rows: Rows, keys: seq<SortKey>)
    requires Fitted(rows, keys) && x < |rows| && (forall i | 0 <= i < |p| :: p[i] < |rows|) && InOrder(p, rows, keys)
    requires forall y | y in p :: Comes(rows, keys, x, y)
    ensures InOrder([x] + p, rows, keys)
  {
    hide Comes;
  }

  lemma FirstOfOrder(p: seq<nat>, rows: Rows, keys: seq<SortKey>)
    requires Fitted(rows, keys) && p != [] && (forall i | 0 <= i < |p| :: p[i] < |rows|) && InOrder(p, rows, keys)
    ensures forall y | y in p[1..] :: Comes(rows, keys, p[0], y)
  {
    hide Comes;
  }

  lemma FirstFirst(p: seq<nat>, x: nat, rows: Rows, keys: seq<SortKey>)
    requires Fitted(rows, keys) && x < |rows| && p != [] && (forall i | 0 <= i < |p| :: p[i] < |rows|) && InOrder(p, rows, keys)
    requires Comes(rows, keys, x, p[0])
    ensures forall y | y in p :: Comes(rows, keys, x, y)
  {
    hide Comes;
    FirstOfOrder(p, rows, keys);
    forall y | y in p ensures Comes(rows, keys, x, y) {
      if y != p[0] {
        assert y in p[1..];
        ComesLaws(rows, keys, x, p[0], y);
      }
    }
  }

  /** The stable order of the first `n` documents. */
  function StableOrder(rows: Rows, keys: seq<SortKey>, n: nat): (p: seq<nat>)
    requires Fitted(rows, keys) && n <= |rows|
    ensures |p| == n && forall i | 0 <= i < |p| :: p[i] < n
  {
    if n == 0 then [] else Insert(StableOrder(rows, keys, n - 1), n - 1, rows, keys)
  }

  lemma EmptyInOrder(rows: Rows, keys: seq<SortKey>)
    requires Fitted(rows, keys)
    ensures InOrder([], rows, keys)
  {}

  lemma {:induction false} StableOrderSorts(rows: Rows, keys: seq<SortKey>, n: nat)
    requires Fitted(rows, keys) && n <= |rows|
    ensures Arrangement(StableOrder(rows, keys, n), n) && InOrder(StableOrder(rows, keys, n), rows, keys)
  {
    hide Comes, Insert, InOrder;
    EmptyInOrder(rows, keys);
    if n > 0 {
      StableOrderSorts(rows, keys, n - 1);
      InsertHolds(StableOrder(rows, keys, n - 1), n - 1, rows, keys);
      assert Positions(n) == Positions(n - 1) + [n - 1];
    }
  }

  lemma SameFirst(p: seq<nat>, q: seq<nat>, rows: Rows, keys: seq<SortKey>)
    requires Fitted(rows, keys) && (forall i | 0 <= i < |p| :: p[i] < |rows|) && (forall i | 0 <= i < |q| :: q[i] < |rows|)
    requires InOrder(p, rows, keys) && InOrder(q, rows, keys) && multiset(p) == multiset(q) && p != [] && q != []
    ensures p[0] == q[0]
  {
    hide Comes;
    assert p[0] in multiset(q) && q[0] in multiset(p);
    var i :| 0 <= i < |q| && q[i] == p[0];
    var j :| 0 <= j < |p| && p[j] == q[0];
    ComesLaws(rows, keys, p[0], q[0], p[0]);
  }

  lemma TailCounts(p: seq<nat>)
    requires p != []
    ensures p == [p[0]] + p[1..] && multiset(p[1..]) == multiset(p) - multiset{p[0]}
  {}

  lemma TailInOrder(p: seq<nat>, rows: Rows, keys: seq<SortKey>)
    requires Fitted(rows, keys) && p != [] && (forall i | 0 <= i < |p| :: p[i] < |rows|) && InOrder(p, rows, keys)
    ensures InOrder(p[1..], rows, keys)
  {
    hide Comes;
  }

  /** Two sorted lists of the same documents are the same list. */
  lemma {:induction false} SortedIsUnique(p: seq<nat>, q: seq<nat>, rows: Rows, keys: seq<SortKey>)
    requires Fitted(rows, keys) && (forall i | 0 <= i < |p| :: p[i] < |rows|) && (forall i | 0 <= i < |q| :: q[i] < |rows|)
    requires InOrder(p, rows, keys) && InOrder(q, rows, keys) && multiset(p) == multiset(q)
    ensures p == q
  {
    hide InOrder;
    assert |p| == |multiset(p)| == |multiset(q)| == |q|;
    if p != [] {
      SameFirst(p, q, rows, keys);
      TailCounts(p);
      TailCounts(q);
      TailInOrder(p, rows, keys);
      TailInOrder(q, rows, keys);
      SortedIsUnique(p[1..], q[1..], rows, keys);
    }
  }

  /**
   * There is exactly one way to sort stably: any arrangement of the documents that is in
   * order, with ties in their original order, is this one. So it does not matter how the
   * engine's stable sort goes about it.
   */
  lemma StableSortIsUnique(q: seq<nat>, rows: Rows, keys: seq<SortKey>)
    requires Fitted(rows, keys) && Arrangement(q, |rows|)
    ensures |q| == |rows| && forall i | 0 <= i < |q| :: q[i] < |rows|
    ensures InOrder(q, rows, keys) <==> q == StableOrder(rows, keys, |rows|)
  {
    hide InOrder;
    ArrangementBounds(q, |rows|);
    StableOrderSorts(rows, keys, |rows|);
    if InOrder(q, rows, keys) {
      SortedIsUnique(StableOrder(rows, keys, |rows|), q, rows, keys);
    }
  }

  // ---------------------------------------------------------------- sorting documents

  function RowOf(d: Document, keys: seq<SortKey>): (row: seq<Option<Value>>)
    ensures |row| == |keys| && forall i | 0 <= i < |keys| :: row[i] == Resolve(d, keys[i].segments)
  {
    seq(|keys|, i requires 0 <= i < |keys| => Resolve(d, keys[i].segments))
  }

  function RowsOf(docs: seq<Document>, keys: seq<SortKey>): (rows: Rows)
    ensures |rows| == |docs| && Fitted(rows, keys) && forall i | 0 <= i < |docs| :: rows[i] == RowOf(docs[i], keys)
  {
    seq(|docs|, i requires 0 <= i < |docs| => RowOf(docs[i], keys))
  }

  function Arranged(docs: seq<Document>, p: seq<nat>): (sorted: seq<Document>)
    requires forall i | 0 <= i < |p| :: p[i] < |docs|
    ensures |sorted| == |p| && forall i | 0 <= i < |p| :: sorted[i] == docs[p[i]]
  {
    seq(|p|, i requires 0 <= i < |p| => docs[p[i]])
  }

  /** The documents in the stable order of the keys. */
  function SortDocuments(docs: seq<Document>, keys: seq<SortKey>): seq<Document> {
    Arranged(docs, StableOrder(RowsOf(docs, keys), keys, |docs|))
  }

  lemma ArrangedCons(docs: seq<Document>, x: nat, p: seq<nat>)
    requires x < |docs| && forall i | 0 <= i < |p| :: p[i] < |docs|
    ensures Arranged(docs, [x] + p) == [docs[x]] + Arranged(docs, p)
  {}

  lemma {:induction false} InsertedDocuments(docs: seq<Document>, p: seq<nat>, x: nat, rows: Rows, keys: seq<SortKey>)
    requires Fitted(rows, keys) && x < |rows| == |docs| && forall i | 0 <= i < |p| :: p[i] < |rows|
    ensures
      var q := Insert(p, x, rows, keys);
      (forall i | 0 <= i < |q| :: q[i] < |docs|) && multiset(Arranged(docs, q)) == multiset(Arranged(docs, p)) + multiset{docs[x]}
  {
    hide Comes, Arranged;
    ArrangedCons(docs, x, p);
    if p != [] {
      assert p == [p[0]] + p[1..];
      InsertedDocuments(docs, p[1..], x, rows, keys);
      ArrangedCons(docs, p[0], p[1..]);
      ArrangedCons(docs, p[0], Insert(p[1..], x, rows, keys));
    }
  }

  lemma {:induction false} OrderedDocuments(docs: seq<Document>, rows: Rows, keys: seq<SortKey>, n: nat)
    requires Fitted(rows, keys) && |rows| == |docs| && n <= |docs|
    ensures multiset(Arranged(docs, StableOrder(rows, keys, n))) == multiset(docs[..n])
  {
    hide Insert, Arranged, Fitted;
    if n > 0 {
      OrderedDocuments(docs, rows, keys, n - 1);
      InsertedDocuments(docs, StableOrder(rows, keys, n - 1), n - 1, rows, keys);
      assert docs[..n] == docs[..n - 1] + [docs[n - 1]];
    } else {
      ArrangedNone(docs);
    }
  }

  lemma ArrangedNone(docs: seq<Document>)
    ensures Arranged(docs, []) == [] && docs[..0] == []
  {}

  /** Sorting neither loses nor repeats a document, and puts every earlier one no later in the order of the keys. */
  lemma SortKeepsDocuments(docs: seq<Document>, keys: seq<SortKey>)
    ensures
      var sorted := SortDocuments(docs, keys);
      && multiset(sorted) == multiset(docs)
      && |sorted| == |docs|
      && forall i, j | 0 <= i < j < |sorted| :: CompareFrom(RowOf(sorted[i], keys), RowOf(sorted[j], keys), keys, 0) <= 0
  {
    hide CompareFrom, StableOrder;
    var rows, n := RowsOf(docs, keys), |docs|;
    var p := StableOrder(rows, keys, n);
    StableOrderSorts(rows, keys, n);
    OrderedDocuments(docs, rows, keys, n);
    assert docs[..n] == docs;
    forall i, j | 0 <= i < j < n
      ensures CompareFrom(RowOf(docs[p[i]], keys), RowOf(docs[p[j]], keys), keys, 0) <= 0
    {
      assert Comes(rows, keys, p[i], p[j]);
    }
  }

  // ---------------------------------------------------------------- sort specifications

  /** A path and a direction, as they arrive. */
  datatype SortEntry = SortEntry(path: text, direction: int)

  predicate ValidEntry(e: SortEntry) {
    && e.path != [] && (e.direction == 1 || e.direction == -1)
    && forall i | 0 <= i < |Split(e.path)| :: Split(e.path)[i] != [] && Split(e.path)[i][0] != DOLLAR
  }

  predicate ValidSort(entries: seq<SortEntry>) {
    && entries != [] && (forall i | 0 <= i < |entries| :: ValidEntry(entries[i]))
    && forall i, j | 0 <= i < j < |entries| :: entries[i].path != entries[j].path
  }

  function SortKeys(entries: seq<SortEntry>): (keys: seq<SortKey>)
    ensures |keys| == |entries| && forall i | 0 <= i < |entries| :: keys[i] == SortKey(Split(entries[i].path), entries[i].direction == -1)
  {
    seq(|entries|, i requires 0 <= i < |entries| => SortKey(Split(entries[i].path), entries[i].direction == -1))
  }

  /** `parseSortSpecification`: None where it throws. */
  method ParseSort(entries: seq<SortEntry>) returns (r: Option<seq<SortKey>>)
    ensures r.Some? <==> ValidSort(entries)
    ensures r.Some? ==> r.value == SortKeys(entries)
  {
    hide Split;
    if entries == [] {
      return None;
    }
    var seen: set<text>, keys: seq<SortKey> := {}, [];
    for i := 0 to |entries|
      invariant |keys| == i && forall j | 0 <= j < i :: keys[j] == SortKey(Split(entries[j].path), entries[j].direction == -1)
      invariant forall j | 0 <= j < i :: ValidEntry(entries[j]) && entries[j].path in seen
      invariant forall t | t in seen :: exists j | 0 <= j < i :: entries[j].path == t
      invariant forall j, k | 0 <= j < k < i :: entries[j].path != entries[k].path
    {
      var e := entries[i];
      if !ValidEntry(e) || e.path in seen {
        return None;
      }
      seen := seen + {e.path};
      keys := keys + [SortKey(Split(e.path), e.direction == -1)];
    }
    return Some(keys);
  }

  // ---------------------------------------------------------------- what a sorted result looks like

  /** How two documents compare in the field at a path. */
  function CompareAt(a: Document, b: Document, path: text): int {
    CompareSortValues(Resolve(a, Split(path)), Resolve(b, Split(path)))
  }

  /** `i` is the first entry whose field tells the two documents apart. */
  ghost predicate Decides(a: Document, b: Document, entries: seq<SortEntry>, i: nat) {
    i < |entries| && CompareAt(a, b, entries[i].path) != 0
    && forall j | 0 <= j < i :: CompareAt(a, b, entries[j].path) == 0
  }

  /** Of any two results, the first field that tells them apart rises in direction 1 and falls in direction -1. */
  ghost predicate OrderedBy(docs: seq<Document>, entries: seq<SortEntry>) {
    forall x, y, i: nat | 0 <= x < y < |docs| && Decides(docs[x], docs[y], entries, i) ::
      && (entries[i].direction == 1 ==> CompareAt(docs[x], docs[y], entries[i].path) < 0)
      && (entries[i].direction == -1 ==> CompareAt(docs[x], docs[y], entries[i].path) > 0)
  }

  /** The comparator is decided by the first key that differs. */
  lemma {:induction false} FirstDifference(a: seq<Option<Value>>, b: seq<Option<Value>>, keys: seq<SortKey>, from: nat, i: nat)
    requires from <= i < |keys| && |a| == |b| == |keys|
    requires forall j | from <= j < i :: CompareSortValues(a[j], b[j]) == 0
    requires CompareSortValues(a[i], b[i]) != 0
    ensures CompareFrom(a, b, keys, from) == if keys[i].descending then -CompareSortValues(a[i], b[i]) else CompareSortValues(a[i], b[i])
    decreases i - from
  {
    hide CompareSortValues;
    if from < i {
      FirstDifference(a, b, keys, from + 1, i);
    }
  }

  lemma SortedIsOrdered(docs: seq<Document>, entries: seq<SortEntry>)
    ensures OrderedBy(SortDocuments(docs, SortKeys(entries)), entries)
  {
    hide CompareFrom, CompareSortValues, SortDocuments, Split, Resolve;
    var keys := SortKeys(entries);
    var sorted := SortDocuments(docs, keys);
    SortKeepsDocuments(docs, keys);
    forall x, y, i: nat | 0 <= x < y < |sorted| && Decides(sorted[x], sorted[y], entries, i)
      ensures entries[i].direction == 1 ==> CompareAt(sorted[x], sorted[y], entries[i].path) < 0
      ensures entries[i].direction == -1 ==> CompareAt(sorted[x], sorted[y], entries[i].path) > 0
    {
      var a, b := RowOf(sorted[x], keys), RowOf(sorted[y], keys);
      assert forall j | 0 <= j < |keys| :: CompareSortValues(a[j], b[j]) == CompareAt(sorted[x], sorted[y], entries[j].path);
      FirstDifference(a, b, keys, 0, i);
      assert CompareFrom(a, b, keys, 0) <= 0;
    }
  }

  lemma OrderedPart(docs: seq<Document>, entries: seq<SortEntry>, from: nat, to: nat)
    requires OrderedBy(docs, entries) && from <= to <= |docs|
    ensures OrderedBy(docs[from..to], entries)
  {
    hide Decides, CompareAt;
    var part := docs[from..to];
    assert forall x | 0 <= x < |part| :: part[x] == docs[from + x];
  }
}
