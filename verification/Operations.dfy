/** packages/storage/src/engine/operations.ts: the transaction record codec. */
module Operations {
  import opened Bytes
  import opened Text

  const TRANSACTION := 1
  const ID_BYTE_LENGTH := 16
  const MAX_NAME_BYTE_LENGTH := 65_535

  datatype Namespace = Namespace(database: text, collection: text)

  datatype IndexSpec = IndexSpec(name: text, field: text, descending: bool, unique: bool, sparse: bool)

  datatype Operation =
    | CreateCollection(ns: Namespace)
    | Put(ns: Namespace, id: bytes, document: bytes)
    | Delete(ns: Namespace, id: bytes)
    | CreateIndex(ns: Namespace, index: IndexSpec)
    | DropIndex(ns: Namespace, name: text)

  // Which names and fields `normalizeIndexSpec` accepts. Nothing depends on the answer.
  const NORMALIZED: (text, text) -> bool

  // ---------------------------------------------------------------- names

  predicate NameFits(t: text) {
    0 < |t| <= MAX_NAME_BYTE_LENGTH
  }

  function EncodeName(t: text): bytes {
    Be(|t|, 2) + t
  }

  function ReadName(b: bytes): Read<text> {
    match TakeNat(b, 2)
    case Bad => Bad
    case Got(n, rest) =>
      if n == 0 then Bad else
      match Take(rest, n)
      case Bad => Bad
      case Got(raw, rest') =>
        match DecodeText(raw)
        case None => Bad
        case Some(t) => Got(t, rest')
  }

  lemma NameRead(t: text, rest: bytes)
    requires NameFits(t)
    ensures ReadName(EncodeName(t) + rest)
         == match DecodeText(t) case None => Bad case Some(s) => Got(s, rest)
  {
    Widths();
    TakeNatFront(|t|, 2, t + rest);
    TakeFront(t, rest);
    assert EncodeName(t) + rest == Be(|t|, 2) + (t + rest);
  }

  function ReadNames(b: bytes): Read<Namespace> {
    match ReadName(b)
    case Bad => Bad
    case Got(d, r) =>
      match ReadName(r)
      case Bad => Bad
      case Got(c, r') => Got(Namespace(d, c), r')
  }

  function EncodeNames(ns: Namespace): bytes {
    EncodeName(ns.database) + EncodeName(ns.collection)
  }

  predicate NamespaceFits(ns: Namespace) {
    NameFits(ns.database) && NameFits(ns.collection)
  }

  predicate PlainNames(ns: Namespace) {
    Plain(ns.database) && Plain(ns.collection)
  }

  /** Reads back the namespace exactly when both names are plain, and never another way. */
  lemma NamesRead(ns: Namespace, rest: bytes)
    requires NamespaceFits(ns)
    ensures PlainNames(ns) ==> ReadNames(EncodeNames(ns) + rest) == Got(ns, rest)
    ensures !PlainNames(ns) ==> var r := ReadNames(EncodeNames(ns) + rest); r.Got? ==> r.value != ns
  {
    hide EncodeName, ReadName, DecodeText;
    Regroup([], EncodeName(ns.database), EncodeName(ns.collection), rest);
    assert EncodeNames(ns) + rest == EncodeName(ns.database) + (EncodeName(ns.collection) + rest);
    NameRead(ns.database, EncodeName(ns.collection) + rest);
    NameRead(ns.collection, rest);
    PlainExact(ns.database);
    PlainExact(ns.collection);
  }

  // ---------------------------------------------------------------- index definitions

  function EncodeIndexSpec(s: IndexSpec): bytes {
    EncodeName(s.name) + EncodeName(s.field)
    + [(if s.unique then 1 else 0) + (if s.sparse then 2 else 0) + (if s.descending then 4 else 0)]
  }

  function ReadIndexSpec(b: bytes): Read<IndexSpec> {
    match ReadName(b)
    case Bad => Bad
    case Got(name, r1) =>
      match ReadName(r1)
      case Bad => Bad
      case Got(field, r2) =>
        match TakeNat(r2, 1)
        case Bad => Bad
        case Got(flags, r3) =>
          if !NORMALIZED(name, field) then Bad
          else Got(IndexSpec(name, field, flags / 4 % 2 == 1, flags % 2 == 1, flags / 2 % 2 == 1), r3)
  }

  predicate SpecFits(s: IndexSpec) {
    NameFits(s.name) && NameFits(s.field) && NORMALIZED(s.name, s.field)
  }

  predicate PlainSpec(s: IndexSpec) {
    Plain(s.name) && Plain(s.field)
  }

  lemma SpecRead(s: IndexSpec, rest: bytes)
    requires SpecFits(s)
    ensures PlainSpec(s) ==> ReadIndexSpec(EncodeIndexSpec(s) + rest) == Got(s, rest)
    ensures !PlainSpec(s) ==> var r := ReadIndexSpec(EncodeIndexSpec(s) + rest); r.Got? ==> r.value != s
  {
    hide EncodeName, ReadName, DecodeText;
    var flags := (if s.unique then 1 else 0) + (if s.sparse then 2 else 0) + (if s.descending then 4 else 0);
    var tail := [flags] + rest;
    assert EncodeIndexSpec(s) + rest == EncodeName(s.name) + (EncodeName(s.field) + tail);
    NameRead(s.name, EncodeName(s.field) + tail);
    NameRead(s.field, tail);
    PlainExact(s.name);
    PlainExact(s.field);
    assert tail[..1] == [flags] && tail[1..] == rest && [flags][..0] == [];
    assert OfBe([flags]) == flags;
  }

  // ---------------------------------------------------------------- operations

  /** What `encodeOperations` accepts; anything else makes it throw a RangeError. */
  predicate Fits(op: Operation) {
    && NamespaceFits(op.ns)
    && match op
       case CreateCollection(_) => true
       case Put(_, id, document) => |id| == ID_BYTE_LENGTH && |document| < 0x1_0000_0000
       case Delete(_, id) => |id| == ID_BYTE_LENGTH
       case CreateIndex(_, index) => SpecFits(index)
       case DropIndex(_, name) => NameFits(name)
  }

  /** No name in the operation starts with U+FEFF. */
  predicate PlainOp(op: Operation) {
    && PlainNames(op.ns)
    && (op.CreateIndex? ==> PlainSpec(op.index))
    && (op.DropIndex? ==> Plain(op.name))
  }

  function KindOf(op: Operation): byte {
    match op
    case CreateCollection(_) => 1
    case Put(_, _, _) => 2
    case Delete(_, _) => 3
    case CreateIndex(_, _) => 4
    case DropIndex(_, _) => 5
  }

  function EncodeDetail(op: Operation): bytes {
    match op
    case CreateCollection(_) => []
    case Put(_, id, document) => id + (Be(|document|, 4) + document)
    case Delete(_, id) => id
    case CreateIndex(_, index) => EncodeIndexSpec(index)
    case DropIndex(_, name) => EncodeName(name)
  }

  function EncodeOperation(op: Operation): bytes {
    [KindOf(op)] + (EncodeNames(op.ns) + EncodeDetail(op))
  }

  function ReadDetail(kind: nat, ns: Namespace, b: bytes): Read<Operation> {
    if kind == 1 then Got(CreateCollection(ns), b)
    else if kind == 2 then
      match Take(b, ID_BYTE_LENGTH)
      case Bad => Bad
      case Got(id, r1) =>
        (match TakeNat(r1, 4)
        case Bad => Bad
        case Got(n, r2) =>
          (match Take(r2, n)
          case Bad => Bad
          case Got(document, r3) => Got(Put(ns, id, document), r3)))
    else if kind == 3 then
      match Take(b, ID_BYTE_LENGTH)
      case Bad => Bad
      case Got(id, r) => Got(Delete(ns, id), r)
    else if kind == 4 then
      match ReadIndexSpec(b)
      case Bad => Bad
      case Got(s, r) => Got(CreateIndex(ns, s), r)
    else if kind == 5 then
      match ReadName(b)
      case Bad => Bad
      case Got(name, r) => Got(DropIndex(ns, name), r)
    else Bad
  }

  function ReadOperation(b: bytes): Read<Operation> {
    match TakeNat(b, 1)
    case Bad => Bad
    case Got(kind, r1) =>
      match ReadNames(r1)
      case Bad => Bad
      case Got(ns, r2) => ReadDetail(kind, ns, r2)
  }

  lemma DetailRead(op: Operation, ns: Namespace, rest: bytes)
    requires Fits(op)
    ensures
      var r := ReadDetail(KindOf(op), ns, EncodeDetail(op) + rest);
      && (ns == op.ns && PlainOp(op) ==> r == Got(op, rest))
      && (r.Got? ==> r.value.ns == ns)
      && (PlainNames(op.ns) && !PlainOp(op) && r.Got? ==> r.value != op)
  {
    hide EncodeName, ReadName, DecodeText, ReadIndexSpec, EncodeIndexSpec;
    match op
    case CreateCollection(_) =>
      assert [] + rest == rest;
    case Put(_, id, document) =>
      Widths();
      TakeFront(id, Be(|document|, 4) + document + rest);
      TakeNatFront(|document|, 4, document + rest);
      TakeFront(document, rest);
      assert EncodeDetail(op) + rest == id + (Be(|document|, 4) + document + rest);
      assert Be(|document|, 4) + document + rest == Be(|document|, 4) + (document + rest);
    case Delete(_, id) =>
      TakeFront(id, rest);
    case CreateIndex(_, index) =>
      SpecRead(index, rest);
    case DropIndex(_, name) =>
      NameRead(name, rest);
      PlainExact(name);
  }

  /** One operation is read back exactly when its names are plain, and never as itself otherwise. */
  lemma OperationRead(op: Operation, rest: bytes)
    requires Fits(op)
    ensures PlainOp(op) ==> ReadOperation(EncodeOperation(op) + rest) == Got(op, rest)
    ensures !PlainOp(op) ==> var r := ReadOperation(EncodeOperation(op) + rest); r.Got? ==> r.value != op && KindOf(r.value) == KindOf(op)
    ensures !PlainNames(op.ns) ==> var r := ReadOperation(EncodeOperation(op) + rest); r.Got? ==> r.value.ns != op.ns
  {
    hide ReadDetail, EncodeDetail, ReadNames, EncodeNames, KindOf;
    var b := EncodeOperation(op) + rest;
    var tail := EncodeDetail(op) + rest;
    assert b[..1] == [KindOf(op)] && [KindOf(op)][..0] == [];
    assert OfBe(b[..1]) == KindOf(op);
    assert b[1..] == EncodeNames(op.ns) + tail;
    NamesRead(op.ns, tail);
    var r := ReadNames(b[1..]);
    if r.Got? {
      DetailReadAny(op, r.value, r.rest);
    }
    DetailRead(op, op.ns, rest);
  }

  lemma DetailReadAny(op: Operation, ns: Namespace, b: bytes)
    ensures var r := ReadDetail(KindOf(op), ns, b); r.Got? ==> r.value.ns == ns && KindOf(r.value) == KindOf(op)
  {
    hide ReadName, ReadIndexSpec;
  }

  function EncodeList(ops: seq<Operation>): bytes {
    if ops == [] then [] else EncodeOperation(ops[0]) + EncodeList(ops[1..])
  }

  /** None when some operation cannot be encoded. */
  function EncodeOperations(ops: seq<Operation>): Option<bytes> {
    if |ops| < 0x1_0000_0000 && (forall i | 0 <= i < |ops| :: Fits(ops[i]))
    then Some(Be(|ops|, 4) + EncodeList(ops))
    else None
  }

  function ReadList(b: bytes, count: nat): Read<seq<Operation>>
    decreases count
  {
    if count == 0 then Got([], b) else
    match ReadOperation(b)
    case Bad => Bad
    case Got(op, r) =>
      match ReadList(r, count - 1)
      case Bad => Bad
      case Got(ops, r') => Got([op] + ops, r')
  }

  /** None when the payload is malformed. */
  function DecodeOperations(payload: bytes): Option<seq<Operation>> {
    match TakeNat(payload, 4)
    case Bad => None
    case Got(count, r) =>
      match ReadList(r, count)
      case Bad => None
      case Got(ops, rest) => if rest == [] then Some(ops) else None
  }

  predicate PlainOps(ops: seq<Operation>) {
    forall i | 0 <= i < |ops| :: PlainOp(ops[i])
  }

  lemma {:induction false} ListRead(ops: seq<Operation>, rest: bytes)
    requires forall i | 0 <= i < |ops| :: Fits(ops[i])
    ensures PlainOps(ops) ==> ReadList(EncodeList(ops) + rest, |ops|) == Got(ops, rest)
    ensures !PlainOps(ops) ==> var r := ReadList(EncodeList(ops) + rest, |ops|); r.Got? ==> r.value != ops
  {
    hide EncodeOperation, ReadOperation, Fits, PlainOp;
    if ops == [] {
      assert EncodeList(ops) + rest == rest;
    } else {
      var op, more := ops[0], ops[1..];
      assert ops == [op] + more;
      Regroup([], EncodeOperation(op), EncodeList(more), rest);
      assert EncodeList(ops) + rest == EncodeOperation(op) + (EncodeList(more) + rest);
      OperationRead(op, EncodeList(more) + rest);
      ListRead(more, rest);
      assert PlainOps(ops) <==> PlainOp(op) && PlainOps(more);
    }
  }

  /**
   * A transaction record decodes to the operations it was made from if and only if no name
   * in it starts with U+FEFF.
   */
  lemma TransactionRoundTrip(ops: seq<Operation>)
    requires EncodeOperations(ops).Some?
    ensures DecodeOperations(EncodeOperations(ops).value) == Some(ops) <==> PlainOps(ops)
  {
    hide EncodeList, ReadList, Fits, PlainOp;
    Widths();
    TakeNatFront(|ops|, 4, EncodeList(ops));
    ListRead(ops, []);
    assert EncodeList(ops) + [] == EncodeList(ops);
  }

  // ---------------------------------------------------------------- the loops

  lemma {:induction false} EncodeListSnoc(ops: seq<Operation>, n: nat)
    requires n < |ops|
    ensures EncodeList(ops[..n + 1]) == EncodeList(ops[..n]) + EncodeOperation(ops[n])
    decreases n
  {
    hide EncodeOperation;
    if n == 0 {
      assert ops[..1] == [ops[0]] && ops[..1][1..] == [];
      assert EncodeList(ops[..1][1..]) == [];
    } else {
      assert ops[..n + 1][1..] == ops[1..][..n] && ops[..n][1..] == ops[1..][..n - 1];
      EncodeListSnoc(ops[1..], n - 1);
      assert ops[1..][n - 1] == ops[n];
      Regroup([], EncodeOperation(ops[0]), EncodeList(ops[1..][..n - 1]), EncodeOperation(ops[n]));
    }
  }

  /** `encodeOperations`: the count, then one operation after another. */
  method EncodeTransaction(ops: seq<Operation>) returns (r: Option<bytes>)
    ensures r == EncodeOperations(ops)
  {
    hide EncodeOperation, EncodeList, Fits;
    if |ops| >= 0x1_0000_0000 {
      return None;
    }
    var out := Be(|ops|, 4);
    NoOperations();
    assert ops[..0] == [];
    for i := 0 to |ops|
      invariant out == Be(|ops|, 4) + EncodeList(ops[..i])
      invariant forall j | 0 <= j < i :: Fits(ops[j])
    {
      if !Fits(ops[i]) {
        return None;
      }
      EncodeListSnoc(ops, i);
      Regroup(Be(|ops|, 4), EncodeList(ops[..i]), EncodeOperation(ops[i]), []);
      out := out + EncodeOperation(ops[i]);
    }
    assert ops[..|ops|] == ops;
    return Some(out);
  }

  lemma NoOperations()
    ensures EncodeList([]) == []
  {}

  lemma ReadNextOperation(b: bytes, n: nat)
    requires n > 0
    ensures ReadList(b, n) ==
      match ReadOperation(b)
      case Bad => Bad
      case Got(op, r) => match ReadList(r, n - 1) case Bad => Bad case Got(ops, r') => Got([op] + ops, r')
  {
    hide ReadOperation;
  }

  /** Operations read so far, in front of the rest. */
  ghost function Preceded(ops: seq<Operation>, r: Read<seq<Operation>>): Read<seq<Operation>> {
    match r case Bad => Bad case Got(more, rest) => Got(ops + more, rest)
  }

  /** `decodeOperations`: reads as many operations as the payload claims, and nothing may follow. */
  method DecodeTransaction(payload: bytes) returns (r: Option<seq<Operation>>)
    ensures r == DecodeOperations(payload)
  {
    hide ReadOperation, ReadList;
    var count := TakeNat(payload, 4);
    if count.Bad? {
      return None;
    }
    var ops: seq<Operation>, rest := [], count.rest;
    ghost var spec := ReadList(count.rest, count.value);
    PrecededNone(spec);
    var i := 0;
    while i < count.value
      invariant 0 <= i <= count.value
      invariant spec == Preceded(ops, ReadList(rest, count.value - i))
    {
      ReadNextOperation(rest, count.value - i);
      var next := ReadOperation(rest);
      if next.Bad? {
        return None;
      }
      PrecededOne(ops, next.value, ReadList(next.rest, count.value - i - 1));
      ops, rest := ops + [next.value], next.rest;
      i := i + 1;
    }
    NothingToRead(rest);
    assert ops + [] == ops;
    return if rest == [] then Some(ops) else None;
  }

  lemma NothingToRead(b: bytes)
    ensures ReadList(b, 0) == Got([], b)
  {}

  lemma PrecededNone(r: Read<seq<Operation>>)
    ensures Preceded([], r) == r
  {
    if r.Got? {
      assert [] + r.value == r.value;
    }
  }

  lemma PrecededOne(ops: seq<Operation>, op: Operation, r: Read<seq<Operation>>)
    ensures Preceded(ops, Preceded([op], r)) == Preceded(ops + [op], r)
  {
    if r.Got? {
      assert ops + ([op] + r.value) == ops + [op] + r.value;
    }
  }
}
