/**
 * packages/protocol/src/document-encoder.ts and document-decoder.ts: the canonical binary
 * form of values. Equality filters, index keys and change detection all compare these bytes.
 */
module DocumentCodec {
  import opened Bytes
  import opened Text
  import opened Values

  const MAX_DOCUMENT_DEPTH := 100
  const MAX_PAYLOAD_SIZE := 16 * 1024 * 1024

  const NULL_TAG: byte := 0x00
  const FALSE_TAG: byte := 0x01
  const TRUE_TAG: byte := 0x02
  const INT32_TAG: byte := 0x03
  const INT64_TAG: byte := 0x04
  const FLOAT64_TAG: byte := 0x05
  const BIGINT64_TAG: byte := 0x06
  const STRING_TAG: byte := 0x07
  const BINARY_TAG: byte := 0x08
  const DATETIME_TAG: byte := 0x09
  const ARRAY_TAG: byte := 0x0A
  const DOCUMENT_TAG: byte := 0x0B
  const CUSTOMID_TAG: byte := 0x0C

  // ---------------------------------------------------------------- signed integers

  /** Two's complement in `k` bytes, for an integer that fits. */
  function Twos(i: int, k: nat): (s: bytes)
    ensures |s| == k
  {
    var n := if i >= 0 then i else i + Pow256(k);
    Be(if n >= 0 then n else 0, k)
  }

  function OfTwos(n: nat, k: nat): int {
    if 2 * n < Pow256(k) then n else n - Pow256(k)
  }

  function TakeSigned(b: bytes, k: nat): Read<int> {
    match TakeNat(b, k)
    case Bad => Bad
    case Got(n, rest) => Got(OfTwos(n, k), rest)
  }

  lemma TwosRead(i: int, k: nat, t: bytes)
    requires 0 <= 2 * i + Pow256(k) < 2 * Pow256(k)
    ensures TakeSigned(Twos(i, k) + t, k) == Got(i, t)
  {
    TakeNatFront(if i >= 0 then i else i + Pow256(k), k, t);
  }

  // ---------------------------------------------------------------- encoding

  ghost function Encode(v: Value): (s: bytes)
    ensures s != []
    decreases v, 1, 0
  {
    match v
    case Null => [NULL_TAG]
    case Bool(b) => [if b then TRUE_TAG else FALSE_TAG]
    case Int(i) => if -0x8000_0000 <= i <= 0x7FFF_FFFF then [INT32_TAG] + Twos(i, 4) else [INT64_TAG] + Twos(i, 8)
    case Double(bits) => [FLOAT64_TAG] + Be(bits, 8)
    case Big(n) => [BIGINT64_TAG] + Twos(n, 8)
    case Str(t) => [STRING_TAG] + Prefixed(t)
    case Date(ms) => [DATETIME_TAG] + Twos(ms, 8)
    case Bin(data) => [BINARY_TAG] + Prefixed(data)
    case Id(id) => [CUSTOMID_TAG] + id
    case Arr(items) => [ARRAY_TAG] + (Be(|items|, 4) + EncodeItems(v, 0))
    case Doc(fields) => [DOCUMENT_TAG] + (Be(|fields|, 4) + EncodeFields(v, Sorted(fields.Keys)))
  }

  function Prefixed(data: bytes): bytes {
    Be(|data|, 4) + data
  }

  ghost function EncodeItems(v: Value, i: nat): bytes
    requires v.Arr? && i <= |v.items|
    decreases v, 0, |v.items| - i
  {
    if i == |v.items| then [] else Encode(v.items[i]) + EncodeItems(v, i + 1)
  }

  ghost function EncodeFields(v: Value, keys: seq<text>): bytes
    requires v.Doc? && forall k | k in keys :: k in v.fields
    decreases v, 0, |keys|
  {
    if keys == [] then []
    else Prefixed(keys[0]) + (Encode(v.fields[keys[0]]) + EncodeFields(v, keys[1..]))
  }

  /** What the encoder accepts at this depth, apart from the limit on the total size. */
  ghost predicate Fits(v: Value, depth: nat) {
    && depth <= MAX_DOCUMENT_DEPTH
    && match v
       case Null => true
       case Bool(_) => true
       case Int(i) => -MAX_SAFE_INTEGER <= i <= MAX_SAFE_INTEGER
       case Double(bits) => ProperDouble(bits)
       case Big(n) => -0x8000_0000_0000_0000 <= n < 0x8000_0000_0000_0000
       case Str(t) => UTF8(t) && |t| < 0x1_0000_0000
       case Date(ms) => -MAX_DATE <= ms <= MAX_DATE
       case Bin(data) => |data| < 0x1_0000_0000
       case Id(id) => |id| == CUSTOM_ID_BYTE_LENGTH
       case Arr(items) => |items| < 0x1_0000_0000 && forall i | 0 <= i < |items| :: Fits(items[i], depth + 1)
       case Doc(fields) =>
         && |fields| < 0x1_0000_0000
         && forall k | k in fields :: UTF8(k) && |k| < 0x1_0000_0000 && Fits(fields[k], depth + 1)
  }

  // ---------------------------------------------------------------- decoding

  function TakePrefixed(b: bytes): (r: Read<bytes>)
    ensures r.Got? ==> |r.rest| + 4 <= |b|
  {
    match TakeNat(b, 4)
    case Bad => Bad
    case Got(n, rest) => Take(rest, n)
  }

  function TakeText(b: bytes, dec: bytes -> Option<text>): (r: Read<text>)
    ensures r.Got? ==> |r.rest| + 4 <= |b|
  {
    match TakePrefixed(b)
    case Bad => Bad
    case Got(raw, rest) => match dec(raw) case None => Bad case Some(t) => Got(t, rest)
  }

  /**
   * Reads one value from the front, decoding strings with `dec`. It reads at least one byte,
   * so it terminates on every input whatever lengths the input claims.
   */
  function ReadValue(b: bytes, depth: nat, dec: bytes -> Option<text>): (r: Read<Value>)
    ensures r.Got? ==> |r.rest| < |b|
    decreases |b|, 0
  {
    if depth > MAX_DOCUMENT_DEPTH || b == [] then Bad else
    var tag, rest := b[0], b[1..];
    if tag == NULL_TAG then Got(Null, rest)
    else if tag == FALSE_TAG then Got(Bool(false), rest)
    else if tag == TRUE_TAG then Got(Bool(true), rest)
    else if tag == ARRAY_TAG then
      match TakeNat(rest, 4)
      case Bad => Bad
      case Got(n, r1) =>
        (match ReadItems(r1, n, depth, dec)
         case Bad => Bad
         case Got(items, r2) => Got(Arr(items), r2))
    else if tag == DOCUMENT_TAG then
      match TakeNat(rest, 4)
      case Bad => Bad
      case Got(n, r1) =>
        (match ReadFields(r1, n, map[], depth, dec)
         case Bad => Bad
         case Got(fields, r2) => Got(Doc(fields), r2))
    else ReadScalar(tag, rest, dec)
  }

  function ReadScalar(tag: byte, b: bytes, dec: bytes -> Option<text>): (r: Read<Value>)
    ensures r.Got? ==> |r.rest| <= |b|
  {
    if tag == INT32_TAG then
      match TakeSigned(b, 4) case Bad => Bad case Got(i, rest) => Got(Int(i), rest)
    else if tag == INT64_TAG then
      match TakeSigned(b, 8)
      case Bad => Bad
      case Got(i, rest) => if -MAX_SAFE_INTEGER <= i <= MAX_SAFE_INTEGER then Got(Int(i), rest) else Bad
    else if tag == FLOAT64_TAG then
      match Take(b, 8) case Bad => Bad case Got(raw, rest) => Got(FLOAT(ReadU64(raw)), rest)
    else if tag == BIGINT64_TAG then
      match TakeSigned(b, 8) case Bad => Bad case Got(n, rest) => Got(Big(n), rest)
    else if tag == STRING_TAG then
      match TakeText(b, dec) case Bad => Bad case Got(t, rest) => Got(Str(t), rest)
    else if tag == BINARY_TAG then
      match TakePrefixed(b) case Bad => Bad case Got(data, rest) => Got(Bin(data), rest)
    else if tag == DATETIME_TAG then
      match TakeSigned(b, 8)
      case Bad => Bad
      case Got(ms, rest) => if -MAX_DATE <= ms <= MAX_DATE then Got(Date(ms), rest) else Bad
    else if tag == CUSTOMID_TAG then
      match Take(b, CUSTOM_ID_BYTE_LENGTH) case Bad => Bad case Got(id, rest) => Got(Id(id), rest)
    else Bad
  }

  function ReadItems(b: bytes, n: nat, depth: nat, dec: bytes -> Option<text>): (r: Read<seq<Value>>)
    ensures r.Got? ==> |r.rest| <= |b|
    decreases |b|, 1
  {
    if n == 0 then Got([], b) else
    match ReadValue(b, depth + 1, dec)
    case Bad => Bad
    case Got(v, r1) =>
      match ReadItems(r1, n - 1, depth, dec)
      case Bad => Bad
      case Got(vs, r2) => Got([v] + vs, r2)
  }

  function ReadFields(b: bytes, n: nat, read: Document, depth: nat, dec: bytes -> Option<text>): (r: Read<Document>)
    ensures r.Got? ==> |r.rest| <= |b|
    decreases |b|, 1
  {
    if n == 0 then Got(read, b) else
    match TakeText(b, dec)
    case Bad => Bad
    case Got(key, r1) =>
      if key in read then Bad else
      match ReadValue(r1, depth + 1, dec)
      case Bad => Bad
      case Got(v, r2) => ReadFields(r2, n - 1, read[key := v], depth, dec)
  }

  // ---------------------------------------------------------------- round trip

  /** Decoding a string either gives it back or gives a shorter one. */
  ghost predicate Shrinks(dec: bytes -> Option<text>) {
    forall s: bytes :: dec(s).Some? && dec(s).value != s ==> |dec(s).value| < |s|
  }

  /** Every string and key of `v` decodes to itself. */
  ghost predicate TextOk(v: Value, dec: bytes -> Option<text>) {
    match v
    case Str(t) => dec(t) == Some(t)
    case Arr(items) => forall i | 0 <= i < |items| :: TextOk(items[i], dec)
    case Doc(fields) => forall k | k in fields :: dec(k) == Some(k) && TextOk(fields[k], dec)
    case _ => true
  }

  lemma PrefixedRead(data: bytes, t: bytes)
    requires |data| < 0x1_0000_0000
    ensures TakePrefixed(Prefixed(data) + t) == Got(data, t)
  {
    Widths();
    TakeNatFront(|data|, 4, data + t);
    TakeFront(data, t);
    assert Prefixed(data) + t == Be(|data|, 4) + (data + t);
  }

  /** What reading back the encoding of `v` in front of `t` gives. */
  ghost predicate ReadsBack(v: Value, t: bytes, depth: nat, dec: bytes -> Option<text>) {
    var r := ReadValue(Encode(v) + t, depth, dec);
    && (TextOk(v, dec) ==> r == Got(v, t))
    && (r.Got? ==> r.rest == t)
    && (r.Got? && r.value == v ==> TextOk(v, dec))
  }

  lemma ScalarReads(v: Value, t: bytes, dec: bytes -> Option<text>)
    requires Fits(v, 0) && !v.Arr? && !v.Doc? && !v.Null? && !v.Bool?
    ensures
      var s := Encode(v);
      var r := ReadScalar(s[0], s[1..] + t, dec);
      && (TextOk(v, dec) ==> r == Got(v, t))
      && (r.Got? ==> r.rest == t)
      && (r.Got? && r.value == v ==> TextOk(v, dec))
  {
    hide TakeSigned, Twos, Be, OfBe, Pow256, TakePrefixed, Prefixed;
    Widths();
    match v
    case Int(i) => TwosRead(i, 4 * (if -0x8000_0000 <= i <= 0x7FFF_FFFF then 1 else 2), t);
    case Double(bits) =>
      TakeFront(Be(bits, 8), t);
      assert U64(bits) == Be(bits, 8) by { DoubleBits(bits); }
    case Big(n) => TwosRead(n, 8, t);
    case Str(s) => PrefixedRead(s, t);
    case Date(ms) => TwosRead(ms, 8, t);
    case Bin(data) => PrefixedRead(data, t);
    case Id(id) => TakeFront(id, t);
  }

  lemma DoubleBits(bits: u64)
    ensures U64(bits) == Be(bits, 8)
    ensures ReadU64(Be(bits, 8)) == bits
  {
    Widths();
    BeRoundTrip(bits, 8);
  }

  // One level of each recursive reader, for the proofs below.

  lemma ReadContainer(tag: byte, n: nat, body: bytes, depth: nat, dec: bytes -> Option<text>)
    requires n < 0x1_0000_0000 && depth <= MAX_DOCUMENT_DEPTH
    ensures
      var r := ReadValue([tag] + (Be(n, 4) + body), depth, dec);
      && (tag == ARRAY_TAG ==> r == match ReadItems(body, n, depth, dec) case Bad => Bad case Got(vs, t) => Got(Arr(vs), t))
      && (tag == DOCUMENT_TAG ==>
            r == match ReadFields(body, n, map[], depth, dec) case Bad => Bad case Got(m, t) => Got(Doc(m), t))
  {
    hide ReadScalar, Be, TakeNat, ReadItems, ReadFields;
    Widths();
    TakeNatFront(n, 4, body);
    assert ([tag] + (Be(n, 4) + body))[1..] == Be(n, 4) + body;
  }

  lemma ReadLeaf(b: bytes, depth: nat, dec: bytes -> Option<text>)
    requires b != [] && depth <= MAX_DOCUMENT_DEPTH && b[0] != ARRAY_TAG && b[0] != DOCUMENT_TAG
    ensures b[0] == NULL_TAG ==> ReadValue(b, depth, dec) == Got(Null, b[1..])
    ensures b[0] == FALSE_TAG ==> ReadValue(b, depth, dec) == Got(Bool(false), b[1..])
    ensures b[0] == TRUE_TAG ==> ReadValue(b, depth, dec) == Got(Bool(true), b[1..])
    ensures b[0] > TRUE_TAG ==> ReadValue(b, depth, dec) == ReadScalar(b[0], b[1..], dec)
  {
    hide ReadScalar;
  }

  lemma ReadNextItem(b: bytes, n: nat, depth: nat, dec: bytes -> Option<text>)
    requires n > 0
    ensures ReadItems(b, n, depth, dec) ==
      match ReadValue(b, depth + 1, dec)
      case Bad => Bad
      case Got(v, r1) => match ReadItems(r1, n - 1, depth, dec) case Bad => Bad case Got(vs, r2) => Got([v] + vs, r2)
  {
    hide ReadValue;
  }

  lemma ReadNextField(b: bytes, n: nat, read: Document, depth: nat, dec: bytes -> Option<text>)
    requires n > 0
    ensures ReadFields(b, n, read, depth, dec) ==
      match TakePrefixed(b)
      case Bad => Bad
      case Got(raw, r1) =>
        if dec(raw).None? || dec(raw).value in read then Bad else
        match ReadValue(r1, depth + 1, dec)
        case Bad => Bad
        case Got(v, r2) => ReadFields(r2, n - 1, read[dec(raw).value := v], depth, dec)
  {
    hide ReadValue, TakePrefixed;
  }

  lemma LeafReads(v: Value, t: bytes, depth: nat, dec: bytes -> Option<text>)
    requires Fits(v, depth) && !v.Arr? && !v.Doc?
    ensures ReadsBack(v, t, depth, dec)
  {
    hide ReadScalar, ReadValue, Twos, Be, Prefixed;
    var b := Encode(v) + t;
    assert b[0] == Encode(v)[0] && b[1..] == Encode(v)[1..] + t;
    ReadLeaf(b, depth, dec);
    if v.Null? || v.Bool? {
      assert b[1..] == t;
    } else {
      ScalarReads(v, t, dec);
    }
  }

  /**
   * Reading back the encoding of a value that the encoder accepts, in front of anything:
   * exactly that value if every string and key in it decodes to itself, and never that value
   * otherwise; what follows is left over either way.
   */
  lemma {:induction false} ValueReads(v: Value, t: bytes, depth: nat, dec: bytes -> Option<text>)
    requires Fits(v, depth) && Shrinks(dec)
    ensures ReadsBack(v, t, depth, dec)
    decreases v, 1, 0
  {
    hide Shrinks, ReadsBack;
    if v.Arr? {
      ItemsRead(v, 0, t, depth, dec);
      ArrayReads(v, t, depth, dec);
    } else if v.Doc? {
      FieldsRead(v, Sorted(v.fields.Keys), map[], t, depth, dec);
      DocumentReads(v, t, depth, dec);
    } else {
      LeafReads(v, t, depth, dec);
    }
  }

  ghost predicate ItemsBack(v: Value, i: nat, t: bytes, depth: nat, dec: bytes -> Option<text>)
    requires v.Arr? && i <= |v.items|
  {
    var r := ReadItems(EncodeItems(v, i) + t, |v.items| - i, depth, dec);
    && ((forall j | i <= j < |v.items| :: TextOk(v.items[j], dec)) ==> r == Got(v.items[i..], t))
    && (r.Got? ==> r.rest == t)
    && (r.Got? && r.value == v.items[i..] ==> forall j | i <= j < |v.items| :: TextOk(v.items[j], dec))
  }

  lemma ArrayReads(v: Value, t: bytes, depth: nat, dec: bytes -> Option<text>)
    requires v.Arr? && Fits(v, depth) && ItemsBack(v, 0, t, depth, dec)
    ensures ReadsBack(v, t, depth, dec)
  {
    hide ReadValue, ReadItems, EncodeItems, Be;
    var body := EncodeItems(v, 0) + t;
    ReadContainer(ARRAY_TAG, |v.items|, body, depth, dec);
    assert Encode(v) + t == [ARRAY_TAG] + (Be(|v.items|, 4) + body);
    assert v.items[0..] == v.items;
  }

  lemma {:induction false} ItemsRead(v: Value, i: nat, t: bytes, depth: nat, dec: bytes -> Option<text>)
    requires v.Arr? && i <= |v.items| && Shrinks(dec) && Fits(v, depth)
    ensures ItemsBack(v, i, t, depth, dec)
    decreases v, 0, |v.items| - i
  {
    hide Shrinks, ReadsBack, ItemsBack;
    if i == |v.items| {
      NoItems(v, t, depth, dec);
    } else {
      ValueReads(v.items[i], EncodeItems(v, i + 1) + t, depth + 1, dec);
      ItemsRead(v, i + 1, t, depth, dec);
      ItemStep(v, i, t, depth, dec);
    }
  }

  lemma NoItems(v: Value, t: bytes, depth: nat, dec: bytes -> Option<text>)
    requires v.Arr?
    ensures ItemsBack(v, |v.items|, t, depth, dec)
  {
    assert EncodeItems(v, |v.items|) + t == t;
    assert v.items[|v.items|..] == [];
  }

  lemma ItemStep(v: Value, i: nat, t: bytes, depth: nat, dec: bytes -> Option<text>)
    requires v.Arr? && i < |v.items|
    requires ReadsBack(v.items[i], EncodeItems(v, i + 1) + t, depth + 1, dec) && ItemsBack(v, i + 1, t, depth, dec)
    ensures ItemsBack(v, i, t, depth, dec)
  {
    hide ReadValue, ReadItems, Encode, TextOk;
    var rest := EncodeItems(v, i + 1) + t;
    var b := EncodeItems(v, i) + t;
    assert b == Encode(v.items[i]) + rest;
    assert v.items[i..] == [v.items[i]] + v.items[i + 1..];
    ReadNextItem(b, |v.items| - i, depth, dec);
  }

  /** Some key decodes to `j`. */
  ghost predicate Reached(keys: seq<text>, dec: bytes -> Option<text>, j: text) {
    exists k | k in keys :: dec(k) == Some(j)
  }

  /** How the document read relates to the keys still to read when it started. */
  ghost predicate FieldsRelate(v: Value, keys: seq<text>, read: Document, result: Document, dec: bytes -> Option<text>)
    requires v.Doc? && forall k | k in keys :: k in v.fields
  {
    && (forall k | k in read :: k in result && result[k] == read[k])
    && (forall k | k in keys :: dec(k).Some? && dec(k).value in result)
    && (forall j | j in result :: j in read || Reached(keys, dec, j))
    && (forall k | k in keys :: dec(k).value !in read)
    && (forall j, k | j in keys && k in keys && j != k :: dec(j) != dec(k))
    && (forall k | k in keys :: result[dec(k).value] == v.fields[k] <==> TextOk(v.fields[k], dec))
  }

  ghost function Picked(v: Value, keys: seq<text>): Document
    requires v.Doc? && forall k | k in keys :: k in v.fields
  {
    map k | k in keys :: v.fields[k]
  }

  ghost predicate FieldsOutcome(v: Value, keys: seq<text>, read: Document, t: bytes, dec: bytes -> Option<text>, r: Read<Document>)
    requires v.Doc? && forall k | k in keys :: k in v.fields
  {
    && ((forall k | k in keys :: k !in read && dec(k) == Some(k) && TextOk(v.fields[k], dec)) ==>
          r == Got(read + Picked(v, keys), t))
    && (r.Got? ==> r.rest == t && FieldsRelate(v, keys, read, r.value, dec))
  }

  ghost predicate FieldsBack(v: Value, keys: seq<text>, read: Document, t: bytes, depth: nat, dec: bytes -> Option<text>)
    requires v.Doc? && forall k | k in keys :: k in v.fields
  {
    FieldsOutcome(v, keys, read, t, dec, ReadFields(EncodeFields(v, keys) + t, |keys|, read, depth, dec))
  }

  lemma {:induction false} FieldsRead(v: Value, keys: seq<text>, read: Document, t: bytes, depth: nat, dec: bytes -> Option<text>)
    requires v.Doc? && (forall k | k in keys :: k in v.fields) && Shrinks(dec) && Fits(v, depth)
    requires forall i, j | 0 <= i < j < |keys| :: keys[i] != keys[j]
    ensures FieldsBack(v, keys, read, t, depth, dec)
    decreases v, 0, |keys|
  {
    hide Shrinks, ReadsBack, FieldsBack, ReadValue, Encode, TextOk;
    if keys == [] {
      NoFields(v, read, t, depth, dec);
    } else {
      var key, more := keys[0], keys[1..];
      assert key in keys && forall k | k in more :: k in keys;
      var rest := EncodeFields(v, more) + t;
      var r := ReadValue(Encode(v.fields[key]) + rest, depth + 1, dec);
      ValueReads(v.fields[key], rest, depth + 1, dec);
      if dec(key).Some? && r.Got? {
        FieldsRead(v, more, read[dec(key).value := r.value], t, depth, dec);
      }
      FieldStep(v, keys, read, t, depth, dec);
    }
  }

  lemma NoFields(v: Value, read: Document, t: bytes, depth: nat, dec: bytes -> Option<text>)
    requires v.Doc?
    ensures FieldsBack(v, [], read, t, depth, dec)
  {
    var none: seq<text> := [];
    assert EncodeFields(v, none) + t == t;
    assert Picked(v, none) == map[];
    assert read + map[] == read;
  }

  lemma FieldStep(v: Value, keys: seq<text>, read: Document, t: bytes, depth: nat, dec: bytes -> Option<text>)
    requires v.Doc? && keys != [] && (forall k | k in keys :: k in v.fields) && |keys[0]| < 0x1_0000_0000
    requires forall i, j | 0 <= i < j < |keys| :: keys[i] != keys[j]
    requires ReadsBack(v.fields[keys[0]], EncodeFields(v, keys[1..]) + t, depth + 1, dec)
    requires
      var r := ReadValue(Encode(v.fields[keys[0]]) + (EncodeFields(v, keys[1..]) + t), depth + 1, dec);
      dec(keys[0]).Some? && r.Got? ==> FieldsBack(v, keys[1..], read[dec(keys[0]).value := r.value], t, depth, dec)
    ensures FieldsBack(v, keys, read, t, depth, dec)
  {
    hide ReadValue, ReadFields, Encode, TextOk, Prefixed, TakePrefixed, FieldsOutcome;
    var key := keys[0];
    var rest := EncodeFields(v, keys[1..]) + t;
    var b := EncodeFields(v, keys) + t;
    assert key in keys;
    assert b == Prefixed(key) + (Encode(v.fields[key]) + rest);
    PrefixedRead(key, Encode(v.fields[key]) + rest);
    ReadNextField(b, |keys|, read, depth, dec);
    var r := ReadValue(Encode(v.fields[key]) + rest, depth + 1, dec);
    assert forall k | k in keys[1..] :: k in keys;
    if dec(key).Some? && dec(key).value !in read && r.Got? {
      OutcomePrepend(v, keys, read, t, dec, r.value, ReadFields(rest, |keys| - 1, read[dec(key).value := r.value], depth, dec));
    } else {
      OutcomeBad(v, keys, read, t, dec);
    }
  }

  lemma OutcomeBad(v: Value, keys: seq<text>, read: Document, t: bytes, dec: bytes -> Option<text>)
    requires v.Doc? && keys != [] && forall k | k in keys :: k in v.fields
    requires !(keys[0] !in read && dec(keys[0]) == Some(keys[0]) && TextOk(v.fields[keys[0]], dec))
    ensures FieldsOutcome(v, keys, read, t, dec, Bad)
  {
    hide TextOk, FieldsRelate, Picked;
    assert keys[0] in keys;
  }

  lemma OutcomePrepend(v: Value, keys: seq<text>, read: Document, t: bytes, dec: bytes -> Option<text>, w: Value, r: Read<Document>)
    requires v.Doc? && keys != [] && (forall k | k in keys :: k in v.fields) && (forall k | k in keys[1..] :: k in v.fields)
    requires forall i, j | 0 <= i < j < |keys| :: keys[i] != keys[j]
    requires dec(keys[0]).Some? && dec(keys[0]).value !in read
    requires w == v.fields[keys[0]] <==> TextOk(v.fields[keys[0]], dec)
    requires FieldsOutcome(v, keys[1..], read[dec(keys[0]).value := w], t, dec, r)
    ensures FieldsOutcome(v, keys, read, t, dec, r)
  {
    hide TextOk, FieldsRelate, Picked;
    PickedPrepend(v, keys, read);
    if r.Got? {
      RelatePrepend(v, keys, read, w, dec, r.value);
    }
    assert keys[0] in keys && forall k | k in keys[1..] :: k in keys;
  }

  lemma PickedPrepend(v: Value, keys: seq<text>, read: Document)
    requires v.Doc? && keys != [] && forall k | k in keys :: k in v.fields
    requires forall i, j | 0 <= i < j < |keys| :: keys[i] != keys[j]
    ensures (forall k | k in keys[1..] :: k in v.fields && k != keys[0])
    ensures read[keys[0] := v.fields[keys[0]]] + Picked(v, keys[1..]) == read + Picked(v, keys)
  {
    FirstApart(keys);
    var a, b := read[keys[0] := v.fields[keys[0]]] + Picked(v, keys[1..]), read + Picked(v, keys);
    forall k: text
      ensures k in a <==> k in b
      ensures k in a && k in b ==> a[k] == b[k]
    {
      assert k in keys <==> k == keys[0] || k in keys[1..];
    }
  }

  lemma FirstApart(keys: seq<text>)
    requires keys != [] && forall i, j | 0 <= i < j < |keys| :: keys[i] != keys[j]
    ensures forall k | k in keys[1..] :: k in keys && k != keys[0]
    ensures forall k | k in keys && k != keys[0] :: k in keys[1..]
    ensures keys[0] in keys
  {}

  lemma ReachedMore(keys: seq<text>, dec: bytes -> Option<text>, j: text)
    requires keys != [] && Reached(keys[1..], dec, j)
    ensures Reached(keys, dec, j)
  {
    var k :| k in keys[1..] && dec(k) == Some(j);
    assert k in keys;
  }

  lemma RelatePrepend(v: Value, keys: seq<text>, read: Document, w: Value, dec: bytes -> Option<text>, result: Document)
    requires v.Doc? && keys != [] && forall k | k in keys :: k in v.fields
    requires dec(keys[0]).Some? && dec(keys[0]).value !in read
    requires w == v.fields[keys[0]] <==> TextOk(v.fields[keys[0]], dec)
    requires (forall k | k in keys[1..] :: k in v.fields)
    requires FieldsRelate(v, keys[1..], read[dec(keys[0]).value := w], result, dec)
    ensures FieldsRelate(v, keys, read, result, dec)
  {
    hide TextOk;
    var key := dec(keys[0]).value;
    assert keys[0] in keys;
    assert keys == [keys[0]] + keys[1..];
    assert result[key] == w by { assert key in read[key := w]; }
    forall j | j in result && j !in read ensures Reached(keys, dec, j) {
      if j == key {
        assert keys[0] in keys;
      } else {
        ReachedMore(keys, dec, j);
      }
    }
    assert forall k | k in read :: k in read[key := w];
  }

  /** If decoding some keys permutes them, it leaves each as it was. */
  lemma {:induction false} KeysUnchanged(keys: seq<text>, dec: bytes -> Option<text>, k: text)
    requires Shrinks(dec) && k in keys
    requires forall j | j in keys :: Reached(keys, dec, j)
    ensures dec(k) == Some(k)
    decreases MaxLength(keys) - |k|
  {
    hide Reached;
    var i := Source(keys, dec, k);
    LengthBound(keys, k);
    LengthBound(keys, i);
    if i != k {
      KeysUnchanged(keys, dec, i);
    }
  }

  ghost function Source(keys: seq<text>, dec: bytes -> Option<text>, j: text): (k: text)
    requires Reached(keys, dec, j)
    ensures k in keys && dec(k) == Some(j)
  {
    var k :| k in keys && dec(k) == Some(j);
    k
  }

  ghost function MaxLength(keys: seq<text>): nat {
    if keys == [] then 0 else
    var m := MaxLength(keys[1..]);
    if |keys[0]| > m then |keys[0]| else m
  }

  lemma {:induction false} LengthBound(keys: seq<text>, k: text)
    requires k in keys
    ensures |k| <= MaxLength(keys)
  {
    if k != keys[0] {
      LengthBound(keys[1..], k);
    }
  }

  lemma DocumentReads(v: Value, t: bytes, depth: nat, dec: bytes -> Option<text>)
    requires v.Doc? && Fits(v, depth) && Shrinks(dec)
    requires FieldsBack(v, Sorted(v.fields.Keys), map[], t, depth, dec)
    ensures ReadsBack(v, t, depth, dec)
  {
    hide ReadValue, ReadFields, EncodeFields, Be, Shrinks, Fits, FieldsOutcome, TextOk, Sorted;
    var keys := Sorted(v.fields.Keys);
    var body := EncodeFields(v, keys) + t;
    FitsDocument(v, depth);
    ReadContainer(DOCUMENT_TAG, |v.fields|, body, depth, dec);
    assert Encode(v) + t == [DOCUMENT_TAG] + (Be(|v.fields|, 4) + body);
    WholeOutcome(v, t, dec, ReadFields(body, |keys|, map[], depth, dec));
  }

  lemma WholeOutcome(v: Value, t: bytes, dec: bytes -> Option<text>, r: Read<Document>)
    requires v.Doc? && Shrinks(dec) && FieldsOutcome(v, Sorted(v.fields.Keys), map[], t, dec, r)
    ensures TextOk(v, dec) ==> r == Got(v.fields, t)
    ensures r.Got? ==> r.rest == t
    ensures r.Got? && r.value == v.fields ==> TextOk(v, dec)
  {
    hide FieldsRelate, TextOk, Sorted, Picked, Shrinks;
    PickedAll(v);
    if TextOk(v, dec) {
      PlainKeys(v, dec);
    }
    if r.Got? && r.value == v.fields {
      SameKeysRead(v, dec);
    }
  }

  lemma PickedAll(v: Value)
    requires v.Doc?
    ensures map[] + Picked(v, Sorted(v.fields.Keys)) == v.fields
  {
    hide Sorted;
    var picked := Picked(v, Sorted(v.fields.Keys));
    assert picked.Keys == v.fields.Keys;
    assert picked == v.fields;
  }

  lemma PlainKeys(v: Value, dec: bytes -> Option<text>)
    requires v.Doc? && TextOk(v, dec)
    ensures forall k | k in Sorted(v.fields.Keys) :: dec(k) == Some(k) && TextOk(v.fields[k], dec)
  {
    hide Sorted;
  }

  lemma SameKeysRead(v: Value, dec: bytes -> Option<text>)
    requires v.Doc? && Shrinks(dec)
    requires FieldsRelate(v, Sorted(v.fields.Keys), map[], v.fields, dec)
    ensures TextOk(v, dec)
  {
    hide Shrinks, Reached, Sorted, FieldsRelate;
    var keys := Sorted(v.fields.Keys);
    forall j | j in keys ensures Reached(keys, dec, j) {
      RelatedKey(v, keys, dec, j);
    }
    forall k | k in v.fields ensures dec(k) == Some(k) && TextOk(v.fields[k], dec) {
      assert k in keys;
      KeysUnchanged(keys, dec, k);
      RelatedKey(v, keys, dec, k);
    }
  }

  lemma RelatedKey(v: Value, keys: seq<text>, dec: bytes -> Option<text>, k: text)
    requires v.Doc? && (forall j | j in keys :: j in v.fields) && k in keys
    requires FieldsRelate(v, keys, map[], v.fields, dec)
    ensures Reached(keys, dec, k)
    ensures dec(k) == Some(k) ==> TextOk(v.fields[k], dec)
  {
    hide Reached, TextOk;
  }

  lemma FitsDocument(v: Value, depth: nat)
    requires v.Doc? && Fits(v, depth)
    ensures |v.fields| < 0x1_0000_0000 && depth <= MAX_DOCUMENT_DEPTH
  {}

  // ---------------------------------------------------------------- the codec's laws

  /** No string and no key starts with U+FEFF. */
  ghost predicate Unmarked(v: Value) {
    match v
    case Str(t) => !StartsWithBom(t)
    case Arr(items) => forall i | 0 <= i < |items| :: Unmarked(items[i])
    case Doc(fields) => forall k | k in fields :: !StartsWithBom(k) && Unmarked(fields[k])
    case _ => true
  }

  lemma {:induction false} UnmarkedIsTextOk(v: Value, depth: nat)
    requires Fits(v, depth)
    ensures TextOk(v, DecodeText) <==> Unmarked(v)
  {
    hide DecodeText;
    var dec: bytes -> Option<text> := DecodeText;
    match v
    case Str(t) => PlainExact(t);
    case Arr(items) =>
      forall i | 0 <= i < |items| ensures TextOk(items[i], dec) <==> Unmarked(items[i]) {
        UnmarkedIsTextOk(items[i], depth + 1);
      }
    case Doc(fields) =>
      forall k | k in fields
        ensures dec(k) == Some(k) && TextOk(fields[k], dec) <==> !StartsWithBom(k) && Unmarked(fields[k])
      {
        PlainExact(k);
        UnmarkedIsTextOk(fields[k], depth + 1);
      }
    case _ =>
  }

  lemma DecodeTextShrinks()
    ensures Shrinks(DecodeText)
  {}

  /** `decodeDocumentValue`: None where it throws. */
  function Decode(payload: bytes): Option<Value> {
    if |payload| > MAX_PAYLOAD_SIZE then None else
    match ReadValue(payload, 0, DecodeText)
    case Bad => None
    case Got(v, rest) => if rest == [] then Some(v) else None
  }

  /** `encodeDocumentValue` accepts exactly these. */
  ghost predicate Encodable(v: Value) {
    Fits(v, 0) && |Encode(v)| <= MAX_PAYLOAD_SIZE
  }

  /** Decoding inverts encoding if and only if no string or key starts with U+FEFF. */
  lemma DocumentRoundTrip(v: Value)
    requires Encodable(v)
    ensures Decode(Encode(v)) == Some(v) <==> Unmarked(v)
  {
    hide Encode, ReadValue, Shrinks, TextOk, Unmarked, Fits;
    DecodeTextShrinks();
    UnmarkedIsTextOk(v, 0);
    ValueReads(v, [], 0, DecodeText);
    assert Encode(v) + [] == Encode(v);
  }

  function AsIs(raw: bytes): Option<text> {
    Some(raw)
  }

  lemma {:induction false} AnyTextAsIs(v: Value)
    ensures TextOk(v, AsIs)
  {
    match v
    case Arr(items) => forall i | 0 <= i < |items| ensures TextOk(items[i], AsIs) { AnyTextAsIs(items[i]); }
    case Doc(fields) => forall k | k in fields ensures TextOk(fields[k], AsIs) { AnyTextAsIs(fields[k]); }
    case _ =>
  }

  /**
   * Equal bytes mean equal values, whatever the order in which keys were inserted, and no
   * encoding is a prefix of another.
   */
  lemma EncodingIsInjective(v: Value, w: Value, s: bytes, t: bytes)
    requires Fits(v, 0) && Fits(w, 0)
    ensures Encode(v) + s == Encode(w) + t <==> v == w && s == t
  {
    hide Encode, ReadValue, TextOk, Fits;
    AnyTextAsIs(v);
    AnyTextAsIs(w);
    ValueReads(v, s, 0, AsIs);
    ValueReads(w, t, 0, AsIs);
  }

  /** A value that fits at some depth fits at any smaller one. */
  lemma {:induction false} FitsShallower(v: Value, depth: nat, shallower: nat)
    requires Fits(v, depth) && shallower <= depth
    ensures Fits(v, shallower)
  {
    match v
    case Arr(items) =>
      forall i | 0 <= i < |items| ensures Fits(items[i], shallower + 1) {
        FitsShallower(items[i], depth + 1, shallower + 1);
      }
    case Doc(fields) =>
      forall k | k in fields ensures Fits(fields[k], shallower + 1) {
        FitsShallower(fields[k], depth + 1, shallower + 1);
      }
    case _ =>
  }

  /** Two values anywhere in encodable documents have the same canonical key exactly when they are equal. */
  lemma CanonicalKeyExact(v: Value, w: Value, d: nat, e: nat)
    requires Fits(v, d) && Fits(w, e)
    ensures Encode(v) == Encode(w) <==> v == w
  {
    hide Encode, Fits;
    FitsShallower(v, d, 0);
    FitsShallower(w, e, 0);
    EncodingIsInjective(v, w, [], []);
    assert Encode(v) + [] == Encode(v) && Encode(w) + [] == Encode(w);
  }
}
