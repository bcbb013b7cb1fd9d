/**
 * Which encoded documents the decoder can read at all. The encoder accepts every document, but
 * dropping a leading U+FEFF can make two keys of one document equal, and a duplicate key is
 * refused (packages/protocol/src/document-decoder.ts, `readDocument`).
 */
module Legibility {
  import opened Bytes
  import opened Text
  import opened Values
  import opened DocumentCodec

  /** Every string decodes, and in no document do two keys decode alike. */
  ghost predicate Legible(v: Value, dec: bytes -> Option<text>) {
    match v
    case Str(t) => dec(t).Some?
    case Arr(items) => forall i | 0 <= i < |items| :: Legible(items[i], dec)
    case Doc(fields) =>
      && (forall k | k in fields :: dec(k).Some? && Legible(fields[k], dec))
      && (forall j, k | j in fields && k in fields && j != k :: dec(j) != dec(k))
    case _ => true
  }

  lemma LeafLegible(v: Value, t: bytes, depth: nat, dec: bytes -> Option<text>)
    requires Fits(v, depth) && !v.Arr? && !v.Doc?
    ensures ReadValue(Encode(v) + t, depth, dec).Got? <==> Legible(v, dec)
  {
    hide ReadValue, Be, TakeNat;
    if v.Str? {
      var b := Encode(v) + t;
      assert b[0] == STRING_TAG && b[1..] == Prefixed(v.t) + t;
      ReadLeaf(b, depth, dec);
      PrefixedRead(v.t, t);
    } else {
      LeafReads(v, t, depth, dec);
    }
  }

  /** The decoder reads the encoding of a value exactly when the value is legible. */
  lemma {:induction false} LegibleExactly(v: Value, t: bytes, depth: nat, dec: bytes -> Option<text>)
    requires Fits(v, depth) && Shrinks(dec)
    ensures ReadValue(Encode(v) + t, depth, dec).Got? <==> Legible(v, dec)
    decreases v, 1, 0
  {
    hide Shrinks, ReadValue, Encode, ReadItems, ReadFields, EncodeItems, EncodeFields, Sorted;
    if v.Arr? {
      ItemsLegible(v, 0, t, depth, dec);
      ArrayShape(v, t, depth, dec);
    } else if v.Doc? {
      FieldsLegible(v, Sorted(v.fields.Keys), map[], t, depth, dec);
      DocumentShape(v, t, depth, dec);
      LegibleWhole(v, dec);
    } else {
      LeafLegible(v, t, depth, dec);
    }
  }

  lemma ArrayShape(v: Value, t: bytes, depth: nat, dec: bytes -> Option<text>)
    requires v.Arr? && Fits(v, depth)
    ensures ReadValue(Encode(v) + t, depth, dec).Got? <==> ReadItems(EncodeItems(v, 0) + t, |v.items|, depth, dec).Got?
  {
    hide ReadValue, ReadItems, EncodeItems, Be;
    var body := EncodeItems(v, 0) + t;
    ReadContainer(ARRAY_TAG, |v.items|, body, depth, dec);
    assert Encode(v) + t == [ARRAY_TAG] + (Be(|v.items|, 4) + body);
  }

  /** A document is read field by field. */
  lemma DocumentShape(v: Value, t: bytes, depth: nat, dec: bytes -> Option<text>)
    requires v.Doc? && Fits(v, depth)
    ensures
      var keys := Sorted(v.fields.Keys);
      ReadValue(Encode(v) + t, depth, dec) ==
        match ReadFields(EncodeFields(v, keys) + t, |keys|, map[], depth, dec) case Bad => Bad case Got(m, rest) => Got(Doc(m), rest)
  {
    hide ReadValue, ReadFields, EncodeFields, Be, Sorted, Fits;
    var body := EncodeFields(v, Sorted(v.fields.Keys)) + t;
    FitsDocument(v, depth);
    ReadContainer(DOCUMENT_TAG, |v.fields|, body, depth, dec);
    assert Encode(v) + t == [DOCUMENT_TAG] + (Be(|v.fields|, 4) + body);
  }

  lemma {:induction false} ItemsLegible(v: Value, i: nat, t: bytes, depth: nat, dec: bytes -> Option<text>)
    requires v.Arr? && i <= |v.items| && Shrinks(dec) && Fits(v, depth)
    ensures ReadItems(EncodeItems(v, i) + t, |v.items| - i, depth, dec).Got? <==> forall j | i <= j < |v.items| :: Legible(v.items[j], dec)
    decreases v, 0, |v.items| - i
  {
    hide Shrinks, ReadValue, Encode, ReadsBack, Legible;
    if i < |v.items| {
      var rest, b := EncodeItems(v, i + 1) + t, EncodeItems(v, i) + t;
      assert b == Encode(v.items[i]) + rest;
      LegibleExactly(v.items[i], rest, depth + 1, dec);
      ItemsLegible(v, i + 1, t, depth, dec);
      ReadNextItem(b, |v.items| - i, depth, dec);
      Synchronous(v.items[i], rest, depth + 1, dec);
    }
  }

  /** Reading stops exactly where the encoding does. */
  lemma Synchronous(v: Value, t: bytes, depth: nat, dec: bytes -> Option<text>)
    requires Fits(v, depth) && Shrinks(dec)
    ensures var r := ReadValue(Encode(v) + t, depth, dec); r.Got? ==> r.rest == t
  {
    hide ReadValue, Encode, Shrinks;
    ValueReads(v, t, depth, dec);
  }

  /** The fields still to read are legible and new. */
  ghost predicate LegibleFrom(v: Value, keys: seq<text>, read: set<text>, dec: bytes -> Option<text>)
    requires v.Doc? && forall k | k in keys :: k in v.fields
  {
    && (forall k | k in keys :: dec(k).Some? && dec(k).value !in read && Legible(v.fields[k], dec))
    && (forall i, j | 0 <= i < j < |keys| :: dec(keys[i]) != dec(keys[j]))
  }

  lemma LegibleFromCons(v: Value, keys: seq<text>, read: set<text>, dec: bytes -> Option<text>)
    requires v.Doc? && keys != [] && (forall k | k in keys :: k in v.fields) && (forall k | k in keys[1..] :: k in v.fields)
    ensures LegibleFrom(v, keys, read, dec) <==>
      && dec(keys[0]).Some? && dec(keys[0]).value !in read && Legible(v.fields[keys[0]], dec)
      && LegibleFrom(v, keys[1..], read + {dec(keys[0]).value}, dec)
  {
    hide Legible;
    var key, more := keys[0], keys[1..];
    assert key in keys && forall k | k in more :: k in keys;
    if LegibleFrom(v, keys, read, dec) {
      forall k | k in more ensures dec(k).value != dec(key).value {
        var i :| 0 <= i < |more| && more[i] == k;
        assert keys[i + 1] == k;
      }
      assert forall i | 0 <= i < |more| :: more[i] == keys[i + 1];
    }
    if dec(key).Some? && LegibleFrom(v, more, read + {dec(key).value}, dec) {
      forall i, j | 0 <= i < j < |keys| ensures dec(keys[i]) != dec(keys[j]) {
        assert keys[j] == more[j - 1] && keys[j] in more;
        if i > 0 {
          assert keys[i] == more[i - 1];
        }
      }
      forall k | k in keys && k != key ensures k in more {
        var i :| 0 <= i < |keys| && keys[i] == k;
        assert more[i - 1] == k;
      }
    }
  }

  lemma {:induction false} FieldsLegible(v: Value, keys: seq<text>, read: Document, t: bytes, depth: nat, dec: bytes -> Option<text>)
    requires v.Doc? && (forall k | k in keys :: k in v.fields) && Shrinks(dec) && Fits(v, depth)
    ensures ReadFields(EncodeFields(v, keys) + t, |keys|, read, depth, dec).Got? <==> LegibleFrom(v, keys, read.Keys, dec)
    decreases v, 0, |keys|
  {
    hide Shrinks, ReadValue, Encode, Legible, EncodeFields, ReadFields, LegibleFrom, Fits;
    if keys == [] {
      NoFieldsLegible(v, read, t, depth, dec);
    } else {
      var key, more := keys[0], keys[1..];
      assert key in keys && forall k | k in more :: k in keys;
      var rest := EncodeFields(v, more) + t;
      FitsField(v, depth, key);
      LegibleExactly(v.fields[key], rest, depth + 1, dec);
      Synchronous(v.fields[key], rest, depth + 1, dec);
      LegibleFromCons(v, keys, read.Keys, dec);
      FieldShape(v, keys, read, t, depth, dec);
      var r := ReadValue(Encode(v.fields[key]) + rest, depth + 1, dec);
      if dec(key).Some? && r.Got? {
        var read' := read[dec(key).value := r.value];
        assert read'.Keys == read.Keys + {dec(key).value};
        FieldsLegible(v, more, read', t, depth, dec);
      }
    }
  }

  lemma NoFieldsLegible(v: Value, read: Document, t: bytes, depth: nat, dec: bytes -> Option<text>)
    requires v.Doc?
    ensures ReadFields(EncodeFields(v, []) + t, 0, read, depth, dec).Got? && LegibleFrom(v, [], read.Keys, dec)
  {}

  lemma FieldShape(v: Value, keys: seq<text>, read: Document, t: bytes, depth: nat, dec: bytes -> Option<text>)
    requires v.Doc? && keys != [] && (forall k | k in keys :: k in v.fields) && (forall k | k in keys[1..] :: k in v.fields)
    requires |keys[0]| < 0x1_0000_0000
    requires
      var r := ReadValue(Encode(v.fields[keys[0]]) + (EncodeFields(v, keys[1..]) + t), depth + 1, dec);
      r.Got? ==> r.rest == EncodeFields(v, keys[1..]) + t
    ensures
      var rest := EncodeFields(v, keys[1..]) + t;
      var r := ReadValue(Encode(v.fields[keys[0]]) + rest, depth + 1, dec);
      ReadFields(EncodeFields(v, keys) + t, |keys|, read, depth, dec) ==
        if dec(keys[0]).None? || dec(keys[0]).value in read || r.Bad? then Bad
        else ReadFields(rest, |keys| - 1, read[dec(keys[0]).value := r.value], depth, dec)
  {
    hide ReadValue, ReadFields, Encode, Prefixed, TakePrefixed;
    var rest, b := EncodeFields(v, keys[1..]) + t, EncodeFields(v, keys) + t;
    var body := Encode(v.fields[keys[0]]) + rest;
    assert b == Prefixed(keys[0]) + body;
    PrefixedRead(keys[0], body);
    ReadNextField(b, |keys|, read, depth, dec);
  }

  lemma LegibleWhole(v: Value, dec: bytes -> Option<text>)
    requires v.Doc?
    ensures Legible(v, dec) <==> LegibleFrom(v, Sorted(v.fields.Keys), {}, dec)
  {
    hide Sorted;
    var keys := Sorted(v.fields.Keys);
    if LegibleFrom(v, keys, {}, dec) {
      LegibleAll(v, keys, dec);
    }
    if Legible(v, dec) {
      AllLegible(v, keys, dec);
    }
  }

  lemma LegibleAll(v: Value, keys: seq<text>, dec: bytes -> Option<text>)
    requires v.Doc? && (forall k | k in keys :: k in v.fields) && (forall k | k in v.fields :: k in keys)
    requires LegibleFrom(v, keys, {}, dec)
    ensures Legible(v, dec)
  {
    forall j, k | j in v.fields && k in v.fields && j != k ensures dec(j) != dec(k) {
      PairApart(keys, dec, j, k);
    }
    forall k | k in v.fields ensures dec(k).Some? && Legible(v.fields[k], dec) {
      assert k in keys;
    }
  }

  lemma PairApart(keys: seq<text>, dec: bytes -> Option<text>, j: text, k: text)
    requires (forall a, b | 0 <= a < b < |keys| :: dec(keys[a]) != dec(keys[b])) && j in keys && k in keys && j != k
    ensures dec(j) != dec(k)
  {
    var a :| 0 <= a < |keys| && keys[a] == j;
    var b :| 0 <= b < |keys| && keys[b] == k;
    assert a < b || b < a;
  }

  lemma AllLegible(v: Value, keys: seq<text>, dec: bytes -> Option<text>)
    requires v.Doc? && (forall k | k in keys :: k in v.fields) && (forall i, j | 0 <= i < j < |keys| :: keys[i] != keys[j])
    requires Legible(v, dec)
    ensures LegibleFrom(v, keys, {}, dec)
  {
    forall i, j | 0 <= i < j < |keys| ensures dec(keys[i]) != dec(keys[j]) {
      assert keys[i] in keys && keys[j] in keys;
    }
  }

  lemma FitsField(v: Value, depth: nat, k: text)
    requires v.Doc? && Fits(v, depth) && k in v.fields
    ensures |k| < 0x1_0000_0000 && UTF8(k) && Fits(v.fields[k], depth + 1)
  {}

  // ---------------------------------------------------------------- stored documents

  /** In no document, at any depth, do two keys differ only in a leading U+FEFF. */
  ghost predicate KeysStayDistinct(v: Value) {
    match v
    case Arr(items) => forall i | 0 <= i < |items| :: KeysStayDistinct(items[i])
    case Doc(fields) =>
      && (forall k | k in fields :: KeysStayDistinct(fields[k]))
      && (forall j, k | j in fields && k in fields && j != k :: DecodeText(j) != DecodeText(k))
    case _ => true
  }

  lemma {:induction false} LegibleIsDistinct(v: Value, depth: nat)
    requires Fits(v, depth)
    ensures Legible(v, DecodeText) <==> KeysStayDistinct(v)
  {
    var dec: bytes -> Option<text> := DecodeText;
    match v
    case Arr(items) =>
      forall i | 0 <= i < |items| ensures Legible(items[i], dec) <==> KeysStayDistinct(items[i]) {
        LegibleIsDistinct(items[i], depth + 1);
      }
    case Doc(fields) =>
      forall k | k in fields ensures dec(k).Some? && (Legible(fields[k], dec) <==> KeysStayDistinct(fields[k])) {
        LegibleIsDistinct(fields[k], depth + 1);
      }
    case _ =>
  }

  /** What the encoder writes can be read back, as something, exactly when no two keys collide. */
  lemma ReadableExactly(v: Value)
    requires Encodable(v)
    ensures Decode(Encode(v)).Some? <==> KeysStayDistinct(v)
  {
    hide Encode, ReadValue, Shrinks, Legible, KeysStayDistinct, Fits;
    DecodeTextShrinks();
    LegibleIsDistinct(v, 0);
    LegibleExactly(v, [], 0, DecodeText);
    Synchronous(v, [], 0, DecodeText);
    assert Encode(v) + [] == Encode(v);
  }

  /** Such a document, "a" and U+FEFF "a", is accepted by the encoder but can never be read again. */
  lemma CollidingKeysUnreadable(v: Value, j: text, k: text)
    requires Encodable(v) && v.Doc? && j in v.fields && k in v.fields && j != k && DecodeText(j) == DecodeText(k)
    ensures Decode(Encode(v)) == None
  {
    hide Encode, Decode, DecodeText;
    ReadableExactly(v);
  }

  /** What is read back has exactly the decoded keys, and under each its value if that has no marks. */
  ghost predicate ReadsAs(d: Document, w: Document) {
    && (forall k | k in d :: DecodeText(k).Some? && DecodeText(k).value in w)
    && (forall k | k in d && TextOk(d[k], DecodeText) :: w[DecodeText(k).value] == d[k])
    && (forall j | j in w :: FromSome(d, j))
  }

  ghost predicate FromSome(d: Document, j: text) {
    exists k | k in d :: DecodeText(k) == Some(j)
  }

  lemma FieldsSurvive(d: Document)
    requires Encodable(Doc(d)) && Decode(Encode(Doc(d))).Some?
    ensures
      var w := Decode(Encode(Doc(d))).value;
      w.Doc? && ReadsAs(d, w.fields)
  {
    hide ReadValue, ReadFields, EncodeFields, Encode, Shrinks, Fits, TextOk, Sorted, DecodeText, FieldsRelate, ReadsAs;
    var v, dec := Doc(d), DecodeText;
    var keys := Sorted(d.Keys);
    DecodeTextShrinks();
    FieldsRead(v, keys, map[], [], 0, dec);
    DocumentShape(v, [], 0, dec);
    assert Encode(v) + [] == Encode(v);
    var r := ReadFields(EncodeFields(v, keys) + [], |keys|, map[], 0, dec);
    SurviveIn(d, keys, r.value);
  }

  lemma SurviveIn(d: Document, keys: seq<text>, result: Document)
    requires (forall k | k in keys :: k in d) && (forall k | k in d :: k in keys)
    requires FieldsRelate(Doc(d), keys, map[], result, DecodeText)
    ensures ReadsAs(d, result)
  {
    hide TextOk, DecodeText;
    forall j | j in result ensures FromSome(d, j) {
      assert Reached(keys, DecodeText, j);
      var k :| k in keys && DecodeText(k) == Some(j);
      assert k in d;
    }
  }
}
