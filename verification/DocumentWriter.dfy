/** packages/protocol/src/binary-writer.ts and the recursive writers of document-encoder.ts. */
module DocumentWriter {
  import opened Bytes
  import opened Text
  import opened Values
  import opened DocumentCodec

  const INITIAL_CAPACITY := 256

  /** A growing buffer that refuses to exceed the largest payload. */
  class BinaryWriter {
    var buffer: array<byte>
    var length: nat

    ghost predicate Valid()
      reads this
    {
      length <= buffer.Length <= MAX_PAYLOAD_SIZE
    }

    ghost function Contents(): (s: bytes)
      requires Valid()
      reads this, buffer
      ensures |s| == length
    {
      buffer[..length]
    }

    constructor ()
      ensures Valid() && fresh(buffer) && Contents() == []
    {
      buffer := new byte[INITIAL_CAPACITY](_ => 0);
      length := 0;
    }

    method EnsureCapacity(additional: nat) returns (ok: bool)
      requires Valid()
      modifies this`buffer
      ensures Valid() && length == old(length) && Contents() == old(Contents())
      ensures buffer == old(buffer) || fresh(buffer)
      ensures ok <==> length + additional <= MAX_PAYLOAD_SIZE
      ensures ok ==> length + additional <= buffer.Length
    {
      var required := length + additional;
      if required > MAX_PAYLOAD_SIZE {
        return false;
      }
      if required <= buffer.Length {
        return true;
      }
      var doubled := if required > buffer.Length * 2 then required else buffer.Length * 2;
      var capacity := if doubled < MAX_PAYLOAD_SIZE then doubled else MAX_PAYLOAD_SIZE;
      var next := new byte[capacity](i requires 0 <= i < capacity reads this, buffer =>
        if i < buffer.Length then buffer[i] else 0);
      buffer := next;
      return true;
    }

    method WriteBytes(value: bytes) returns (ok: bool)
      requires Valid()
      modifies this, buffer
      ensures Valid() && (buffer == old(buffer) || fresh(buffer))
      ensures ok <==> old(length) + |value| <= MAX_PAYLOAD_SIZE
      ensures Contents() == if ok then old(Contents()) + value else old(Contents())
    {
      ok := EnsureCapacity(|value|);
      if !ok {
        return;
      }
      forall i | 0 <= i < |value| {
        buffer[length + i] := value[i];
      }
      length := length + |value|;
      assert buffer[..length] == old(Contents()) + value;
    }
  }

  /** Writing `v` succeeds exactly when the encoder accepts it and it still fits in a payload. */
  ghost predicate Writes(v: Value, depth: nat, before: bytes, after: bytes, ok: bool) {
    && (ok <==> Fits(v, depth) && |before| + |Encode(v)| <= MAX_PAYLOAD_SIZE)
    && (ok ==> after == before + Encode(v))
  }

  method WriteValue(writer: BinaryWriter, v: Value, depth: nat) returns (ok: bool)
    requires writer.Valid()
    modifies writer, writer.buffer
    ensures writer.Valid() && (writer.buffer == old(writer.buffer) || fresh(writer.buffer))
    ensures Writes(v, depth, old(writer.Contents()), writer.Contents(), ok)
    decreases v, 1, 0
  {
    hide Be, Twos, Prefixed;
    if depth > MAX_DOCUMENT_DEPTH {
      return false;
    }
    match v {
      case Arr(_) =>
        ok := WriteArray(writer, v, depth);
      case Doc(_) =>
        ok := WriteDocument(writer, v, depth);
      case _ =>
        ok := WriteLeaf(writer, v, depth);
    }
  }

  /** The tests `writeValue` makes on everything but arrays and documents. */
  predicate LeafOk(v: Value) {
    match v
    case Int(i) => -MAX_SAFE_INTEGER <= i <= MAX_SAFE_INTEGER
    case Double(bits) => ProperDouble(bits)
    case Big(n) => -0x8000_0000_0000_0000 <= n < 0x8000_0000_0000_0000
    case Str(t) => UTF8(t) && |t| < 0x1_0000_0000
    case Date(ms) => -MAX_DATE <= ms <= MAX_DATE
    case Bin(data) => |data| < 0x1_0000_0000
    case Id(id) => |id| == CUSTOM_ID_BYTE_LENGTH
    case _ => true
  }

  method WriteLeaf(writer: BinaryWriter, v: Value, depth: nat) returns (ok: bool)
    requires writer.Valid() && !v.Arr? && !v.Doc? && depth <= MAX_DOCUMENT_DEPTH
    modifies writer, writer.buffer
    ensures writer.Valid() && (writer.buffer == old(writer.buffer) || fresh(writer.buffer))
    ensures Writes(v, depth, old(writer.Contents()), writer.Contents(), ok)
  {
    hide Be, Twos;
    if !LeafOk(v) {
      return false;
    }
    match v {
      case Null => ok := writer.WriteBytes([NULL_TAG]);
      case Bool(b) => ok := writer.WriteBytes([if b then TRUE_TAG else FALSE_TAG]);
      case Int(i) =>
        if -0x8000_0000 <= i <= 0x7FFF_FFFF {
          ok := WriteTagged(writer, INT32_TAG, Twos(i, 4));
        } else {
          ok := WriteTagged(writer, INT64_TAG, Twos(i, 8));
        }
      case Double(bits) => ok := WriteTagged(writer, FLOAT64_TAG, Be(bits, 8));
      case Big(n) => ok := WriteTagged(writer, BIGINT64_TAG, Twos(n, 8));
      case Str(t) => ok := WriteTagged(writer, STRING_TAG, Prefixed(t));
      case Date(ms) => ok := WriteTagged(writer, DATETIME_TAG, Twos(ms, 8));
      case Bin(data) => ok := WriteTagged(writer, BINARY_TAG, Prefixed(data));
      case Id(id) => ok := WriteTagged(writer, CUSTOMID_TAG, id);
    }
  }

  method WriteTagged(writer: BinaryWriter, tag: byte, data: bytes) returns (ok: bool)
    requires writer.Valid()
    modifies writer, writer.buffer
    ensures writer.Valid() && (writer.buffer == old(writer.buffer) || fresh(writer.buffer))
    ensures ok <==> old(writer.length) + 1 + |data| <= MAX_PAYLOAD_SIZE
    ensures ok ==> writer.Contents() == old(writer.Contents()) + ([tag] + data)
  {
    ok := writer.WriteBytes([tag]);
    if ok {
      ok := writer.WriteBytes(data);
    }
  }

  method WriteArray(writer: BinaryWriter, v: Value, depth: nat) returns (ok: bool)
    requires writer.Valid() && v.Arr? && depth <= MAX_DOCUMENT_DEPTH
    modifies writer, writer.buffer
    ensures writer.Valid() && (writer.buffer == old(writer.buffer) || fresh(writer.buffer))
    ensures Writes(v, depth, old(writer.Contents()), writer.Contents(), ok)
    decreases v, 0, 0
  {
    hide Be, Fits, Encode;
    if |v.items| >= 0x1_0000_0000 {
      NotFits(v, depth);
      return false;
    }
    ghost var whole := old(writer.Contents()) + Encode(v);
    ArrayHeader(v, old(writer.Contents()));
    ok := WriteTagged(writer, ARRAY_TAG, Be(|v.items|, 4));
    if !ok {
      return false;
    }
    var i := 0;
    while i < |v.items|
      invariant 0 <= i <= |v.items|
      invariant writer.Valid() && (writer.buffer == old(writer.buffer) || fresh(writer.buffer))
      invariant whole == writer.Contents() + EncodeItems(v, i)
      invariant forall j | 0 <= j < i :: Fits(v.items[j], depth + 1)
    {
      ghost var before := writer.Contents();
      ItemsHead(v, i, before);
      ok := WriteValue(writer, v.items[i], depth + 1);
      if !ok {
        ArrayFits(v, depth);
        return false;
      }
      i := i + 1;
    }
    ArrayFits(v, depth);
    assert EncodeItems(v, i) == [];
    assert whole == writer.Contents();
    return true;
  }

  lemma NotFits(v: Value, depth: nat)
    requires (v.Arr? && |v.items| >= 0x1_0000_0000) || (v.Doc? && |v.fields| >= 0x1_0000_0000)
    ensures !Fits(v, depth)
  {}

  lemma ArrayHeader(v: Value, before: bytes)
    requires v.Arr?
    ensures before + Encode(v) == before + ([ARRAY_TAG] + Be(|v.items|, 4)) + EncodeItems(v, 0)
  {
    hide Be, EncodeItems;
    Regroup(before, [ARRAY_TAG] + Be(|v.items|, 4), EncodeItems(v, 0), []);
    assert Encode(v) == [ARRAY_TAG] + Be(|v.items|, 4) + EncodeItems(v, 0);
  }

  lemma ItemsHead(v: Value, i: nat, before: bytes)
    requires v.Arr? && i < |v.items|
    ensures before + EncodeItems(v, i) == before + Encode(v.items[i]) + EncodeItems(v, i + 1)
  {
    hide Encode;
    Regroup(before, Encode(v.items[i]), EncodeItems(v, i + 1), []);
  }

  lemma ArrayFits(v: Value, depth: nat)
    requires v.Arr? && |v.items| < 0x1_0000_0000 && depth <= MAX_DOCUMENT_DEPTH
    ensures Fits(v, depth) <==> forall j | 0 <= j < |v.items| :: Fits(v.items[j], depth + 1)
  {}

  /** Fields are written in the order of their keys' bytes, whatever order the document has. */
  method WriteDocument(writer: BinaryWriter, v: Value, depth: nat) returns (ok: bool)
    requires writer.Valid() && v.Doc? && depth <= MAX_DOCUMENT_DEPTH
    modifies writer, writer.buffer
    ensures writer.Valid() && (writer.buffer == old(writer.buffer) || fresh(writer.buffer))
    ensures Writes(v, depth, old(writer.Contents()), writer.Contents(), ok)
    decreases v, 0, 0
  {
    hide Be, Fits, Encode, Sorted, EncodeFields, Prefixed;
    if |v.fields| >= 0x1_0000_0000 || exists k | k in v.fields :: !KeyOk(k) {
      DocumentFits(v, depth);
      return false;
    }
    ghost var whole := old(writer.Contents()) + Encode(v);
    DocumentHeader(v, old(writer.Contents()));
    ok := WriteTagged(writer, DOCUMENT_TAG, Be(|v.fields|, 4));
    if !ok {
      return false;
    }
    var remaining := v.fields.Keys;
    while remaining != {}
      invariant remaining <= v.fields.Keys
      invariant writer.Valid() && (writer.buffer == old(writer.buffer) || fresh(writer.buffer))
      invariant whole == writer.Contents() + EncodeFields(v, Sorted(remaining))
      invariant forall k | k in v.fields && k !in remaining :: Fits(v.fields[k], depth + 1)
      decreases |remaining|
    {
      LeastExists(remaining);
      var key: text :| key in remaining && forall j | j in remaining && j != key :: Before(key, j);
      ghost var before := writer.Contents();
      FieldsHead(v, remaining, key, before);
      ok := writer.WriteBytes(Prefixed(key));
      if !ok {
        return false;
      }
      ok := WriteValue(writer, v.fields[key], depth + 1);
      if !ok {
        DocumentFits(v, depth);
        return false;
      }
      remaining := remaining - {key};
    }
    DocumentFits(v, depth);
    NoMoreFields(v);
    assert whole == writer.Contents();
    return true;
  }

  predicate KeyOk(k: text) {
    UTF8(k) && |k| < 0x1_0000_0000
  }

  lemma DocumentFits(v: Value, depth: nat)
    requires v.Doc? && depth <= MAX_DOCUMENT_DEPTH
    ensures Fits(v, depth) <==>
      |v.fields| < 0x1_0000_0000 && forall k | k in v.fields :: KeyOk(k) && Fits(v.fields[k], depth + 1)
  {}

  lemma DocumentHeader(v: Value, before: bytes)
    requires v.Doc?
    ensures before + Encode(v) == before + ([DOCUMENT_TAG] + Be(|v.fields|, 4)) + EncodeFields(v, Sorted(v.fields.Keys))
  {
    hide Be, EncodeFields, Sorted;
    var body := EncodeFields(v, Sorted(v.fields.Keys));
    Regroup(before, [DOCUMENT_TAG] + Be(|v.fields|, 4), body, []);
    assert Encode(v) == [DOCUMENT_TAG] + Be(|v.fields|, 4) + body;
  }

  lemma FieldsStep(v: Value, keys: seq<text>)
    requires v.Doc? && keys != [] && forall k | k in keys :: k in v.fields
    ensures forall k | k in keys[1..] :: k in v.fields
    ensures EncodeFields(v, keys) == Prefixed(keys[0]) + (Encode(v.fields[keys[0]]) + EncodeFields(v, keys[1..]))
  {
    hide Encode, Prefixed;
  }

  lemma FieldsHead(v: Value, remaining: set<text>, key: text, before: bytes)
    requires v.Doc? && remaining <= v.fields.Keys && Least(remaining, key)
    ensures before + EncodeFields(v, Sorted(remaining))
         == before + Prefixed(key) + Encode(v.fields[key]) + EncodeFields(v, Sorted(remaining - {key}))
  {
    hide Encode, Sorted, Prefixed, EncodeFields;
    SortedStep(remaining, key);
    var rest := Sorted(remaining - {key});
    assert Sorted(remaining)[0] == key && Sorted(remaining)[1..] == rest;
    FieldsStep(v, Sorted(remaining));
    FourParts(before, Prefixed(key), Encode(v.fields[key]), EncodeFields(v, rest));
  }

  lemma FourParts(a: bytes, b: bytes, c: bytes, d: bytes)
    ensures a + (b + (c + d)) == a + b + c + d
  {}

  lemma NoMoreFields(v: Value)
    requires v.Doc?
    ensures EncodeFields(v, Sorted({})) == []
  {}

  /** `encodeDocumentValue`: the canonical bytes, exactly for the values that can be encoded. */
  method EncodeDocumentValue(v: Value) returns (r: Option<bytes>)
    ensures r.Some? <==> Encodable(v)
    ensures r.Some? ==> r.value == Encode(v)
  {
    hide Encode, Fits;
    var writer := new BinaryWriter();
    var ok := WriteValue(writer, v, 0);
    assert [] + Encode(v) == Encode(v);
    return if ok then Some(writer.buffer[..writer.length]) else None;
  }
}
