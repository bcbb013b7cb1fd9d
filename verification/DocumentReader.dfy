/** packages/protocol/src/binary-reader.ts and the recursive readers of document-decoder.ts. */
module DocumentReader {
  import opened Bytes
  import opened Text
  import opened Values
  import opened DocumentCodec

  class BinaryReader {
    const data: bytes
    var offset: nat

    ghost predicate Valid()
      reads this
    {
      offset <= |data|
    }

    ghost function Rest(): bytes
      requires Valid()
      reads this
    {
      data[offset..]
    }

    constructor (data: bytes)
      ensures Valid() && Rest() == data && this.data == data
    {
      this.data := data;
      offset := 0;
    }

    /** None when fewer bytes remain. */
    method ReadBytes(length: nat) returns (r: Option<bytes>)
      requires Valid()
      modifies this
      ensures Valid()
      ensures match Take(old(Rest()), length)
        case Bad => r == None
        case Got(raw, rest) => r == Some(raw) && Rest() == rest
    {
      if length > |data| - offset {
        return None;
      }
      var value := data[offset..offset + length];
      assert data[offset..][..length] == value && data[offset..][length..] == data[offset + length..];
      offset := offset + length;
      return Some(value);
    }

    method ReadUint32() returns (r: Option<nat>)
      requires Valid()
      modifies this
      ensures Valid()
      ensures match TakeNat(old(Rest()), 4)
        case Bad => r == None
        case Got(n, rest) => r == Some(n) && Rest() == rest
    {
      var raw := ReadBytes(4);
      return if raw.None? then None else Some(OfBe(raw.value));
    }
  }

  /** The reader did what `spec` says of the bytes it had left. */
  ghost predicate Follows<T>(spec: Read<T>, r: Option<T>, rest: bytes) {
    match spec
    case Bad => r == None
    case Got(v, left) => r == Some(v) && rest == left
  }

  method ReadText(reader: BinaryReader) returns (r: Option<text>)
    requires reader.Valid()
    modifies reader
    ensures reader.Valid() && Follows(TakeText(old(reader.Rest()), DecodeText), r, reader.Rest())
  {
    var length := reader.ReadUint32();
    if length.None? {
      return None;
    }
    var raw := reader.ReadBytes(length.value);
    if raw.None? {
      return None;
    }
    return DecodeText(raw.value);
  }

  method ReadDocumentValue(reader: BinaryReader, depth: nat) returns (r: Option<Value>)
    requires reader.Valid()
    modifies reader
    ensures reader.Valid() && Follows(ReadValue(old(reader.Rest()), depth, DecodeText), r, reader.Rest())
    decreases |reader.data| - reader.offset, 0
  {
    hide ReadScalar, ReadItems, ReadFields, DecodeText;
    if depth > MAX_DOCUMENT_DEPTH {
      return None;
    }
    if reader.offset == |reader.data| {
      return None;
    }
    var tag := reader.data[reader.offset];
    assert reader.Rest()[1..] == reader.data[reader.offset + 1..];
    reader.offset := reader.offset + 1;
    if tag == NULL_TAG {
      return Some(Null);
    } else if tag == FALSE_TAG {
      return Some(Bool(false));
    } else if tag == TRUE_TAG {
      return Some(Bool(true));
    } else if tag == ARRAY_TAG {
      r := ReadArray(reader, depth);
    } else if tag == DOCUMENT_TAG {
      r := ReadDocument(reader, depth);
    } else {
      r := ReadLeafValue(reader, tag);
    }
  }

  method ReadLeafValue(reader: BinaryReader, tag: byte) returns (r: Option<Value>)
    requires reader.Valid()
    modifies reader
    ensures reader.Valid() && Follows(ReadScalar(tag, old(reader.Rest()), DecodeText), r, reader.Rest())
  {
    hide OfBe, DecodeText;
    if tag == STRING_TAG {
      var t := ReadText(reader);
      return if t.None? then None else Some(Str(t.value));
    }
    var length: nat;
    if tag == BINARY_TAG {
      var n := reader.ReadUint32();
      if n.None? {
        return None;
      }
      length := n.value;
    } else if tag == CUSTOMID_TAG {
      length := CUSTOM_ID_BYTE_LENGTH;
    } else if tag == INT32_TAG {
      length := 4;
    } else if tag == INT64_TAG || tag == FLOAT64_TAG || tag == BIGINT64_TAG || tag == DATETIME_TAG {
      length := 8;
    } else {
      return None;
    }
    var raw := reader.ReadBytes(length);
    if raw.None? {
      return None;
    }
    if tag == BINARY_TAG {
      return Some(Bin(raw.value));
    } else if tag == CUSTOMID_TAG {
      return Some(Id(raw.value));
    } else if tag == FLOAT64_TAG {
      return Some(FLOAT(ReadU64(raw.value)));
    }
    var i := OfTwos(OfBe(raw.value), length);
    if tag == INT32_TAG {
      return Some(Int(i));
    } else if tag == INT64_TAG {
      return if -MAX_SAFE_INTEGER <= i <= MAX_SAFE_INTEGER then Some(Int(i)) else None;
    } else if tag == BIGINT64_TAG {
      return Some(Big(i));
    }
    return if -MAX_DATE <= i <= MAX_DATE then Some(Date(i)) else None;
  }

  /** The reading of an array, as `ReadValue` does it after the tag. */
  function ArraySpec(b: bytes, depth: nat): Read<Value> {
    match TakeNat(b, 4)
    case Bad => Bad
    case Got(n, r1) =>
      match ReadItems(r1, n, depth, DecodeText) case Bad => Bad case Got(items, r2) => Got(Arr(items), r2)
  }

  method ReadArray(reader: BinaryReader, depth: nat) returns (r: Option<Value>)
    requires reader.Valid()
    modifies reader
    ensures reader.Valid() && Follows(ArraySpec(old(reader.Rest()), depth), r, reader.Rest())
    decreases |reader.data| - reader.offset, 1
  {
    hide ReadValue, ReadItems, DecodeText;
    var length := reader.ReadUint32();
    if length.None? {
      return None;
    }
    var items: seq<Value> := [];
    ghost var spec := ReadItems(reader.Rest(), length.value, depth, DecodeText);
    AfterNone(spec);
    var index := 0;
    while index < length.value
      invariant 0 <= index <= length.value && reader.Valid() && reader.offset > old(reader.offset)
      invariant spec == After(items, ReadItems(reader.Rest(), length.value - index, depth, DecodeText))
    {
      ReadNextItem(reader.Rest(), length.value - index, depth, DecodeText);
      var item := ReadDocumentValue(reader, depth + 1);
      if item.None? {
        return None;
      }
      AfterOne(items, item.value, ReadItems(reader.Rest(), length.value - index - 1, depth, DecodeText));
      items := items + [item.value];
      index := index + 1;
    }
    NoMoreItems(reader.Rest(), depth);
    assert items + [] == items;
    return Some(Arr(items));
  }

  ghost function After(items: seq<Value>, r: Read<seq<Value>>): Read<seq<Value>> {
    match r case Bad => Bad case Got(vs, rest) => Got(items + vs, rest)
  }

  lemma AfterNone(r: Read<seq<Value>>)
    ensures After([], r) == r
  {
    if r.Got? {
      assert [] + r.value == r.value;
    }
  }

  lemma AfterOne(items: seq<Value>, v: Value, r: Read<seq<Value>>)
    ensures After(items, After([v], r)) == After(items + [v], r)
  {
    if r.Got? {
      assert items + ([v] + r.value) == items + [v] + r.value;
    }
  }

  lemma NoMoreItems(b: bytes, depth: nat)
    ensures ReadItems(b, 0, depth, DecodeText) == Got([], b)
  {}

  function DocumentSpec(b: bytes, depth: nat): Read<Value> {
    match TakeNat(b, 4)
    case Bad => Bad
    case Got(n, r1) =>
      match ReadFields(r1, n, map[], depth, DecodeText) case Bad => Bad case Got(fields, r2) => Got(Doc(fields), r2)
  }

  method ReadDocument(reader: BinaryReader, depth: nat) returns (r: Option<Value>)
    requires reader.Valid()
    modifies reader
    ensures reader.Valid() && Follows(DocumentSpec(old(reader.Rest()), depth), r, reader.Rest())
    decreases |reader.data| - reader.offset, 1
  {
    hide ReadValue, ReadFields, DecodeText;
    var count := reader.ReadUint32();
    if count.None? {
      return None;
    }
    var document: Document := map[];
    ghost var spec := ReadFields(reader.Rest(), count.value, map[], depth, DecodeText);
    var index := 0;
    while index < count.value
      invariant 0 <= index <= count.value && reader.Valid() && reader.offset > old(reader.offset)
      invariant spec == ReadFields(reader.Rest(), count.value - index, document, depth, DecodeText)
    {
      ReadNextField(reader.Rest(), count.value - index, document, depth, DecodeText);
      var key := ReadText(reader);
      if key.None? || key.value in document {
        return None;
      }
      var value := ReadDocumentValue(reader, depth + 1);
      if value.None? {
        return None;
      }
      document := document[key.value := value.value];
      index := index + 1;
    }
    NoMoreFieldsToRead(reader.Rest(), document, depth);
    return Some(Doc(document));
  }

  lemma NoMoreFieldsToRead(b: bytes, document: Document, depth: nat)
    ensures ReadFields(b, 0, document, depth, DecodeText) == Got(document, b)
  {}

  /** `decodeDocumentValue` on any bytes at all. */
  method DecodeDocumentValue(payload: bytes) returns (r: Option<Value>)
    ensures r == Decode(payload)
  {
    hide ReadValue, DecodeText;
    if |payload| > MAX_PAYLOAD_SIZE {
      return None;
    }
    var reader := new BinaryReader(payload);
    r := ReadDocumentValue(reader, 0);
    if r.Some? && reader.offset != |payload| {
      return None;
    }
  }
}
