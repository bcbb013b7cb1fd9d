/** packages/server/src/cursor-manager.ts and document-size.ts: handing out query results in batches. */
module Cursor {
  import opened Bytes
  import opened Text
  import opened Values
  import opened DocumentCodec

  // ---------------------------------------------------------------- size estimates

  /** How many integers in the value the encoder writes in four bytes. */
  ghost function Shorts(v: Value): nat
    decreases v, 1, 0
  {
    match v
    case Int(i) => if -0x8000_0000 <= i <= 0x7FFF_FFFF then 1 else 0
    case Arr(items) => ShortItems(v, 0)
    case Doc(fields) => ShortFields(v, Sorted(fields.Keys))
    case _ => 0
  }

  ghost function ShortItems(v: Value, i: nat): nat
    requires v.Arr? && i <= |v.items|
    decreases v, 0, |v.items| - i
  {
    if i == |v.items| then 0 else Shorts(v.items[i]) + ShortItems(v, i + 1)
  }

  ghost function ShortFields(v: Value, keys: seq<text>): nat
    requires v.Doc? && forall k | k in keys :: k in v.fields
    decreases v, 0, |keys|
  {
    if keys == [] then 0 else Shorts(v.fields[keys[0]]) + ShortFields(v, keys[1..])
  }

  /** The bytes the encoder writes, with four more for each integer it writes in four. */
  ghost function Estimate(v: Value): nat {
    |Encode(v)| + 4 * Shorts(v)
  }

  ghost function FieldSize(v: Value, k: text): nat
    requires v.Doc? && k in v.fields
  {
    4 + |k| + Estimate(v.fields[k])
  }

  /** The estimate for the fields with these keys, in whatever order they are added up. */
  ghost function FieldsSize(v: Value, keys: set<text>): nat
    requires v.Doc? && keys <= v.fields.Keys
  {
    |EncodeFields(v, Sorted(keys))| + 4 * ShortFields(v, Sorted(keys))
  }

  ghost function ItemsSize(v: Value, i: nat): nat
    requires v.Arr? && i <= |v.items|
  {
    |EncodeItems(v, i)| + 4 * ShortItems(v, i)
  }

  lemma LeastSize(v: Value, keys: set<text>, k: text)
    requires v.Doc? && keys <= v.fields.Keys && Least(keys, k)
    ensures FieldsSize(v, keys) == FieldSize(v, k) + FieldsSize(v, keys - {k})
  {
    hide Sorted, Encode, Shorts;
    SortedStep(keys, k);
    assert Sorted(keys)[1..] == Sorted(keys - {k});
  }

  lemma {:induction false} AnySize(v: Value, keys: set<text>, k: text)
    requires v.Doc? && keys <= v.fields.Keys && k in keys
    ensures FieldsSize(v, keys) == FieldSize(v, k) + FieldsSize(v, keys - {k})
    decreases |keys|
  {
    hide FieldsSize, FieldSize;
    LeastExists(keys);
    var j: text :| Least(keys, j);
    LeastSize(v, keys, j);
    if j != k {
      AnySize(v, keys - {j}, k);
      assert keys - {j} - {k} == keys - {k} - {j};
      LeastSize(v, keys - {k}, j);
    }
  }

  lemma ScalarSize(v: Value)
    requires !v.Arr? && !v.Doc? && (v.Id? ==> |v.id| == CUSTOM_ID_BYTE_LENGTH)
    ensures Estimate(v) == ScalarEstimate(v)
  {
    hide Twos, Be;
  }

  function ScalarEstimate(v: Value): nat {
    match v
    case Null => 1
    case Bool(_) => 1
    case Str(t) => 5 + |t|
    case Bin(data) => 5 + |data|
    case Id(_) => 17
    case _ => 9
  }

  /** Every id in the value has the length of an id. */
  ghost predicate IdsOk(v: Value) {
    match v
    case Id(id) => |id| == CUSTOM_ID_BYTE_LENGTH
    case Arr(items) => forall i | 0 <= i < |items| :: IdsOk(items[i])
    case Doc(fields) => forall k | k in fields :: IdsOk(fields[k])
    case _ => true
  }

  /** `estimateEncodedSize`: never below what the encoder writes, and above it by four bytes for each short integer. */
  method EstimateEncodedSize(v: Value) returns (size: nat)
    requires IdsOk(v)
    ensures size == Estimate(v) >= |Encode(v)|
    decreases v
  {
    hide Encode, Be, Shorts, Estimate, ItemsSize, FieldsSize;
    EstimateCovers(v);
    if !v.Arr? && !v.Doc? {
      ScalarSize(v);
      return ScalarEstimate(v);
    }
    size := 5;
    if v.Arr? {
      ArraySize(v);
      for i := 0 to |v.items|
        invariant size + ItemsSize(v, i) == Estimate(v)
      {
        var more := EstimateEncodedSize(v.items[i]);
        ItemSize(v, i);
        size := size + more;
      }
      NoItems(v);
      return;
    }
    DocumentSize(v);
    var remaining := v.fields.Keys;
    while remaining != {}
      invariant remaining <= v.fields.Keys
      invariant size + FieldsSize(v, remaining) == Estimate(v)
      decreases |remaining|
    {
      var k :| k in remaining;
      var more := EstimateEncodedSize(v.fields[k]);
      AnySize(v, remaining, k);
      size := size + 4 + |k| + more;
      remaining := remaining - {k};
    }
    NoFields(v);
  }

  lemma EstimateCovers(v: Value)
    ensures Estimate(v) >= |Encode(v)|
  {}

  lemma ItemSize(v: Value, i: nat)
    requires v.Arr? && i < |v.items|
    ensures ItemsSize(v, i) == Estimate(v.items[i]) + ItemsSize(v, i + 1)
  {
    hide Encode, Shorts;
  }

  lemma NoItems(v: Value)
    requires v.Arr?
    ensures ItemsSize(v, |v.items|) == 0
  {}

  lemma NoFields(v: Value)
    requires v.Doc?
    ensures FieldsSize(v, {}) == 0
  {}

  lemma ArraySize(v: Value)
    requires v.Arr?
    ensures Estimate(v) == 5 + ItemsSize(v, 0)
  {
    hide Be, EncodeItems, ShortItems;
  }

  lemma DocumentSize(v: Value)
    requires v.Doc?
    ensures Estimate(v) == 5 + FieldsSize(v, v.fields.Keys)
  {
    hide Be, EncodeFields, ShortFields, Sorted;
  }

  // ---------------------------------------------------------------- cursors

  /** The bytes of these documents, encoded. */
  ghost function TotalSize(docs: seq<Document>): nat {
    if docs == [] then 0 else TotalSize(docs[..|docs| - 1]) + |Encode(Doc(docs[|docs| - 1]))|
  }

  ghost function TotalEstimate(docs: seq<Document>): nat {
    if docs == [] then 0 else TotalEstimate(docs[..|docs| - 1]) + Estimate(Doc(docs[|docs| - 1]))
  }

  lemma TotalSnoc(docs: seq<Document>, d: Document)
    ensures TotalEstimate(docs + [d]) == TotalEstimate(docs) + Estimate(Doc(d))
  {
    hide Estimate;
    assert (docs + [d])[..|docs|] == docs;
  }

  lemma NoSize()
    ensures TotalEstimate([]) == 0
  {}

  lemma {:induction false} TotalCovers(docs: seq<Document>)
    ensures TotalSize(docs) <= TotalEstimate(docs)
    decreases |docs|
  {
    hide Encode, Shorts;
    if docs != [] {
      TotalCovers(docs[..|docs| - 1]);
    }
  }

  /**
   * `docs` is the batch taken from `docs + rest`: no more than asked for, within the byte limit
   * unless it is a single document, and cut short only at the end or by that limit.
   */
  ghost predicate IsBatch(docs: seq<Document>, rest: seq<Document>, batchSize: nat, maxBatchBytes: nat) {
    && |docs| <= batchSize
    && (|docs| >= 2 ==> TotalEstimate(docs) <= maxBatchBytes)
    && (rest != [] ==> docs != [] && (|docs| < batchSize ==> TotalEstimate(docs + [rest[0]]) > maxBatchBytes))
  }

  lemma {:induction false} TotalGrows(docs: seq<Document>, n: nat)
    requires n <= |docs|
    ensures TotalEstimate(docs[..n]) <= TotalEstimate(docs)
    decreases |docs|
  {
    hide Estimate;
    if n < |docs| {
      TotalGrows(docs[..|docs| - 1], n);
      assert docs[..|docs| - 1][..n] == docs[..n];
    } else {
      assert docs[..n] == docs;
    }
  }

  /** The sizes and the documents determine where a batch ends. */
  lemma BatchIsDetermined(a: seq<Document>, b: seq<Document>, c: seq<Document>, d: seq<Document>, batchSize: nat, maxBatchBytes: nat)
    requires a + b == c + d && IsBatch(a, b, batchSize, maxBatchBytes) && IsBatch(c, d, batchSize, maxBatchBytes)
    ensures a == c && b == d
  {
    hide TotalEstimate;
    if |a| < |c| {
      ShorterIsNoBatch(a, b, c, d, batchSize, maxBatchBytes);
    } else if |c| < |a| {
      ShorterIsNoBatch(c, d, a, b, batchSize, maxBatchBytes);
    } else {
      assert a == (a + b)[..|a|] == c;
      assert b == (a + b)[|a|..] == d;
    }
  }

  lemma ShorterIsNoBatch(a: seq<Document>, b: seq<Document>, c: seq<Document>, d: seq<Document>, batchSize: nat, maxBatchBytes: nat)
    requires a + b == c + d && |a| < |c| <= batchSize && IsBatch(c, d, batchSize, maxBatchBytes)
    ensures !IsBatch(a, b, batchSize, maxBatchBytes)
  {
    hide TotalEstimate;
    assert |b| > 0;
    assert a == (c + d)[..|a|] == c[..|a|];
    assert b[0] == (a + b)[|a|] == c[|a|];
    assert a + [b[0]] == c[..|a| + 1];
    TotalGrows(c, |a| + 1);
  }

  lemma Shift<T>(a: seq<T>, s: seq<T>, i: nat)
    requires i < |s|
    ensures a + s[i..] == a + [s[i]] + s[i + 1..] && a + s[i..] == a + ([s[i]] + s[i + 1..])
  {}

  /** A cursor over a fixed result; `position` is how far its iterator has run. */
  class CursorState {
    const source: seq<Document>
    var position: nat
    var buffered: Option<Document>
    var exhausted: bool
    var lastUsed: int

    constructor (source: seq<Document>, now: int)
      ensures Valid() && this.source == source && Remaining() == source && buffered == None && !exhausted && lastUsed == now
    {
      this.source, position, buffered, exhausted, lastUsed := source, 0, None, false, now;
    }

    ghost predicate Valid()
      reads this
    {
      position <= |source| && (exhausted ==> position == |source| && buffered == None)
    }

    /** What has not been handed out yet. */
    ghost function Remaining(): seq<Document>
      requires Valid()
      reads this
    {
      (if buffered.Some? then [buffered.value] else []) + source[position..]
    }

    /**
     * One batch. Nothing is lost or repeated, it ends where `IsBatch` says, two or more documents
     * stay within the byte limit when encoded, and afterwards the cursor is exhausted or holds
     * the next document.
     */
    method TakeBatch(batchSize: nat, maxBatchBytes: nat) returns (docs: seq<Document>)
      requires Valid() && batchSize > 0 && (!exhausted ==> buffered.Some? || position == 0)
      requires forall i | 0 <= i < |source| :: IdsOk(Doc(source[i]))
      requires buffered.Some? ==> IdsOk(Doc(buffered.value))
      modifies this`position, this`buffered, this`exhausted
      ensures Valid() && docs + Remaining() == old(Remaining())
      ensures IsBatch(docs, Remaining(), batchSize, maxBatchBytes)
      ensures |docs| >= 2 ==> TotalSize(docs) <= maxBatchBytes
      ensures buffered.Some? ==> IdsOk(Doc(buffered.value))
      ensures exhausted ==> Remaining() == []
      ensures !exhausted ==> buffered.Some?
      ensures old(Remaining()) != [] ==> docs != []
    {
      hide Encode, Estimate, IdsOk, TotalSize, TotalEstimate;
      NoSize();
      var bytes := 0;
      docs := [];
      if buffered.Some? {
        bytes := EstimateEncodedSize(Doc(buffered.value));
        TotalSnoc([], buffered.value);
        docs := [buffered.value];
        assert [] + docs == docs;
        buffered := None;
      }
      docs, position, buffered, exhausted := FillBatch(source, position, docs, bytes, batchSize, maxBatchBytes);
      TotalCovers(docs);
    }
  }

  /** The loop of `takeBatch`, with the iterator's position and the lookahead it leaves. */
  method FillBatch(source: seq<Document>, from: nat, start: seq<Document>, used: nat, batchSize: nat, maxBatchBytes: nat)
    returns (docs: seq<Document>, position: nat, buffered: Option<Document>, exhausted: bool)
    requires from <= |source| && |start| <= 1 && |start| <= batchSize && batchSize > 0 && TotalEstimate(start) == used
    requires forall i | 0 <= i < |source| :: IdsOk(Doc(source[i]))
    ensures position <= |source|
    ensures var rest := (if buffered.Some? then [buffered.value] else []) + source[position..];
      docs + rest == start + source[from..] && IsBatch(docs, rest, batchSize, maxBatchBytes)
    ensures exhausted ==> position == |source| && buffered == None
    ensures !exhausted ==> buffered.Some? && IdsOk(Doc(buffered.value))
  {
    hide Encode, Estimate, IdsOk, TotalEstimate;
    docs, position, buffered, exhausted := start, from, None, false;
    var bytes := used;
    while |docs| < batchSize
      invariant position <= |source| && |docs| <= batchSize && |docs| >= |start| && |docs| >= position - from
      invariant docs + source[position..] == start + source[from..]
      invariant TotalEstimate(docs) == bytes && (|docs| >= 2 ==> bytes <= maxBatchBytes)
      decreases batchSize - |docs|
    {
      if position == |source| {
        assert docs + [] + source[position..] == docs + source[position..];
        return docs, position, None, true;
      }
      var next := source[position];
      Shift(docs, source, position);
      position := position + 1;
      var size := EstimateEncodedSize(Doc(next));
      TotalSnoc(docs, next);
      if |docs| > 0 && bytes + size > maxBatchBytes {
        return docs, position, Some(next), false;
      }
      docs := docs + [next];
      bytes := bytes + size;
    }
    if position == |source| {
      assert docs + [] + source[position..] == docs + source[position..];
      return docs, position, None, true;
    }
    Shift(docs, source, position);
    return docs, position + 1, Some(source[position]), false;
  }

  const MAX_CURSOR_ID := 0x1F_FFFF_FFFF_FFFF

  ghost predicate IdFree(ids: set<nat>) {
    exists id | 1 <= id <= MAX_CURSOR_ID :: id !in ids
  }

  datatype Batch = Batch(cursorId: Option<nat>, documents: seq<Document>)

  class CursorManager {
    const idleTimeout: nat
    const maxBatchBytes: nat
    var cursors: map<nat, CursorState>
    var nextCursorId: nat

    /** A live cursor always holds a next document. */
    ghost predicate Live(s: CursorState)
      reads s
    {
      && s.Valid() && !s.exhausted && s.buffered.Some? && IdsOk(Doc(s.buffered.value))
      && forall i | 0 <= i < |s.source| :: IdsOk(Doc(s.source[i]))
    }

    ghost predicate Valid()
      reads this, cursors.Values
    {
      && 1 <= nextCursorId <= MAX_CURSOR_ID
      && (forall id | id in cursors :: 1 <= id <= MAX_CURSOR_ID && Live(cursors[id]))
      && (forall i, j | i in cursors && j in cursors && i != j :: cursors[i] != cursors[j])
    }

    constructor (idleTimeout: nat, maxBatchBytes: nat)
      ensures Valid() && cursors == map[] && this.maxBatchBytes == maxBatchBytes && this.idleTimeout == idleTimeout
    {
      this.idleTimeout, this.maxBatchBytes, cursors, nextCursorId := idleTimeout, maxBatchBytes, map[], 1;
    }

    /** The cursors that have been used recently enough. */
    ghost function Surviving(now: int): (r: map<nat, CursorState>)
      reads this, cursors.Values
      ensures forall id :: id in r <==> id in cursors && cursors[id].lastUsed > now - idleTimeout
      ensures forall id | id in r :: r[id] == cursors[id]
    {
      map id | id in cursors && cursors[id].lastUsed > now - idleTimeout :: cursors[id]
    }

    /** Drops cursors that have not been used for too long. */
    method SweepExpired(now: int)
      requires Valid()
      modifies this`cursors
      ensures Valid() && cursors == old(Surviving(now))
    {
      hide Live;
      cursors := map id | id in cursors && cursors[id].lastUsed > now - idleTimeout :: cursors[id];
    }

    method AdvanceCursorId()
      requires 1 <= nextCursorId <= MAX_CURSOR_ID
      modifies this`nextCursorId
      ensures nextCursorId == if old(nextCursorId) == MAX_CURSOR_ID then 1 else old(nextCursorId) + 1
    {
      nextCursorId := if nextCursorId == MAX_CURSOR_ID then 1 else nextCursorId + 1;
    }

    /** An id no cursor has; None only when every id is taken. */
    method AllocateCursorId() returns (r: Option<nat>)
      requires 1 <= nextCursorId <= MAX_CURSOR_ID
      modifies this`nextCursorId
      ensures 1 <= nextCursorId <= MAX_CURSOR_ID
      ensures r.Some? ==> 1 <= r.value <= MAX_CURSOR_ID && r.value !in cursors
      ensures r.None? ==> forall id | 1 <= id <= MAX_CURSOR_ID :: id in cursors
    {
      var first := nextCursorId;
      ghost var wrapped := false;
      while nextCursorId in cursors
        invariant 1 <= nextCursorId <= MAX_CURSOR_ID
        invariant !wrapped ==> nextCursorId >= first && forall id | first <= id < nextCursorId :: id in cursors
        invariant wrapped ==> nextCursorId < first && (forall id | first <= id <= MAX_CURSOR_ID :: id in cursors)
                              && (forall id | 1 <= id < nextCursorId :: id in cursors)
        decreases if wrapped then first - nextCursorId else MAX_CURSOR_ID - nextCursorId + first
      {
        if nextCursorId == MAX_CURSOR_ID {
          wrapped := true;
        }
        AdvanceCursorId();
        if nextCursorId == first {
          return None;
        }
      }
      r := Some(nextCursorId);
      AdvanceCursorId();
    }

    /** `open`: the first batch, and a cursor if anything is left. */
    method Open(source: seq<Document>, batchSize: nat, now: int) returns (r: Option<Batch>)
      requires Valid() && batchSize > 0 && forall i | 0 <= i < |source| :: IdsOk(Doc(source[i]))
      modifies this`cursors, this`nextCursorId
      ensures Valid()
      ensures r.Some? && r.value.cursorId.None? ==> r.value.documents == source && IsBatch(source, [], batchSize, maxBatchBytes)
      ensures r.Some? && r.value.cursorId.Some? ==>
        var id := r.value.cursorId.value;
        && id in cursors && fresh(cursors[id]) && cursors[id].Valid() && cursors[id].lastUsed == now
        && r.value.documents + cursors[id].Remaining() == source && r.value.documents != [] && cursors[id].Remaining() != []
        && IsBatch(r.value.documents, cursors[id].Remaining(), batchSize, maxBatchBytes)
      ensures if r.Some? && r.value.cursorId.Some? then cursors == old(Surviving(now))[r.value.cursorId.value := cursors[r.value.cursorId.value]]
        else cursors == old(Surviving(now))
      ensures r.Some? && |r.value.documents| >= 2 ==> TotalSize(r.value.documents) <= maxBatchBytes
      ensures r.None? ==> !IdFree(cursors.Keys)
      ensures forall x | x in cursors.Values :: x in old(cursors.Values) || fresh(x)
    {
      hide IdsOk, TotalSize, IsBatch, Surviving;
      SweepExpired(now);
      var state := new CursorState(source, now);
      var documents := state.TakeBatch(batchSize, maxBatchBytes);
      if state.exhausted && state.buffered == None {
        assert documents + [] == documents;
        return Some(Batch(None, documents));
      }
      var id := Register(state);
      return if id.None? then None else Some(Batch(id, documents));
    }

    method Register(state: CursorState) returns (id: Option<nat>)
      requires Valid() && Live(state) && state !in cursors.Values
      modifies this`cursors, this`nextCursorId
      ensures Valid()
      ensures id.None? ==> cursors == old(cursors) && !IdFree(cursors.Keys)
      ensures id.Some? ==> id.value !in old(cursors) && cursors == old(cursors)[id.value := state]
    {
      hide IdsOk;
      id := AllocateCursorId();
      if id.Some? {
        cursors := cursors[id.value := state];
      }
    }

    /** `getMore`: the next batch of a cursor, which goes away with its last document; None if there is no such cursor. */
    method GetMore(id: nat, batchSize: nat, now: int) returns (r: Option<Batch>)
      requires Valid() && batchSize > 0
      modifies this`cursors, cursors.Values
      ensures Valid()
      ensures r.None? <==> id !in old(cursors) || old(cursors[id].lastUsed) <= now - idleTimeout
      ensures r.Some? ==> old(cursors)[id].Valid() && r.value.documents != []
      ensures r.Some? ==> r.value.documents + old(cursors)[id].Remaining() == old(cursors[id].Remaining())
      ensures r.Some? ==> IsBatch(r.value.documents, old(cursors)[id].Remaining(), batchSize, maxBatchBytes)
      ensures forall other | other in old(cursors) && other != id :: unchanged(old(cursors)[other])
      ensures cursors == if r.Some? && r.value.cursorId.None? then old(Surviving(now)) - {id} else old(Surviving(now))
      ensures r.Some? ==> (r.value.cursorId == None <==> old(cursors)[id].Remaining() == [])
      ensures r.Some? && r.value.cursorId.Some? ==> r.value.cursorId == Some(id) && id in cursors && cursors[id] == old(cursors)[id]
      ensures r.Some? && r.value.cursorId.Some? ==> cursors[id].lastUsed == now
      ensures r.Some? && |r.value.documents| >= 2 ==> TotalSize(r.value.documents) <= maxBatchBytes
      ensures forall x | x in cursors.Values :: x in old(cursors.Values)
    {
      hide IdsOk, TotalSize, IsBatch, Surviving;
      SweepExpired(now);
      if id !in cursors {
        return None;
      }
      var state := cursors[id];
      state.lastUsed := now;
      var documents := state.TakeBatch(batchSize, maxBatchBytes);
      if state.exhausted && state.buffered == None {
        cursors := cursors - {id};
        return Some(Batch(None, documents));
      }
      return Some(Batch(Some(id), documents));
    }
  }

  /**
   * Reading a whole result in batches of any sizes: the batches, in order, are the result up
   * to where the reading stopped, with nothing lost or repeated. Every batch moves on, so as
   * many batches as there are documents always reach the end, as long as a cursor id is free.
   */
  method ReadAll(manager: CursorManager, source: seq<Document>, sizes: seq<nat>, now: int)
    returns (read: seq<Document>, done: bool)
    requires manager.Valid() && (forall i | 0 <= i < |sizes| :: sizes[i] > 0) && |sizes| > 0 && manager.idleTimeout > 0
    requires forall i | 0 <= i < |source| :: IdsOk(Doc(source[i]))
    modifies manager, manager.cursors.Values
    ensures read <= source && (done ==> read == source)
    ensures old(IdFree(manager.cursors.Keys)) && |sizes| >= |source| ==> done
  {
    hide IdsOk, TotalSize, IsBatch, CursorManager.Surviving;
    var first := manager.Open(source, sizes[0], now);
    if first.None? {
      assert manager.cursors.Keys <= old(manager.cursors.Keys);
      return [], false;
    }
    read := first.value.documents;
    if first.value.cursorId.None? {
      return read, true;
    }
    var id := first.value.cursorId.value;
    var state := manager.cursors[id];
    var i := 1;
    while i < |sizes|
      invariant 1 <= i <= |sizes| && manager.Valid() && id in manager.cursors && manager.cursors[id] == state && fresh(state)
      invariant forall x | x in manager.cursors.Values :: x in old(manager.cursors.Values) || fresh(x)
      invariant read + state.Remaining() == source && state.lastUsed == now && state.Remaining() != []
      invariant |read| >= i
    {
      var before := read;
      var more := manager.GetMore(id, sizes[i], now);
      assert before + (more.value.documents + state.Remaining()) == before + more.value.documents + state.Remaining();
      read := read + more.value.documents;
      if more.value.cursorId.None? {
        assert read + [] == read;
        return read, true;
      }
      i := i + 1;
    }
    return read, false;
  }
}
