/** packages/protocol/src/frame.ts and message-stream-decoder.ts: frames, and decoding them from a stream in chunks. */
module MessageStream {
  import opened Bytes
  import opened Text
  import opened DocumentCodec

  const PROTOCOL_MAGIC: bytes := [0x53, 0x4E, 0x54, 0x52]
  const PROTOCOL_VERSION := 1
  const FRAME_HEADER_SIZE := 16
  const FIRST_KIND := 1
  const LAST_KIND := 7
  const MORE_FLAG := 1

  datatype Frame = Frame(kind: byte, flags: byte, requestId: u32, payload: bytes)

  datatype Header = Header(kind: byte, flags: byte, requestId: u32, payloadLength: u32)

  // Which payloads a kind of message accepts. Nothing depends on the answer.
  const ACCEPTS: (byte, bytes) -> bool

  predicate ValidFrame(f: Frame) {
    FIRST_KIND <= f.kind <= LAST_KIND && f.flags <= MORE_FLAG && |f.payload| <= MAX_PAYLOAD_SIZE
  }

  /** A message whose payload its kind accepts. */
  predicate ValidMessage(f: Frame) {
    ValidFrame(f) && ACCEPTS(f.kind, f.payload)
  }

  function EncodeHeader(kind: byte, flags: byte, requestId: u32, length: u32): (h: bytes)
    ensures |h| == FRAME_HEADER_SIZE
  {
    PROTOCOL_MAGIC + Be(PROTOCOL_VERSION, 2) + [kind, flags] + U32(requestId) + U32(length)
  }

  function EncodeFrame(f: Frame): (s: bytes)
    requires ValidFrame(f)
    ensures |s| == FRAME_HEADER_SIZE + |f.payload|
  {
    EncodeHeader(f.kind, f.flags, f.requestId, |f.payload|) + f.payload
  }

  /** `readFrameHeader`: None where it throws. */
  function ReadHeader(b: bytes): Option<Header>
    requires |b| >= FRAME_HEADER_SIZE
  {
    var h := Header(b[6], b[7], ReadU32(b[8..12]), ReadU32(b[12..16]));
    if b[..4] != PROTOCOL_MAGIC then None
    else if OfBe(b[4..6]) != PROTOCOL_VERSION then None
    else if !(FIRST_KIND <= h.kind <= LAST_KIND) then None
    else if h.flags > MORE_FLAG then None
    else if h.payloadLength > MAX_PAYLOAD_SIZE then None
    else Some(h)
  }

  lemma HeaderReads(kind: byte, flags: byte, requestId: u32, length: u32, t: bytes)
    requires FIRST_KIND <= kind <= LAST_KIND && flags <= MORE_FLAG && length <= MAX_PAYLOAD_SIZE
    ensures ReadHeader(EncodeHeader(kind, flags, requestId, length) + t) == Some(Header(kind, flags, requestId, length))
  {
    Widths();
    BeRoundTrip(PROTOCOL_VERSION, 2);
    var b := EncodeHeader(kind, flags, requestId, length) + t;
    assert b == PROTOCOL_MAGIC + Be(PROTOCOL_VERSION, 2) + [kind, flags] + U32(requestId) + U32(length) + t;
    assert b[..4] == PROTOCOL_MAGIC;
    assert b[4..6] == Be(PROTOCOL_VERSION, 2);
    assert b[6] == kind && b[7] == flags;
    assert b[8..12] == U32(requestId);
    assert b[12..16] == U32(length);
  }

  datatype Front = Incomplete | Refused(length: nat) | Whole(frame: Frame, length: nat)

  /**
   * What is at the front of the buffer: part of a frame, something refused, or a whole message.
   * A header that is refused is not consumed; a frame whose payload is refused is.
   */
  function ReadFront(b: bytes): (r: Front)
    ensures r.Whole? ==> FRAME_HEADER_SIZE <= r.length <= |b|
    ensures r.Refused? ==> r.length <= |b|
  {
    if |b| < FRAME_HEADER_SIZE then Incomplete else
    match ReadHeader(b)
    case None => Refused(0)
    case Some(h) =>
      var length := FRAME_HEADER_SIZE + h.payloadLength;
      if |b| < length then Incomplete
      else
        var payload := b[FRAME_HEADER_SIZE..length];
        if !ACCEPTS(h.kind, payload) then Refused(length) else Whole(Frame(h.kind, h.flags, h.requestId, payload), length)
  }

  /** A whole message is read back, whatever follows. */
  lemma FrameReads(f: Frame, t: bytes)
    requires ValidMessage(f)
    ensures ReadFront(EncodeFrame(f) + t) == Whole(f, |EncodeFrame(f)|)
  {
    hide ReadHeader, EncodeHeader;
    var h := EncodeHeader(f.kind, f.flags, f.requestId, |f.payload|);
    HeaderReads(f.kind, f.flags, f.requestId, |f.payload|, f.payload + t);
    assert EncodeFrame(f) + t == h + (f.payload + t);
    assert (EncodeFrame(f) + t)[FRAME_HEADER_SIZE..FRAME_HEADER_SIZE + |f.payload|] == f.payload;
  }

  lemma PartOfFrame(f: Frame, k: nat)
    requires ValidMessage(f) && k < |EncodeFrame(f)|
    ensures ReadFront(EncodeFrame(f)[..k]).Incomplete?
  {
    hide ReadHeader, EncodeHeader;
    if k >= FRAME_HEADER_SIZE {
      var h := EncodeHeader(f.kind, f.flags, f.requestId, |f.payload|);
      HeaderReads(f.kind, f.flags, f.requestId, |f.payload|, f.payload[..k - FRAME_HEADER_SIZE]);
      assert EncodeFrame(f)[..k] == h + f.payload[..k - FRAME_HEADER_SIZE];
    }
  }

  lemma HeaderIgnoresRest(b: bytes, t: bytes)
    requires |b| >= FRAME_HEADER_SIZE
    ensures ReadHeader(b + t) == ReadHeader(b)
  {
    assert (b + t)[..4] == b[..4] && (b + t)[4..6] == b[4..6] && (b + t)[8..12] == b[8..12] && (b + t)[12..16] == b[12..16];
  }

  /** More bytes never change what is already decided. */
  lemma FrontStays(b: bytes, t: bytes)
    requires !ReadFront(b).Incomplete?
    ensures ReadFront(b + t) == ReadFront(b)
  {
    hide ReadHeader;
    HeaderIgnoresRest(b, t);
    if ReadHeader(b).Some? {
      var length := FRAME_HEADER_SIZE + ReadHeader(b).value.payloadLength;
      assert (b + t)[FRAME_HEADER_SIZE..length] == b[FRAME_HEADER_SIZE..length];
    }
  }

  lemma HeaderIsEncoding(b: bytes)
    requires |b| >= FRAME_HEADER_SIZE && ReadHeader(b).Some?
    ensures var h := ReadHeader(b).value;
      && FIRST_KIND <= h.kind <= LAST_KIND && h.flags <= MORE_FLAG && h.payloadLength <= MAX_PAYLOAD_SIZE
      && b[..FRAME_HEADER_SIZE] == EncodeHeader(h.kind, h.flags, h.requestId, h.payloadLength)
  {
    hide Be, OfBe;
    OfBeRoundTrip(b[4..6]);
    OfBeRoundTrip(b[8..12]);
    OfBeRoundTrip(b[12..16]);
    assert b[..16] == b[..4] + b[4..6] + [b[6], b[7]] + b[8..12] + b[12..16];
  }

  /** Whatever is accepted is byte for byte the encoding of a valid message. */
  lemma WholeIsEncoding(b: bytes)
    requires ReadFront(b).Whole?
    ensures ValidMessage(ReadFront(b).frame) && b[..ReadFront(b).length] == EncodeFrame(ReadFront(b).frame)
  {
    hide ReadHeader, EncodeHeader;
    HeaderIsEncoding(b);
    var length := ReadFront(b).length;
    assert b[..length] == b[..FRAME_HEADER_SIZE] + b[FRAME_HEADER_SIZE..length];
  }

  /** Whatever is refused is the beginning of no valid message. */
  lemma RefusedIsNoMessage(b: bytes, t: bytes, f: Frame)
    requires ReadFront(b).Refused? && ValidMessage(f)
    ensures !(EncodeFrame(f) <= b + t)
  {
    hide ReadFront, EncodeFrame;
    FrontStays(b, t);
    if EncodeFrame(f) <= b + t {
      var rest := (b + t)[|EncodeFrame(f)|..];
      assert b + t == EncodeFrame(f) + rest;
      FrameReads(f, rest);
    }
  }

  // ---------------------------------------------------------------- the whole stream

  /** The messages of a byte string, what is left over, and whether something was refused. */
  datatype Parsed = Parsed(messages: seq<Frame>, rest: bytes, bad: bool)

  function Parse(b: bytes): (p: Parsed)
    ensures |p.rest| <= |b|
  {
    match ReadFront(b)
    case Incomplete => Parsed([], b, false)
    case Refused(length) => Parsed([], b[length..], true)
    case Whole(f, length) => var p := Parse(b[length..]); p.(messages := [f] + p.messages)
  }

  /** Messages in front of what the rest parses to. */
  function After(messages: seq<Frame>, p: Parsed): Parsed {
    p.(messages := messages + p.messages)
  }

  /** One message, and parsing on. */
  lemma ParseFront(b: bytes)
    ensures ReadFront(b).Incomplete? ==> Parse(b) == Parsed([], b, false)
    ensures ReadFront(b).Refused? ==> Parse(b) == Parsed([], b[ReadFront(b).length..], true)
    ensures ReadFront(b).Whole? ==> Parse(b) == After([ReadFront(b).frame], Parse(b[ReadFront(b).length..]))
  {
    hide ReadFront;
  }

  lemma AfterAfter(f: Frame, messages: seq<Frame>, p: Parsed)
    ensures After([f], After(messages, p)) == After([f] + messages, p)
  {
    assert [f] + (messages + p.messages) == [f] + messages + p.messages;
  }

  lemma AfterNone(p: Parsed)
    ensures After([], p) == p
  {
    assert [] + p.messages == p.messages;
  }

  lemma DropFront(a: bytes, b: bytes, n: nat)
    requires n <= |a|
    ensures (a + b)[n..] == a[n..] + b
  {}

  /** Parsing what is left together with more is parsing on. */
  lemma {:induction false} ParseAppend(a: bytes, b: bytes)
    ensures Parse(a).bad ==> Parse(a + b).bad && Parse(a + b).messages == Parse(a).messages
    ensures !Parse(a).bad ==> Parse(a + b) == After(Parse(a).messages, Parse(Parse(a).rest + b))
    decreases |a|
  {
    hide ReadFront, Parse, After;
    ParseFront(a);
    match ReadFront(a)
    case Incomplete =>
      AfterNone(Parse(a + b));
    case Refused(_) =>
      FrontStays(a, b);
      ParseFront(a + b);
    case Whole(f, n) =>
      FrontStays(a, b);
      ParseFront(a + b);
      DropFront(a, b, n);
      ParseAppend(a[n..], b);
      AppendWhole(f, Parse(a[n..]), Parse(a[n..] + b), Parse(Parse(a[n..]).rest + b));
  }

  lemma AppendWhole(f: Frame, p: Parsed, more: Parsed, rest: Parsed)
    requires p.bad ==> more.bad && more.messages == p.messages
    requires !p.bad ==> more == After(p.messages, rest)
    ensures After([f], p).rest == p.rest && After([f], p).bad == p.bad
    ensures p.bad ==> After([f], more).bad && After([f], more).messages == After([f], p).messages
    ensures !p.bad ==> After([f], more) == After(After([f], p).messages, rest)
  {
    AfterAfter(f, p.messages, rest);
  }

  function EncodeAll(fs: seq<Frame>): bytes
    requires forall i | 0 <= i < |fs| :: ValidFrame(fs[i])
  {
    if fs == [] then [] else EncodeFrame(fs[0]) + EncodeAll(fs[1..])
  }

  /** Valid messages and a proper part of another parse to exactly those messages and that part. */
  lemma {:induction false} MessagesParse(fs: seq<Frame>, next: Frame, k: nat)
    requires (forall i | 0 <= i < |fs| :: ValidMessage(fs[i])) && ValidMessage(next) && k < |EncodeFrame(next)|
    ensures forall i | 0 <= i < |fs| :: ValidFrame(fs[i])
    ensures Parse(EncodeAll(fs) + EncodeFrame(next)[..k]) == Parsed(fs, EncodeFrame(next)[..k], false)
    decreases |fs|
  {
    hide ReadFront, EncodeFrame;
    var tail := EncodeFrame(next)[..k];
    if fs == [] {
      assert EncodeAll(fs) + tail == tail;
      PartOfFrame(next, k);
    } else {
      var more := EncodeAll(fs[1..]) + tail;
      assert EncodeAll(fs) + tail == EncodeFrame(fs[0]) + more;
      FrameReads(fs[0], more);
      assert (EncodeFrame(fs[0]) + more)[|EncodeFrame(fs[0])|..] == more;
      MessagesParse(fs[1..], next, k);
    }
  }

  /** The messages of any stream are valid, and the stream is their encodings and what is left over. */
  lemma {:induction false} ParseIsEncoding(b: bytes)
    ensures forall i | 0 <= i < |Parse(b).messages| :: ValidMessage(Parse(b).messages[i]) && ValidFrame(Parse(b).messages[i])
    ensures EncodeAll(Parse(b).messages) <= b
    ensures !Parse(b).bad ==> b == EncodeAll(Parse(b).messages) + Parse(b).rest && ReadFront(Parse(b).rest).Incomplete?
    decreases |b|
  {
    hide ReadFront, EncodeFrame;
    if ReadFront(b).Whole? {
      var f, n := ReadFront(b).frame, ReadFront(b).length;
      WholeIsEncoding(b);
      ParseIsEncoding(b[n..]);
      var more := Parse(b[n..]).messages;
      assert Parse(b).messages == [f] + more && ([f] + more)[1..] == more;
      assert b == b[..n] + b[n..];
    }
  }

  // ---------------------------------------------------------------- the decoder

  class MessageStreamDecoder {
    var buffered: array<byte>
    var length: nat

    ghost predicate Valid()
      reads this
    {
      length <= buffered.Length
    }

    ghost function Contents(): (s: bytes)
      requires Valid()
      reads this, buffered
      ensures |s| == length
    {
      buffered[..length]
    }

    constructor ()
      ensures Valid() && fresh(buffered) && Contents() == []
    {
      buffered := new byte[0];
      length := 0;
    }

    method Append(chunk: bytes)
      requires Valid()
      modifies this, buffered
      ensures Valid() && (buffered == old(buffered) || fresh(buffered))
      ensures Contents() == old(Contents()) + chunk
    {
      var required := length + |chunk|;
      if required > buffered.Length {
        var doubled := if required > buffered.Length * 2 then required else buffered.Length * 2;
        var capacity := if doubled > FRAME_HEADER_SIZE then doubled else FRAME_HEADER_SIZE;
        var grown := new byte[capacity](i requires 0 <= i < capacity reads this, buffered =>
          if i < buffered.Length then buffered[i] else 0);
        buffered := grown;
      }
      assert buffered[..length] == old(Contents());
      forall i | 0 <= i < |chunk| {
        buffered[length + i] := chunk[i];
      }
      length := required;
      assert buffered[..length] == old(Contents()) + chunk;
    }

    /** Drops what was consumed from the front of the buffer. */
    method Discard(consumed: nat)
      requires Valid() && consumed <= length
      modifies this`length, buffered
      ensures Valid() && Contents() == old(Contents())[consumed..]
    {
      if consumed > 0 {
        forall i | 0 <= i < length - consumed {
          buffered[i] := buffered[consumed + i];
        }
        length := length - consumed;
      }
      assert Contents() == old(Contents())[consumed..];
    }

    /**
     * `push`: every message the buffer now completes; None where it throws. What it keeps is
     * what has not been consumed.
     */
    method Push(chunk: bytes) returns (r: Option<seq<Frame>>)
      requires Valid()
      modifies this, buffered
      ensures Valid() && (buffered == old(buffered) || fresh(buffered))
      ensures
        var p := Parse(old(Contents()) + chunk);
        chunk != [] ==>
          && r == (if p.bad then None else Some(p.messages))
          && Contents() == p.rest
      ensures chunk == [] ==> r == Some([]) && Contents() == old(Contents())
    {
      hide Parse;
      if chunk == [] {
        return Some([]);
      }
      Append(chunk);
      var messages, consumed, bad := ScanMessages(buffered[..length]);
      Discard(consumed);
      return if bad then None else Some(messages);
    }
  }

  /** The loop of `push` over the buffered bytes. */
  method ScanMessages(b: bytes) returns (messages: seq<Frame>, consumed: nat, bad: bool)
    ensures consumed <= |b| && Parse(b) == Parsed(messages, b[consumed..], bad)
  {
    hide ReadFront;
    messages, consumed := [], 0;
    assert b[0..] == b;
    while true
      invariant consumed <= |b|
      invariant Parse(b) == After(messages, Parse(b[consumed..]))
      decreases |b| - consumed
    {
      var front := ReadFront(b[consumed..]);
      assert messages + [] == messages;
      match front {
        case Incomplete =>
          return messages, consumed, false;
        case Refused(n) =>
          assert b[consumed..][n..] == b[consumed + n..];
          return messages, consumed + n, true;
        case Whole(f, n) =>
          assert b[consumed..][n..] == b[consumed + n..];
          AfterOne(messages, f, Parse(b[consumed + n..]));
          consumed := consumed + n;
          messages := messages + [f];
      }
    }
  }

  lemma AfterOne(messages: seq<Frame>, f: Frame, p: Parsed)
    ensures After(messages, p.(messages := [f] + p.messages)) == After(messages + [f], p)
  {
    assert messages + ([f] + p.messages) == messages + [f] + p.messages;
  }

  // ---------------------------------------------------------------- chunks

  function Concat(chunks: seq<bytes>): bytes {
    if chunks == [] then [] else Concat(chunks[..|chunks| - 1]) + chunks[|chunks| - 1]
  }

  /**
   * Chunking independence: however a stream is cut into chunks, a push throws if and only if
   * the stream holds something refused; otherwise the messages pushed out are those of the
   * stream, and what stays buffered is what the stream has left over. A push that throws
   * yields only what the chunks before it completed.
   */
  method PushAll(chunks: seq<bytes>) returns (ok: bool, messages: seq<Frame>, decoder: MessageStreamDecoder)
    ensures ok <==> !Parse(Concat(chunks)).bad
    ensures ok ==> decoder.Valid() && messages == Parse(Concat(chunks)).messages && decoder.Contents() == Parse(Concat(chunks)).rest
    ensures !ok ==> exists j | 0 <= j < |chunks| ::
      && Parse(Concat(chunks[..j + 1])).bad && !Parse(Concat(chunks[..j])).bad
      && messages == Parse(Concat(chunks[..j])).messages
  {
    hide Parse;
    decoder := new MessageStreamDecoder();
    messages := [];
    NothingParses();
    for i := 0 to |chunks|
      invariant fresh(decoder) && fresh(decoder.buffered) && decoder.Valid()
      invariant Parse(Concat(chunks[..i])) == Parsed(messages, decoder.Contents(), false)
    {
      assert chunks[..i + 1][..i] == chunks[..i];
      ParseAppend(Concat(chunks[..i]), chunks[i]);
      if chunks[i] == [] {
        assert Concat(chunks[..i + 1]) == Concat(chunks[..i]);
      }
      var r := decoder.Push(chunks[i]);
      if r.None? {
        BadStays(chunks, i + 1);
        return false, messages, decoder;
      }
      messages := messages + r.value;
    }
    assert chunks[..|chunks|] == chunks;
    return true, messages, decoder;
  }

  lemma NothingParses()
    ensures Parse([]) == Parsed([], [], false) && Concat([]) == []
  {}

  lemma {:induction false} BadStays(chunks: seq<bytes>, n: nat)
    requires n <= |chunks| && Parse(Concat(chunks[..n])).bad
    ensures Parse(Concat(chunks)).bad
    decreases |chunks| - n
  {
    hide Parse;
    if n == |chunks| {
      assert chunks[..n] == chunks;
    } else {
      assert chunks[..n + 1][..n] == chunks[..n];
      ParseAppend(Concat(chunks[..n]), chunks[n]);
      BadStays(chunks, n + 1);
    }
  }

  lemma RefusalParses(f: Frame, bad: bytes)
    requires ValidMessage(f) && ReadFront(bad).Refused?
    ensures Parse(EncodeFrame(f) + bad).bad && Parse(EncodeFrame(f)) == Parsed([f], [], false)
  {
    hide ReadFront, EncodeFrame;
    FrameReads(f, bad);
    FrameReads(f, []);
    assert EncodeFrame(f) + [] == EncodeFrame(f);
    assert (EncodeFrame(f) + bad)[|EncodeFrame(f)|..] == bad;
    NothingParses();
    assert EncodeFrame(f)[|EncodeFrame(f)|..] == [];
  }

  lemma OneChunk(a: bytes)
    ensures Concat([a]) == a && Concat([a][..0]) == []
  {
    assert [a][..0] == [] && Concat([]) + a == a;
  }

  lemma TwoChunks(a: bytes, b: bytes)
    ensures Concat([a, b]) == a + b && [a, b][..1] == [a] && [a, b][..0] == []
  {
    OneChunk(a);
  }

  /**
   * With a refused message the cut does matter: the same stream yields the message before the
   * refused one if it arrives in an earlier chunk, and drops it if both arrive together.
   */
  method RefusalDropsMessages(f: Frame, bad: bytes) returns (together: seq<Frame>, apart: seq<Frame>)
    requires ValidMessage(f) && ReadFront(bad).Refused?
    ensures Concat([EncodeFrame(f) + bad]) == Concat([EncodeFrame(f), bad])
    ensures together == [] && apart == [f]
  {
    hide Parse, EncodeFrame, ReadFront, Concat;
    RefusalParses(f, bad);
    OneChunk(EncodeFrame(f) + bad);
    OneChunk(EncodeFrame(f));
    TwoChunks(EncodeFrame(f), bad);
    NothingParses();
    var ok, decoder;
    ok, together, decoder := PushAll([EncodeFrame(f) + bad]);
    ok, apart, decoder := PushAll([EncodeFrame(f), bad]);
  }
}
