/**
 * Strings. A string is identified with its UTF-8 bytes, so encoding is the identity and
 * decoding is where the work is: `TextDecoder` rejects bytes that are not UTF-8 and, because
 * `ignoreBOM` is not set, drops a leading U+FEFF (EF BB BF).
 */
module Text {
  import opened Bytes

  datatype Option<+T> = None | Some(value: T)

  type text = bytes

  // Which byte strings are UTF-8. Nothing depends on the answer.
  const UTF8: bytes -> bool

  const BOM: bytes := [0xEF, 0xBB, 0xBF]

  predicate StartsWithBom(t: text) {
    BOM <= t
  }

  function DecodeText(raw: bytes): Option<text> {
    if !UTF8(raw) then None
    else if StartsWithBom(raw) then Some(raw[3..])
    else Some(raw)
  }

  /** A string survives decoding exactly when it is well formed and has no leading mark. */
  predicate Plain(t: text) {
    UTF8(t) && !StartsWithBom(t)
  }

  lemma PlainExact(t: text)
    ensures DecodeText(t) == Some(t) <==> Plain(t)
  {
    if StartsWithBom(t) {
      assert |t[3..]| < |t|;
    }
  }

  // ---------------------------------------------------------------- reading from the front

  /** A value read from the front of some bytes, and what is left. */
  datatype Read<+T> = Bad | Got(value: T, rest: bytes)

  function Take(b: bytes, n: nat): Read<bytes> {
    if n > |b| then Bad else Got(b[..n], b[n..])
  }

  function TakeNat(b: bytes, width: nat): Read<nat> {
    if width > |b| then Bad else Got(OfBe(b[..width]), b[width..])
  }

  lemma TakeFront(a: bytes, t: bytes)
    ensures Take(a + t, |a|) == Got(a, t)
  {
    assert (a + t)[..|a|] == a && (a + t)[|a|..] == t;
  }

  lemma TakeNatFront(n: nat, width: nat, t: bytes)
    requires n < Pow256(width)
    ensures TakeNat(Be(n, width) + t, width) == Got(n, t)
  {
    TakeFront(Be(n, width), t);
    BeRoundTrip(n, width);
  }
}
