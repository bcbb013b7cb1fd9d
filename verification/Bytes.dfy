/** Bytes, big-endian integers, and the checksum the file formats rely on. */
module Bytes {
  type byte = x: int | 0 <= x < 256
  type bytes = seq<byte>
  type u32 = x: int | 0 <= x < 0x1_0000_0000
  type u64 = x: int | 0 <= x < 0x1_0000_0000_0000_0000

  function Pow256(k: nat): (p: nat)
    ensures p > 0
  {
    if k == 0 then 1 else 256 * Pow256(k - 1)
  }

  /** The low `k` bytes of `n`, most significant first. */
  function Be(n: nat, k: nat): (s: bytes)
    ensures |s| == k
  {
    if k == 0 then [] else Be(n / 256, k - 1) + [n % 256]
  }

  function OfBe(s: bytes): nat {
    if s == [] then 0 else OfBe(s[..|s| - 1]) * 256 + s[|s| - 1]
  }

  lemma {:induction false} BeRoundTrip(n: nat, k: nat)
    requires n < Pow256(k)
    ensures OfBe(Be(n, k)) == n
  {
    if k > 0 {
      BeRoundTrip(n / 256, k - 1);
      assert Be(n, k)[..k - 1] == Be(n / 256, k - 1);
    }
  }

  lemma {:induction false} OfBeBound(s: bytes)
    ensures OfBe(s) < Pow256(|s|)
  {
    if s != [] {
      OfBeBound(s[..|s| - 1]);
    }
  }

  /** Reading then writing gives the bytes back: the fixed-width codec is a bijection. */
  lemma {:induction false} OfBeRoundTrip(s: bytes)
    ensures Be(OfBe(s), |s|) == s
  {
    if s != [] {
      OfBeRoundTrip(s[..|s| - 1]);
      assert s == s[..|s| - 1] + [s[|s| - 1]];
    }
  }

  lemma Widths()
    ensures Pow256(2) == 0x1_0000
    ensures Pow256(4) == 0x1_0000_0000
    ensures Pow256(8) == 0x1_0000_0000_0000_0000
  {
    assert Pow256(1) == 256;
    assert Pow256(2) == 0x1_0000;
    assert Pow256(3) == 0x100_0000;
    assert Pow256(4) == 0x1_0000_0000;
    assert Pow256(5) == 0x100_0000_0000;
    assert Pow256(6) == 0x1_0000_0000_0000;
    assert Pow256(7) == 0x100_0000_0000_0000;
  }

  function U32(n: u32): (s: bytes)
    ensures |s| == 4 && OfBe(s) == n
  {
    Widths();
    BeRoundTrip(n, 4);
    Be(n, 4)
  }

  function U64(n: u64): (s: bytes)
    ensures |s| == 8 && OfBe(s) == n
  {
    Widths();
    BeRoundTrip(n, 8);
    Be(n, 8)
  }

  function ReadU32(s: bytes): (n: u32)
    requires |s| == 4
    ensures U32(n) == s
  {
    Widths();
    OfBeBound(s);
    OfBeRoundTrip(s);
    OfBe(s)
  }

  function ReadU64(s: bytes): (n: u64)
    requires |s| == 8
    ensures U64(n) == s
  {
    Widths();
    OfBeBound(s);
    OfBeRoundTrip(s);
    OfBe(s)
  }

  predicate AllZero(s: bytes) {
    forall i | 0 <= i < |s| :: s[i] == 0
  }

  lemma {:induction false} ZeroReadsZero(s: bytes)
    requires AllZero(s)
    ensures OfBe(s) == 0
  {
    if s != [] {
      ZeroReadsZero(s[..|s| - 1]);
    }
  }

  // One byte of CRC-32. Nothing below depends on which function it is, so every
  // theorem holds for any checksum that folds over the bytes from a seed.
  const CRC_STEP: (u32, byte) -> u32

  function Crc(s: bytes, seed: u32): u32 {
    if s == [] then seed else CRC_STEP(Crc(s[..|s| - 1], seed), s[|s| - 1])
  }

  /** The checksum of a file written in chunks is the checksum of the whole file. */
  lemma {:induction false} CrcChain(a: bytes, b: bytes, seed: u32)
    ensures Crc(a + b, seed) == Crc(b, Crc(a, seed))
  {
    if b == [] {
      assert a + b == a;
    } else {
      assert (a + b)[..|a + b| - 1] == a + b[..|b| - 1];
      CrcChain(a, b[..|b| - 1], seed);
    }
  }

  // Sequence facts that proofs over long concatenations call by name.

  lemma Regroup<T>(p: seq<T>, a: seq<T>, b: seq<T>, t: seq<T>)
    ensures p + (a + b) + t == p + a + b + t
    ensures p + (a + b) + t == p + a + (b + t)
  {}

  lemma TakeOfConcat<T>(a: seq<T>, b: seq<T>, k: nat)
    requires k <= |a| + |b|
    ensures k <= |a| ==> (a + b)[..k] == a[..k]
    ensures k >= |a| ==> (a + b)[..k] == a + b[..k - |a|]
  {}

  lemma Pieces<T>(p: seq<T>, a: seq<T>, b: seq<T>, c: seq<T>, d: seq<T>, t: seq<T>)
    ensures
      var s := p + (a + b + c + d) + t;
      var o := |p|; var u := o + |a|; var v := u + |b|; var w := v + |c|;
      && s[o..u] == a && s[u..v] == b && s[v..w] == c && s[w..w + |d|] == d
  {
    var s := p + (a + b + c + d) + t;
    assert s == p + a + (b + c + d + t);
    assert s == p + a + b + (c + d + t);
    assert s == p + a + b + c + (d + t);
  }

  lemma SubSlice<T>(s: seq<T>, u: nat, v: nat, i: nat, j: nat)
    requires u <= v <= |s| && i <= j <= v - u
    ensures s[u + i..u + j] == s[u..v][i..j]
  {
    var a, b := s[u + i..u + j], s[u..v][i..j];
    assert |a| == |b|;
    assert forall k | 0 <= k < |a| :: a[k] == b[k];
  }

  lemma TakeTail<T>(s: seq<T>, n: nat)
    requires 0 < n <= |s|
    ensures s[..n][0] == s[0] && s[..n][1..] == s[1..][..n - 1]
  {}
}
