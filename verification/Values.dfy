/** Document values and the order of strings by their bytes. */
module Values {
  import opened Bytes
  import opened Text

  /**
   * A value. A number is an integer that JavaScript holds exactly, or any other double by
   * its 64 bits (negative zero and NaN among them). A document is a map, so two documents
   * that differ only in the order of their keys are the same value.
   */
  datatype Value =
    | Null
    | Bool(b: bool)
    | Int(i: int)
    | Double(bits: u64)
    | Big(n: int)
    | Str(t: text)
    | Date(ms: int)
    | Bin(data: bytes)
    | Id(id: bytes)
    | Arr(items: seq<Value>)
    | Doc(fields: map<text, Value>)

  type Document = map<text, Value>

  const MAX_SAFE_INTEGER := 0x1F_FFFF_FFFF_FFFF
  const MAX_DATE := 8_640_000_000_000_000
  const CUSTOM_ID_BYTE_LENGTH := 16

  // The number a bit pattern stands for. Nothing depends on which one it is.
  const FLOAT: u64 -> Value

  /** The bits are those of a double that is not a safe integer, with NaN in its canonical form. */
  predicate ProperDouble(bits: u64) {
    FLOAT(bits) == Double(bits)
  }

  // ---------------------------------------------------------------- comparing bytes

  /** Lexicographic order, a prefix before what it is a prefix of. */
  predicate Before(a: seq<int>, b: seq<int>) {
    if b == [] then false
    else if a == [] then true
    else a[0] < b[0] || (a[0] == b[0] && Before(a[1..], b[1..]))
  }

  lemma {:induction false} BeforeTotal(a: seq<int>, b: seq<int>)
    ensures Before(a, b) || Before(b, a) || a == b
    ensures !(Before(a, b) && Before(b, a))
    ensures a == b ==> !Before(a, b)
  {
    if a != [] && b != [] {
      BeforeTotal(a[1..], b[1..]);
      assert a == [a[0]] + a[1..] && b == [b[0]] + b[1..];
    }
  }

  lemma {:induction false} BeforeTransitive(a: seq<int>, b: seq<int>, c: seq<int>)
    requires Before(a, b) && Before(b, c)
    ensures Before(a, c)
  {
    if a != [] && a[0] == b[0] && b[0] == c[0] {
      BeforeTransitive(a[1..], b[1..], c[1..]);
    }
  }

  lemma {:induction false} BeforeCommon(p: seq<int>, a: seq<int>, b: seq<int>)
    ensures Before(p + a, p + b) == Before(a, b)
  {
    if p == [] {
      assert p + a == a && p + b == b;
    } else {
      assert (p + a)[1..] == p[1..] + a && (p + b)[1..] == p[1..] + b;
      BeforeCommon(p[1..], a, b);
    }
  }

  /** The byte loop: negative, zero or positive as the first is before, equal to or after the second. */
  method CompareBytes(left: seq<int>, right: seq<int>) returns (r: int)
    ensures r < 0 <==> Before(left, right)
    ensures r > 0 <==> Before(right, left)
    ensures r == 0 <==> left == right
  {
    var shared := if |left| < |right| then |left| else |right|;
    BeforeTotal(left, right);
    for index := 0 to shared
      invariant left[..index] == right[..index]
    {
      assert left == left[..index] + left[index..] && right == right[..index] + right[index..];
      BeforeCommon(left[..index], left[index..], right[index..]);
      BeforeCommon(left[..index], right[index..], left[index..]);
      if left[index] != right[index] {
        return left[index] - right[index];
      }
    }
    assert left == left[..shared] + left[shared..] && right == right[..shared] + right[shared..];
    BeforeCommon(left[..shared], left[shared..], right[shared..]);
    BeforeCommon(left[..shared], right[shared..], left[shared..]);
    return |left| - |right|;
  }

  // ---------------------------------------------------------------- sorted keys

  ghost predicate Least(keys: set<text>, k: text) {
    k in keys && forall j | j in keys && j != k :: Before(k, j)
  }

  lemma {:induction false} LeastExists(keys: set<text>)
    requires keys != {}
    ensures exists k: text :: Least(keys, k)
    decreases |keys|
  {
    var x :| x in keys;
    if keys == {x} {
      assert Least(keys, x);
    } else {
      LeastExists(keys - {x});
      var y: text :| Least(keys - {x}, y);
      BeforeTotal(x, y);
      if Before(x, y) {
        forall j | j in keys && j != x ensures Before(x, j) {
          if j != y {
            BeforeTransitive(x, y, j);
          }
        }
        assert Least(keys, x);
      } else {
        assert Least(keys, y);
      }
    }
  }

  lemma LeastUnique(keys: set<text>, j: text, k: text)
    requires Least(keys, j) && Least(keys, k)
    ensures j == k
  {
    BeforeTotal(j, k);
  }

  /** The keys in the order of their UTF-8 bytes. */
  ghost function Sorted(keys: set<text>): (s: seq<text>)
    ensures |s| == |keys| && forall i | 0 <= i < |s| :: s[i] in keys
    ensures forall k | k in keys :: k in s
    ensures forall i, j | 0 <= i < j < |s| :: s[i] != s[j]
    decreases |keys|
  {
    if keys == {} then [] else
    LeastExists(keys);
    var k: text :| Least(keys, k);
    [k] + Sorted(keys - {k})
  }

  lemma SortedStep(keys: set<text>, k: text)
    requires Least(keys, k)
    ensures Sorted(keys) == [k] + Sorted(keys - {k})
  {
    LeastExists(keys);
    var j: text :| Least(keys, j) && Sorted(keys) == [j] + Sorted(keys - {j});
    LeastUnique(keys, j, k);
  }
}
