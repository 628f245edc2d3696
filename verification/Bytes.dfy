/** Byte strings, the big-endian `u32` encoding every count, identifier and
    class index of a signature uses, and the unsigned lexicographic order that
    byte strings, names and map keys are sorted by. */
module Bytes {

  const U32_LIMIT: nat := 0x1_0000_0000

  type byte = n: nat | n < 256
  type u32 = n: nat | n < 0x1_0000_0000

  /** A Rust `str`: the UTF-8 bytes of the text. */
  type Text = seq<byte>

  /** The four big-endian bytes of a `u32`. */
  function U32Be(n: nat): (r: seq<byte>)
    requires n < U32_LIMIT
    ensures |r| == 4
  {
    [n / 0x100_0000, n / 0x1_0000 % 256, n / 256 % 256, n % 256]
  }

  lemma U32BeInjective(m: nat, n: nat)
    requires m < U32_LIMIT && n < U32_LIMIT
    requires U32Be(m) == U32Be(n)
    ensures m == n
  {
    U32BeValue(m);
    U32BeValue(n);
  }

  lemma U32BeValue(n: nat)
    requires n < U32_LIMIT
    ensures var b: seq<int> := U32Be(n); n == b[0] * 0x100_0000 + b[1] * 0x1_0000 + b[2] * 256 + b[3]
  {
    assert n / 0x1_0000 == n / 256 / 256;
    assert n / 0x100_0000 == n / 0x1_0000 / 256;
  }

  /** A self-delimiting encoding: two encodings that start two equal byte
      strings are the same encoding. */
  lemma U32BePrefix(m: nat, x: seq<byte>, n: nat, y: seq<byte>)
    requires m < U32_LIMIT && n < U32_LIMIT
    requires U32Be(m) + x == U32Be(n) + y
    ensures m == n && x == y
  {
    SplitEqual(U32Be(m), x, U32Be(n), y);
    U32BeInjective(m, n);
  }

  lemma SplitEqual<T>(a: seq<T>, x: seq<T>, b: seq<T>, y: seq<T>)
    requires |a| == |b| && a + x == b + y
    ensures a == b && x == y
  {
    assert a == (a + x)[..|a|] && b == (b + y)[..|b|];
    assert x == (a + x)[|a|..] && y == (b + y)[|b|..];
  }

  /** Unsigned lexicographic order, the shorter prefix first. */
  predicate LexLe(a: seq<byte>, b: seq<byte>) {
    if a == [] then true
    else if b == [] then false
    else a[0] < b[0] || (a[0] == b[0] && LexLe(a[1..], b[1..]))
  }

  lemma {:induction false} LexReflexive(a: seq<byte>)
    ensures LexLe(a, a)
  {
    if a != [] { LexReflexive(a[1..]); }
  }

  lemma {:induction false} LexTotal(a: seq<byte>, b: seq<byte>)
    ensures LexLe(a, b) || LexLe(b, a)
  {
    if a != [] && b != [] { LexTotal(a[1..], b[1..]); }
  }

  lemma {:induction false} LexAntisymmetric(a: seq<byte>, b: seq<byte>)
    requires LexLe(a, b) && LexLe(b, a)
    ensures a == b
  {
    if a != [] && b != [] {
      LexAntisymmetric(a[1..], b[1..]);
      assert a == [a[0]] + a[1..] && b == [b[0]] + b[1..];
    }
  }

  lemma {:induction false} LexTransitive(a: seq<byte>, b: seq<byte>, c: seq<byte>)
    requires LexLe(a, b) && LexLe(b, c)
    ensures LexLe(a, c)
  {
    if a != [] && b != [] && c != [] && a[0] == b[0] == c[0] {
      LexTransitive(a[1..], b[1..], c[1..]);
    }
  }

  /** The order on byte strings by where they differ: the earlier one is a proper
      prefix of the other, or has the smaller byte at the first difference. */
  ghost predicate Before(a: seq<byte>, b: seq<byte>) {
    (|a| < |b| && a == b[..|a|]) || exists k: nat :: DiffersAt(a, b, k) && a[k] < b[k]
  }

  /** The first position where two byte strings differ. */
  predicate DiffersAt(a: seq<byte>, b: seq<byte>, k: nat) {
    k < |a| && k < |b| && a[..k] == b[..k] && a[k] != b[k]
  }

  lemma {:induction false} LexIsBefore(a: seq<byte>, b: seq<byte>)
    ensures LexLe(a, b) && a != b <==> Before(a, b)
  {
    if a != [] && b != [] && a[0] == b[0] {
      LexIsBefore(a[1..], b[1..]);
      BeforeTail(a, b);
      assert a == [a[0]] + a[1..] && b == [b[0]] + b[1..];
    } else if a != [] && b != [] {
      assert DiffersAt(a, b, 0);
      forall k: nat | DiffersAt(a, b, k) ensures k == 0 { if k > 0 { SharedFirst(a, b, k); } }
      PrefixSharesFirst(a, b);
    } else {
      assert forall k: nat :: !DiffersAt(a, b, k);
    }
  }

  lemma PrefixSharesFirst(a: seq<byte>, b: seq<byte>)
    ensures a != [] && |a| < |b| && a == b[..|a|] ==> a[0] == b[0]
  {
    if a != [] && |a| < |b| { assert b[..|a|][0] == b[0]; }
  }

  lemma SharedFirst(a: seq<byte>, b: seq<byte>, k: nat)
    requires 0 < k <= |a| && k <= |b| && a[..k] == b[..k]
    ensures a[0] == b[0]
  {
    assert a[0] == a[..k][0] && b[0] == b[..k][0];
  }

  lemma BeforeTail(a: seq<byte>, b: seq<byte>)
    requires a != [] && b != [] && a[0] == b[0]
    ensures Before(a, b) <==> Before(a[1..], b[1..])
  {
    var x, y := a[1..], b[1..];
    assert a == [a[0]] + x && b == [b[0]] + y;
    assert |a| < |b| ==> b[..|a|] == [b[0]] + y[..|x|];
    if exists k: nat :: DiffersAt(a, b, k) && a[k] < b[k] {
      var k: nat :| DiffersAt(a, b, k) && a[k] < b[k];
      assert x[..k - 1] == a[..k][1..] && y[..k - 1] == b[..k][1..];
      assert DiffersAt(x, y, k - 1);
    }
    if exists k: nat :: DiffersAt(x, y, k) && x[k] < y[k] {
      var k: nat :| DiffersAt(x, y, k) && x[k] < y[k];
      assert a[..k + 1] == [a[0]] + x[..k] && b[..k + 1] == [b[0]] + y[..k];
      assert DiffersAt(a, b, k + 1);
    }
  }
}
