/** What is known of UTF-8 apart from how it is computed: its lengths, that it
    keeps the order of code points, and the examples of section 7 of RFC 3629. */
module Utf8Order {
  import opened Bytes
  import opened Utf8
  import Loading

  /** The bytes a character counts for against a limit are those it is encoded
      with. */
  lemma CharBytesAreEncoded(c: char)
    ensures Loading.CharBytes(c) == |EncodePoint(c as nat)|
  {
    hide Upper, Lower;
  }

  lemma UpperOrder(p: nat, q: nat)
    requires p < q
    ensures Upper(p) < Upper(q) || (Upper(p) == Upper(q) && Lower(p) < Lower(q))
  {
    UpperBounds(p);
    UpperBounds(q);
  }

  lemma BeforeGrows(a: seq<byte>, b: seq<byte>, x: byte, y: byte)
    requires |a| == |b| && Before(a, b)
    ensures Before(a + [x], b + [y])
  {
    var k: nat :| DiffersAt(a, b, k) && a[k] < b[k];
    assert (a + [x])[..k] == a[..k] && (b + [y])[..k] == b[..k];
    assert DiffersAt(a + [x], b + [y], k);
  }

  lemma BeforeLast(a: seq<byte>, x: byte, y: byte)
    requires x < y
    ensures Before(a + [x], a + [y])
  {
    assert (a + [x])[..|a|] == a && (a + [y])[..|a|] == a;
    assert DiffersAt(a + [x], a + [y], |a|);
  }

  lemma BeforeFirst(x: byte, a: seq<byte>, y: byte, b: seq<byte>)
    requires x < y
    ensures Before([x] + a, [y] + b)
  {
    assert DiffersAt([x] + a, [y] + b, 0);
  }

  lemma BeforeUnder(x: byte, a: seq<byte>, b: seq<byte>)
    requires |a| == |b| && Before(a, b)
    ensures Before([x] + a, [x] + b)
  {
    var k: nat :| DiffersAt(a, b, k) && a[k] < b[k];
    assert ([x] + a)[..k + 1] == [x] + a[..k] && ([x] + b)[..k + 1] == [x] + b[..k];
    assert DiffersAt([x] + a, [x] + b, k + 1);
  }

  /** Equal lengths: the order of the bits in the lead byte, then of the rest. */
  lemma {:induction false} TailOrder(p: nat, q: nat, n: nat)
    requires p < q
    ensures GroupsAbove(p, n) < GroupsAbove(q, n) || (GroupsAbove(p, n) == GroupsAbove(q, n) && Before(Tail(p, n), Tail(q, n)))
    decreases n
  {
    hide Upper, Lower, Before;
    if n > 0 {
      UpperOrder(p, q);
      if Upper(p) < Upper(q) {
        TailOrder(Upper(p), Upper(q), n - 1);
        if Before(Tail(Upper(p), n - 1), Tail(Upper(q), n - 1)) {
          BeforeGrows(Tail(Upper(p), n - 1), Tail(Upper(q), n - 1), 0x80 + Lower(p), 0x80 + Lower(q));
        }
      } else {
        BeforeLast(Tail(Upper(p), n - 1), 0x80 + Lower(p), 0x80 + Lower(q));
      }
    }
  }

  /** Bits over fewer continuation bytes make a smaller lead byte. */
  lemma LeadOrder(p: nat, q: nat)
    requires p < q < 0x11_0000
    ensures Extra(p) <= Extra(q)
    ensures var x, y := LeadByte(GroupsAbove(p, Extra(p)), Extra(p)), LeadByte(GroupsAbove(q, Extra(q)), Extra(q));
            && (Extra(p) < Extra(q) ==> x < y)
            && (Extra(p) == Extra(q) ==> (x < y <==> GroupsAbove(p, Extra(p)) < GroupsAbove(q, Extra(p))))
            && (Extra(p) == Extra(q) ==> (x == y <==> GroupsAbove(p, Extra(p)) == GroupsAbove(q, Extra(p))))
  {
    UpperBounds(p);
    UpperBounds(q);
    UpperBounds(Upper(p));
    UpperBounds(Upper(q));
    UpperBounds(Upper(Upper(p)));
    UpperBounds(Upper(Upper(q)));
    hide Upper, Lower;
    ThreeGroups(p);
    ThreeGroups(q);
  }

  /** Encoding keeps the order of code points: bytes compare as they do. */
  lemma OrderIsKept(p: nat, q: nat)
    requires p < q < 0x11_0000
    ensures Before(EncodePoint(p), EncodePoint(q))
  {
    EncodedParts(p);
    EncodedParts(q);
    LeadOrder(p, q);
    TailOrder(p, q, Extra(p));
    hide EncodePoint, GroupsAbove, Tail, Extra, LeadByte, Before;
    var a, b := EncodePoint(p), EncodePoint(q);
    assert a == [a[0]] + a[1..] && b == [b[0]] + b[1..];
    if a[0] < b[0] {
      BeforeFirst(a[0], a[1..], b[0], b[1..]);
    } else {
      BeforeUnder(a[0], a[1..], b[1..]);
    }
  }

  /** A, not identical to, Alpha, full stop; a Hangul syllable; and a character
      outside the first plane, written as a surrogate pair. */
  lemma Examples()
    ensures Encode([0x41, 0x2262, 0x391, 0x2e]) == [0x41, 0xe2, 0x89, 0xa2, 0xce, 0x91, 0x2e]
    ensures Encode([0xd55c]) == [0xed, 0x95, 0x9c]
    ensures Encode([0xd84c, 0xdfb4]) == [0xf0, 0xa3, 0x8e, 0xb4]
  {
    hide Encode, EncodePoint;
    Codes();
    assert Encode([]) == [] by { Nothing(); }
    OnePoint(0x2e, []);
    OnePoint(0x391, [0x2e]);
    OnePoint(0x2262, [0x391, 0x2e]);
    OnePoint(0x41, [0x2262, 0x391, 0x2e]);
    assert [0x391] + [0x2e] == [0x391, 0x2e] && [0x2262] + [0x391, 0x2e] == [0x2262, 0x391, 0x2e];
    assert [0x41] + [0x2262, 0x391, 0x2e] == [0x41, 0x2262, 0x391, 0x2e];
    OnePoint(0xd55c, []);
    Pair();
  }

  lemma Nothing()
    ensures Encode([]) == []
  {
  }

  lemma Codes()
    ensures EncodePoint(0x41) == [0x41] && EncodePoint(0x2262) == [0xe2, 0x89, 0xa2] && EncodePoint(0x391) == [0xce, 0x91]
    ensures EncodePoint(0x2e) == [0x2e] && EncodePoint(0xd55c) == [0xed, 0x95, 0x9c]
  {
  }

  lemma OnePoint(u: unit16, rest: Units)
    requires !High(u)
    ensures [u] + rest != [] && Encode([u] + rest) == EncodePoint(u) + Encode(rest) && [u] + [] == [u]
  {
    hide EncodePoint;
    assert ([u] + rest)[1..] == rest;
  }

  lemma Pair()
    ensures Encode([0xd84c, 0xdfb4]) == [0xf0, 0xa3, 0x8e, 0xb4]
  {
    var t: Units := [0xd84c, 0xdfb4];
    assert FirstPoint(t) == (0x2_33b4, 2) && t[2..] == [];
    assert Encode(t) == EncodePoint(0x2_33b4) + Encode([]);
  }
}
