/** The generated runtime's UTF-8: strings are UTF-16 code units, and the
    strict encoder and decoder are inverse to each other (RFC 3629). */
module Utf8 {
  import opened Bytes
  import opened Wrappers

  type unit16 = n: nat | n < 0x1_0000

  type Units = seq<unit16>

  predicate High(u: nat) { 0xd800 <= u <= 0xdbff }

  predicate Low(u: nat) { 0xdc00 <= u <= 0xdfff }

  /** A Unicode scalar value. */
  predicate Scalar(p: nat) { p < 0xd800 || 0xe000 <= p < 0x11_0000 }

  /** The code point of a surrogate pair. */
  function PairPoint(high: nat, low: nat): (p: nat)
    requires High(high) && Low(low)
    ensures 0x1_0000 <= p < 0x11_0000
  { 0x1_0000 + (high - 0xd800) * 0x400 + (low - 0xdc00) }

  /** What iterating a string yields: a surrogate pair as one code point, an
      unpaired surrogate as itself. */
  function FirstPoint(t: Units): (r: (nat, nat))
    requires t != []
    ensures 1 <= r.1 <= 2 && r.1 <= |t|
  {
    if High(t[0]) && |t| >= 2 && Low(t[1]) then (PairPoint(t[0], t[1]), 2) else (t[0], 1)
  }

  /** `String.fromCodePoint`. */
  function UnitsOf(p: nat): (r: Units)
    requires p < 0x11_0000
    ensures 1 <= |r| <= 2
  {
    if p < 0x1_0000 then [p] else [0xd800 + (p - 0x1_0000) / 0x400, 0xdc00 + (p - 0x1_0000) % 0x400]
  }

  /** No unpaired surrogate. */
  predicate WellFormed(t: Units)
    decreases |t|
  {
    t == [] || (Scalar(FirstPoint(t).0) && WellFormed(t[FirstPoint(t).1..]))
  }

  // ----- one code point -----

  /** `p >> 6` and `p & 0x3f`. */
  function Upper(p: nat): nat { p / 0x40 }

  function Lower(p: nat): (r: nat)
    ensures r < 0x40
  { p % 0x40 }

  lemma UpperBounds(p: nat)
    ensures p == Upper(p) * 0x40 + Lower(p)
    ensures p < 0x800 <==> Upper(p) < 0x20
    ensures p < 0x80 <==> Upper(p) < 2
    ensures p < 0x1_0000 <==> Upper(p) < 0x400
    ensures p < 0x11_0000 <==> Upper(p) < 0x4400
    ensures p < 0x400 <==> Upper(p) < 0x10
    ensures p < 0x4400 <==> Upper(p) < 0x110
    ensures p < 0x110 ==> Upper(p) < 5
  {
  }

  lemma Joined(upper: nat, lower: nat)
    requires lower < 0x40
    ensures Upper(upper * 0x40 + lower) == upper && Lower(upper * 0x40 + lower) == lower
  {
  }

  /** The bytes of a code point; the bit fields of the source do not overlap,
      so its `|` is `+`, and `>> 12` is `>> 6` twice. */
  function EncodePoint(p: nat): (r: seq<byte>)
    requires p < 0x11_0000
    ensures 1 <= |r| <= 4
  {
    UpperBounds(p);
    UpperBounds(Upper(p));
    UpperBounds(Upper(Upper(p)));
    if p < 0x80 then [p]
    else if p < 0x800 then [0xc0 + Upper(p), 0x80 + Lower(p)]
    else if p < 0x1_0000 then [0xe0 + Upper(Upper(p)), 0x80 + Lower(Upper(p)), 0x80 + Lower(p)]
    else
      [0xf0 + Upper(Upper(Upper(p))), 0x80 + Lower(Upper(Upper(p))), 0x80 + Lower(Upper(p)), 0x80 + Lower(p)]
  }

  /** How a lead byte starts a sequence: the bits its mask leaves, the
      continuation bytes that follow and the least code point they may spell. */
  function Lead(b: byte): Option<(nat, nat, nat)> {
    if b < 0x80 then Some((b, 0, 0))
    else if 0xc2 <= b <= 0xdf then Some((b - 0xc0, 1, 0x80))
    else if 0xe0 <= b <= 0xef then Some((b - 0xe0, 2, 0x800))
    else if 0xf0 <= b <= 0xf4 then Some((b - 0xf0, 3, 0x1_0000))
    else None
  }

  predicate Continuation(b: byte) { 0x80 <= b <= 0xbf }

  /** The six bits of a continuation byte. */
  function Bits(b: byte): (r: nat)
    ensures r < 0x40
    ensures Continuation(b) ==> b == 0x80 + r
  { b % 0x40 }

  /** Folding continuation bytes onto the bits so far. */
  function Continue(point: nat, bytes: seq<byte>): Option<nat>
    decreases |bytes|
  {
    if bytes == [] then Some(point)
    else if !Continuation(bytes[0]) then None
    else Continue(point * 0x40 + Bits(bytes[0]), bytes[1..])
  }

  /** The code point at the start of some bytes, and how many it takes. */
  function DecodePoint(bytes: seq<byte>): (r: Option<(nat, nat)>)
    requires bytes != []
    ensures r.Some? ==> 1 <= r.value.1 <= |bytes| && Scalar(r.value.0)
  {
    var lead := Lead(bytes[0]);
    if lead.None? then None
    else
      var (bits, extra, least) := lead.value;
      if 1 + extra > |bytes| then None
      else
        var point := Continue(bits, bytes[1..1 + extra]);
        if point.None? || point.value < least || !Scalar(point.value) then None else Some((point.value, 1 + extra))
  }

  lemma {:induction false} ContinueLast(point: nat, bytes: seq<byte>, b: byte)
    ensures Continue(point, bytes + [b]) ==
            var rest := Continue(point, bytes);
            if rest.Some? && Continuation(b) then Some(rest.value * 0x40 + Bits(b)) else None
    decreases |bytes|
  {
    var all := bytes + [b];
    if bytes == [] {
      assert all[1..] == [];
    } else {
      assert all[0] == bytes[0] && all[1..] == bytes[1..] + [b];
      if Continuation(bytes[0]) { ContinueLast(point * 0x40 + Bits(bytes[0]), bytes[1..], b); }
    }
  }

  /** The continuation bytes of a number's low six-bit groups. */
  function Tail(p: nat, n: nat): (r: seq<byte>)
    ensures |r| == n
  {
    if n == 0 then [] else Tail(Upper(p), n - 1) + [0x80 + Lower(p)]
  }

  function GroupsAbove(p: nat, n: nat): nat {
    if n == 0 then p else GroupsAbove(Upper(p), n - 1)
  }

  /** Folding the groups back onto the rest gives the number. */
  lemma {:induction false} TailFolds(p: nat, n: nat)
    ensures Continue(GroupsAbove(p, n), Tail(p, n)) == Some(p)
    decreases n
  {
    hide Upper, Lower;
    if n > 0 {
      TailFolds(Upper(p), n - 1);
      ContinueLast(GroupsAbove(p, n), Tail(Upper(p), n - 1), 0x80 + Lower(p));
      UpperBounds(p);
    }
  }

  /** Bytes that fold onto some bits are the groups of the number they fold
      to. */
  lemma {:induction false} FoldedIsTail(bits: nat, tail: seq<byte>)
    requires Continue(bits, tail).Some?
    ensures var p := Continue(bits, tail).value; bits == GroupsAbove(p, |tail|) && tail == Tail(p, |tail|)
    decreases |tail|
  {
    hide Upper, Lower;
    if tail != [] {
      var n := |tail| - 1;
      assert tail == tail[..n] + [tail[n]];
      ContinueLast(bits, tail[..n], tail[n]);
      FoldedIsTail(bits, tail[..n]);
      Joined(Continue(bits, tail[..n]).value, Bits(tail[n]));
    }
  }

  lemma ThreeGroups(p: nat)
    ensures GroupsAbove(p, 0) == p && GroupsAbove(p, 1) == Upper(p)
    ensures GroupsAbove(p, 2) == Upper(Upper(p)) && GroupsAbove(p, 3) == Upper(Upper(Upper(p)))
  {
    hide Upper;
    assert GroupsAbove(Upper(Upper(p)), 1) == Upper(Upper(Upper(p)));
    assert GroupsAbove(Upper(p), 2) == GroupsAbove(Upper(Upper(p)), 1);
  }

  function Extra(p: nat): nat {
    if p < 0x80 then 0 else if p < 0x800 then 1 else if p < 0x1_0000 then 2 else 3
  }

  /** The lead byte for a number of continuation bytes. */
  function LeadByte(bits: nat, extra: nat): nat {
    if extra == 0 then bits else if extra == 1 then 0xc0 + bits else if extra == 2 then 0xe0 + bits else 0xf0 + bits
  }

  lemma EncodedParts(p: nat)
    requires p < 0x11_0000
    ensures var code := EncodePoint(p);
            && |code| == 1 + Extra(p) && code[0] == LeadByte(GroupsAbove(p, Extra(p)), Extra(p))
            && code[1..] == Tail(p, Extra(p))
  {
    hide Upper, Lower;
    var u := Upper(p);
    var w := Upper(u);
    assert Tail(p, 0) == [] && Tail(u, 0) == [] && Tail(w, 0) == [] && Tail(Upper(w), 0) == [];
    assert Tail(p, 1) == [0x80 + Lower(p)];
    assert Tail(u, 1) == [0x80 + Lower(u)] && Tail(w, 1) == [0x80 + Lower(w)];
    assert Tail(p, 2) == [0x80 + Lower(u), 0x80 + Lower(p)];
    assert Tail(u, 2) == [0x80 + Lower(w), 0x80 + Lower(u)];
    assert Tail(p, 3) == [0x80 + Lower(w), 0x80 + Lower(u), 0x80 + Lower(p)];
    ThreeGroups(p);
  }

  /** The lead byte of a code point's encoding is read back as it was made. */
  lemma LeadOfEncoded(p: nat)
    requires p < 0x11_0000
    ensures LeadByte(GroupsAbove(p, Extra(p)), Extra(p)) < 256
    ensures Lead(LeadByte(GroupsAbove(p, Extra(p)), Extra(p))).Some?
    ensures var (bits, extra, least) := Lead(LeadByte(GroupsAbove(p, Extra(p)), Extra(p))).value;
            bits == GroupsAbove(p, Extra(p)) && extra == Extra(p) && least <= p
  {
    var u := Upper(p);
    var w := Upper(u);
    UpperBounds(p);
    UpperBounds(u);
    UpperBounds(w);
    hide Upper, Lower;
    ThreeGroups(p);
  }

  /** Decoding what a scalar encodes to, whatever follows, gives it back. */
  lemma PointRoundTrip(p: nat, rest: seq<byte>)
    requires Scalar(p)
    ensures DecodePoint(EncodePoint(p) + rest) == Some((p, |EncodePoint(p)|))
  {
    EncodedParts(p);
    LeadOfEncoded(p);
    TailFolds(p, Extra(p));
    hide EncodePoint, Lead, Continue, LeadByte, GroupsAbove, Tail, Extra;
    var code := EncodePoint(p);
    assert (code + rest)[0] == code[0] && (code + rest)[1..|code|] == code[1..];
  }

  /** A lead byte and what folds onto it, no lower than the least code point of
      its length, is the encoding of what it folds to. */
  lemma FoldedIsEncoding(lead: byte, tail: seq<byte>, p: nat)
    requires Lead(lead).Some? && |tail| == Lead(lead).value.1
    requires Continue(Lead(lead).value.0, tail) == Some(p) && p >= Lead(lead).value.2 && p < 0x11_0000
    ensures [lead] + tail == EncodePoint(p)
  {
    FoldedIsTail(Lead(lead).value.0, tail);
    EncodedParts(p);
    SameExtra(lead, p);
    var code := EncodePoint(p);
    assert code == [code[0]] + code[1..];
    hide EncodePoint, Continue, GroupsAbove, Tail;
  }

  lemma SameExtra(lead: byte, p: nat)
    requires Lead(lead).Some? && p >= Lead(lead).value.2
    requires p < 0x11_0000 && GroupsAbove(p, Lead(lead).value.1) == Lead(lead).value.0
    ensures Extra(p) == Lead(lead).value.1 && lead == LeadByte(Lead(lead).value.0, Lead(lead).value.1)
  {
    var u := Upper(p);
    var w := Upper(u);
    UpperBounds(p);
    UpperBounds(u);
    UpperBounds(w);
    hide Upper, Lower;
    ThreeGroups(p);
  }

  /** What decodes is exactly the encoding of its scalar: overlong, surrogate,
      out-of-range and truncated forms do not decode. */
  lemma PointIsEncoding(bytes: seq<byte>)
    requires bytes != [] && DecodePoint(bytes).Some?
    ensures var (p, n) := DecodePoint(bytes).value; bytes[..n] == EncodePoint(p)
  {
    var (p, n) := DecodePoint(bytes).value;
    var tail := bytes[1..n];
    FoldedIsEncoding(bytes[0], tail, p);
    assert bytes[..n] == [bytes[0]] + tail;
  }

  // ----- whole strings -----

  function Encode(t: Units): seq<byte>
    decreases |t|
  {
    if t == [] then []
    else
      var (p, n) := FirstPoint(t);
      EncodePoint(p) + Encode(t[n..])
  }

  function Decode(bytes: seq<byte>): Option<Units>
    decreases |bytes|
  {
    if bytes == [] then Some([])
    else
      var first := DecodePoint(bytes);
      if first.None? then None
      else
        var rest := Decode(bytes[first.value.1..]);
        if rest.None? then None else Some(UnitsOf(first.value.0) + rest.value)
  }

  lemma FirstIsUnits(t: Units)
    requires t != [] && Scalar(FirstPoint(t).0)
    ensures var (p, n) := FirstPoint(t); UnitsOf(p) == t[..n]
  {
  }

  lemma UnitsAreFirst(p: nat, rest: Units)
    requires Scalar(p)
    ensures FirstPoint(UnitsOf(p) + rest) == (p, |UnitsOf(p)|)
  {
    var t := UnitsOf(p) + rest;
    assert t[0] == UnitsOf(p)[0];
    if p >= 0x1_0000 { assert t[1] == UnitsOf(p)[1]; }
  }

  /** Decoding the bytes of a well-formed string returns it. */
  lemma {:induction false} EncodeDecodes(t: Units)
    requires WellFormed(t)
    ensures Decode(Encode(t)) == Some(t)
    decreases |t|
  {
    hide EncodePoint, DecodePoint, FirstPoint, UnitsOf;
    if t != [] {
      var (p, n) := FirstPoint(t);
      EncodeDecodes(t[n..]);
      PointRoundTrip(p, Encode(t[n..]));
      FirstIsUnits(t);
      assert Encode(t)[|EncodePoint(p)|..] == Encode(t[n..]);
      assert t == t[..n] + t[n..];
    }
  }

  /** Bytes that decode are the bytes of a well-formed string: the one they
      decode to. */
  lemma {:induction false} DecodeEncodes(bytes: seq<byte>)
    requires Decode(bytes).Some?
    ensures WellFormed(Decode(bytes).value) && Encode(Decode(bytes).value) == bytes
    decreases |bytes|
  {
    hide EncodePoint, DecodePoint, FirstPoint, UnitsOf;
    if bytes != [] {
      var (p, n) := DecodePoint(bytes).value;
      PointIsEncoding(bytes);
      DecodeEncodes(bytes[n..]);
      var rest := Decode(bytes[n..]).value;
      UnitsAreFirst(p, rest);
      assert (UnitsOf(p) + rest)[|UnitsOf(p)|..] == rest;
      assert bytes == bytes[..n] + bytes[n..];
    }
  }

  /** The strict codec is a bijection between well-formed strings and the byte
      strings that decode. */
  lemma StrictBijection(bytes: seq<byte>, t: Units)
    ensures Decode(bytes) == Some(t) <==> WellFormed(t) && Encode(t) == bytes
  {
    if Decode(bytes).Some? { DecodeEncodes(bytes); }
    if WellFormed(t) { EncodeDecodes(t); }
  }

  // ----- the loops -----

  method Utf8Bytes(t: Units) returns (out: seq<byte>)
    ensures out == Encode(t)
  {
    out := [];
    var i := 0;
    assert t[0..] == t;
    while i < |t|
      invariant i <= |t| && out + Encode(t[i..]) == Encode(t)
    {
      var (p, n) := FirstPoint(t[i..]);
      assert t[i..][n..] == t[i + n..];
      FirstPointBound(t[i..]);
      assert out + (EncodePoint(p) + Encode(t[i + n..])) == (out + EncodePoint(p)) + Encode(t[i + n..]);
      out := out + EncodePoint(p);
      i := i + n;
    }
    assert t[|t|..] == [] && out + [] == out;
  }

  lemma FirstPointBound(t: Units)
    requires t != []
    ensures FirstPoint(t).0 < 0x11_0000
  {
  }

  /** `utf8BytesStrict`: the bytes, unless a surrogate is unpaired. */
  method Utf8BytesStrict(t: Units) returns (r: Option<seq<byte>>)
    ensures r == if WellFormed(t) then Some(Encode(t)) else None
  {
    var i := 0;
    assert t[0..] == t;
    while i < |t|
      invariant i <= |t| && (WellFormed(t) <==> WellFormed(t[i..]))
    {
      var rest := t[i..];
      assert |rest| >= 2 ==> rest[1] == t[i + 1] && rest[2..] == t[i + 2..];
      assert rest[0] == t[i] && rest[1..] == t[i + 1..];
      if High(t[i]) {
        var next: nat := if i + 1 < |t| then t[i + 1] else 0;
        if next < 0xdc00 || next > 0xdfff { return None; }
        i := i + 1;
      } else if Low(t[i]) {
        return None;
      }
      i := i + 1;
    }
    assert t[|t|..] == [];
    var bytes := Utf8Bytes(t);
    r := Some(bytes);
  }

  /** `utf8Decode`. */
  method Utf8Decode(bytes: seq<byte>) returns (r: Option<Units>)
    ensures forall t :: r == Some(t) <==> WellFormed(t) && Encode(t) == bytes
  {
    hide WellFormed, Encode, Decode, DecodePoint, UnitsOf;
    var text: Units := [];
    var i := 0;
    assert bytes[0..] == bytes;
    TextStarts(bytes);
    while i < |bytes|
      invariant i <= |bytes| && Decode(bytes) == Prepend(text, Decode(bytes[i..]))
    {
      var point := DecodeAt(bytes, i);
      DecodeFront(bytes, i);
      if point.None? {
        DecodedExactly(bytes, None);
        return None;
      }
      var (p, n) := point.value;
      PrependMore(text, UnitsOf(p), Decode(bytes[i + n..]));
      text := text + UnitsOf(p);
      i := i + n;
    }
    DecodeEnd(bytes, text);
    r := Some(text);
    DecodedExactly(bytes, r);
  }

  lemma DecodeFront(bytes: seq<byte>, i: nat)
    requires i < |bytes|
    ensures match DecodePoint(bytes[i..])
            case None => Decode(bytes[i..]) == None
            case Some((p, n)) =>
              n > 0 && i + n <= |bytes| && p < 0x11_0000
              && Decode(bytes[i..]) == Prepend(UnitsOf(p), Decode(bytes[i + n..]))
  {
    hide DecodePoint, UnitsOf;
    if DecodePoint(bytes[i..]).Some? {
      var n := DecodePoint(bytes[i..]).value.1;
      assert bytes[i..][n..] == bytes[i + n..];
    }
  }

  lemma DecodeEnd(bytes: seq<byte>, text: Units)
    ensures Prepend(text, Decode(bytes[|bytes|..])) == Some(text)
  {
    assert bytes[|bytes|..] == [] && text + [] == text;
  }

  lemma DecodedExactly(bytes: seq<byte>, r: Option<Units>)
    requires r == Decode(bytes)
    ensures forall t :: r == Some(t) <==> WellFormed(t) && Encode(t) == bytes
  {
    hide Decode, WellFormed, Encode;
    forall t ensures r == Some(t) <==> WellFormed(t) && Encode(t) == bytes { StrictBijection(bytes, t); }
  }

  function Prepend(text: Units, rest: Option<Units>): Option<Units> {
    if rest.None? then None else Some(text + rest.value)
  }

  lemma TextStarts(bytes: seq<byte>)
    ensures Prepend([], Decode(bytes)) == Decode(bytes)
  {
    if Decode(bytes).Some? { assert [] + Decode(bytes).value == Decode(bytes).value; }
  }

  lemma PrependMore(text: Units, more: Units, rest: Option<Units>)
    ensures Prepend(text, Prepend(more, rest)) == Prepend(text + more, rest)
  {
    if rest.Some? { assert text + (more + rest.value) == (text + more) + rest.value; }
  }

  /** One turn of the decoder. */
  method DecodeAt(bytes: seq<byte>, i: nat) returns (r: Option<(nat, nat)>)
    requires i < |bytes|
    ensures r == DecodePoint(bytes[i..])
  {
    hide Lead, Scalar, Continue;
    ghost var here := bytes[i..];
    assert here[0] == bytes[i];
    var lead := Lead(bytes[i]);
    if lead.None? { return None; }
    var (bits, extra, least) := lead.value;
    var point := DecodeTail(bytes, i, bits, extra);
    if point.None? || point.value < least || !Scalar(point.value) { return None; }
    r := Some((point.value, 1 + extra));
  }

  /** Folding the continuation bytes after a lead byte. */
  method DecodeTail(bytes: seq<byte>, i: nat, bits: nat, extra: nat) returns (r: Option<nat>)
    requires i < |bytes|
    ensures r == if 1 + extra > |bytes[i..]| then None else Continue(bits, bytes[i..][1..1 + extra])
  {
    if i + extra >= |bytes| {
      return None;
    }
    var point: nat := bits;
    ghost var tail := bytes[i..][1..1 + extra];
    assert tail[0..] == tail;
    for k := 1 to extra + 1
      invariant Continue(bits, tail) == Continue(point, tail[k - 1..])
    {
      assert tail[k - 1] == bytes[i + k];
      assert tail[k - 1..][0] == bytes[i + k] && tail[k - 1..][1..] == tail[k..];
      if !Continuation(bytes[i + k]) { return None; }
      point := point * 0x40 + Bits(bytes[i + k]);
    }
    assert tail[extra..] == [];
    r := Some(point);
  }
}
