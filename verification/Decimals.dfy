/** Numbers written in decimal, and what the scalar texts of host values are: the
    one canonical spelling of each number of their kind. */
module Decimals {
  import opened Bytes
  import opened TypeGraph
  import opened Values

  /** The decimal digits of a number. */
  function Decimal(n: nat): (r: seq<byte>)
    ensures |r| >= 1 && forall c :: c in r ==> Digit(c)
  {
    if n < 10 then [48 + n] else Decimal(n / 10) + [48 + n % 10]
  }

  lemma {:induction false} NumberOfDecimal(n: nat)
    ensures Number(Decimal(n)) == n && CanonicalNat(Decimal(n))
    ensures n > 0 ==> Decimal(n)[0] != 48
  {
    var s := Decimal(n);
    if n < 10 {
      assert s[..0] == [];
    } else {
      NumberOfDecimal(n / 10);
      assert s[..|s| - 1] == Decimal(n / 10) && s[0] == Decimal(n / 10)[0];
    }
  }

  lemma LastDigit(front: nat, d: nat)
    requires d < 10
    ensures (10 * front + d) / 10 == front && (10 * front + d) % 10 == d
  {
  }

  lemma DecimalGrows(front: nat, d: nat)
    requires front > 0 && d < 10
    ensures Decimal(10 * front + d) == Decimal(front) + [48 + d]
  {
    LastDigit(front, d);
  }

  lemma {:induction false} DecimalOfNumber(s: seq<nat>)
    requires CanonicalNat(s)
    ensures Decimal(Number(s)) == s
    ensures s != ZERO ==> Number(s) > 0
  {
    if |s| == 1 {
      assert s[..0] == [];
      assert Digit(s[0]);
    } else {
      var front := s[..|s| - 1];
      assert front[0] == s[0];
      assert forall c :: c in front ==> c in s;
      DecimalOfNumber(front);
      assert Digit(s[|s| - 1]);
      assert s == front + [s[|s| - 1]];
      hide Decimal;
      DecimalGrows(Number(front), s[|s| - 1] - 48);
    }
  }

  // ----- the texts of scalar values -----

  /** An integer as it is written: no plus sign, no leading zero, no minus zero. */
  function Signed(i: int): seq<byte> {
    if i < 0 then [MINUS] + Decimal(-i) else Decimal(i)
  }

  /** Lower-case hexadecimal digits in ASCII, `0` to `9` and `a` to `f`. */
  const HEX_DIGITS: seq<byte> := [48, 49, 50, 51, 52, 53, 54, 55, 56, 57, 97, 98, 99, 100, 101, 102]

  ghost predicate HexText(text: Bytes.Text, length: nat) {
    |text| == length && forall c :: c in text ==> c in HEX_DIGITS
  }

  /** The text spells a value of the primitive kind; kinds that are not written
      as text carry none. */
  ghost predicate Spells(principals: Bytes.Text -> bool, kind: PrimitiveType, text: Bytes.Text) {
    match kind
    case Nat => exists n: nat :: text == Decimal(n)
    case Int => exists i: int :: text == Signed(i)
    case Nat64 => exists n: nat :: n < 0x1_0000_0000_0000_0000 && text == Decimal(n)
    case Int64 => exists i: int :: -0x8000_0000_0000_0000 <= i < 0x8000_0000_0000_0000 && text == Signed(i)
    case Float32 => HexText(text, 8)
    case Float64 => HexText(text, 16)
    case Principal => principals(text)
    case Empty => false
    case Null => true
    case Bool => true
    case Nat8 => true
    case Nat16 => true
    case Nat32 => true
    case Int8 => true
    case Int16 => true
    case Int32 => true
    case Text => true
    case Reserved => true
  }

  /** A canonical natural is the one spelling of its number. */
  lemma NaturalIs(text: Bytes.Text, n: nat)
    ensures CanonicalNat(text) && Number(text) == n <==> text == Decimal(n)
  {
    NumberOfDecimal(n);
    if CanonicalNat(text) { DecimalOfNumber(text); }
  }

  /** The integer a canonical text writes. */
  function Integer(text: Bytes.Text): int
    requires CanonicalInt(text)
  {
    if text != [] && text[0] == MINUS then 0 - Number(text[1..]) as int else Number(text)
  }

  lemma IntegerIs(text: Bytes.Text, i: int)
    ensures CanonicalInt(text) && Integer(text) == i <==> text == Signed(i)
  {
    FirstIsDigit(i);
    if text != [] && text[0] == MINUS {
      NegativeIs(text, i);
    } else if i >= 0 {
      NaturalIs(text, i);
    }
  }

  lemma NegativeIs(text: Bytes.Text, i: int)
    requires text != [] && text[0] == MINUS
    ensures CanonicalInt(text) && Integer(text) == i <==> text == Signed(i)
  {
    var tail := text[1..];
    assert text == [MINUS] + tail;
    FirstIsDigit(i);
    ZeroIs();
    if CanonicalNat(tail) { DecimalOfNumber(tail); }
    hide Decimal, Number, CanonicalNat;
    if i < 0 { NaturalIs(tail, -i); }
  }

  lemma ZeroIs()
    ensures Number(ZERO) == 0 && Decimal(0) == ZERO
  {
    assert ZERO[..0] == [];
  }

  lemma FirstIsDigit(i: int)
    ensures i >= 0 ==> Signed(i) != [] && Signed(i)[0] != MINUS
    ensures i < 0 ==> Signed(i)[0] == MINUS && Signed(i)[1..] == Decimal(-i)
  {
    if i >= 0 {
      assert Decimal(i)[0] in Decimal(i);
    }
  }

  lemma HexIs(text: Bytes.Text, length: nat)
    ensures CanonicalHex(text, length) <==> HexText(text, length)
  {
    forall c: byte ensures Digit(c) || 97 <= c <= 102 <==> c in HEX_DIGITS {
      if Digit(c) { assert HEX_DIGITS[c - 48] == c; }
      if 97 <= c <= 102 { assert HEX_DIGITS[c - 87] == c; }
    }
  }

  /** A value inhabits a primitive node exactly when it is of its kind and its
      text is the canonical spelling of a number of that kind. */
  lemma ScalarsSpell(types: Types, principals: Bytes.Text -> bool, r: TypeRef, v: Value)
    requires r < |types| && types[r].Primitive?
    ensures Inhabits(types, principals, r, v) <==>
              v.ScalarV? && v.kind == types[r].primitive && Spells(principals, v.kind, v.text)
  {
    if v.ScalarV? { ScalarIs(principals, v.kind, v.text); }
    hide Spells, ScalarOk;
  }

  lemma ScalarIs(principals: Bytes.Text -> bool, kind: PrimitiveType, text: Bytes.Text)
    ensures ScalarOk(principals, kind, text) <==> Spells(principals, kind, text)
  {
    hide Decimal, Signed, Number, CanonicalHex, HexText;
    HexIs(text, 8);
    HexIs(text, 16);
    forall n: nat ensures CanonicalNat(text) && Number(text) == n <==> text == Decimal(n) { NaturalIs(text, n); }
    forall i: int ensures CanonicalInt(text) && Integer(text) == i <==> text == Signed(i) { IntegerIs(text, i); }
    if CanonicalNat(text) { assert text == Decimal(Number(text)); }
    if CanonicalInt(text) { assert text == Signed(Integer(text)); }
  }
}
