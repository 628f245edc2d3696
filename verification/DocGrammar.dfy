/** The documented syntax of doc attribute arguments: trees of tokens with every
    spelling the syntax allows, their text, and the arguments they stand for. */
module DocGrammar {
  import opened Wrappers
  import opened DocParsing
  import opened DocRoundTrip

  predicate Blanks(s: string) { forall i :: 0 <= i < |s| ==> Blank(s[i]) }

  // ----- characters of a quoted text -----

  predicate HexDigits(s: string) { forall i :: 0 <= i < |s| ==> HexDigit(s[i]) }

  /** A digit's value is its place among the sixteen, in either case. */
  lemma HexValueIsPlace(c: char)
    requires HexDigit(c)
    ensures HexValue(c) < 16 && ("0123456789abcdef"[HexValue(c)] == c || "0123456789ABCDEF"[HexValue(c)] == c)
  {
  }

  /** Braces around one to six hexadecimal digits that name the character. */
  ghost predicate NamedBy(c: char, digits: string) {
    1 <= |digits| <= 6 && HexDigits(digits) && ScalarValue(HexNumber(digits)) && c == HexNumber(digits) as char
  }

  ghost predicate UnicodeSpelling(c: char, s: string) {
    exists digits :: NamedBy(c, digits) && s == "\\u{" + digits + "}"
  }

  /** The ways to write a character: itself, unless it is a quote, a backslash or
      a line break; one of five short escapes; or its number. */
  ghost predicate Spelling(c: char, s: string) {
    || (s == [c] && c != '"' && c != '\\' && c != '\n')
    || (c == '\\' && s == "\\\\") || (c == '"' && s == "\\\"")
    || (c == '\n' && s == "\\n") || (c == '\r' && s == "\\r") || (c == '\t' && s == "\\t")
    || UnicodeSpelling(c, s)
  }

  ghost predicate Spelled(value: string, spelling: seq<string>) {
    |value| == |spelling| && forall i :: 0 <= i < |value| ==> Spelling(value[i], spelling[i])
  }

  function Written(spelling: seq<string>): string {
    if spelling == [] then "" else spelling[0] + Written(spelling[1..])
  }

  lemma SpellingReads(c: char, s: string, rest: string)
    requires Spelling(c, s)
    ensures TextRest(s + rest) == Prefixed(c, TextRest(rest))
  {
    if s == [c] && c != '"' && c != '\\' && c != '\n' {
      PlainReads(c, rest);
    } else if UnicodeSpelling(c, s) {
      UnicodeReads(c, s, rest);
    } else {
      assert s == ['\\', s[1]] && Escaped(s[1]) == Some(c);
      EscapedReads(s[1], rest);
    }
  }

  lemma EscapeReads(c: char, s: string, rest: string)
    requires EscapeAt(s) == Ok((c, rest))
    ensures TextRest(['\\'] + s) == Prefixed(c, TextRest(rest))
  {
    hide EscapeAt;
    assert (['\\'] + s)[1..] == s;
  }

  lemma UnicodeEscapeReads(c: char, digits: string, rest: string)
    requires NamedBy(c, digits)
    ensures UnicodeEscape("{" + (digits + ("}" + rest))) == Ok((c, rest))
  {
    var inner := digits + ("}" + rest);
    SpanStops(digits, "}" + rest, HexDigit);
    hide Span, HexNumber;
    assert ("{" + inner)[1..] == inner;
    assert inner[|digits|..] == "}" + rest && inner[..|digits|] == digits && ("}" + rest)[1..] == rest;
  }

  lemma UnicodeReads(c: char, s: string, rest: string)
    requires UnicodeSpelling(c, s)
    ensures TextRest(s + rest) == Prefixed(c, TextRest(rest))
  {
    hide TextRest, UnicodeEscape, NamedBy;
    var digits :| NamedBy(c, digits) && s == "\\u{" + digits + "}";
    var braces := "{" + (digits + ("}" + rest));
    UnicodeEscapeReads(c, digits, rest);
    assert (['u'] + braces)[1..] == braces;
    assert EscapeAt(['u'] + braces) == Ok((c, rest));
    EscapeReads(c, ['u'] + braces, rest);
    assert s + rest == ['\\'] + (['u'] + braces);
  }

  /** Every documented spelling of a text reads as the text. */
  lemma {:induction false} SpelledReads(value: string, spelling: seq<string>, tail: string)
    requires Spelled(value, spelling)
    ensures TextRest(Written(spelling) + (['"'] + tail)) == Ok((value, tail))
  {
    hide TextRest, Spelling;
    if value == "" {
      assert Written(spelling) + (['"'] + tail) == ['"'] + tail;
      TextEnds(tail);
    } else {
      var rest := Written(spelling[1..]) + (['"'] + tail);
      SpelledReads(value[1..], spelling[1..], tail);
      assert Written(spelling) + (['"'] + tail) == spelling[0] + rest;
      SpellingReads(value[0], spelling[0], rest);
      assert value == [value[0]] + value[1..];
    }
  }

  lemma EscapeSpells(s: string)
    requires EscapeAt(s).Ok?
    ensures var (c, rest) := EscapeAt(s).value;
            |rest| < |s| && s[|s| - |rest|..] == rest && Spelling(c, ['\\'] + s[..|s| - |rest|])
  {
    var (c, rest) := EscapeAt(s).value;
    if Escaped(s[0]).Some? {
      assert ['\\'] + s[..1] == ['\\', s[0]];
    } else {
      UnicodeSpells(s);
    }
  }

  lemma UnicodeSpells(s: string)
    requires s != "" && s[0] == 'u' && UnicodeEscape(s[1..]).Ok?
    ensures var (c, rest) := UnicodeEscape(s[1..]).value;
            |rest| < |s| && s[|s| - |rest|..] == rest && UnicodeSpelling(c, ['\\'] + s[..|s| - |rest|])
  {
    var t := s[1..];
    var n := Span(t[1..], HexDigit);
    var digits, rest := t[1..][..n], t[1..][n..][1..];
    assert s == "u{" + digits + "}" + rest;
    assert ['\\'] + s[..|s| - |rest|] == "\\u{" + digits + "}";
    assert NamedBy(CharOf(digits).value, digits);
  }

  /** The first character of a text and how it is spelled. */
  lemma FirstSpells(s: string) returns (c: char, first: string, rest: string)
    requires TextRest(s).Ok? && s[0] != '"'
    ensures |rest| < |s| && s == first + rest && Spelling(c, first)
    ensures TextRest(rest).Ok? && TextRest(s).value == ([c] + TextRest(rest).value.0, TextRest(rest).value.1)
  {
    if s[0] != '\\' {
      c, first, rest := s[0], [s[0]], s[1..];
    } else {
      c, rest := EscapeAt(s[1..]).value.0, EscapeAt(s[1..]).value.1;
      EscapeSpells(s[1..]);
      hide EscapeAt, Spelling;
      first := ['\\'] + s[1..][..|s| - 1 - |rest|];
      assert s == ['\\'] + s[1..];
    }
  }

  lemma NothingSpelled(s: string)
    requires TextRest(s).Ok? && s[0] == '"'
    ensures Spelled(TextRest(s).value.0, []) && s == Written([]) + (['"'] + TextRest(s).value.1)
  {
    assert s == ['"'] + s[1..];
  }

  /** What reads as a text is one of its documented spellings. */
  lemma {:induction false} TextSpells(s: string) returns (spelling: seq<string>)
    requires TextRest(s).Ok?
    ensures Spelled(TextRest(s).value.0, spelling) && s == Written(spelling) + (['"'] + TextRest(s).value.1)
    decreases |s|
  {
    assert s != "";
    hide TextRest, Spelling, Spelled, Written;
    if s[0] == '"' {
      NothingSpelled(s);
      spelling := [];
    } else {
      var c, first, rest := FirstSpells(s);
      var later := TextSpells(rest);
      spelling := [first] + later;
      SpelledMore(c, first, TextRest(rest).value.0, later);
      Regroup(first, Written(later), ['"'] + TextRest(rest).value.1);
    }
  }

  lemma Regroup(a: string, b: string, c: string)
    ensures (a + b) + c == a + (b + c)
  {
  }

  lemma SpelledMore(c: char, s: string, value: string, spelling: seq<string>)
    requires Spelling(c, s) && Spelled(value, spelling)
    ensures Spelled([c] + value, [s] + spelling) && Written([s] + spelling) == s + Written(spelling)
  {
    hide Spelling;
    assert ([s] + spelling)[1..] == spelling;
  }

  /** A text is read exactly from its documented spellings: its characters
      written out, closed by a quote. */
  lemma TextIsSpelled(s: string, value: string, tail: string)
    ensures TextRest(s) == Ok((value, tail)) <==>
            exists spelling :: Spelled(value, spelling) && s == Written(spelling) + (['"'] + tail)
  {
    hide TextRest, Spelled, Written;
    if TextRest(s) == Ok((value, tail)) { var spelling := TextSpells(s); }
    if spelling :| Spelled(value, spelling) && s == Written(spelling) + (['"'] + tail) { SpelledReads(value, spelling, tail); }
  }

  // ----- numbers -----

  predicate Digits(s: string) { forall i :: 0 <= i < |s| ==> Digit(s[i]) }

  /** No sign or a minus, digits without a leading zero, and a point with digits
      after it or nothing. */
  ghost predicate NumberSpelled(sign: string, whole: string, fraction: string) {
    && (sign == "" || sign == "-")
    && whole != "" && Digits(whole) && (whole[0] == '0' ==> whole == "0")
    && (fraction == "" || (|fraction| > 1 && fraction[0] == '.' && Digits(fraction[1..])))
  }

  ghost predicate NumberText(s: string) {
    exists sign, whole, fraction :: NumberSpelled(sign, whole, fraction) && s == sign + whole + fraction
  }

  /** Taking in the longest digits of a text. */
  lemma DigitsSpan(digits: string, tail: string)
    requires Digits(digits) && (tail != "" ==> !Digit(tail[0]))
    ensures Span(digits + tail, Digit) == |digits|
  {
    SpanStops(digits, tail, Digit);
  }

  lemma SpelledNumberReads(sign: string, whole: string, fraction: string)
    requires NumberSpelled(sign, whole, fraction)
    ensures var s := sign + whole + fraction; NumberLength(s) == Ok(|s|)
  {
    var s := sign + whole + fraction;
    var end := |sign| + |whole|;
    assert s[|sign|..] == whole + fraction;
    DigitsSpan(whole, fraction);
    assert s[|sign|] == whole[0];
    assert WholeEnd(s) == Ok(end);
    hide WholeEnd;
    if fraction != "" {
      assert s[end] == '.' && s[end + 1..] == fraction[1..] && fraction[1..] + "" == fraction[1..];
      DigitsSpan(fraction[1..], "");
    }
    assert FractionEnd(s, end) == Ok(|s|);
  }

  lemma NumberSpells(s: string)
    requires NumberLength(s) == Ok(|s|)
    ensures NumberText(s)
  {
    NumberParts(s);
    hide NumberLength, WholeEnd, SignLength, NumberSpelled;
    var sign, end := SignLength(s), WholeEnd(s).value;
    assert s == s[..sign] + s[sign..end] + s[end..];
  }

  /** The sign, the whole part and the fraction of a number. */
  lemma NumberParts(s: string)
    requires NumberLength(s) == Ok(|s|)
    ensures WholeEnd(s).Ok? && SignLength(s) <= WholeEnd(s).value <= |s|
    ensures NumberSpelled(s[..SignLength(s)], s[SignLength(s)..WholeEnd(s).value], s[WholeEnd(s).value..])
  {
    var sign, end := SignLength(s), WholeEnd(s).value;
    var whole, fraction := s[sign..end], s[end..];
    assert forall i :: 0 <= i < |whole| ==> whole[i] == s[sign..][i];
    if fraction != "" {
      assert s[end] == '.' && fraction[1..] == s[end + 1..];
    }
  }

  /** A number is exactly what the syntax calls one. */
  lemma NumberIsSpelled(s: string)
    ensures NumberLength(s) == Ok(|s|) <==> NumberText(s)
  {
    hide NumberLength, NumberSpelled;
    if NumberLength(s) == Ok(|s|) { NumberSpells(s); }
    if sign, whole, fraction :| NumberSpelled(sign, whole, fraction) && s == sign + whole + fraction {
      SpelledNumberReads(sign, whole, fraction);
    }
  }
}
