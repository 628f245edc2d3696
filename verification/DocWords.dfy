/** A reading of doc attribute texts without the parser: where words stand in
    front of a parenthesis outside quoted texts. On accepted texts these are
    exactly the calls. */
module DocWords {
  import opened Wrappers
  import opened DocParsing
  import opened DocBrackets
  import opened DocCalls

  /** Outside quoted texts and the closed attribute, somewhere from here on a
      maximal word is the name and, after blanks, a parenthesis follows. The
      flag says that the character before belongs to a word. */
  predicate WritesFrom(s: string, scan: Scan, inWord: bool, name: string)
    decreases |s|
  {
    s != "" &&
    ((scan.Scanning? && !scan.inText && !inWord && OpensCall(s, name))
     || WritesFrom(s[1..], Feed(scan, s[0]), IdentChar(s[0]), name))
  }

  /** The text writes a call of the name. */
  predicate WritesCall(text: string, name: string) { WritesFrom(text, Outside(1), false, name) }

  // ----- what each token writes -----

  lemma {:induction false} StoppedWrites(s: string, scan: Scan, inWord: bool, name: string)
    requires !scan.Scanning?
    ensures !WritesFrom(s, scan, inWord, name)
    decreases |s|
  {
    if s != "" { StoppedWrites(s[1..], scan, IdentChar(s[0]), name); }
  }

  /** In front of something else than a word the flag does not matter, nor
      within a quoted text. */
  lemma FlagIdle(s: string, scan: Scan, a: bool, b: bool, name: string)
    requires s == "" || !IdentStart(s[0]) || (scan.Scanning? && scan.inText)
    ensures WritesFrom(s, scan, a, name) == WritesFrom(s, scan, b, name)
  {
  }

  lemma SymbolWrites(s: string, depth: nat, name: string)
    requires s != "" && !IdentChar(s[0])
    ensures WritesFrom(s, Outside(depth), false, name) == WritesFrom(s[1..], Feed(Outside(depth), s[0]), false, name)
  {
    hide Feed, SkipSpace;
  }

  lemma {:induction false} SpaceWrites(s: string, depth: nat, name: string)
    ensures WritesFrom(s, Outside(depth), false, name) == WritesFrom(SkipSpace(s), Outside(depth), false, name)
  {
    if s != "" && Blank(s[0]) {
      SymbolWrites(s, depth, name);
      SpaceWrites(s[1..], depth, name);
    }
  }

  lemma {:induction false} NumberWrites(part: string, rest: string, depth: nat, inWord: bool, name: string)
    requires forall i :: 0 <= i < |part| ==> NumberChar(part[i])
    requires rest == "" || !IdentStart(rest[0])
    ensures WritesFrom(part + rest, Outside(depth), inWord, name) == WritesFrom(rest, Outside(depth), false, name)
    decreases |part|
  {
    if part == "" {
      assert part + rest == rest;
      FlagIdle(rest, Outside(depth), inWord, false, name);
    } else {
      assert (part + rest)[1..] == part[1..] + rest;
      NumberWrites(part[1..], rest, depth, IdentChar(part[0]), name);
      hide SkipSpace, Span;
    }
  }

  lemma {:induction false} InWordWrites(part: string, rest: string, depth: nat, name: string)
    requires forall i :: 0 <= i < |part| ==> IdentChar(part[i])
    requires rest == "" || !IdentChar(rest[0])
    ensures WritesFrom(part + rest, Outside(depth), true, name) == WritesFrom(rest, Outside(depth), false, name)
    decreases |part|
  {
    if part == "" {
      assert part + rest == rest;
      FlagIdle(rest, Outside(depth), true, false, name);
    } else {
      assert (part + rest)[1..] == part[1..] + rest;
      InWordWrites(part[1..], rest, depth, name);
      hide SkipSpace, Span;
    }
  }

  /** A word writes a call or nothing. */
  lemma WordWrites(s: string, depth: nat, name: string)
    requires s != "" && IdentStart(s[0])
    ensures WritesFrom(s, Outside(depth), false, name)
            <==> OpensCall(s, name) || WritesFrom(s[Span(s, IdentChar)..], Outside(depth), false, name)
  {
    var n := Span(s, IdentChar);
    var part, rest := s[..n][1..], s[n..];
    assert s[1..] == part + rest;
    InWordWrites(part, rest, depth, name);
    hide OpensCall, Span;
  }

  lemma InTextWrites(s: string, scan: Scan, inWord: bool, name: string)
    requires s != "" && scan.Scanning? && scan.inText
    ensures WritesFrom(s, scan, inWord, name) == WritesFrom(s[1..], Feed(scan, s[0]), IdentChar(s[0]), name)
  {
    hide OpensCall;
  }

  lemma {:induction false} OrdinaryWrites(part: string, rest: string, depth: nat, a: bool, b: bool, name: string)
    requires forall i :: 0 <= i < |part| ==> Ordinary(part[i])
    ensures WritesFrom(part + rest, Within(depth), a, name) == WritesFrom(rest, Within(depth), b, name)
    decreases |part|
  {
    if part == "" {
      assert part + rest == rest;
      FlagIdle(rest, Within(depth), a, b, name);
    } else {
      assert (part + rest)[1..] == part[1..] + rest;
      InTextWrites(part + rest, Within(depth), a, name);
      OrdinaryWrites(part[1..], rest, depth, IdentChar(part[0]), b, name);
    }
  }

  lemma EscapeWrites(s: string, depth: nat, a: bool, b: bool, name: string)
    requires EscapeAt(s).Ok?
    ensures WritesFrom(s, Scanning(depth, true, true), a, name) == WritesFrom(EscapeAt(s).value.1, Within(depth), b, name)
  {
    InTextWrites(s, Scanning(depth, true, true), a, name);
    if Escaped(s[0]).None? {
      var part := UnicodePart(s[1..]);
      OrdinaryWrites(part, EscapeAt(s).value.1, depth, IdentChar(s[0]), b, name);
    } else {
      FlagIdle(s[1..], Within(depth), IdentChar(s[0]), b, name);
    }
  }

  lemma {:induction false} TextWrites(s: string, depth: nat, a: bool, name: string)
    requires TextRest(s).Ok?
    ensures WritesFrom(s, Within(depth), a, name) == WritesFrom(TextRest(s).value.1, Outside(depth), false, name)
    decreases |s|
  {
    hide WritesFrom, EscapeAt;
    InTextWrites(s, Within(depth), a, name);
    if s[0] == '"' {
    } else if s[0] != '\\' {
      TextWrites(s[1..], depth, IdentChar(s[0]), name);
    } else {
      EscapeWrites(s[1..], depth, IdentChar(s[0]), false, name);
      TextWrites(EscapeAt(s[1..]).value.1, depth, false, name);
    }
  }

  lemma QuotedWrites(s: string, depth: nat, name: string)
    requires s != "" && s[0] == '"' && TextRest(s[1..]).Ok?
    ensures WritesFrom(s, Outside(depth), false, name) == WritesFrom(TextRest(s[1..]).value.1, Outside(depth), false, name)
  {
    hide WritesFrom, TextRest;
    SymbolWrites(s, depth, name);
    TextWrites(s[1..], depth, false, name);
  }

  // ----- the parser's turns -----

  /** What the rest of a text writes at a depth of open frames. */
  predicate Writes(s: string, frames: seq<Frame>, name: string) { WritesFrom(s, ScanOf(frames), false, name) }

  lemma KeyWrites(s: string, depth: nat, name: string)
    requires KeyRest(s).Ok?
    requires var after := SkipSpace(KeyRest(s).value.1); after != "" && after[0] == '='
    ensures WritesFrom(s, Outside(depth), false, name) == WritesFrom(KeyRest(s).value.1, Outside(depth), false, name)
  {
    hide WritesFrom, SkipSpace, TextRest, Span;
    if s[0] == '"' {
      QuotedWrites(s, depth, name);
    } else {
      WordWrites(s, depth, name);
    }
  }

  lemma KeyStepWrites(s: string, frames: seq<Frame>, name: string)
    requires Between(frames) && Keyed(Top(frames)) && KeyStep(s, frames).Ok?
    ensures Writes(s, frames, name) == Writes(KeyStep(s, frames).value.0, KeyStep(s, frames).value.1, name)
  {
    hide WritesFrom, KeyRest, SkipSpace, Stacked;
    var depth, key := |frames|, KeyRest(s).value.1;
    var equals := SkipSpace(key);
    KeyWrites(s, depth, name);
    SpaceWrites(key, depth, name);
    SymbolWrites(equals, depth, name);
    SpaceWrites(equals[1..], depth, name);
  }

  /** The word of a value, the blanks after it and a parenthesis. */
  lemma WordAndBlanks(s: string, depth: nat, name: string)
    requires s != "" && IdentStart(s[0])
    ensures var after := SkipSpace(s[Span(s, IdentChar)..]);
            && (WritesFrom(s, Outside(depth), false, name)
                <==> OpensCall(s, name) || WritesFrom(after, Outside(depth), false, name))
            && (after != "" && after[0] == '(' ==>
                  WritesFrom(after, Outside(depth), false, name) == WritesFrom(after[1..], Outside(depth + 1), false, name))
            && (after == "" || after[0] != '(' ==> !OpensCall(s, name))
  {
    var n := Span(s, IdentChar);
    var after := SkipSpace(s[n..]);
    WordWrites(s, depth, name);
    SpaceWrites(s[n..], depth, name);
    if after != "" && after[0] == '(' { SymbolWrites(after, depth, name); }
    hide WritesFrom, Span, SkipSpace;
  }

  lemma WordStepWrites(s: string, frames: seq<Frame>, limit: nat, name: string)
    requires Ready(frames) && s != "" && IdentStart(s[0]) && ValueStep(s, frames, limit).Ok?
    ensures var next := ValueStep(s, frames, limit).value.state;
            Writes(s, frames, name) <==> OpensCall(s, name) || Writes(next.rest, next.frames, name)
  {
    WordAndBlanks(s, |frames|, name);
    assert s[0] != '"' && s[0] != '-' && !Digit(s[0]) && s[0] != '[' && s[0] != '{';
    hide WritesFrom, OpensCall, Stacked, Attach, Span, SkipSpace, TextRest, NumberLength, WordValue, IdentStart, IdentChar,
         Digit;
  }

  lemma NumberStepWrites(s: string, depth: nat, name: string)
    requires NumberLength(s).Ok?
    ensures WritesFrom(s, Outside(depth), false, name) == WritesFrom(s[NumberLength(s).value..], Outside(depth), false, name)
  {
    var n := NumberLength(s).value;
    NumberChars(s);
    assert s == s[..n] + s[n..];
    NumberEnds(s);
    hide NumberLength, WritesFrom;
    NumberWrites(s[..n], s[n..], depth, false, name);
  }

  lemma NumberEnds(s: string)
    requires NumberLength(s).Ok?
    ensures var n := NumberLength(s).value; n < |s| ==> !IdentStart(s[n])
  {
    hide WholeEnd, FractionEnd;
  }

  lemma ValueStepWrites(s: string, frames: seq<Frame>, limit: nat, name: string)
    requires Ready(frames) && ValueStep(s, frames, limit).Ok?
    ensures var next := ValueStep(s, frames, limit).value.state;
            Writes(s, frames, name) <==> OpensCall(s, name) || Writes(next.rest, next.frames, name)
  {
    hide WritesFrom, Stacked, Attach, Span, SkipSpace, TextRest, NumberLength;
    if IdentStart(s[0]) {
      WordStepWrites(s, frames, limit, name);
    } else if s[0] == '"' {
      QuotedWrites(s, |frames|, name);
    } else if s[0] == '-' || Digit(s[0]) {
      NumberStepWrites(s, |frames|, name);
    } else {
      SymbolWrites(s, |frames|, name);
    }
  }

  /** One turn takes text that writes exactly the call it opens. */
  lemma StepWrites(st: State, limit: nat, name: string)
    requires Between(st.frames) && Step(st, limit).Ok?
    ensures match Step(st, limit).value
            case Done(_) => !Writes(st.rest, st.frames, name) && !OpensAt(st, name)
            case More(next) => Writes(st.rest, st.frames, name) <==> OpensAt(st, name) || Writes(next.rest, next.frames, name)
  {
    assert st.frames != [];
    hide WritesFrom, OpensCall, ValueStep, KeyStep, Attach, Closed, SkipSpace;
    var s, depth := SkipSpace(st.rest), |st.frames|;
    SpaceWrites(st.rest, depth, name);
    if s != "" && s[0] == Closer(Top(st.frames)) {
      SymbolWrites(s, depth, name);
      if Top(st.frames).ArgumentsFrame? {
        assert depth == 1;
        StoppedWrites(s[1..], AllClosed, false, name);
      } else {
        assert depth > 1;
      }
    } else if st.afterItem {
      SymbolWrites(s, depth, name);
    } else if Keyed(Top(st.frames)) {
      KeyStepWrites(s, st.frames, name);
      ValueStepWrites(KeyStep(s, st.frames).value.0, KeyStep(s, st.frames).value.1, limit, name);
    } else {
      ValueStepWrites(s, st.frames, limit, name);
    }
  }

  lemma {:induction false} RunWrites(st: State, limit: nat, name: string)
    requires Between(st.frames) && Run(st, limit).Ok?
    ensures Writes(st.rest, st.frames, name) <==> OpensLater(st, limit, name)
    decreases |st.rest|
  {
    StepWrites(st, limit, name);
    OpensNowOrLater(st, limit, name);
    hide Step, OpensAt, OpensLater, Writes;
    if Step(st, limit).value.More? { RunWrites(Step(st, limit).value.state, limit, name); }
  }

  /** An accepted tree holds a call exactly when its text writes it: outside
      quoted texts the name stands as a whole word before a parenthesis. */
  lemma CallsAreWritten(text: string, limit: nat, name: string)
    requires Parse(text, limit).Ok?
    ensures FieldsHaveCall(Parse(text, limit).value, name) <==> WritesCall(text, name)
  {
    CallsAreOpened(text, limit, name);
    RunWrites(Start(text), limit, name);
    hide WritesFrom, OpensLater, FieldsHaveCall;
  }

  /** The documented rule is kept exactly when the text writes neither `true` nor
      `false` before a parenthesis. */
  lemma WordRuleIsLexical(text: string, limit: nat)
    requires Parse(text, limit).Ok?
    ensures KeepsWordRule(Parse(text, limit).value) <==> !WritesCall(text, "true") && !WritesCall(text, "false")
  {
    hide Parse, WritesCall, FieldsHaveCall;
    CallsAreWritten(text, limit, "true");
    CallsAreWritten(text, limit, "false");
  }
}
