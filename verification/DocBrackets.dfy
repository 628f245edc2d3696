/** The bracket scan that decides how many doc lines an attribute spans: at
    every point the parser reaches, its depth is the number of open frames,
    however the text is split into lines. */
module DocBrackets {
  import opened DocParsing

  /** Scanning, or stopped: every bracket closed, or a text left open. */
  datatype Scan = Scanning(depth: nat, inText: bool, escaped: bool) | AllClosed | OpenText

  function Feed(s: Scan, c: char): Scan {
    if !s.Scanning? then s
    else if s.inText then
      if s.escaped then s.(escaped := false)
      else if c == '\\' then s.(escaped := true)
      else if c == '"' then s.(inText := false)
      else if c == '\n' then OpenText
      else s
    else if c == '"' then s.(inText := true)
    else if c == '(' || c == '[' || c == '{' then s.(depth := s.depth + 1)
    else if c == ')' || c == ']' || c == '}' then
      if s.depth <= 1 then AllClosed else s.(depth := s.depth - 1)
    else s
  }

  function FeedAll(s: Scan, part: string): Scan
    decreases |part|
  {
    if part == "" then s else FeedAll(Feed(s, part[0]), part[1..])
  }

  /** Feeding a text in parts is feeding it whole: where lines are split does
      not matter. */
  lemma {:induction false} FeedParts(s: Scan, a: string, b: string)
    ensures FeedAll(s, a + b) == FeedAll(FeedAll(s, a), b)
    decreases |a|
  {
    if a == "" {
      assert a + b == b;
    } else {
      assert (a + b)[1..] == a[1..] + b;
      FeedParts(Feed(s, a[0]), a[1..], b);
    }
  }

  lemma FeedOne(s: Scan, c: char, rest: string)
    ensures FeedAll(s, [c] + rest) == FeedAll(Feed(s, c), rest)
  {
    assert ([c] + rest)[1..] == rest;
  }

  lemma {:induction false} StoppedStays(s: Scan, part: string)
    requires !s.Scanning?
    ensures FeedAll(s, part) == s
  {
    if part != "" { StoppedStays(s, part[1..]); }
  }

  /** `BracketScan`: fed one line at a time, keeping its state in between. */
  class BracketScan {
    var depth: nat
    var inText: bool
    var escaped: bool

    constructor ()
      ensures depth == 1 && !inText && !escaped
    { depth, inText, escaped := 1, false, false; }

    ghost function State(): Scan
      reads this
    { Scanning(depth, inText, escaped) }

    /** Whether all brackets are closed after the part; a text still open at the
        end of the part never closes on its line. */
    method FeedLine(part: string) returns (closed: bool, openText: bool)
      requires depth >= 1
      modifies this
      ensures closed <==> FeedAll(old(State()), part) == AllClosed
      ensures openText <==>
                FeedAll(old(State()), part) == OpenText
                || (FeedAll(old(State()), part).Scanning? && FeedAll(old(State()), part).inText)
      ensures !closed && !openText ==> depth >= 1 && FeedAll(old(State()), part) == State() && !inText
    {
      ghost var start := State();
      closed, openText := false, false;
      assert part[0..] == part;
      for i := 0 to |part|
        invariant depth >= 1 && FeedAll(State(), part[i..]) == FeedAll(start, part)
      {
        var c := part[i];
        assert part[i..][0] == c && part[i..][1..] == part[i + 1..];
        ghost var next := Feed(State(), c);
        if inText {
          if escaped {
            escaped := false;
          } else if c == '\\' {
            escaped := true;
          } else if c == '"' {
            inText := false;
          } else if c == '\n' {
            StoppedStays(OpenText, part[i + 1..]);
            openText := true;
            return;
          }
        } else if c == '"' {
          inText := true;
        } else if c == '(' || c == '[' || c == '{' {
          depth := depth + 1;
        } else if c == ')' || c == ']' || c == '}' {
          if depth == 1 {
            StoppedStays(AllClosed, part[i + 1..]);
            closed := true;
            depth := 0;
            return;
          }
          depth := depth - 1;
        }
      }
      assert part[|part|..] == "";
      openText := inText;
    }
  }

  // ----- what each token does to the scan -----

  /** Outside text at a depth. */
  function Outside(depth: nat): Scan { Scanning(depth, false, false) }

  function Within(depth: nat): Scan { Scanning(depth, true, false) }

  predicate Quiet(c: char) {
    c != '"' && c != '(' && c != ')' && c != '[' && c != ']' && c != '{' && c != '}'
  }

  lemma {:induction false} QuietFeeds(depth: nat, part: string)
    requires forall i :: 0 <= i < |part| ==> Quiet(part[i])
    ensures FeedAll(Outside(depth), part) == Outside(depth)
  {
    if part != "" { QuietFeeds(depth, part[1..]); }
  }

  /** `s` is `taken` and then `rest`, and scanning what was taken leads from
      one state to the other. */
  ghost predicate Takes(s: string, rest: string, from: Scan, to: Scan) {
    exists taken :: s == taken + rest && FeedAll(from, taken) == to
  }

  lemma TakesNothing(s: string, from: Scan)
    ensures Takes(s, s, from, from)
  {
    assert s == "" + s && FeedAll(from, "") == from;
  }

  lemma TakesBoth(s: string, mid: string, rest: string, a: Scan, b: Scan, c: Scan)
    requires Takes(s, mid, a, b) && Takes(mid, rest, b, c)
    ensures Takes(s, rest, a, c)
  {
    var x :| s == x + mid && FeedAll(a, x) == b;
    var y :| mid == y + rest && FeedAll(b, y) == c;
    FeedParts(a, x, y);
    assert s == (x + y) + rest;
  }

  lemma TakesChar(s: string, from: Scan)
    requires s != ""
    ensures Takes(s, s[1..], from, Feed(from, s[0]))
  {
    assert s == [s[0]] + s[1..];
    FeedOne(from, s[0], "");
    assert [s[0]] + "" == [s[0]];
  }

  lemma TakesQuiet(s: string, n: nat, depth: nat)
    requires n <= |s| && forall i :: 0 <= i < n ==> Quiet(s[i])
    ensures Takes(s, s[n..], Outside(depth), Outside(depth))
  {
    QuietFeeds(depth, s[..n]);
    assert s == s[..n] + s[n..];
  }

  lemma {:induction false} SpaceTakes(s: string, depth: nat)
    ensures Takes(s, SkipSpace(s), Outside(depth), Outside(depth))
  {
    if s != "" && Blank(s[0]) {
      TakesChar(s, Outside(depth));
      SpaceTakes(s[1..], depth);
      TakesBoth(s, s[1..], SkipSpace(s), Outside(depth), Outside(depth), Outside(depth));
    } else {
      TakesNothing(s, Outside(depth));
    }
  }

  // ----- texts -----

  /** Neither a quote nor a backslash nor the end of a line. */
  predicate Ordinary(c: char) { c != '"' && c != '\\' && c != '\n' }

  lemma {:induction false} OrdinaryFeeds(depth: nat, part: string)
    requires forall i :: 0 <= i < |part| ==> Ordinary(part[i])
    ensures FeedAll(Within(depth), part) == Within(depth)
  {
    if part != "" { OrdinaryFeeds(depth, part[1..]); }
  }

  lemma EscapeTakes(s: string, depth: nat)
    requires EscapeAt(s).Ok?
    ensures Takes(s, EscapeAt(s).value.1, Scanning(depth, true, true), Within(depth))
  {
    TakesChar(s, Scanning(depth, true, true));
    if Escaped(s[0]).None? {
      UnicodeTakes(s[1..], depth);
      TakesBoth(s, s[1..], EscapeAt(s).value.1, Scanning(depth, true, true), Within(depth), Within(depth));
    }
  }

  /** The braces and digits of an escape are ordinary characters. */
  lemma UnicodePart(s: string) returns (part: string)
    requires UnicodeEscape(s).Ok?
    ensures s == part + UnicodeEscape(s).value.1 && forall i :: 0 <= i < |part| ==> Ordinary(part[i])
  {
    var n := Span(s[1..], HexDigit);
    var digits, rest := s[1..][..n], s[1..][n..];
    part := ['{'] + digits + ['}'];
    assert s[1..] == digits + rest;
    assert s == part + rest[1..];
    forall i | 0 <= i < |part| ensures Ordinary(part[i]) {
      if 1 <= i <= n { assert HexDigit(s[1..][i - 1]); }
    }
  }

  lemma UnicodeTakes(s: string, depth: nat)
    requires UnicodeEscape(s).Ok?
    ensures Takes(s, UnicodeEscape(s).value.1, Within(depth), Within(depth))
  {
    var part := UnicodePart(s);
    OrdinaryFeeds(depth, part);
  }

  lemma {:induction false} TextTakes(s: string, depth: nat)
    requires TextRest(s).Ok?
    ensures Takes(s, TextRest(s).value.1, Within(depth), Outside(depth))
    decreases |s|
  {
    hide Takes;
    var rest := TextRest(s).value.1;
    TakesChar(s, Within(depth));
    if s[0] == '"' {
    } else if s[0] != '\\' {
      TextTakes(s[1..], depth);
      TakesBoth(s, s[1..], rest, Within(depth), Within(depth), Outside(depth));
    } else {
      var after := EscapeAt(s[1..]).value.1;
      EscapeTakes(s[1..], depth);
      TextTakes(after, depth);
      TakesBoth(s, s[1..], after, Within(depth), Scanning(depth, true, true), Within(depth));
      TakesBoth(s, after, rest, Within(depth), Within(depth), Outside(depth));
    }
  }

  lemma QuotedTakes(s: string, depth: nat)
    requires s != "" && s[0] == '"' && TextRest(s[1..]).Ok?
    ensures Takes(s, TextRest(s[1..]).value.1, Outside(depth), Outside(depth))
  {
    hide Takes;
    TakesChar(s, Outside(depth));
    TextTakes(s[1..], depth);
    TakesBoth(s, s[1..], TextRest(s[1..]).value.1, Outside(depth), Within(depth), Outside(depth));
  }

  /** What numbers are written with. */
  predicate NumberChar(c: char) { Digit(c) || c == '-' || c == '.' }

  lemma DigitsAreNumber(s: string, from: nat)
    requires from <= |s|
    ensures forall i :: from <= i < from + Span(s[from..], Digit) ==> NumberChar(s[i])
  {
    var n := Span(s[from..], Digit);
    forall i | from <= i < from + n ensures NumberChar(s[i]) { assert Digit(s[from..][i - from]); }
  }

  lemma NumberChars(s: string)
    requires NumberLength(s).Ok?
    ensures forall i :: 0 <= i < NumberLength(s).value ==> NumberChar(s[i])
  {
    DigitsAreNumber(s, SignLength(s));
    var end := WholeEnd(s).value;
    if end < |s| && s[end] == '.' { DigitsAreNumber(s, end + 1); }
    hide Span;
  }

  // ----- the parser's turns -----

  /** The scan stands outside text, at a depth of the open frames. */
  function ScanOf(frames: seq<Frame>): Scan { Outside(|frames|) }

  lemma KeyTakes(s: string, depth: nat)
    requires KeyRest(s).Ok?
    ensures Takes(s, KeyRest(s).value.1, Outside(depth), Outside(depth))
  {
    hide Takes;
    if s[0] == '"' {
      QuotedTakes(s, depth);
    } else {
      TakesQuiet(s, Span(s, IdentChar), depth);
    }
  }

  lemma KeyStepTakes(s: string, frames: seq<Frame>)
    requires Between(frames) && Keyed(Top(frames)) && KeyStep(s, frames).Ok?
    ensures Takes(s, KeyStep(s, frames).value.0, ScanOf(frames), ScanOf(KeyStep(s, frames).value.1))
  {
    hide Takes, KeyRest, Stacked;
    var here := ScanOf(frames);
    var key := KeyRest(s).value.1;
    var equals := SkipSpace(key);
    KeyTakes(s, |frames|);
    SpaceTakes(key, |frames|);
    TakesBoth(s, key, equals, here, here, here);
    TakesChar(equals, here);
    TakesBoth(s, equals, equals[1..], here, here, here);
    SpaceTakes(equals[1..], |frames|);
    TakesBoth(s, equals[1..], SkipSpace(equals[1..]), here, here, here);
  }

  lemma ValueStepTakes(s: string, frames: seq<Frame>, limit: nat)
    requires Ready(frames) && ValueStep(s, frames, limit).Ok?
    ensures var next := ValueStep(s, frames, limit).value.state;
            Takes(s, next.rest, ScanOf(frames), ScanOf(next.frames))
  {
    hide Takes, TextRest, NumberLength, Stacked, Attach;
    var here := ScanOf(frames);
    if s[0] == '"' {
      QuotedTakes(s, |frames|);
    } else if s[0] == '-' || Digit(s[0]) {
      NumberChars(s);
      TakesQuiet(s, NumberLength(s).value, |frames|);
    } else if s[0] == '[' || s[0] == '{' {
      TakesChar(s, here);
    } else {
      var n := Span(s, IdentChar);
      var after := SkipSpace(s[n..]);
      TakesQuiet(s, n, |frames|);
      SpaceTakes(s[n..], |frames|);
      TakesBoth(s, s[n..], after, here, here, here);
      if after != "" && after[0] == '(' {
        TakesChar(after, here);
        TakesBoth(s, after, after[1..], here, here, Outside(|frames| + 1));
      }
    }
  }

  /** One turn of the parser takes text that leads the scan from the depth of
      the frames before to the depth of the frames after; the last turn meets
      the bracket that closes the attribute, with only blanks after it. */
  lemma StepTakes(st: State, limit: nat)
    requires Between(st.frames) && Step(st, limit).Ok?
    ensures match Step(st, limit).value
            case More(next) => Takes(st.rest, next.rest, ScanOf(st.frames), ScanOf(next.frames))
            case Done(_) => exists end :: Takes(st.rest, [')'] + end, ScanOf(st.frames), Outside(1)) && SkipSpace(end) == ""
  {
    assert st.frames != [];
    hide Takes, ValueStep, KeyStep, Attach, Closed;
    var s, here := SkipSpace(st.rest), ScanOf(st.frames);
    SpaceTakes(st.rest, |st.frames|);
    if s != "" && s[0] == Closer(Top(st.frames)) {
      TakesChar(s, here);
      TakesBoth(st.rest, s, s[1..], here, here, Feed(here, s[0]));
      if Top(st.frames).ArgumentsFrame? {
        assert |st.frames| == 1 && s == [')'] + s[1..];
      } else {
        assert |st.frames| > 1;
      }
    } else if st.afterItem {
      TakesChar(s, here);
      TakesBoth(st.rest, s, s[1..], here, here, here);
    } else if Keyed(Top(st.frames)) {
      var (rest, frames) := KeyStep(s, st.frames).value;
      KeyStepTakes(s, st.frames);
      ValueStepTakes(rest, frames, limit);
      var next := ValueStep(rest, frames, limit).value.state;
      TakesBoth(s, rest, next.rest, here, ScanOf(frames), ScanOf(next.frames));
      TakesBoth(st.rest, s, next.rest, here, here, ScanOf(next.frames));
    } else {
      ValueStepTakes(s, st.frames, limit);
      var next := ValueStep(s, st.frames, limit).value.state;
      TakesBoth(st.rest, s, next.rest, here, here, ScanOf(next.frames));
    }
  }

  /** The parser is at `end` some turns after `st`. */
  ghost predicate Reaches(st: State, limit: nat, turns: nat, end: State)
    requires Between(st.frames)
    decreases turns
  {
    if turns == 0 then st == end
    else Step(st, limit).Ok? && Step(st, limit).value.More? && Reaches(Step(st, limit).value.state, limit, turns - 1, end)
  }

  lemma {:induction false} ReachedTakes(st: State, limit: nat, turns: nat, end: State)
    requires Between(st.frames) && Reaches(st, limit, turns, end)
    ensures Between(end.frames) && Takes(st.rest, end.rest, ScanOf(st.frames), ScanOf(end.frames))
    decreases turns
  {
    hide Takes, Step;
    if turns == 0 {
      TakesNothing(st.rest, ScanOf(st.frames));
    } else {
      StepTakes(st, limit);
      var next := Step(st, limit).value.state;
      ReachedTakes(next, limit, turns - 1, end);
      TakesBoth(st.rest, next.rest, end.rest, ScanOf(st.frames), ScanOf(next.frames), ScanOf(end.frames));
    }
  }

  /** At every point the parser reaches in a text, the depth of the scan over
      what it has taken is the number of its open frames, outside any text. */
  lemma ReachedDepth(text: string, limit: nat, turns: nat, end: State)
    requires Reaches(Start(text), limit, turns, end)
    ensures exists taken :: text == taken + end.rest && FeedAll(Outside(1), taken) == Outside(|end.frames|)
  {
    ReachedTakes(Start(text), limit, turns, end);
    hide Reaches, FeedAll;
  }

  lemma {:induction false} RunTakes(st: State, limit: nat) returns (end: string)
    requires Between(st.frames) && Run(st, limit).Ok?
    ensures Takes(st.rest, [')'] + end, ScanOf(st.frames), Outside(1)) && SkipSpace(end) == ""
    decreases |st.rest|
  {
    hide Takes, Step, SkipSpace;
    StepTakes(st, limit);
    match Step(st, limit).value
    case More(next) =>
      end := RunTakes(next, limit);
      TakesBoth(st.rest, next.rest, [')'] + end, ScanOf(st.frames), ScanOf(next.frames), Outside(1));
    case Done(_) =>
      end :| Takes(st.rest, [')'] + end, ScanOf(st.frames), Outside(1)) && SkipSpace(end) == "";
  }

  lemma StillOpen(from: Scan, part: string, i: nat)
    requires i <= |part| && FeedAll(from, part).Scanning?
    ensures FeedAll(from, part[..i]).Scanning?
  {
    assert part == part[..i] + part[i..];
    FeedParts(from, part[..i], part[i..]);
    if !FeedAll(from, part[..i]).Scanning? { StoppedStays(FeedAll(from, part[..i]), part[i..]); }
  }

  lemma ClosedAfter(taken: string, end: string, i: nat)
    requires FeedAll(Outside(1), taken) == Outside(1) && |taken| < i <= |taken + [')'] + end|
    ensures FeedAll(Outside(1), (taken + [')'] + end)[..i]) == AllClosed
  {
    var more := end[..i - |taken| - 1];
    assert (taken + [')'] + end)[..i] == taken + ([')'] + more);
    FeedParts(Outside(1), taken, [')'] + more);
    FeedOne(Outside(1), ')', more);
    StoppedStays(AllClosed, more);
  }

  /** In an accepted text the scan closes exactly at the bracket that closes the
      attribute: it is open on everything up to it, closed from it on, and only
      blanks follow it. */
  lemma AcceptedCloses(text: string, limit: nat) returns (taken: string, end: string)
    requires Parse(text, limit).Ok?
    ensures text == taken + [')'] + end && SkipSpace(end) == ""
    ensures FeedAll(Outside(1), taken) == Outside(1)
    ensures forall i :: 0 <= i <= |text| ==> (FeedAll(Outside(1), text[..i]) == AllClosed <==> i > |taken|)
  {
    hide Run, SkipSpace, FeedAll;
    end := RunTakes(Start(text), limit);
    taken :| text == taken + ([')'] + end) && FeedAll(Outside(1), taken) == Outside(1);
    assert text == taken + [')'] + end;
    forall i | 0 <= i <= |text| ensures FeedAll(Outside(1), text[..i]) == AllClosed <==> i > |taken| {
      if i > |taken| {
        ClosedAfter(taken, end, i);
      } else {
        StillOpen(Outside(1), taken, i);
        assert text[..i] == taken[..i];
      }
    }
  }
}
