/** The doc attribute parser as it runs: a cursor over the text and a stack of
    frames, both changed in place. */
module DocParser {
  import opened Wrappers
  import opened DocParsing

  class Cursor {
    const text: string
    var pos: nat

    ghost predicate Valid()
      reads this
    { pos <= |text| }

    ghost function Rest(): string
      reads this
      requires Valid()
    { text[pos..] }

    constructor (text: string)
      ensures Valid() && Rest() == text && this.text == text
    {
      this.text := text;
      this.pos := 0;
    }

    function Peek(): (r: Option<char>)
      reads this
      requires Valid()
      ensures r == if Rest() == "" then None else Some(Rest()[0])
    {
      if pos < |text| then Some(text[pos]) else None
    }

    method Bump() returns (r: Option<char>)
      requires Valid()
      modifies this
      ensures Valid() && r == old(Peek())
      ensures Rest() == if old(Rest()) == "" then "" else old(Rest())[1..]
    {
      r := Peek();
      if r.Some? { pos := pos + 1; }
    }

    method SkipBlanks()
      requires Valid()
      modifies this
      ensures Valid() && Rest() == SkipSpace(old(Rest()))
    {
      while pos < |text| && Blank(text[pos])
        invariant Valid() && SkipSpace(Rest()) == SkipSpace(old(Rest()))
        decreases |text| - pos
      {
        assert Rest()[1..] == text[pos + 1..];
        pos := pos + 1;
      }
    }

    method TakeWhile(keep: char -> bool) returns (taken: string)
      requires Valid()
      modifies this
      ensures Valid() && taken == old(Rest())[..Span(old(Rest()), keep)] && Rest() == old(Rest())[Span(old(Rest()), keep)..]
    {
      ghost var s := Rest();
      var start := pos;
      assert s[0..] == s;
      hide Span;
      while pos < |text| && keep(text[pos])
        invariant Valid() && start <= pos && start + |s| == |text| && s == text[start..]
        invariant pos - start + Span(text[pos..], keep) == Span(s, keep)
        decreases |text| - pos
      {
        SpanOn(text, pos, keep);
        pos := pos + 1;
      }
      SpanOff(text, pos, keep);
      taken := text[start..pos];
    }

    method ParseUnicodeEscape() returns (r: Result<char, DocError>)
      requires Valid()
      modifies this
      ensures Valid()
      ensures match UnicodeEscape(old(Rest()))
              case Ok((c, rest)) => r == Ok(c) && Rest() == rest
              case Err(e) => r == Err(e)
    {
      hide Span, CharOf;
      var open := Bump();
      if open != Some('{') { return Err(Malformed); }
      var digits := TakeWhile(HexDigit);
      if digits == "" || |digits| > 6 { return Err(Malformed); }
      var close := Bump();
      if close != Some('}') { return Err(Malformed); }
      r := CharOf(digits);
    }

    method ParseEscape() returns (r: Result<char, DocError>)
      requires Valid()
      modifies this
      ensures Valid()
      ensures match EscapeAt(old(Rest()))
              case Ok((c, rest)) => r == Ok(c) && Rest() == rest
              case Err(e) => r == Err(e)
    {
      var c := Bump();
      if c.None? { return Err(Malformed); }
      var plain := Escaped(c.value);
      if plain.Some? { return Ok(plain.value); }
      if c.value != 'u' { return Err(Malformed); }
      r := ParseUnicodeEscape();
    }

    /** `parse_text`, from its opening quote. */
    method ParseText() returns (r: Result<string, DocError>)
      requires Valid() && Rest() != ""
      modifies this
      ensures Valid()
      ensures match TextRest(old(Rest())[1..])
              case Ok((value, rest)) => r == Ok(value) && Rest() == rest
              case Err(e) => r == Err(e)
    {
      ghost var s := Rest()[1..];
      var quote := Bump();
      var out := "";
      PrependNothing(TextRest(s));
      while true
        invariant Valid() && TextRest(s) == Prepended(out, TextRest(Rest()))
        decreases |text| - pos
      {
        ghost var here := Rest();
        var c := Bump();
        if c.None? || c.value == '\n' { return Err(Malformed); }
        if c.value == '"' {
          assert out + "" == out;
          return Ok(out);
        }
        if c.value == '\\' {
          var escape := ParseEscape();
          if escape.Err? { return Err(escape.error); }
          PrependOne(out, escape.value, TextRest(Rest()));
          out := out + [escape.value];
        } else {
          PrependOne(out, c.value, TextRest(Rest()));
          out := out + [c.value];
        }
      }
    }

    method TakeWhole() returns (r: Result<(), DocError>)
      requires Valid()
      modifies this
      ensures Valid()
      ensures match WholeEnd(old(Rest()))
              case Ok(n) => r.Ok? && pos == old(pos) + n
              case Err(e) => r == Err(e)
    {
      ghost var s := Rest();
      if Peek() == Some('-') { var sign := Bump(); }
      assert Rest() == s[SignLength(s)..];
      ghost var tail := Rest();
      var whole := TakeWhile(Digit);
      assert |Rest()| == |tail| - |whole|;
      if whole == "" { return Err(Malformed); }
      assert whole[0] == tail[0] == s[SignLength(s)];
      r := if |whole| > 1 && whole[0] == '0' then Err(Malformed) else Ok(());
    }

    method TakeFraction(ghost s: string, ghost end: nat) returns (r: Result<(), DocError>)
      requires Valid() && end <= |s| && Rest() == s[end..]
      modifies this
      ensures Valid()
      ensures match FractionEnd(s, end)
              case Ok(n) => r.Ok? && pos == old(pos) + n - end
              case Err(e) => r == Err(e)
    {
      if Peek() == Some('.') {
        var dot := Bump();
        assert Rest() == s[end + 1..];
        ghost var tail := Rest();
        var fraction := TakeWhile(Digit);
        assert |Rest()| == |tail| - |fraction|;
        r := if fraction == "" then Err(Malformed) else Ok(());
      } else {
        r := Ok(());
      }
    }

    method ParseNumber() returns (r: Result<string, DocError>)
      requires Valid()
      modifies this
      ensures Valid()
      ensures match NumberLength(old(Rest()))
              case Ok(n) => r == Ok(old(Rest())[..n]) && Rest() == old(Rest())[n..]
              case Err(e) => r == Err(e)
    {
      hide WholeEnd, FractionEnd;
      ghost var s := Rest();
      var start := pos;
      var whole := TakeWhole();
      if whole.Err? { return Err(whole.error); }
      ghost var end := WholeEnd(s).value;
      assert Rest() == s[end..];
      var fraction := TakeFraction(s, end);
      if fraction.Err? { return Err(fraction.error); }
      ghost var last := FractionEnd(s, end).value;
      assert Rest() == s[last..] && text[start..pos] == s[..last];
      var next := Peek();
      if next.Some? && (IdentChar(next.value) || next.value == '.') { return Err(Malformed); }
      r := Ok(text[start..pos]);
    }

    method ParseKey() returns (r: Result<string, DocError>)
      requires Valid()
      modifies this
      ensures Valid()
      ensures match KeyRest(old(Rest()))
              case Ok((key, rest)) => r == Ok(key) && Rest() == rest
              case Err(e) => r == Err(e)
    {
      var next := Peek();
      if next == Some('"') {
        r := ParseText();
      } else if next.Some? && IdentStart(next.value) {
        var key := TakeWhile(IdentChar);
        r := Ok(key);
      } else {
        r := Err(Malformed);
      }
    }
  }

  function Prepended(out: string, r: Result<(string, string), DocError>): Result<(string, string), DocError> {
    if r.Ok? then Ok((out + r.value.0, r.value.1)) else r
  }

  lemma PrependNothing(r: Result<(string, string), DocError>)
    ensures Prepended("", r) == r
  {
    if r.Ok? { assert "" + r.value.0 == r.value.0; }
  }

  lemma PrependOne(out: string, c: char, r: Result<(string, string), DocError>)
    ensures Prepended(out, Prefixed(c, r)) == Prepended(out + [c], r)
  {
    if r.Ok? { assert out + ([c] + r.value.0) == (out + [c]) + r.value.0; }
  }

  /** A value, or the opening of a nested one. */
  method TakeValue(cursor: Cursor, frames: seq<Frame>, limit: nat) returns (r: Result<(seq<Frame>, bool), DocError>)
    requires cursor.Valid() && Ready(frames)
    modifies cursor
    ensures cursor.Valid()
    ensures match ValueStep(old(cursor.Rest()), frames, limit)
            case Ok(More(next)) => r == Ok((next.frames, next.afterItem)) && cursor.Rest() == next.rest
            case Ok(Done(_)) => false
            case Err(e) => r == Err(e)
  {
    hide TextRest, NumberLength, Span, Attach, Stacked, IdentChar;
    var next := cursor.Peek();
    if next.None? { return Err(Malformed); }
    var c := next.value;
    if c == '"' {
      var text := cursor.ParseText();
      r := if text.Err? then Err(text.error) else Ok((Attach(frames, TextValue(text.value)), true));
    } else if c == '-' || Digit(c) {
      var number := cursor.ParseNumber();
      r := if number.Err? then Err(number.error) else Ok((Attach(frames, NumberValue(number.value)), true));
    } else if c == '[' {
      var bracket := cursor.Bump();
      r := Opened(frames, ListFrame([]), limit);
    } else if c == '{' {
      var bracket := cursor.Bump();
      r := Opened(frames, RecordFrame([], {}, None), limit);
    } else if IdentStart(c) {
      var word := cursor.TakeWhile(IdentChar);
      cursor.SkipBlanks();
      if cursor.Peek() == Some('(') {
        var bracket := cursor.Bump();
        r := Opened(frames, CallFrame(word, []), limit);
      } else {
        r := Ok((Attach(frames, WordValue(word)), true));
      }
    } else {
      r := Err(Malformed);
    }
  }

  function Opened(frames: seq<Frame>, f: Frame, limit: nat): Result<(seq<Frame>, bool), DocError> {
    if |frames| + 1 > limit then Err(Nesting(|frames| + 1)) else Ok((frames + [f], false))
  }

  /** `key =` in a keyed frame. */
  method TakeKey(cursor: Cursor, frames: seq<Frame>) returns (r: Result<seq<Frame>, DocError>)
    requires cursor.Valid() && Between(frames) && Keyed(Top(frames))
    modifies cursor
    ensures cursor.Valid()
    ensures match KeyStep(old(cursor.Rest()), frames)
            case Ok((rest, next)) => r == Ok(next) && cursor.Rest() == rest
            case Err(e) => r == Err(e)
  {
    assert frames != [];
    hide KeyRest, Stacked, SkipSpace, WithKey;
    var key := cursor.ParseKey();
    if key.Err? { return Err(key.error); }
    cursor.SkipBlanks();
    if cursor.Peek() != Some('=') { return Err(Malformed); }
    var equals := cursor.Bump();
    cursor.SkipBlanks();
    var top := Top(frames);
    if key.value in top.keys { return Err(DuplicateKey); }
    r := Ok(frames[..|frames| - 1] + [WithKey(top, key.value)]);
  }

  /** Closing the innermost bracket; closing the arguments ends the parse. */
  method TakeCloser(cursor: Cursor, frames: seq<Frame>) returns (r: Result<Outcome, DocError>)
    requires cursor.Valid() && cursor.Rest() != "" && Between(frames)
    modifies cursor
    ensures cursor.Valid() && r == CloseStep(old(cursor.Rest()), frames)
    ensures r.Ok? && r.value.More? ==> cursor.Rest() == r.value.state.rest
  {
    FramesOpen(frames);
    hide Stacked, Closed, SkipSpace, AddTo;
    var bracket := cursor.Bump();
    var top := Top(frames);
    if top.ArgumentsFrame? {
      cursor.SkipBlanks();
      return if cursor.Peek().Some? then Err(Malformed) else Ok(Done(top.fields));
    }
    BelowIsReady(frames);
    r := Ok(More(State(cursor.text[cursor.pos..], Attach(frames[..|frames| - 1], Closed(top)), true)));
  }

  /** An item: in a keyed frame its key first, then its value. */
  method TakeItem(cursor: Cursor, frames: seq<Frame>, limit: nat) returns (r: Result<(seq<Frame>, bool), DocError>)
    requires cursor.Valid() && Between(frames)
    modifies cursor
    ensures cursor.Valid()
    ensures match ItemStep(old(cursor.Rest()), frames, limit)
            case Ok(More(next)) => r == Ok((next.frames, next.afterItem)) && cursor.Rest() == next.rest
            case Ok(Done(_)) => false
            case Err(e) => r == Err(e)
  {
    FramesOpen(frames);
    hide KeyStep, ValueStep, Stacked;
    var ready := frames;
    if Keyed(Top(frames)) {
      var key := TakeKey(cursor, frames);
      if key.Err? { return Err(key.error); }
      ready := key.value;
    }
    r := TakeValue(cursor, ready, limit);
  }

  /** `parse_arguments`. */
  method ParseArguments(text: string, limit: nat) returns (r: Result<seq<DocArgument>, DocError>)
    ensures r == Parse(text, limit)
  {
    hide Run, ItemStep, CloseStep, Stacked, Closed, SkipSpace;
    if 1 > limit { return Err(Nesting(1)); }
    var cursor := new Cursor(text);
    var frames := [ArgumentsFrame([], {}, None)];
    var afterItem := false;
    ghost var start := Start(text);
    while true
      invariant cursor.Valid() && fresh(cursor) && Between(frames)
      invariant Run(State(cursor.Rest(), frames, afterItem), limit) == Run(start, limit)
      decreases |cursor.Rest()|
    {
      FramesOpen(frames);
      RunStep(State(cursor.Rest(), frames, afterItem), limit);
      cursor.SkipBlanks();
      var next := cursor.Peek();
      if next == Some(Closer(Top(frames))) {
        var closed := TakeCloser(cursor, frames);
        if closed.Err? { return Err(closed.error); }
        if closed.value.Done? { return Ok(closed.value.args); }
        frames, afterItem := closed.value.state.frames, true;
      } else if afterItem {
        if next != Some(',') { return Err(Malformed); }
        var comma := cursor.Bump();
        afterItem := false;
      } else {
        var item := TakeItem(cursor, frames, limit);
        if item.Err? { return Err(item.error); }
        frames, afterItem := item.value.0, item.value.1;
      }
    }
  }

  lemma SpanOn(s: string, i: nat, keep: char -> bool)
    requires i < |s| && keep(s[i])
    ensures Span(s[i..], keep) == 1 + Span(s[i + 1..], keep)
  {
    assert s[i..][1..] == s[i + 1..];
  }

  lemma SpanOff(s: string, i: nat, keep: char -> bool)
    requires i <= |s| && (i < |s| ==> !keep(s[i]))
    ensures Span(s[i..], keep) == 0
  {
  }

  lemma RunStep(st: State, limit: nat)
    requires Between(st.frames)
    ensures Run(st, limit) ==
            var next := Step(st, limit);
            if next.Err? then Err(next.error)
            else if next.value.Done? then Ok(next.value.args)
            else Run(next.value.state, limit)
  {
  }

  lemma FramesOpen(frames: seq<Frame>)
    requires Between(frames)
    ensures frames != []
  {
  }

  lemma BelowIsReady(frames: seq<Frame>)
    requires Between(frames) && !Top(frames).ArgumentsFrame?
    ensures |frames| > 1 && Ready(frames[..|frames| - 1])
  {
  }
}
