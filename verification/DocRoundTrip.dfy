/** Printing argument trees, and that the frame-stack parser reads every printed
    tree back. */
module DocRoundTrip {
  import opened Wrappers
  import opened DocParsing

  // ----- the printer -----

  /** How one character is written within a quoted text. */
  function EscapeChar(c: char): string {
    if c == '"' then "\\\"" else if c == '\\' then "\\\\" else if c == '\n' then "\\n" else [c]
  }

  function EscapeText(s: string): string {
    if s == "" then "" else EscapeChar(s[0]) + EscapeText(s[1..])
  }

  function Quoted(s: string): string { ['"'] + EscapeText(s) + ['"'] }

  function PrintValue(v: DocValue): string
    decreases v
  {
    match v
    case TextValue(value) => Quoted(value)
    case NumberValue(text) => text
    case BoolValue(truth) => if truth then "true" else "false"
    case IdentValue(name) => name
    case CallValue(name, args) => name + ['('] + PrintValues(args, 0) + [')']
    case ListValue(items) => ['['] + PrintValues(items, 0) + [']']
    case RecordValue(fields) => ['{'] + PrintFields(fields, 0) + ['}']
  }

  function PrintValues(items: seq<DocValue>, k: nat): string
    requires k <= |items|
    decreases items, |items| - k
  {
    if k == |items| then ""
    else PrintValue(items[k]) + (if k + 1 < |items| then ", " else "") + PrintValues(items, k + 1)
  }

  function PrintFields(fields: seq<DocArgument>, k: nat): string
    requires k <= |fields|
    decreases fields, |fields| - k
  {
    if k == |fields| then ""
    else
      Quoted(fields[k].key) + " = " + PrintValue(fields[k].value)
      + (if k + 1 < |fields| then ", " else "") + PrintFields(fields, k + 1)
  }

  /** The text after an attribute's opening parenthesis. */
  function PrintArguments(args: seq<DocArgument>): string { PrintFields(args, 0) + [')'] }

  // ----- trees that can be written -----

  predicate Word(s: string) { s != "" && IdentStart(s[0]) && forall i :: 0 <= i < |s| ==> IdentChar(s[i]) }

  predicate DistinctKeys(fields: seq<DocArgument>) {
    forall i, j :: 0 <= i < j < |fields| ==> fields[i].key != fields[j].key
  }

  /** Numbers and words are spelled as the syntax has them, keys do not repeat,
      and brackets nest no deeper than there is room. */
  predicate Writable(v: DocValue, room: nat)
    decreases v
  {
    match v
    case TextValue(_) => true
    case NumberValue(text) => NumberLength(text) == Ok(|text|)
    case BoolValue(_) => true
    case IdentValue(name) => Word(name) && name != "true" && name != "false"
    case CallValue(name, args) => Word(name) && room > 0 && forall i :: 0 <= i < |args| ==> Writable(args[i], room - 1)
    case ListValue(items) => room > 0 && forall i :: 0 <= i < |items| ==> Writable(items[i], room - 1)
    case RecordValue(fields) =>
      room > 0 && DistinctKeys(fields) && forall i :: 0 <= i < |fields| ==> Writable(fields[i].value, room - 1)
  }

  predicate WritableArguments(args: seq<DocArgument>, room: nat) {
    DistinctKeys(args) && forall i :: 0 <= i < |args| ==> Writable(args[i].value, room)
  }

  // ----- tokens -----

  /** What follows a value in printed text: a comma or a closing bracket. */
  predicate Separator(tail: string) {
    tail != "" && (tail[0] == ',' || tail[0] == ')' || tail[0] == ']' || tail[0] == '}')
  }

  lemma EscapedReads(c: char, rest: string)
    requires Escaped(c).Some?
    ensures TextRest(['\\', c] + rest) == Prefixed(Escaped(c).value, TextRest(rest))
  {
    var all := ['\\', c] + rest;
    assert all[1..] == [c] + rest && ([c] + rest)[1..] == rest;
    assert EscapeAt([c] + rest) == Ok((Escaped(c).value, rest));
  }

  lemma PlainReads(c: char, rest: string)
    requires c != '"' && c != '\\' && c != '\n'
    ensures TextRest([c] + rest) == Prefixed(c, TextRest(rest))
  {
    assert ([c] + rest)[1..] == rest;
  }

  lemma TextEnds(tail: string)
    ensures TextRest(['"'] + tail) == Ok(("", tail))
  {
    assert (['"'] + tail)[1..] == tail;
  }

  lemma EscapeCharReads(c: char, rest: string)
    ensures TextRest(EscapeChar(c) + rest) == Prefixed(c, TextRest(rest))
  {
    if c == '"' || c == '\\' {
      assert EscapeChar(c) == ['\\', c];
      EscapedReads(c, rest);
    } else if c == '\n' {
      assert EscapeChar(c) == ['\\', 'n'];
      EscapedReads('n', rest);
    } else {
      PlainReads(c, rest);
    }
    hide TextRest;
  }

  /** What escaping wrote, reading gives back. */
  lemma {:induction false} TextReads(s: string, tail: string)
    ensures TextRest(EscapeText(s) + (['"'] + tail)) == Ok((s, tail))
  {
    hide TextRest, EscapeChar;
    if s == "" {
      assert EscapeText(s) + (['"'] + tail) == ['"'] + tail;
      TextEnds(tail);
    } else {
      var rest := EscapeText(s[1..]) + (['"'] + tail);
      TextReads(s[1..], tail);
      assert EscapeText(s) + (['"'] + tail) == EscapeChar(s[0]) + rest;
      EscapeCharReads(s[0], rest);
      assert s == [s[0]] + s[1..];
    }
  }

  lemma {:induction false} SpanStops(s: string, tail: string, keep: char -> bool)
    requires forall i :: 0 <= i < |s| ==> keep(s[i])
    requires tail != "" ==> !keep(tail[0])
    ensures Span(s + tail, keep) == |s|
  {
    if s == "" {
      assert s + tail == tail;
    } else {
      assert (s + tail)[1..] == s[1..] + tail;
      SpanStops(s[1..], tail, keep);
    }
  }

  lemma {:induction false} SpanExtends(s: string, tail: string, keep: char -> bool)
    requires tail != "" ==> !keep(tail[0])
    ensures Span(s + tail, keep) == Span(s, keep)
  {
    if s == "" {
      assert s + tail == tail;
    } else if keep(s[0]) {
      assert (s + tail)[1..] == s[1..] + tail;
      SpanExtends(s[1..], tail, keep);
    }
  }

  /** What follows cannot be part of a number or word. */
  predicate Stops(tail: string) { tail != "" && !IdentChar(tail[0]) && tail[0] != '.' }

  lemma WholeReads(text: string, tail: string)
    requires WholeEnd(text).Ok? && Stops(tail)
    ensures WholeEnd(text + tail) == WholeEnd(text)
    ensures text[0] == '-' || Digit(text[0])
  {
    var sign := SignLength(text);
    assert SignLength(text + tail) == sign;
    assert (text + tail)[sign..] == text[sign..] + tail;
    SpanExtends(text[sign..], tail, Digit);
    if sign == 0 { assert text[0..] == text; }
  }

  lemma FractionReads(text: string, tail: string, end: nat)
    requires end <= |text| && FractionEnd(text, end).Ok? && Stops(tail)
    ensures FractionEnd(text + tail, end) == FractionEnd(text, end)
  {
    if end < |text| {
      assert (text + tail)[end + 1..] == text[end + 1..] + tail;
      SpanExtends(text[end + 1..], tail, Digit);
    }
  }

  /** A number ends where it did, before what cannot be part of it. */
  lemma NumberReads(text: string, tail: string)
    requires NumberLength(text) == Ok(|text|) && Stops(tail)
    ensures NumberLength(text + tail) == Ok(|text|)
    ensures text[0] == '-' || Digit(text[0])
  {
    WholeReads(text, tail);
    FractionReads(text, tail, WholeEnd(text).value);
    assert (text + tail)[|text|] == tail[0];
    hide WholeEnd, FractionEnd;
  }

  lemma SkipNothing(s: string)
    requires s != "" && !Blank(s[0])
    ensures SkipSpace(s) == s
  {
  }

  // ----- running -----

  function RunValue(s: string, frames: seq<Frame>, limit: nat): Result<seq<DocArgument>, DocError>
    requires Ready(frames)
  {
    var next := ValueStep(s, frames, limit);
    if next.Err? then Err(next.error) else Run(next.value.state, limit)
  }

  lemma RunStep(st: State, limit: nat)
    requires Between(st.frames)
    ensures Run(st, limit) ==
            var next := Step(st, limit);
            if next.Err? then Err(next.error)
            else if next.value.Done? then Ok(next.value.args)
            else Run(next.value.state, limit)
  {
  }

  /** A space in front changes nothing. */
  lemma RunSkips(s: string, frames: seq<Frame>, afterItem: bool, limit: nat)
    requires Between(frames)
    ensures Run(State([' '] + s, frames, afterItem), limit) == Run(State(s, frames, afterItem), limit)
  {
    assert ([' '] + s)[1..] == s;
    assert SkipSpace([' '] + s) == SkipSpace(s);
    hide SkipSpace, CloseStep, ItemStep, Stacked;
    RunStep(State([' '] + s, frames, afterItem), limit);
    RunStep(State(s, frames, afterItem), limit);
    hide Run;
  }

  lemma RunComma(s: string, frames: seq<Frame>, limit: nat)
    requires Between(frames)
    ensures Run(State([',', ' '] + s, frames, true), limit) == Run(State(s, frames, false), limit)
  {
    var t := [',', ' '] + s;
    SkipNothing(t);
    RunStep(State(t, frames, true), limit);
    assert t[1..] == [' '] + s;
    NotCloser(Top(frames), ',');
    RunSkips(s, frames, false, limit);
    hide Run;
  }

  lemma NotCloser(f: Frame, c: char)
    requires c != ')' && c != ']' && c != '}'
    ensures c != Closer(f)
  {
  }

  /** The first character of a printed value starts a value. */
  predicate ValueStart(c: char) { c == '"' || c == '-' || Digit(c) || IdentStart(c) || c == '[' || c == '{' }

  lemma PrintedStarts(v: DocValue, room: nat)
    requires Writable(v, room)
    ensures PrintValue(v) != "" && ValueStart(PrintValue(v)[0])
  {
    match v
    case NumberValue(text) => NumberReads(text, ",");
    case _ =>
  }

  /** A state that starts with an item goes on with the item. */
  lemma RunItem(s: string, frames: seq<Frame>, limit: nat)
    requires Between(frames) && s != "" && ValueStart(s[0])
    ensures Run(State(s, frames, false), limit) ==
            var next := ItemStep(s, frames, limit);
            if next.Err? then Err(next.error) else Run(next.value.state, limit)
  {
    SkipNothing(s);
    NotCloser(Top(frames), s[0]);
    RunStep(State(s, frames, false), limit);
    hide Run, ItemStep;
  }

  /** Closing a nested bracket, after an item or at once. */
  lemma RunClose(frames: seq<Frame>, top: Frame, tail: string, afterItem: bool, limit: nat)
    requires Ready(frames) && !top.ArgumentsFrame? && (Keyed(top) ==> top.key.None?)
    ensures Between(frames + [top])
    ensures Run(State([Closer(top)] + tail, frames + [top], afterItem), limit)
            == Run(State(tail, Attach(frames, Closed(top)), true), limit)
  {
    var s := [Closer(top)] + tail;
    SkipNothing(s);
    assert (frames + [top])[..|frames|] == frames && s[1..] == tail;
    assert forall i :: 0 <= i < |frames| ==> (frames + [top])[i] == frames[i];
    RunStep(State(s, frames + [top], afterItem), limit);
    hide Run;
  }

  // ----- leaves -----

  lemma RunText(value: string, frames: seq<Frame>, tail: string, limit: nat)
    requires Ready(frames)
    ensures RunValue(Quoted(value) + tail, frames, limit) == Run(State(tail, Attach(frames, TextValue(value)), true), limit)
  {
    var s := Quoted(value) + tail;
    assert s[1..] == EscapeText(value) + (['"'] + tail);
    TextReads(value, tail);
    hide Run, TextRest, EscapeText, Stacked, Attach;
  }

  lemma RunNumber(text: string, frames: seq<Frame>, tail: string, limit: nat)
    requires Ready(frames) && NumberLength(text) == Ok(|text|) && Stops(tail)
    ensures RunValue(text + tail, frames, limit) == Run(State(tail, Attach(frames, NumberValue(text)), true), limit)
  {
    hide Run, NumberLength, Stacked, Attach, Stops, TextRest, Span;
    NumberReads(text, tail);
    assert (text + tail)[..|text|] == text && (text + tail)[|text|..] == tail && (text + tail)[0] == text[0];
  }

  /** A word at the front of a text is read as that word. */
  lemma WordFront(word: string, tail: string)
    requires Word(word) && tail != "" && !IdentChar(tail[0]) && !Blank(tail[0])
    ensures word + tail != "" && Span(word + tail, IdentChar) == |word|
    ensures (word + tail)[..|word|] == word && (word + tail)[|word|..] == tail && SkipSpace(tail) == tail
    ensures var c := (word + tail)[0]; IdentStart(c) && c != '"' && c != '-' && !Digit(c) && c != '[' && c != '{'
  {
    SpanStops(word, tail, IdentChar);
    SkipNothing(tail);
    assert (word + tail)[0] == word[0];
  }

  /** A word with no parenthesis after it. */
  lemma RunWord(word: string, frames: seq<Frame>, tail: string, limit: nat)
    requires Ready(frames) && Word(word) && Separator(tail)
    ensures RunValue(word + tail, frames, limit) == Run(State(tail, Attach(frames, WordValue(word)), true), limit)
  {
    WordFront(word, tail);
    hide Run, Span, Stacked, Ready, Between, Attach, SkipSpace, Word, WordValue, IdentStart, IdentChar, Digit, TextRest,
         NumberLength;
  }

  // ----- opening brackets -----

  lemma OpenList(rest: string, frames: seq<Frame>, limit: nat)
    requires Ready(frames) && |frames| < limit
    ensures Between(frames + [ListFrame([])])
    ensures RunValue(['['] + rest, frames, limit) == Run(State(rest, frames + [ListFrame([])], false), limit)
  {
    Pushed(frames, ListFrame([]));
    assert (['['] + rest)[1..] == rest;
    hide Run, Stacked;
  }

  lemma OpenRecord(rest: string, frames: seq<Frame>, limit: nat)
    requires Ready(frames) && |frames| < limit
    ensures Between(frames + [RecordFrame([], {}, None)])
    ensures RunValue(['{'] + rest, frames, limit) == Run(State(rest, frames + [RecordFrame([], {}, None)], false), limit)
  {
    Pushed(frames, RecordFrame([], {}, None));
    assert (['{'] + rest)[1..] == rest;
    hide Run, Stacked;
  }

  lemma OpenCall(name: string, rest: string, frames: seq<Frame>, limit: nat)
    requires Ready(frames) && |frames| < limit && Word(name)
    ensures Between(frames + [CallFrame(name, [])])
    ensures RunValue(name + (['('] + rest), frames, limit) == Run(State(rest, frames + [CallFrame(name, [])], false), limit)
  {
    Pushed(frames, CallFrame(name, []));
    var after := ['('] + rest;
    WordFront(name, after);
    assert after[1..] == rest;
    hide Run, Span, Stacked, Ready, Between, Attach, SkipSpace, Word, WordValue, IdentStart, IdentChar, Digit, TextRest,
         NumberLength;
  }

  lemma Pushed(frames: seq<Frame>, f: Frame)
    requires Ready(frames) && !f.ArgumentsFrame? && (Keyed(f) ==> f.key.None?)
    ensures Between(frames + [f])
  {
  }

  // ----- values, lists of values, fields -----

  predicate Plain(f: Frame) { f.CallFrame? || f.ListFrame? }

  function WithValues(f: Frame, values: seq<DocValue>): Frame
    requires Plain(f)
  { if f.CallFrame? then CallFrame(f.name, f.values + values) else ListFrame(f.values + values) }

  function Keys(fields: seq<DocArgument>): set<string> {
    set i | 0 <= i < |fields| :: fields[i].key
  }

  function WithFields(f: Frame, fields: seq<DocArgument>): Frame
    requires Keyed(f)
  {
    if f.RecordFrame? then RecordFrame(f.fields + fields, f.keys + Keys(fields), f.key)
    else ArgumentsFrame(f.fields + fields, f.keys + Keys(fields), f.key)
  }

  lemma BracketText(v: DocValue, tail: string)
    ensures v.CallValue? ==> PrintValue(v) + tail == v.name + (['('] + (PrintValues(v.args, 0) + ([')'] + tail)))
    ensures v.ListValue? ==> PrintValue(v) + tail == ['['] + (PrintValues(v.items, 0) + ([']'] + tail))
    ensures v.RecordValue? ==> PrintValue(v) + tail == ['{'] + (PrintFields(v.fields, 0) + (['}'] + tail))
  {
    hide PrintValues, PrintFields;
  }

  /** Reading a printed value attaches it and goes on after it. */
  lemma {:induction false} ValueReads(v: DocValue, frames: seq<Frame>, tail: string, limit: nat)
    requires Ready(frames) && |frames| <= limit && Writable(v, limit - |frames|) && Separator(tail)
    ensures RunValue(PrintValue(v) + tail, frames, limit) == Run(State(tail, Attach(frames, v), true), limit)
    decreases v, 1
  {
    hide Run, RunValue, Stacked, Attach;
    match v
    case TextValue(value) => RunText(value, frames, tail, limit);
    case NumberValue(text) => RunNumber(text, frames, tail, limit);
    case BoolValue(truth) => RunWord(if truth then "true" else "false", frames, tail, limit);
    case IdentValue(name) => RunWord(name, frames, tail, limit);
    case CallValue(_, _) => BracketReads(v, frames, tail, limit);
    case ListValue(_) => BracketReads(v, frames, tail, limit);
    case RecordValue(_) => BracketReads(v, frames, tail, limit);
  }

  lemma {:induction false} BracketReads(v: DocValue, frames: seq<Frame>, tail: string, limit: nat)
    requires v.CallValue? || v.ListValue? || v.RecordValue?
    requires Ready(frames) && |frames| <= limit && Writable(v, limit - |frames|)
    ensures RunValue(PrintValue(v) + tail, frames, limit) == Run(State(tail, Attach(frames, v), true), limit)
    decreases v, 0
  {
    BracketText(v, tail);
    hide Run, RunValue, Stacked, Attach, PrintValue, PrintValues, PrintFields;
    match v
    case CallValue(name, args) =>
      OpenCall(name, PrintValues(args, 0) + ([')'] + tail), frames, limit);
      NestedReads(frames, CallFrame(name, []), args, tail, limit);
    case ListValue(items) =>
      OpenList(PrintValues(items, 0) + ([']'] + tail), frames, limit);
      NestedReads(frames, ListFrame([]), items, tail, limit);
    case RecordValue(fields) =>
      OpenRecord(PrintFields(fields, 0) + (['}'] + tail), frames, limit);
      RecordReads(frames, fields, tail, limit);
  }

  /** The values between brackets, and the closing bracket. */
  lemma {:induction false} NestedReads(frames: seq<Frame>, top: Frame, items: seq<DocValue>, tail: string, limit: nat)
    requires Ready(frames) && Plain(top) && top.values == [] && |frames| < limit
    requires forall i :: 0 <= i < |items| ==> Writable(items[i], limit - |frames| - 1)
    ensures Between(frames + [top])
    ensures Run(State(PrintValues(items, 0) + ([Closer(top)] + tail), frames + [top], false), limit)
            == Run(State(tail, Attach(frames, if top.CallFrame? then CallValue(top.name, items) else ListValue(items)), true), limit)
    decreases items, |items| + 1
  {
    hide Run, Attach, Writable;
    Pushed(frames, top);
    ValuesRead(frames, top, items, 0, tail, limit);
    assert items[0..] == items && top.values + items == items;
    var full := WithValues(top, items);
    RunClose(frames, full, tail, true, limit);
    if items == [] {
      assert PrintValues(items, 0) + ([Closer(top)] + tail) == [Closer(top)] + tail;
      RunClose(frames, top, tail, false, limit);
    }
  }

  lemma {:induction false} ValuesRead(frames: seq<Frame>, top: Frame, items: seq<DocValue>, k: nat, tail: string, limit: nat)
    requires Ready(frames) && Plain(top) && |frames| < limit && k <= |items|
    requires forall i :: 0 <= i < |items| ==> Writable(items[i], limit - |frames| - 1)
    ensures Between(frames + [top]) && Between(frames + [WithValues(top, items[k..])])
    ensures k < |items| ==>
              Run(State(PrintValues(items, k) + ([Closer(top)] + tail), frames + [top], false), limit)
              == Run(State([Closer(top)] + tail, frames + [WithValues(top, items[k..])], true), limit)
    decreases items, |items| - k
  {
    hide Run, Attach, Writable, Stacked;
    Pushed(frames, top);
    Pushed(frames, WithValues(top, items[k..]));
    if k < |items| {
      var close := [Closer(top)] + tail;
      var more := PrintValues(items, k + 1) + close;
      var grown := WithValues(top, [items[k]]);
      ValuesText(items, k, close);
      ValuesJoin(top, items, k);
      hide PrintValues, WithValues, PrintValue;
      OneValueReads(frames, top, items[k], (if k + 1 < |items| then ", " else "") + more, limit);
      if k + 1 < |items| {
        assert ", " + more == [',', ' '] + more;
        RunComma(more, frames + [grown], limit);
        ValuesRead(frames, grown, items, k + 1, tail, limit);
      }
    }
  }

  lemma ValuesText(items: seq<DocValue>, k: nat, close: string)
    requires k < |items|
    ensures PrintValues(items, k) + close
            == PrintValue(items[k]) + ((if k + 1 < |items| then ", " else "") + (PrintValues(items, k + 1) + close))
    ensures k + 1 == |items| ==> PrintValues(items, k + 1) + close == close && "" + close == close
  {
    hide PrintValue;
  }

  lemma ValuesJoin(top: Frame, items: seq<DocValue>, k: nat)
    requires Plain(top) && k < |items|
    ensures Plain(WithValues(top, [items[k]])) && Closer(WithValues(top, [items[k]])) == Closer(top)
    ensures WithValues(WithValues(top, [items[k]]), items[k + 1..]) == WithValues(top, items[k..])
    ensures k + 1 == |items| ==> WithValues(top, items[k..]) == WithValues(top, [items[k]])
  {
    assert items[k..] == [items[k]] + items[k + 1..];
    assert top.values + [items[k]] + items[k + 1..] == top.values + items[k..];
  }

  /** One value in a list or call. */
  lemma {:induction false} OneValueReads(frames: seq<Frame>, top: Frame, v: DocValue, after: string, limit: nat)
    requires Ready(frames) && Plain(top) && |frames| < limit && Writable(v, limit - |frames| - 1) && Separator(after)
    ensures Between(frames + [top]) && Between(frames + [WithValues(top, [v])])
    ensures Run(State(PrintValue(v) + after, frames + [top], false), limit)
            == Run(State(after, frames + [WithValues(top, [v])], true), limit)
    decreases v, 2
  {
    hide Run, RunValue, PrintValue, Writable, Stacked, Ready, Attach, WithValues, Closer;
    PlainFrame(frames, top, [v]);
    PrintedStarts(v, limit - |frames| - 1);
    ValueAttached(frames, top, v);
    PlainItem(PrintValue(v) + after, frames + [top], limit);
    ValueReads(v, frames + [top], after, limit);
  }

  lemma PlainFrame(frames: seq<Frame>, top: Frame, values: seq<DocValue>)
    requires Ready(frames) && Plain(top)
    ensures Between(frames + [top]) && Between(frames + [WithValues(top, values)])
  {
    hide Stacked;
    Pushed(frames, top);
    Pushed(frames, WithValues(top, values));
  }

  /** In a list or call an item is its value. */
  lemma PlainItem(s: string, frames: seq<Frame>, limit: nat)
    requires Between(frames) && Ready(frames) && !Keyed(Top(frames)) && s != "" && ValueStart(s[0])
    ensures Run(State(s, frames, false), limit) == RunValue(s, frames, limit)
  {
    hide Run, Stacked, ValueStep, ValueStart;
    RunItem(s, frames, limit);
  }

  lemma ValueAttached(frames: seq<Frame>, top: Frame, v: DocValue)
    requires Between(frames + [top]) && Plain(top)
    ensures Ready(frames + [top]) && !Keyed(Top(frames + [top]))
    ensures Attach(frames + [top], v) == frames + [WithValues(top, [v])]
  {
    assert (frames + [top])[..|frames|] == frames;
    hide Stacked;
  }

  lemma KeyReads(below: seq<Frame>, top: Frame, key: string, rest: string)
    requires Between(below + [top]) && Keyed(top) && key !in top.keys && rest != "" && !Blank(rest[0])
    ensures KeyStep(Quoted(key) + (" = " + rest), below + [top]) == Ok((rest, below + [WithKey(top, key)]))
  {
    hide KeyRest, SkipSpace, Quoted, Stacked;
    QuotedKeyReads(key, " = " + rest);
    EqualsSkips(rest);
    assert (below + [top])[..|below|] == below && Top(below + [top]) == top;
  }

  lemma QuotedKeyReads(key: string, after: string)
    ensures KeyRest(Quoted(key) + after) == Ok((key, after))
  {
    hide TextRest, EscapeText;
    var s := Quoted(key) + after;
    assert s[0] == '"' && s[1..] == EscapeText(key) + (['"'] + after);
    TextReads(key, after);
  }

  lemma EqualsSkips(rest: string)
    requires rest != "" && !Blank(rest[0])
    ensures SkipSpace(" = " + rest) == "= " + rest && "= " + rest != "" && ("= " + rest)[0] == '='
    ensures SkipSpace(("= " + rest)[1..]) == rest
  {
    assert (" = " + rest)[1..] == "= " + rest && ("= " + rest)[1..] == " " + rest && (" " + rest)[1..] == rest;
    SkipNothing(rest);
    SkipNothing("= " + rest);
  }

  lemma KeyPends(below: seq<Frame>, top: Frame, key: string)
    requires Between(below + [top]) && Keyed(top)
    ensures Ready(below + [WithKey(top, key)])
  {
    var frames, next := below + [top], below + [WithKey(top, key)];
    assert frames[0].ArgumentsFrame? && next[0].ArgumentsFrame? by { if below == [] { assert frames[0] == top; } }
    forall i | 0 < i < |next| ensures !next[i].ArgumentsFrame? {
      assert !frames[i].ArgumentsFrame?;
    }
    forall i | 0 <= i < |next| - 1 && Keyed(next[i]) ensures next[i].key.Some? { assert next[i] == frames[i]; }
  }

  lemma FieldsStay(below: seq<Frame>, top: Frame, fields: seq<DocArgument>)
    requires Between(below + [top]) && Keyed(top)
    ensures Between(below + [WithFields(top, fields)])
  {
    var frames, next := below + [top], below + [WithFields(top, fields)];
    assert frames[0].ArgumentsFrame? && next[0].ArgumentsFrame? by { if below == [] { assert frames[0] == top; } }
    forall i | 0 < i < |next| ensures !next[i].ArgumentsFrame? { assert !frames[i].ArgumentsFrame?; }
    forall i | 0 <= i < |next| - 1 && Keyed(next[i]) ensures next[i].key.Some? { assert next[i] == frames[i]; }
    assert Top(frames) == top;
  }

  lemma FieldAttached(below: seq<Frame>, top: Frame, field: DocArgument)
    requires Between(below + [top]) && Keyed(top)
    ensures Ready(below + [WithKey(top, field.key)])
    ensures Attach(below + [WithKey(top, field.key)], field.value) == below + [WithFields(top, [field])]
  {
    KeyPends(below, top, field.key);
    assert Top(below + [top]) == top;
    assert Keys([field]) == {field.key} by { assert [field][0] == field; }
    hide Stacked;
    assert (below + [WithKey(top, field.key)])[..|below|] == below;
  }

  /** One `key = value` in a record or the arguments. */
  lemma {:induction false} OneFieldReads(below: seq<Frame>, top: Frame, field: DocArgument, after: string, limit: nat)
    requires Between(below + [top]) && Keyed(top) && field.key !in top.keys && Separator(after)
    requires |below| < limit && Writable(field.value, limit - |below| - 1)
    ensures Between(below + [WithFields(top, [field])])
    ensures Run(State(Quoted(field.key) + (" = " + (PrintValue(field.value) + after)), below + [top], false), limit)
            == Run(State(after, below + [WithFields(top, [field])], true), limit)
    decreases field.value, 2
  {
    hide Run, PrintValue, Writable, ValueStep, Stacked, EscapeText, Attach;
    var rest := PrintValue(field.value) + after;
    var s := Quoted(field.key) + (" = " + rest);
    PrintedStarts(field.value, limit - |below| - 1);
    assert rest[0] == PrintValue(field.value)[0];
    KeyReads(below, top, field.key, rest);
    FieldAttached(below, top, field);
    FieldsStay(below, top, [field]);
    assert s[0] == '"';
    RunItem(s, below + [top], limit);
    assert Top(below + [top]) == top;
    ValueReads(field.value, below + [WithKey(top, field.key)], after, limit);
    hide KeyStep, WithKey;
  }

  lemma {:induction false} FieldsRead(below: seq<Frame>, top: Frame, fields: seq<DocArgument>, k: nat, tail: string, limit: nat)
    requires Between(below + [top]) && Keyed(top) && |below| < limit && k <= |fields| && DistinctKeys(fields)
    requires forall i :: k <= i < |fields| ==> fields[i].key !in top.keys
    requires forall i :: 0 <= i < |fields| ==> Writable(fields[i].value, limit - |below| - 1)
    ensures Between(below + [WithFields(top, fields[k..])])
    ensures k < |fields| ==>
              Run(State(PrintFields(fields, k) + ([Closer(top)] + tail), below + [top], false), limit)
              == Run(State([Closer(top)] + tail, below + [WithFields(top, fields[k..])], true), limit)
    decreases fields, |fields| - k
  {
    hide Run, Writable, Stacked, Attach, PrintValue, EscapeText, Quoted, PrintFields, Keys, Between, WithFields;
    FieldsStay(below, top, fields[k..]);
    if k < |fields| {
      var field, close := fields[k], [Closer(top)] + tail;
      var more := PrintFields(fields, k + 1) + close;
      var after := (if k + 1 < |fields| then ", " else "") + more;
      FieldsText(fields, k, close);
      var grown := WithFields(top, [field]);
      assert fields[k..] == [field] + fields[k + 1..];
      FieldsJoin(top, [field], fields[k + 1..]);
      OneKey(top, field);
      OneFieldReads(below, top, field, after, limit);
      FieldsStay(below, top, [field]);
      if k + 1 < |fields| {
        assert after == [',', ' '] + more;
        RunComma(more, below + [grown], limit);
        FieldsRead(below, grown, fields, k + 1, tail, limit);
      } else {
        NoMoreFields(top, fields, k, close);
      }
    }
  }

  lemma FieldsText(fields: seq<DocArgument>, k: nat, close: string)
    requires k < |fields|
    ensures PrintFields(fields, k) + close
            == Quoted(fields[k].key)
               + (" = " + (PrintValue(fields[k].value)
                           + ((if k + 1 < |fields| then ", " else "") + (PrintFields(fields, k + 1) + close))))
    ensures k + 1 == |fields| ==> PrintFields(fields, k + 1) + close == close && "" + close == close
  {
    hide PrintValue, Quoted;
  }

  lemma NoMoreFields(top: Frame, fields: seq<DocArgument>, k: nat, close: string)
    requires Keyed(top) && k + 1 == |fields|
    ensures "" + (PrintFields(fields, k + 1) + close) == close && fields[k..] == [fields[k]]
  {
  }

  lemma OneKey(top: Frame, field: DocArgument)
    requires Keyed(top)
    ensures var grown := WithFields(top, [field]);
            Keyed(grown) && Closer(grown) == Closer(top) && grown.keys == top.keys + {field.key}
  {
    assert [field][0] == field;
  }

  lemma FieldsJoin(top: Frame, a: seq<DocArgument>, b: seq<DocArgument>)
    requires Keyed(top)
    ensures WithFields(WithFields(top, a), b) == WithFields(top, a + b)
  {
    var c := a + b;
    forall x ensures x in Keys(c) <==> x in Keys(a) || x in Keys(b) {
      if x in Keys(a) {
        var i :| 0 <= i < |a| && a[i].key == x;
        assert c[i] == a[i];
      }
      if x in Keys(b) {
        var i :| 0 <= i < |b| && b[i].key == x;
        assert c[|a| + i] == b[i];
      }
    }
    assert top.fields + a + b == top.fields + (a + b);
    assert top.keys + Keys(a) + Keys(b) == top.keys + Keys(c);
  }

  /** A record's fields and its closing brace. */
  lemma {:induction false} RecordReads(frames: seq<Frame>, fields: seq<DocArgument>, tail: string, limit: nat)
    requires Ready(frames) && |frames| < limit && DistinctKeys(fields)
    requires forall i :: 0 <= i < |fields| ==> Writable(fields[i].value, limit - |frames| - 1)
    ensures Between(frames + [RecordFrame([], {}, None)])
    ensures Run(State(PrintFields(fields, 0) + (['}'] + tail), frames + [RecordFrame([], {}, None)], false), limit)
            == Run(State(tail, Attach(frames, RecordValue(fields)), true), limit)
    decreases fields, |fields| + 1
  {
    hide Run, Attach, Writable;
    var top := RecordFrame([], {}, None);
    Pushed(frames, top);
    FieldsRead(frames, top, fields, 0, tail, limit);
    assert fields[0..] == fields && [] + fields == fields;
    RunClose(frames, WithFields(top, fields), tail, true, limit);
    if fields == [] {
      assert PrintFields(fields, 0) + (['}'] + tail) == ['}'] + tail;
      RunClose(frames, top, tail, false, limit);
    }
  }

  // ----- the whole attribute -----

  lemma RunEnd(top: Frame, afterItem: bool, limit: nat)
    requires top.ArgumentsFrame? && top.key.None?
    ensures Run(State([')'], [top], afterItem), limit) == Ok(top.fields)
  {
    var s: string := [')'];
    SkipNothing(s);
    assert s[1..] == "";
  }

  /** Printing an argument list and parsing it gives it back: for every list of
      distinct keys whose values can be written within the nesting limit. */
  lemma PrintedParses(args: seq<DocArgument>, limit: nat)
    requires limit >= 1 && WritableArguments(args, limit - 1)
    ensures Parse(PrintArguments(args), limit) == Ok(args)
  {
    hide Run, Writable;
    var top := ArgumentsFrame([], {}, None);
    assert [] + [top] == [top];
    FieldsRead([], top, args, 0, "", limit);
    assert [')'] + "" == [')'] && args[0..] == args && [] + args == args;
    var full := WithFields(top, args);
    assert [] + [full] == [full];
    RunEnd(full, true, limit);
    if args == [] {
      assert PrintFields(args, 0) + [')'] == [')'];
      RunEnd(top, false, limit);
    }
  }
}
