/** The calls of an accepted argument list are exactly those its text opens: the
    words that stand where a value is expected, in front of a parenthesis. The
    words `true` and `false` are no exception, which the documented syntax does
    not allow. */
module DocCalls {
  import opened Wrappers
  import opened DocParsing
  import opened DocRoundTrip
  import opened DocBrackets

  predicate HasCall(v: DocValue, name: string)
    decreases v
  {
    match v
    case CallValue(n, args) => n == name || exists i :: 0 <= i < |args| && HasCall(args[i], name)
    case ListValue(items) => exists i :: 0 <= i < |items| && HasCall(items[i], name)
    case RecordValue(fields) => exists i :: 0 <= i < |fields| && HasCall(fields[i].value, name)
    case _ => false
  }

  predicate FieldsHaveCall(fields: seq<DocArgument>, name: string) {
    exists i :: 0 <= i < |fields| && HasCall(fields[i].value, name)
  }

  predicate FrameHasCall(f: Frame, name: string) {
    if Keyed(f) then FieldsHaveCall(f.fields, name)
    else (f.CallFrame? && f.name == name) || exists i :: 0 <= i < |f.values| && HasCall(f.values[i], name)
  }

  predicate FramesHaveCall(frames: seq<Frame>, name: string) {
    exists i :: 0 <= i < |frames| && FrameHasCall(frames[i], name)
  }

  /** The text starts with the word and, after blanks, a parenthesis. */
  predicate OpensCall(s: string, name: string) {
    && s != "" && IdentStart(s[0]) && s[..Span(s, IdentChar)] == name
    && var after := SkipSpace(s[Span(s, IdentChar)..]); after != "" && after[0] == '('
  }

  /** The parser stands where a value is expected, after the key where there is
      one, and the text opens a call there. */
  predicate OpensAt(st: State, name: string)
    requires Between(st.frames)
  {
    var s := SkipSpace(st.rest);
    && !(s != "" && s[0] == Closer(Top(st.frames))) && !st.afterItem
    && if Keyed(Top(st.frames)) then KeyStep(s, st.frames).Ok? && OpensCall(KeyStep(s, st.frames).value.0, name)
       else OpensCall(s, name)
  }

  lemma AttachedCalls(frames: seq<Frame>, v: DocValue, name: string)
    requires Ready(frames)
    ensures FramesHaveCall(Attach(frames, v), name) <==> FramesHaveCall(frames, name) || HasCall(v, name)
  {
    AddedCalls(Top(frames), v, name);
    hide FrameHasCall, HasCall, Stacked;
    var after, n := Attach(frames, v), |frames| - 1;
    if FramesHaveCall(frames, name) {
      var i :| 0 <= i < |frames| && FrameHasCall(frames[i], name);
      assert i < n ==> after[i] == frames[i];
      assert FrameHasCall(after[i], name);
    }
    if HasCall(v, name) { assert FrameHasCall(after[n], name); }
    if FramesHaveCall(after, name) {
      var i :| 0 <= i < |after| && FrameHasCall(after[i], name);
      assert i < n ==> after[i] == frames[i];
      assert FrameHasCall(frames[i], name) || HasCall(v, name);
    }
  }

  lemma AddedCalls(f: Frame, v: DocValue, name: string)
    requires Keyed(f) ==> f.key.Some?
    ensures FrameHasCall(AddTo(f, v), name) <==> FrameHasCall(f, name) || HasCall(v, name)
  {
    hide HasCall;
    if Keyed(f) {
      var more := f.fields + [DocArgument(f.key.value, v)];
      assert more[|f.fields|].value == v && forall i :: 0 <= i < |f.fields| ==> more[i] == f.fields[i];
    } else {
      var more := f.values + [v];
      assert more[|f.values|] == v && forall i :: 0 <= i < |f.values| ==> more[i] == f.values[i];
    }
  }

  lemma PushedCalls(frames: seq<Frame>, f: Frame, name: string)
    ensures FramesHaveCall(frames + [f], name) <==> FramesHaveCall(frames, name) || FrameHasCall(f, name)
  {
    hide FrameHasCall;
    var more := frames + [f];
    assert more[|frames|] == f && forall i :: 0 <= i < |frames| ==> more[i] == frames[i];
  }

  lemma LeafCalls(frames: seq<Frame>, v: DocValue, name: string)
    requires Ready(frames) && (v.TextValue? || v.NumberValue? || v.BoolValue? || v.IdentValue?)
    ensures FramesHaveCall(Attach(frames, v), name) <==> FramesHaveCall(frames, name)
  {
    AttachedCalls(frames, v, name);
  }

  lemma EmptyFrameCalls(name: string)
    ensures !FrameHasCall(ListFrame([]), name) && !FrameHasCall(RecordFrame([], {}, None), name)
  {
  }

  lemma WordCalls(s: string, frames: seq<Frame>, limit: nat, name: string)
    requires Ready(frames) && s != "" && IdentStart(s[0]) && ValueStep(s, frames, limit).Ok?
    ensures FramesHaveCall(ValueStep(s, frames, limit).value.state.frames, name)
            <==> FramesHaveCall(frames, name) || OpensCall(s, name)
  {
    var word := s[..Span(s, IdentChar)];
    assert FrameHasCall(CallFrame(word, []), name) <==> word == name;
    PushedCalls(frames, CallFrame(word, []), name);
    LeafCalls(frames, WordValue(word), name);
    hide FramesHaveCall, FrameHasCall, Stacked, TextRest, NumberLength, Span, SkipSpace, Attach, WordValue;
  }

  lemma ValueStepCalls(s: string, frames: seq<Frame>, limit: nat, name: string)
    requires Ready(frames) && ValueStep(s, frames, limit).Ok?
    ensures FramesHaveCall(ValueStep(s, frames, limit).value.state.frames, name)
            <==> FramesHaveCall(frames, name) || OpensCall(s, name)
  {
    hide FramesHaveCall, FrameHasCall, Stacked, TextRest, NumberLength, Span, SkipSpace, Attach, WordValue;
    EmptyFrameCalls(name);
    if IdentStart(s[0]) {
      WordCalls(s, frames, limit, name);
    } else if s[0] == '"' {
      LeafCalls(frames, TextValue(TextRest(s[1..]).value.0), name);
    } else if s[0] == '-' || Digit(s[0]) {
      LeafCalls(frames, NumberValue(s[..NumberLength(s).value]), name);
    } else if s[0] == '[' {
      PushedCalls(frames, ListFrame([]), name);
    } else {
      PushedCalls(frames, RecordFrame([], {}, None), name);
    }
  }

  lemma KeyStepCalls(s: string, frames: seq<Frame>, name: string)
    requires Between(frames) && Keyed(Top(frames)) && KeyStep(s, frames).Ok?
    ensures FramesHaveCall(KeyStep(s, frames).value.1, name) <==> FramesHaveCall(frames, name)
  {
    var below, key := frames[..|frames| - 1], KeyRest(s).value.0;
    assert FrameHasCall(WithKey(Top(frames), key), name) <==> FrameHasCall(Top(frames), name);
    hide FrameHasCall, KeyRest, SkipSpace, Stacked;
    PushedCalls(below, WithKey(Top(frames), key), name);
    PushedCalls(below, Top(frames), name);
    assert below + [Top(frames)] == frames;
  }

  lemma CloseStepCalls(s: string, frames: seq<Frame>, name: string)
    requires Between(frames) && s != "" && CloseStep(s, frames).Ok?
    ensures match CloseStep(s, frames).value
            case Done(args) => FieldsHaveCall(args, name) <==> FramesHaveCall(frames, name)
            case More(next) => FramesHaveCall(next.frames, name) <==> FramesHaveCall(frames, name)
  {
    var top, below := Top(frames), frames[..|frames| - 1];
    PushedCalls(below, top, name);
    assert below + [top] == frames;
    if top.ArgumentsFrame? {
      assert below == [];
    } else {
      assert HasCall(Closed(top), name) <==> FrameHasCall(top, name);
      AttachedCalls(below, Closed(top), name);
    }
    hide Attach, Closed, HasCall;
  }

  /** One turn adds exactly the call it opens. */
  lemma StepCalls(st: State, limit: nat, name: string)
    requires Between(st.frames) && Step(st, limit).Ok?
    ensures match Step(st, limit).value
            case Done(args) => !OpensAt(st, name) && (FieldsHaveCall(args, name) <==> FramesHaveCall(st.frames, name))
            case More(next) =>
              FramesHaveCall(next.frames, name) <==> FramesHaveCall(st.frames, name) || OpensAt(st, name)
  {
    assert st.frames != [];
    hide FramesHaveCall, FieldsHaveCall, OpensCall, CloseStep, KeyStep, ValueStep, SkipSpace, Stacked;
    var s := SkipSpace(st.rest);
    if s != "" && s[0] == Closer(Top(st.frames)) {
      CloseStepCalls(s, st.frames, name);
    } else if !st.afterItem {
      if Keyed(Top(st.frames)) {
        KeyStepCalls(s, st.frames, name);
        ValueStepCalls(KeyStep(s, st.frames).value.0, KeyStep(s, st.frames).value.1, limit, name);
      } else {
        ValueStepCalls(s, st.frames, limit, name);
      }
    }
  }

  /** Some turn from here opens the call. */
  ghost predicate OpensLater(st: State, limit: nat, name: string)
    requires Between(st.frames)
  {
    exists turns: nat, end :: Reaches(st, limit, turns, end) && Between(end.frames) && OpensAt(end, name)
  }

  lemma OpensNowOrLater(st: State, limit: nat, name: string)
    requires Between(st.frames) && Step(st, limit).Ok? && (Step(st, limit).value.Done? ==> !OpensAt(st, name))
    ensures OpensLater(st, limit, name) <==>
              OpensAt(st, name)
              || (Step(st, limit).value.More? && OpensLater(Step(st, limit).value.state, limit, name))
  {
    hide Step, OpensAt;
    if OpensAt(st, name) { assert Reaches(st, limit, 0, st); }
    if Step(st, limit).value.More? && OpensLater(Step(st, limit).value.state, limit, name) {
      var turns: nat, end :| Reaches(Step(st, limit).value.state, limit, turns, end) && Between(end.frames) && OpensAt(end, name);
      assert Reaches(st, limit, turns + 1, end);
    }
    if OpensLater(st, limit, name) {
      var turns: nat, end :| Reaches(st, limit, turns, end) && Between(end.frames) && OpensAt(end, name);
      if turns > 0 { assert Reaches(Step(st, limit).value.state, limit, turns - 1, end); }
    }
  }

  lemma {:induction false} RunCalls(st: State, limit: nat, name: string)
    requires Between(st.frames) && Run(st, limit).Ok?
    ensures FieldsHaveCall(Run(st, limit).value, name) <==>
              FramesHaveCall(st.frames, name) || OpensLater(st, limit, name)
    decreases |st.rest|
  {
    StepCalls(st, limit, name);
    OpensNowOrLater(st, limit, name);
    hide Step, OpensAt, OpensLater, FieldsHaveCall, FramesHaveCall;
    if Step(st, limit).value.More? { RunCalls(Step(st, limit).value.state, limit, name); }
  }

  /** An accepted tree holds a call exactly when some turn of the parser stands
      where a value is expected, at the call's name and a parenthesis. */
  lemma CallsAreOpened(text: string, limit: nat, name: string)
    requires Parse(text, limit).Ok?
    ensures FieldsHaveCall(Parse(text, limit).value, name) <==> OpensLater(Start(text), limit, name)
  {
    RunCalls(Start(text), limit, name);
  }

  // ----- the documented rule -----

  /** No call is named `true` or `false`. */
  predicate KeepsWordRule(args: seq<DocArgument>) {
    !FieldsHaveCall(args, "true") && !FieldsHaveCall(args, "false")
  }

  lemma TruePrints(v: DocValue)
    requires v == CallValue("true", [])
    ensures PrintArguments([DocArgument("k", v)]) == "\"k\" = true())"
  {
    var args := [DocArgument("k", v)];
    assert Quoted("k") == "\"k\"";
    assert PrintValue(v) == "true()";
    assert PrintFields(args, 1) == "";
    assert PrintFields(args, 0) == "\"k\" = true()";
  }

  /** The parser reads `true()` as a call. */
  lemma TrueIsCalled()
    ensures var args := [DocArgument("k", CallValue("true", []))];
            Parse("\"k\" = true())", 2) == Ok(args) && !KeepsWordRule(args)
  {
    var args := [DocArgument("k", CallValue("true", []))];
    assert HasCall(args[0].value, "true");
    hide Parse, PrintArguments;
    TruePrints(args[0].value);
    PrintedParses(args, 2);
  }

  /** The documented rule is kept exactly when the text opens no such call. */
  lemma WordRuleKept(text: string, limit: nat)
    requires Parse(text, limit).Ok?
    ensures KeepsWordRule(Parse(text, limit).value) <==>
              !OpensLater(Start(text), limit, "true") && !OpensLater(Start(text), limit, "false")
  {
    hide Parse, OpensLater, FieldsHaveCall;
    CallsAreOpened(text, limit, "true");
    CallsAreOpened(text, limit, "false");
  }
}
