/** What the parser accepts is exactly what can be written: numbers and words
    spelled as the syntax has them, no key twice within one argument list or
    record, and brackets no deeper than the limit. */
module DocKeys {
  import opened Wrappers
  import opened DocParsing
  import opened DocRoundTrip

  predicate WritableFields(fields: seq<DocArgument>, room: nat) {
    DistinctKeys(fields) && forall i :: 0 <= i < |fields| ==> Writable(fields[i].value, room)
  }

  /** A frame's key set holds the keys it has read, the pending one last. */
  predicate FrameWritable(f: Frame, room: nat) {
    if Keyed(f) then
      && WritableFields(f.fields, room)
      && (match f.key
          case None => f.keys == Keys(f.fields)
          case Some(key) => f.keys == Keys(f.fields) + {key} && key !in Keys(f.fields))
    else (f.CallFrame? ==> Word(f.name)) && forall i :: 0 <= i < |f.values| ==> Writable(f.values[i], room)
  }

  /** Every frame has the room the limit leaves inside it. */
  predicate FramesWritable(frames: seq<Frame>, limit: nat) {
    |frames| <= limit && forall i :: 0 <= i < |frames| ==> FrameWritable(frames[i], limit - 1 - i)
  }

  lemma AddedKeys(fields: seq<DocArgument>, a: DocArgument)
    ensures Keys(fields + [a]) == Keys(fields) + {a.key}
  {
    var more := fields + [a];
    forall x ensures x in Keys(more) <==> x in Keys(fields) || x == a.key {
      if x in Keys(fields) {
        var i :| 0 <= i < |fields| && fields[i].key == x;
        assert more[i] == fields[i];
      }
      if x == a.key { assert more[|fields|] == a; }
    }
  }

  lemma AddWritable(f: Frame, v: DocValue, room: nat)
    requires FrameWritable(f, room) && Writable(v, room) && (Keyed(f) ==> f.key.Some?)
    ensures FrameWritable(AddTo(f, v), room)
  {
    hide Writable;
    if Keyed(f) {
      var a := DocArgument(f.key.value, v);
      AddedKeys(f.fields, a);
      var more := f.fields + [a];
      forall i | 0 <= i < |f.fields| ensures more[i].key != a.key { assert f.fields[i].key in Keys(f.fields); }
    }
  }

  lemma AttachWritable(frames: seq<Frame>, v: DocValue, limit: nat)
    requires Ready(frames) && FramesWritable(frames, limit) && Writable(v, limit - |frames|)
    ensures FramesWritable(Attach(frames, v), limit)
  {
    AddWritable(Top(frames), v, limit - |frames|);
    hide FrameWritable, Stacked;
  }

  lemma ClosedWritable(f: Frame, room: nat)
    requires FrameWritable(f, room) && !f.ArgumentsFrame?
    ensures Writable(Closed(f), room + 1)
  {
  }

  lemma PushWritable(frames: seq<Frame>, f: Frame, limit: nat)
    requires FramesWritable(frames, limit) && |frames| < limit && FrameWritable(f, limit - 1 - |frames|)
    ensures FramesWritable(frames + [f], limit)
  {
    hide FrameWritable;
  }

  // ----- numbers and words -----

  /** What follows the span does not matter to it. */
  lemma {:induction false} SpanOfPrefix(s: string, keep: char -> bool, n: nat)
    requires Span(s, keep) <= n <= |s|
    ensures Span(s[..n], keep) == Span(s, keep)
  {
    if s != "" && keep(s[0]) {
      assert s[..n][1..] == s[1..][..n - 1];
      SpanOfPrefix(s[1..], keep, n - 1);
    }
  }

  lemma WholeStands(s: string, n: nat)
    requires WholeEnd(s).Ok? && WholeEnd(s).value <= n <= |s|
    ensures WholeEnd(s[..n]) == WholeEnd(s)
  {
    var sign := SignLength(s);
    assert s[..n][sign..] == s[sign..][..n - sign];
    SpanOfPrefix(s[sign..], Digit, n - sign);
  }

  lemma FractionStands(s: string, end: nat)
    requires end <= |s| && FractionEnd(s, end).Ok?
    ensures FractionEnd(s[..FractionEnd(s, end).value], end) == FractionEnd(s, end)
  {
    var n := FractionEnd(s, end).value;
    if end < |s| && s[end] == '.' {
      assert s[..n][end + 1..] == s[end + 1..][..n - end - 1];
      SpanOfPrefix(s[end + 1..], Digit, n - end - 1);
    }
  }

  /** A number is spelled by itself as it is in front of anything else. */
  lemma NumberStands(s: string)
    requires NumberLength(s).Ok?
    ensures NumberLength(s[..NumberLength(s).value]) == NumberLength(s)
  {
    hide WholeEnd, FractionEnd;
    WholeStands(s, NumberLength(s).value);
    FractionStands(s, WholeEnd(s).value);
  }

  lemma WordAt(s: string)
    requires s != "" && IdentStart(s[0])
    ensures Word(s[..Span(s, IdentChar)])
  {
  }

  // ----- the turns -----

  lemma EmptyWritable(room: nat)
    ensures FrameWritable(ListFrame([]), room) && FrameWritable(RecordFrame([], {}, None), room)
  {
  }

  lemma LeafWritable(frames: seq<Frame>, v: DocValue, limit: nat)
    requires Ready(frames) && FramesWritable(frames, limit)
    requires v.TextValue? || (v.NumberValue? && NumberLength(v.text) == Ok(|v.text|))
    ensures FramesWritable(Attach(frames, v), limit)
  {
    AttachWritable(frames, v, limit);
  }

  lemma WordStepWritable(s: string, frames: seq<Frame>, limit: nat)
    requires Ready(frames) && FramesWritable(frames, limit)
    requires s != "" && IdentStart(s[0]) && ValueStep(s, frames, limit).Ok?
    ensures FramesWritable(ValueStep(s, frames, limit).value.state.frames, limit)
  {
    var n := Span(s, IdentChar);
    var word, after := s[..n], SkipSpace(s[n..]);
    WordAt(s);
    assert Writable(WordValue(word), limit - |frames|);
    assert forall room :: FrameWritable(CallFrame(word, []), room);
    hide FramesWritable, FrameWritable, Writable, Word, Stacked, TextRest, NumberLength, Span, SkipSpace, Attach, WordValue;
    if after != "" && after[0] == '(' {
      PushWritable(frames, CallFrame(word, []), limit);
    } else {
      AttachWritable(frames, WordValue(word), limit);
    }
  }

  lemma ValueStepWritable(s: string, frames: seq<Frame>, limit: nat)
    requires Ready(frames) && FramesWritable(frames, limit) && ValueStep(s, frames, limit).Ok?
    ensures FramesWritable(ValueStep(s, frames, limit).value.state.frames, limit)
  {
    hide FramesWritable, FrameWritable, Stacked, TextRest, NumberLength, Span, SkipSpace, Attach, WordValue;
    if IdentStart(s[0]) {
      WordStepWritable(s, frames, limit);
    } else if s[0] == '"' {
      LeafWritable(frames, TextValue(TextRest(s[1..]).value.0), limit);
    } else if s[0] == '-' || Digit(s[0]) {
      NumberStands(s);
      LeafWritable(frames, NumberValue(s[..NumberLength(s).value]), limit);
    } else {
      EmptyWritable(limit - 1 - |frames|);
      if s[0] == '[' {
        PushWritable(frames, ListFrame([]), limit);
      } else {
        PushWritable(frames, RecordFrame([], {}, None), limit);
      }
    }
  }

  lemma KeyStepWritable(s: string, frames: seq<Frame>, limit: nat)
    requires Between(frames) && Keyed(Top(frames)) && FramesWritable(frames, limit) && KeyStep(s, frames).Ok?
    ensures FramesWritable(KeyStep(s, frames).value.1, limit)
  {
    var top, key := Top(frames), KeyRest(s).value.0;
    assert FrameWritable(frames[|frames| - 1], limit - |frames|);
    assert FrameWritable(WithKey(top, key), limit - |frames|);
    hide FrameWritable, KeyRest, SkipSpace, Stacked;
  }

  lemma CloseStepWritable(s: string, frames: seq<Frame>, limit: nat)
    requires Between(frames) && s != "" && FramesWritable(frames, limit) && CloseStep(s, frames).Ok?
    ensures match CloseStep(s, frames).value
            case Done(args) => WritableArguments(args, limit - 1)
            case More(next) => FramesWritable(next.frames, limit)
  {
    var top, below := Top(frames), frames[..|frames| - 1];
    assert FrameWritable(frames[|frames| - 1], limit - |frames|);
    if top.ArgumentsFrame? {
      assert |frames| == 1;
    } else {
      ClosedWritable(top, limit - |frames|);
      assert FramesWritable(below, limit);
      AttachWritable(below, Closed(top), limit);
    }
    hide Attach, Closed, FramesWritable, Writable;
  }

  lemma StepWritable(st: State, limit: nat)
    requires Between(st.frames) && FramesWritable(st.frames, limit) && Step(st, limit).Ok?
    ensures match Step(st, limit).value
            case Done(args) => WritableArguments(args, limit - 1)
            case More(next) => FramesWritable(next.frames, limit)
  {
    assert st.frames != [];
    assert limit >= 1;
    hide FramesWritable, WritableArguments, CloseStep, KeyStep, ValueStep, SkipSpace, Stacked;
    var s := SkipSpace(st.rest);
    if s != "" && s[0] == Closer(Top(st.frames)) {
      CloseStepWritable(s, st.frames, limit);
    } else if !st.afterItem {
      if Keyed(Top(st.frames)) {
        KeyStepWritable(s, st.frames, limit);
        ValueStepWritable(KeyStep(s, st.frames).value.0, KeyStep(s, st.frames).value.1, limit);
      } else {
        ValueStepWritable(s, st.frames, limit);
      }
    }
  }

  lemma {:induction false} RunWritable(st: State, limit: nat)
    requires limit >= 1 && Between(st.frames) && FramesWritable(st.frames, limit) && Run(st, limit).Ok?
    ensures WritableArguments(Run(st, limit).value, limit - 1)
    decreases |st.rest|
  {
    hide FramesWritable, WritableArguments, Step;
    StepWritable(st, limit);
    if Step(st, limit).value.More? { RunWritable(Step(st, limit).value.state, limit); }
  }

  /** Every accepted argument list can be written: its numbers and words are
      spelled as the syntax has them, no key repeats in a keyed frame at any
      depth, and its brackets are within the limit. */
  lemma AcceptedIsWritable(text: string, limit: nat)
    requires Parse(text, limit).Ok?
    ensures limit >= 1 && WritableArguments(Parse(text, limit).value, limit - 1)
  {
    hide Run;
    RunWritable(Start(text), limit);
  }

  /** The accepted trees are exactly the writable ones. */
  lemma AcceptedExactly(args: seq<DocArgument>, limit: nat)
    ensures (exists text :: Parse(text, limit) == Ok(args)) <==> limit >= 1 && WritableArguments(args, limit - 1)
  {
    hide Parse, WritableArguments;
    if text :| Parse(text, limit) == Ok(args) { AcceptedIsWritable(text, limit); }
    if limit >= 1 && WritableArguments(args, limit - 1) { PrintedParses(args, limit); }
  }
}
