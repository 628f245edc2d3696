/** The parser reads every text of allowed tokens as what they stand for. */
module DocReading {
  import opened Wrappers
  import opened DocParsing
  import opened DocRoundTrip
  import opened DocGrammar
  import opened DocSyntax

  /** Blanks and then a comma or a closing bracket. */
  predicate Ended(tail: string) { Separator(SkipSpace(tail)) }

  lemma {:induction false} SkipBlanks(blank: string, s: string)
    requires Blanks(blank)
    ensures SkipSpace(blank + s) == SkipSpace(s)
  {
    if blank == "" {
      assert blank + s == s;
    } else {
      assert (blank + s)[1..] == blank[1..] + s && (blank + s)[0] == blank[0];
      SkipBlanks(blank[1..], s);
    }
  }

  lemma {:induction false} SkipTwice(s: string)
    ensures SkipSpace(SkipSpace(s)) == SkipSpace(s)
  {
    if s != "" && Blank(s[0]) { SkipTwice(s[1..]); }
  }

  lemma EndedStops(tail: string)
    requires Ended(tail)
    ensures Stops(tail)
  {
  }

  lemma EndedAfter(blank: string, c: char, rest: string)
    requires Blanks(blank) && (c == ',' || c == ')' || c == ']' || c == '}')
    ensures Ended(blank + ([c] + rest))
  {
    SkipBlanks(blank, [c] + rest);
    SkipNothing([c] + rest);
  }

  // ----- turns over blanks and commas -----

  lemma RunSkipped(s: string, t: string, frames: seq<Frame>, afterItem: bool, limit: nat)
    requires Between(frames) && SkipSpace(s) == SkipSpace(t)
    ensures Run(State(s, frames, afterItem), limit) == Run(State(t, frames, afterItem), limit)
  {
    hide SkipSpace, CloseStep, ItemStep, Stacked, Run;
    RunStep(State(s, frames, afterItem), limit);
    RunStep(State(t, frames, afterItem), limit);
  }

  lemma RunBlanks(blank: string, s: string, frames: seq<Frame>, afterItem: bool, limit: nat)
    requires Between(frames) && Blanks(blank)
    ensures Run(State(blank + s, frames, afterItem), limit) == Run(State(s, frames, afterItem), limit)
  {
    SkipBlanks(blank, s);
    RunSkipped(blank + s, s, frames, afterItem, limit);
  }

  /** A closing bracket closes, after an item or not. */
  lemma RunEither(tail: string, frames: seq<Frame>, limit: nat)
    requires Between(frames)
    ensures Run(State([Closer(Top(frames))] + tail, frames, false), limit)
            == Run(State([Closer(Top(frames))] + tail, frames, true), limit)
  {
    SkipNothing([Closer(Top(frames))] + tail);
    hide CloseStep, ItemStep, Stacked, Run, SkipSpace;
    RunStep(State([Closer(Top(frames))] + tail, frames, false), limit);
    RunStep(State([Closer(Top(frames))] + tail, frames, true), limit);
  }

  lemma RunOneComma(s: string, frames: seq<Frame>, limit: nat)
    requires Between(frames)
    ensures Run(State([','] + s, frames, true), limit) == Run(State(s, frames, false), limit)
  {
    SkipNothing([','] + s);
    assert ([','] + s)[1..] == s;
    NotCloser(Top(frames), ',');
    hide CloseStep, ItemStep, Stacked, Run, SkipSpace;
    RunStep(State([','] + s, frames, true), limit);
  }

  // ----- leaves -----

  lemma TextValueReads(spelling: seq<string>, value: string, frames: seq<Frame>, tail: string, limit: nat)
    requires Ready(frames) && Spelled(value, spelling)
    ensures RunValue(['"'] + (Written(spelling) + ['"']) + tail, frames, limit)
            == Run(State(tail, Attach(frames, TextValue(value)), true), limit)
  {
    hide Run, TextRest, Written, Spelled, Stacked, Attach;
    var s := ['"'] + (Written(spelling) + ['"']) + tail;
    assert s[1..] == Written(spelling) + (['"'] + tail);
    SpelledReads(value, spelling, tail);
  }

  /** A word at the front of a text, before something that stops it. */
  lemma WordStops(word: string, tail: string)
    requires Word(word) && Stops(tail)
    ensures word + tail != "" && Span(word + tail, IdentChar) == |word|
    ensures (word + tail)[..|word|] == word && (word + tail)[|word|..] == tail
    ensures var c := (word + tail)[0]; IdentStart(c) && c != '"' && c != '-' && !Digit(c) && c != '[' && c != '{'
  {
    SpanStops(word, tail, IdentChar);
    assert (word + tail)[0] == word[0];
  }

  lemma WordValueReads(word: string, frames: seq<Frame>, tail: string, limit: nat)
    requires Ready(frames) && Word(word) && Ended(tail)
    ensures RunValue(word + tail, frames, limit) == Run(State(tail, Attach(frames, WordValue(word)), true), limit)
  {
    EndedStops(tail);
    WordStops(word, tail);
    SkipTwice(tail);
    hide Run, Span, Stacked, Ready, Between, Attach, SkipSpace, Word, WordValue, IdentStart, IdentChar, Digit, TextRest,
         NumberLength, Stops;
    RunSkipped(SkipSpace(tail), tail, Attach(frames, WordValue(word)), true, limit);
  }

  lemma CallOpens(name: string, gap: string, rest: string, frames: seq<Frame>, limit: nat)
    requires Ready(frames) && |frames| < limit && Word(name) && Blanks(gap)
    ensures Between(frames + [CallFrame(name, [])])
    ensures RunValue(name + (gap + (['('] + rest)), frames, limit) == Run(State(rest, frames + [CallFrame(name, [])], false), limit)
  {
    Pushed(frames, CallFrame(name, []));
    var after := gap + (['('] + rest);
    assert after[0] == if gap == "" then '(' else gap[0];
    SkipBlanks(gap, ['('] + rest);
    SkipNothing(['('] + rest);
    WordStops(name, after);
    assert (['('] + rest)[1..] == rest;
    hide Run, Span, Stacked, Ready, Between, Attach, SkipSpace, Word, WordValue, IdentStart, IdentChar, Digit, TextRest,
         NumberLength, Stops;
  }

  // ----- keys -----

  lemma KeyIsRead(key: KeyTokens, tail: string)
    requires KeyAllowed(key) && Stops(tail)
    ensures KeyRest(KeyText(key) + tail) == Ok((KeyName(key), tail))
    ensures KeyText(key) != "" && (KeyText(key)[0] == '"' || IdentStart(KeyText(key)[0]))
  {
    match key
    case WordKey(word) =>
      WordStops(word, tail);
      hide Span;
    case TextKey(spelling, value) =>
      var s := KeyText(key) + tail;
      assert s[0] == '"' && s[1..] == Written(spelling) + (['"'] + tail);
      SpelledReads(value, spelling, tail);
      hide TextRest, Written;
  }

  lemma KeyIsTaken(below: seq<Frame>, top: Frame, key: KeyTokens, before: string, after: string, rest: string)
    requires Between(below + [top]) && Keyed(top) && KeyAllowed(key) && KeyName(key) !in top.keys
    requires Blanks(before) && Blanks(after) && rest != "" && !Blank(rest[0])
    ensures KeyStep(KeyText(key) + (before + (['='] + (after + rest))), below + [top])
            == Ok((rest, below + [WithKey(top, KeyName(key))]))
  {
    var tail := before + (['='] + (after + rest));
    assert tail[0] == if before == "" then '=' else before[0];
    KeyIsRead(key, tail);
    SkipBlanks(before, ['='] + (after + rest));
    SkipNothing(['='] + (after + rest));
    assert (['='] + (after + rest))[1..] == after + rest;
    SkipBlanks(after, rest);
    SkipNothing(rest);
    hide KeyRest, SkipSpace, Stacked, KeyText, KeyName, KeyAllowed, WithKey;
    assert (below + [top])[..|below|] == below;
  }

  // ----- values and items -----

  /** The frame with the items added to what it holds. */
  function Grown(top: Frame, items: ItemTokens): Frame {
    if Keyed(top) then WithFields(top, FieldsOf(items)) else WithValues(top, ValuesOf(items))
  }

  function GrownBy(top: Frame, item: Item): Frame {
    if Keyed(top) then WithFields(top, [DocArgument(ItemKey(item), ValueOf(item.value))])
    else WithValues(top, [ValueOf(item.value)])
  }

  /** The items' keys are new and distinct, and their values fit. */
  predicate Fits(top: Frame, items: ItemTokens, room: nat) {
    if Keyed(top) then
      && DistinctKeys(FieldsOf(items))
      && forall i :: 0 <= i < |FieldsOf(items)| ==>
           FieldsOf(items)[i].key !in top.keys && Writable(FieldsOf(items)[i].value, room)
    else forall i :: 0 <= i < |ValuesOf(items)| ==> Writable(ValuesOf(items)[i], room)
  }

  predicate ItemFits(top: Frame, item: Item, room: nat) {
    (Keyed(top) ==> ItemKey(item) !in top.keys) && Writable(ValueOf(item.value), room)
  }

  lemma FirstFits(top: Frame, items: ItemTokens, room: nat)
    requires Fits(top, items, room) && !items.NoItems?
    ensures ItemFits(top, items.item, room)
    ensures items.MoreItems? ==> Fits(GrownBy(top, items.item), items.rest, room)
    ensures items.MoreItems? ==> Grown(GrownBy(top, items.item), items.rest) == Grown(top, items)
    ensures items.LastItem? ==> GrownBy(top, items.item) == Grown(top, items)
    ensures Keyed(GrownBy(top, items.item)) == Keyed(top) && Closer(GrownBy(top, items.item)) == Closer(top)
  {
    hide Writable;
    if Keyed(top) {
      var first := DocArgument(ItemKey(items.item), ValueOf(items.item.value));
      assert FieldsOf(items)[0] == first;
      OneKey(top, first);
      if items.MoreItems? {
        FieldsJoin(top, [first], FieldsOf(items.rest));
        MoreFieldsFit(top, first, FieldsOf(items.rest), room);
      }
    } else {
      var first := ValueOf(items.item.value);
      assert ValuesOf(items)[0] == first;
      if items.MoreItems? {
        assert top.values + [first] + ValuesOf(items.rest) == top.values + ValuesOf(items);
        assert forall i :: 0 <= i < |ValuesOf(items.rest)| ==> ValuesOf(items.rest)[i] == ValuesOf(items)[i + 1];
      }
    }
  }

  lemma MoreFieldsFit(top: Frame, first: DocArgument, rest: seq<DocArgument>, room: nat)
    requires Keyed(top) && DistinctKeys([first] + rest)
    requires forall i :: 0 <= i < |[first] + rest| ==> ([first] + rest)[i].key !in top.keys && Writable(([first] + rest)[i].value, room)
    ensures DistinctKeys(rest)
    ensures forall i :: 0 <= i < |rest| ==> rest[i].key !in WithFields(top, [first]).keys && Writable(rest[i].value, room)
  {
    hide Writable;
    var all := [first] + rest;
    OneKey(top, first);
    assert all[0] == first;
    forall i | 0 <= i < |rest| ensures rest[i] == all[i + 1] && rest[i].key != all[0].key {}
    assert rest == all[1..];
  }

  /** What a value or item starts with is no blank and no closing bracket. */
  lemma ValueStarts(v: ValueTokens)
    requires Allowed(v)
    ensures ValueText(v) != "" && ValueStart(ValueText(v)[0])
  {
    match v
    case NumberTokens(text) =>
      NumberIsSpelled(text);
      NumberReads(text, ",");
    case _ =>
  }

  lemma ItemStarts(item: Item, keyed: bool)
    requires ItemAllowed(item, keyed)
    ensures ItemText(item) != "" && ValueStart(ItemText(item)[0])
  {
    match item
    case PlainItem(value) => ValueStarts(value);
    case KeyedItem(key, _, _, _) =>
      KeyIsRead(key, "=");
      hide KeyRest;
  }

  lemma NotBlank(c: char)
    requires ValueStart(c)
    ensures !Blank(c)
  {
  }

  lemma BelowPlain(below: seq<Frame>, top: Frame)
    requires Between(below + [top])
    ensures !top.ArgumentsFrame? ==> below != [] && Ready(below)
    ensures Top(below + [top]) == top && |below + [top]| == |below| + 1
  {
    var frames := below + [top];
    assert forall i :: 0 <= i < |below| ==> below[i] == frames[i];
    if below == [] { assert frames[0] == top; }
  }

  lemma {:induction false} TokensRead(v: ValueTokens, frames: seq<Frame>, tail: string, limit: nat)
    requires Ready(frames) && |frames| <= limit && Allowed(v) && Writable(ValueOf(v), limit - |frames|) && Ended(tail)
    ensures RunValue(ValueText(v) + tail, frames, limit) == Run(State(tail, Attach(frames, ValueOf(v)), true), limit)
    decreases v, 1
  {
    hide Run, RunValue, Stacked, Attach, Spelled, NumberText, ItemsAllowed, Writable, Ended;
    match v
    case TextTokens(spelling, value) => TextValueReads(spelling, value, frames, tail, limit);
    case NumberTokens(text) =>
      NumberIsSpelled(text);
      EndedStops(tail);
      RunNumber(text, frames, tail, limit);
    case WordTokens(word) => WordValueReads(word, frames, tail, limit);
    case CallTokens(_, _, _) => BracketsRead(v, frames, tail, limit);
    case ListTokens(_) => BracketsRead(v, frames, tail, limit);
    case RecordTokens(_) => BracketsRead(v, frames, tail, limit);
  }

  lemma BracketTokens(v: ValueTokens, tail: string)
    ensures v.CallTokens? ==>
              ValueText(v) + tail == v.word + (v.gap + (['('] + (ItemsText(v.items) + ([')'] + tail))))
    ensures v.ListTokens? ==> ValueText(v) + tail == ['['] + (ItemsText(v.items) + ([']'] + tail))
    ensures v.RecordTokens? ==> ValueText(v) + tail == ['{'] + (ItemsText(v.items) + (['}'] + tail))
  {
    hide ItemsText;
  }

  lemma {:induction false} BracketsRead(v: ValueTokens, frames: seq<Frame>, tail: string, limit: nat)
    requires v.CallTokens? || v.ListTokens? || v.RecordTokens?
    requires Ready(frames) && |frames| <= limit && Allowed(v) && Writable(ValueOf(v), limit - |frames|)
    ensures RunValue(ValueText(v) + tail, frames, limit) == Run(State(tail, Attach(frames, ValueOf(v)), true), limit)
    decreases v, 0
  {
    BracketTokens(v, tail);
    hide Run, RunValue, Stacked, Attach, ValueText, ItemsText, ItemsAllowed, ValuesOf, FieldsOf, Ready, Between;
    match v
    case CallTokens(word, gap, items) =>
      CallOpens(word, gap, ItemsText(items) + ([')'] + tail), frames, limit);
      NestedItems(frames, CallFrame(word, []), items, tail, limit);
    case ListTokens(items) =>
      OpenList(ItemsText(items) + ([']'] + tail), frames, limit);
      NestedItems(frames, ListFrame([]), items, tail, limit);
    case RecordTokens(items) =>
      OpenRecord(ItemsText(items) + (['}'] + tail), frames, limit);
      NestedItems(frames, RecordFrame([], {}, None), items, tail, limit);
  }

  /** The value of a bracket that was opened empty. */
  function Filled(top: Frame, items: ItemTokens): DocValue
    requires !top.ArgumentsFrame?
  {
    match top
    case RecordFrame(_, _, _) => RecordValue(FieldsOf(items))
    case CallFrame(name, _) => CallValue(name, ValuesOf(items))
    case ListFrame(_) => ListValue(ValuesOf(items))
  }

  predicate Empty(top: Frame) {
    match top
    case ArgumentsFrame(fields, keys, key) => fields == [] && keys == {} && key.None?
    case RecordFrame(fields, keys, key) => fields == [] && keys == {} && key.None?
    case CallFrame(_, values) => values == []
    case ListFrame(values) => values == []
  }

  lemma FilledFits(top: Frame, items: ItemTokens, room: nat)
    requires !top.ArgumentsFrame? && Empty(top) && Writable(Filled(top, items), room)
    ensures room > 0 && Fits(top, items, room - 1) && Closed(Grown(top, items)) == Filled(top, items)
    ensures !Grown(top, items).ArgumentsFrame? && Closer(Grown(top, items)) == Closer(top)
    ensures Keyed(Grown(top, items)) ==> Grown(top, items).key.None?
  {
    hide ValuesOf, FieldsOf;
    match top
    case RecordFrame(fields, _, _) => assert fields + FieldsOf(items) == FieldsOf(items);
    case CallFrame(_, values) => assert values + ValuesOf(items) == ValuesOf(items);
    case ListFrame(values) => assert values + ValuesOf(items) == ValuesOf(items);
  }

  /** The items between brackets and the closing bracket. */
  lemma {:induction false} NestedItems(frames: seq<Frame>, top: Frame, items: ItemTokens, tail: string, limit: nat)
    requires Ready(frames) && |frames| <= limit && !top.ArgumentsFrame? && Empty(top)
    requires ItemsAllowed(items, Keyed(top)) && Writable(Filled(top, items), limit - |frames|)
    ensures Between(frames + [top])
    ensures Run(State(ItemsText(items) + ([Closer(top)] + tail), frames + [top], false), limit)
            == Run(State(tail, Attach(frames, Filled(top, items)), true), limit)
    decreases items, 3
  {
    FilledFits(top, items, limit - |frames|);
    Pushed(frames, top);
    hide Run, Stacked, Attach, ItemsAllowed, ItemsText, Writable, Ready, Between, Closed, Fits, Grown, Filled;
    ItemsRead(items, frames, top, tail, limit);
    RunClose(frames, Grown(top, items), tail, true, limit);
  }

  lemma {:induction false} ItemsRead(items: ItemTokens, below: seq<Frame>, top: Frame, tail: string, limit: nat)
    requires Between(below + [top]) && |below| < limit && ItemsAllowed(items, Keyed(top)) && Fits(top, items, limit - |below| - 1)
    ensures Between(below + [Grown(top, items)])
    ensures Run(State(ItemsText(items) + ([Closer(top)] + tail), below + [top], false), limit)
            == Run(State([Closer(top)] + tail, below + [Grown(top, items)], true), limit)
    decreases items, 2
  {
    var close := [Closer(top)] + tail;
    match items
    case NoItems(blank) =>
      NothingGrown(below, top, items);
      hide Run, Between, Fits, Grown;
      RunBlanks(blank, close, below + [top], false, limit);
      RunEither(tail, below + [top], limit);
    case LastItem(pre, item, post) =>
      FirstFits(top, items, limit - |below| - 1);
      ItemsJoin(items, close);
      hide Run, Between, Fits, Grown, GrownBy, ItemsText, ItemText, ItemFits, ItemAllowed;
      CloserEnds(post, top, tail);
      RunBlanks(pre, ItemText(item) + (post + close), below + [top], false, limit);
      OneItemReads(item, below, top, post + close, limit);
      RunBlanks(post, close, below + [GrownBy(top, item)], true, limit);
    case MoreItems(pre, item, post, rest) =>
      FirstFits(top, items, limit - |below| - 1);
      ItemsJoin(items, close);
      hide Run, Between, Fits, Grown, GrownBy, ItemsText, ItemText, ItemFits, ItemAllowed;
      var more := ItemsText(rest) + close;
      EndedAfter(post, ',', more);
      RunBlanks(pre, ItemText(item) + (post + ([','] + more)), below + [top], false, limit);
      OneItemReads(item, below, top, post + ([','] + more), limit);
      RunBlanks(post, [','] + more, below + [GrownBy(top, item)], true, limit);
      RunOneComma(more, below + [GrownBy(top, item)], limit);
      ItemsRead(rest, below, GrownBy(top, item), tail, limit);
  }

  lemma CloserEnds(post: string, top: Frame, tail: string)
    requires Blanks(post)
    ensures Ended(post + ([Closer(top)] + tail))
  {
    EndedAfter(post, Closer(top), tail);
  }

  lemma NothingGrown(below: seq<Frame>, top: Frame, items: ItemTokens)
    requires items.NoItems? && Between(below + [top])
    ensures Grown(top, items) == top && Top(below + [top]) == top
  {
  }

  lemma ItemsJoin(items: ItemTokens, close: string)
    ensures items.LastItem? ==> ItemsText(items) + close == items.pre + (ItemText(items.item) + (items.post + close))
    ensures items.MoreItems? ==>
              ItemsText(items) + close
              == items.pre + (ItemText(items.item) + (items.post + ([','] + (ItemsText(items.rest) + close))))
  {
    hide ItemText;
  }

  /** One item, with its key where there are keys. */
  lemma {:induction false} OneItemReads(item: Item, below: seq<Frame>, top: Frame, after: string, limit: nat)
    requires Between(below + [top]) && |below| < limit && ItemAllowed(item, Keyed(top)) && ItemFits(top, item, limit - |below| - 1)
    requires Ended(after)
    ensures Between(below + [GrownBy(top, item)])
    ensures Run(State(ItemText(item) + after, below + [top], false), limit)
            == Run(State(after, below + [GrownBy(top, item)], true), limit)
    decreases item, 3
  {
    hide Run, RunValue, Stacked, Writable, Allowed, Ended, ValueStart, Attach, Between, Ready, Keyed, ValueText, ItemText, WithFields, WithValues;
    ItemStarts(item, Keyed(top));
    BelowPlain(below, top);
    if Keyed(top) {
      KeyedItemReads(item, below, top, after, limit);
    } else {
      PlainItemReads(item, below, top, after, limit);
    }
  }

  lemma {:induction false} PlainItemReads(item: Item, below: seq<Frame>, top: Frame, after: string, limit: nat)
    requires Between(below + [top]) && |below| < limit && !Keyed(top) && ItemAllowed(item, false)
    requires ItemFits(top, item, limit - |below| - 1) && Ended(after)
    requires ItemText(item) != "" && ValueStart(ItemText(item)[0])
    ensures Between(below + [GrownBy(top, item)])
    ensures Run(State(ItemText(item) + after, below + [top], false), limit)
            == Run(State(after, below + [GrownBy(top, item)], true), limit)
    decreases item, 2
  {
    hide Run, RunValue, Stacked, Writable, Allowed, Ended, ValueStart, Attach, Between, Ready, Keyed, ValueText, WithValues;
    BelowPlain(below, top);
    PlainTop(top);
    PlainFrame(below, top, [ValueOf(item.value)]);
    ValueAttached(below, top, ValueOf(item.value));
    DocRoundTrip.PlainItem(ValueText(item.value) + after, below + [top], limit);
    TokensRead(item.value, below + [top], after, limit);
  }

  lemma PlainTop(top: Frame)
    requires !Keyed(top)
    ensures Plain(top) && !top.ArgumentsFrame?
  {
  }

  lemma {:induction false} KeyedItemReads(item: Item, below: seq<Frame>, top: Frame, rest: string, limit: nat)
    requires Between(below + [top]) && |below| < limit && Keyed(top) && ItemAllowed(item, true)
    requires ItemFits(top, item, limit - |below| - 1) && Ended(rest)
    requires ItemText(item) != "" && ValueStart(ItemText(item)[0]) && Top(below + [top]) == top
    ensures Between(below + [GrownBy(top, item)])
    ensures Run(State(ItemText(item) + rest, below + [top], false), limit)
            == Run(State(rest, below + [GrownBy(top, item)], true), limit)
    decreases item, 2
  {
    hide Run, Stacked, Writable, Allowed, Ended, ValueStart, Attach, KeyAllowed, KeyText, WithKey, WithFields, Between, Ready,
         ValueStep, KeyStep, ValueText;
    var KeyedItem(key, before, after, value) := item;
    var field := DocArgument(KeyName(key), ValueOf(value));
    var next := ValueText(value) + rest;
    var s := ItemText(item) + rest;
    ValueStarts(value);
    NotBlank(ValueText(value)[0]);
    FieldAttached(below, top, field);
    FieldsStay(below, top, [field]);
    KeyedText(item, rest);
    assert next[0] == ValueText(value)[0] && s[0] == ItemText(item)[0];
    hide ItemText;
    KeyIsTaken(below, top, key, before, after, next);
    RunItem(s, below + [top], limit);
    TokensRead(value, below + [WithKey(top, KeyName(key))], rest, limit);
  }

  lemma KeyedText(item: Item, rest: string)
    requires item.KeyedItem?
    ensures ItemText(item) + rest
            == KeyText(item.key) + (item.before + (['='] + (item.after + (ValueText(item.value) + rest))))
  {
    hide KeyText, ValueText;
  }

  // ----- the whole attribute -----

  lemma RunLast(top: Frame, end: string, limit: nat)
    requires top.ArgumentsFrame? && top.key.None? && Blanks(end)
    ensures Run(State([')'] + end, [top], true), limit) == Ok(top.fields)
  {
    var s := [')'] + end;
    SkipNothing(s);
    assert s[1..] == end && end + "" == end;
    SkipBlanks(end, "");
    hide SkipSpace;
  }

  /** Every text of allowed tokens parses to the arguments the tokens stand for,
      when those can be written. */
  lemma TokensParse(items: ItemTokens, end: string, limit: nat)
    requires ItemsAllowed(items, true) && Blanks(end)
    requires limit >= 1 && WritableArguments(FieldsOf(items), limit - 1)
    ensures Parse(ItemsText(items) + ([')'] + end), limit) == Ok(FieldsOf(items))
  {
    hide Run, Writable, ItemsText, ItemsAllowed, FieldsOf;
    var top := ArgumentsFrame([], {}, None);
    assert [] + [top] == [top];
    ItemsRead(items, [], top, end, limit);
    var full := Grown(top, items);
    assert [] + [full] == [full] && [] + FieldsOf(items) == FieldsOf(items);
    RunLast(full, end, limit);
  }
}
