/** Why a text in the documented syntax is refused: for the first key that
    repeats or the first bracket past the nesting limit, whichever comes first
    in the text, and for nothing else. */
module DocRefusals {
  import opened Wrappers
  import opened DocParsing
  import opened DocRoundTrip
  import opened DocGrammar
  import opened DocSyntax
  import opened DocReading

  // ----- the first fault of a tree of tokens -----

  /** The first fault of a value with room for so many brackets. */
  function Fault(v: ValueTokens, room: nat, limit: nat): Option<DocError> {
    match v
    case CallTokens(_, _, items) => if room == 0 then Some(Nesting(limit + 1)) else ItemsFault(items, None, room - 1, limit)
    case ListTokens(items) => if room == 0 then Some(Nesting(limit + 1)) else ItemsFault(items, None, room - 1, limit)
    case RecordTokens(items) => if room == 0 then Some(Nesting(limit + 1)) else ItemsFault(items, Some({}), room - 1, limit)
    case _ => None
  }

  /** An item repeats a key, or its value has a fault. */
  function ItemFault(item: Item, keys: Option<set<string>>, room: nat, limit: nat): Option<DocError> {
    if keys.Some? && ItemKey(item) in keys.value then Some(DuplicateKey) else Fault(item.value, room, limit)
  }

  function ItemsFault(items: ItemTokens, keys: Option<set<string>>, room: nat, limit: nat): Option<DocError> {
    match items
    case NoItems(_) => None
    case LastItem(_, item, _) => ItemFault(item, keys, room, limit)
    case MoreItems(_, item, _, rest) =>
      var first := ItemFault(item, keys, room, limit);
      if first.Some? then first else ItemsFault(rest, And(keys, ItemKey(item)), room, limit)
  }

  function And(keys: Option<set<string>>, key: string): Option<set<string>> {
    if keys.Some? then Some(keys.value + {key}) else None
  }

  function KeysOf(top: Frame): Option<set<string>> { if Keyed(top) then Some(top.keys) else None }

  // ----- no fault: it can be written -----

  lemma {:induction false} FaultlessValue(v: ValueTokens, room: nat, limit: nat)
    requires Allowed(v) && Fault(v, room, limit).None?
    ensures Writable(ValueOf(v), room)
    decreases v
  {
    match v
    case TextTokens(_, _) =>
    case NumberTokens(text) => NumberIsSpelled(text);
    case WordTokens(_) =>
    case CallTokens(word, _, items) => FaultlessItems(items, CallFrame(word, []), room - 1, limit);
    case ListTokens(items) => FaultlessItems(items, ListFrame([]), room - 1, limit);
    case RecordTokens(items) => FaultlessItems(items, RecordFrame([], {}, None), room - 1, limit);
  }

  lemma {:induction false} FaultlessItems(items: ItemTokens, top: Frame, room: nat, limit: nat)
    requires ItemsAllowed(items, Keyed(top)) && ItemsFault(items, KeysOf(top), room, limit).None?
    ensures Fits(top, items, room)
    decreases items
  {
    match items
    case NoItems(_) =>
    case LastItem(_, item, _) =>
      hide Writable;
      FaultlessValue(item.value, room, limit);
    case MoreItems(_, item, _, rest) =>
      FaultlessValue(item.value, room, limit);
      hide Writable, Fits, Fault, ItemsFault;
      GrownKeys(top, item);
      FaultlessItems(rest, GrownBy(top, item), room, limit);
      MoreFit(top, items, room);
  }

  lemma GrownKeys(top: Frame, item: Item)
    ensures KeysOf(GrownBy(top, item)) == And(KeysOf(top), ItemKey(item)) && Keyed(GrownBy(top, item)) == Keyed(top)
    ensures Closer(GrownBy(top, item)) == Closer(top)
  {
    if Keyed(top) { OneKey(top, DocArgument(ItemKey(item), ValueOf(item.value))); }
  }

  /** A first item that fits before items that fit after it. */
  lemma MoreFit(top: Frame, items: ItemTokens, room: nat)
    requires items.MoreItems? && ItemFits(top, items.item, room) && Fits(GrownBy(top, items.item), items.rest, room)
    ensures Fits(top, items, room)
  {
    hide Writable;
    if Keyed(top) {
      var first := DocArgument(ItemKey(items.item), ValueOf(items.item.value));
      OneKey(top, first);
      var rest, all := FieldsOf(items.rest), FieldsOf(items);
      assert all == [first] + rest;
      assert forall i :: 0 < i < |all| ==> all[i] == rest[i - 1];
    } else {
      var rest, all := ValuesOf(items.rest), ValuesOf(items);
      assert all == [ValueOf(items.item.value)] + rest;
      assert forall i :: 0 < i < |all| ==> all[i] == rest[i - 1];
    }
  }

  // ----- opening past the limit -----

  lemma ListRefused(rest: string, frames: seq<Frame>, limit: nat)
    requires Ready(frames) && |frames| == limit
    ensures RunValue(['['] + rest, frames, limit) == Err(Nesting(limit + 1))
    ensures RunValue(['{'] + rest, frames, limit) == Err(Nesting(limit + 1))
  {
    hide Run, Stacked;
  }

  lemma CallRefused(name: string, gap: string, rest: string, frames: seq<Frame>, limit: nat)
    requires Ready(frames) && |frames| == limit && Word(name) && Blanks(gap)
    ensures RunValue(name + (gap + (['('] + rest)), frames, limit) == Err(Nesting(limit + 1))
  {
    var after := gap + (['('] + rest);
    assert after[0] == if gap == "" then '(' else gap[0];
    SkipBlanks(gap, ['('] + rest);
    SkipNothing(['('] + rest);
    WordStops(name, after);
    hide Run, Span, Stacked, Ready, Between, Attach, SkipSpace, Word, WordValue, IdentStart, IdentChar, Digit, TextRest,
         NumberLength, Stops;
  }

  // ----- a fault is refused -----

  lemma {:induction false} FaultRefused(v: ValueTokens, frames: seq<Frame>, tail: string, limit: nat)
    requires Ready(frames) && |frames| <= limit && Allowed(v) && Fault(v, limit - |frames|, limit).Some?
    ensures RunValue(ValueText(v) + tail, frames, limit) == Err(Fault(v, limit - |frames|, limit).value)
    decreases v, 0
  {
    BracketTokens(v, tail);
    hide Run, RunValue, Stacked, ValueText, ItemsText, ItemsAllowed, ItemsFault, Ready, Between;
    match v
    case CallTokens(word, gap, items) =>
      var rest := ItemsText(items) + ([')'] + tail);
      if |frames| == limit {
        CallRefused(word, gap, rest, frames, limit);
      } else {
        CallOpens(word, gap, rest, frames, limit);
        ItemsRefused(items, frames, CallFrame(word, []), tail, limit);
      }
    case ListTokens(items) =>
      var rest := ItemsText(items) + ([']'] + tail);
      if |frames| == limit {
        ListRefused(rest, frames, limit);
      } else {
        OpenList(rest, frames, limit);
        ItemsRefused(items, frames, ListFrame([]), tail, limit);
      }
    case RecordTokens(items) =>
      var rest := ItemsText(items) + (['}'] + tail);
      if |frames| == limit {
        ListRefused(rest, frames, limit);
      } else {
        OpenRecord(rest, frames, limit);
        ItemsRefused(items, frames, RecordFrame([], {}, None), tail, limit);
      }
  }

  lemma {:induction false} ItemsRefused(items: ItemTokens, below: seq<Frame>, top: Frame, tail: string, limit: nat)
    requires Between(below + [top]) && |below| < limit && ItemsAllowed(items, Keyed(top))
    requires ItemsFault(items, KeysOf(top), limit - |below| - 1, limit).Some?
    ensures Run(State(ItemsText(items) + ([Closer(top)] + tail), below + [top], false), limit)
            == Err(ItemsFault(items, KeysOf(top), limit - |below| - 1, limit).value)
    decreases items, 2
  {
    hide Run, Between, ItemsText, ItemText, ItemAllowed, ItemFault, Stacked;
    match items
    case LastItem(pre, item, post) =>
      var close := [Closer(top)] + tail;
      ItemsJoin(items, close);
      RunBlanks(pre, ItemText(item) + (post + close), below + [top], false, limit);
      ItemRefused(item, below, top, post + close, limit);
    case MoreItems(_, item, _, _) =>
      if ItemFault(item, KeysOf(top), limit - |below| - 1, limit).Some? {
        FirstRefused(items, below, top, tail, limit);
      } else {
        LaterRefused(items, below, top, tail, limit);
      }
  }

  lemma {:induction false} FirstRefused(items: ItemTokens, below: seq<Frame>, top: Frame, tail: string, limit: nat)
    requires Between(below + [top]) && |below| < limit && items.MoreItems? && ItemsAllowed(items, Keyed(top))
    requires ItemFault(items.item, KeysOf(top), limit - |below| - 1, limit).Some?
    ensures Run(State(ItemsText(items) + ([Closer(top)] + tail), below + [top], false), limit)
            == Err(ItemFault(items.item, KeysOf(top), limit - |below| - 1, limit).value)
    decreases items, 1
  {
    hide Run, Between, ItemsText, ItemText, ItemAllowed, ItemFault, Stacked;
    var MoreItems(pre, item, post, rest) := items;
    var close := [Closer(top)] + tail;
    ItemsJoin(items, close);
    var more := post + ([','] + (ItemsText(rest) + close));
    RunBlanks(pre, ItemText(item) + more, below + [top], false, limit);
    ItemRefused(item, below, top, more, limit);
  }

  lemma {:induction false} LaterRefused(items: ItemTokens, below: seq<Frame>, top: Frame, tail: string, limit: nat)
    requires Between(below + [top]) && |below| < limit && items.MoreItems? && ItemsAllowed(items, Keyed(top))
    requires ItemFault(items.item, KeysOf(top), limit - |below| - 1, limit).None?
    requires ItemsFault(items.rest, And(KeysOf(top), ItemKey(items.item)), limit - |below| - 1, limit).Some?
    ensures Run(State(ItemsText(items) + ([Closer(top)] + tail), below + [top], false), limit)
            == Err(ItemsFault(items.rest, And(KeysOf(top), ItemKey(items.item)), limit - |below| - 1, limit).value)
    decreases items, 1
  {
    hide *;
    var next := GrownBy(top, items.item);
    AllowedSplit(items, Keyed(top));
    GrownKeys(top, items.item);
    FaultlessItem(items.item, top, limit - |below| - 1, limit);
    FirstIsRead(items, below, top, [Closer(top)] + tail, limit);
    ItemsRefused(items.rest, below, next, tail, limit);
  }

  /** An item that fits is read up to what comes after its comma. */
  lemma FirstIsRead(items: ItemTokens, below: seq<Frame>, top: Frame, close: string, limit: nat)
    requires Between(below + [top]) && |below| < limit && items.MoreItems?
    requires Blanks(items.pre) && ItemAllowed(items.item, Keyed(top)) && Blanks(items.post)
    requires ItemFits(top, items.item, limit - |below| - 1)
    ensures Between(below + [GrownBy(top, items.item)])
    ensures Run(State(ItemsText(items) + close, below + [top], false), limit)
            == Run(State(ItemsText(items.rest) + close, below + [GrownBy(top, items.item)], false), limit)
  {
    hide Run, Between, GrownBy, ItemsText, ItemText, ItemFits, ItemAllowed, Stacked, Keyed, Blanks, Ended;
    var MoreItems(pre, item, post, rest) := items;
    var more := ItemsText(rest) + close;
    ItemsJoin(items, close);
    EndedAfter(post, ',', more);
    RunBlanks(pre, ItemText(item) + (post + ([','] + more)), below + [top], false, limit);
    OneItemReads(item, below, top, post + ([','] + more), limit);
    RunBlanks(post, [','] + more, below + [GrownBy(top, item)], true, limit);
    RunOneComma(more, below + [GrownBy(top, item)], limit);
  }

  lemma AllowedSplit(items: ItemTokens, keyed: bool)
    requires items.MoreItems? && ItemsAllowed(items, keyed)
    ensures Blanks(items.pre) && ItemAllowed(items.item, keyed) && Blanks(items.post) && ItemsAllowed(items.rest, keyed)
  {
  }

  lemma FaultlessItem(item: Item, top: Frame, room: nat, limit: nat)
    requires ItemAllowed(item, Keyed(top))
    ensures ItemFault(item, KeysOf(top), room, limit).None? ==> ItemFits(top, item, room)
  {
    hide Writable;
    if ItemFault(item, KeysOf(top), room, limit).None? { FaultlessValue(item.value, room, limit); }
  }

  lemma {:induction false} ItemRefused(item: Item, below: seq<Frame>, top: Frame, after: string, limit: nat)
    requires Between(below + [top]) && |below| < limit && ItemAllowed(item, Keyed(top))
    requires ItemFault(item, KeysOf(top), limit - |below| - 1, limit).Some?
    ensures Run(State(ItemText(item) + after, below + [top], false), limit)
            == Err(ItemFault(item, KeysOf(top), limit - |below| - 1, limit).value)
    decreases item, 2
  {
    hide Run, RunValue, Stacked, Allowed, ValueStart, Attach, Between, Ready, ValueText, ItemText, KeyAllowed, KeyText, ItemFault, Fault;
    ItemStarts(item, Keyed(top));
    BelowPlain(below, top);
    if Keyed(top) {
      KeyedItemRefused(item, below, top, after, limit);
    } else {
      PlainItemRefused(item, below, top, after, limit);
    }
  }

  lemma {:induction false} PlainItemRefused(item: Item, below: seq<Frame>, top: Frame, after: string, limit: nat)
    requires Between(below + [top]) && |below| < limit && !Keyed(top) && ItemAllowed(item, false)
    requires ItemFault(item, KeysOf(top), limit - |below| - 1, limit).Some?
    requires ItemText(item) != "" && ValueStart(ItemText(item)[0])
    ensures Run(State(ItemText(item) + after, below + [top], false), limit)
            == Err(ItemFault(item, KeysOf(top), limit - |below| - 1, limit).value)
    decreases item, 1
  {
    hide Run, RunValue, Stacked, Allowed, ValueStart, Attach, Between, Ready, ValueText, Fault, WithValues;
    BelowPlain(below, top);
    PlainTop(top);
    ValueAttached(below, top, ValueOf(item.value));
    DocRoundTrip.PlainItem(ValueText(item.value) + after, below + [top], limit);
    FaultRefused(item.value, below + [top], after, limit);
  }

  lemma {:induction false} KeyedItemRefused(item: Item, below: seq<Frame>, top: Frame, rest: string, limit: nat)
    requires Between(below + [top]) && |below| < limit && Keyed(top) && ItemAllowed(item, true)
    requires ItemFault(item, KeysOf(top), limit - |below| - 1, limit).Some?
    requires ItemText(item) != "" && ValueStart(ItemText(item)[0]) && Top(below + [top]) == top
    ensures Run(State(ItemText(item) + rest, below + [top], false), limit)
            == Err(ItemFault(item, KeysOf(top), limit - |below| - 1, limit).value)
    decreases item, 1
  {
    hide Run, Stacked, Allowed, ValueStart, Attach, KeyAllowed, KeyText, WithKey, Between, Ready, ValueStep, KeyStep, ValueText, Fault;
    var KeyedItem(key, before, after, value) := item;
    var next := ValueText(value) + rest;
    var s := ItemText(item) + rest;
    ValueStarts(value);
    NotBlank(ValueText(value)[0]);
    KeyedText(item, rest);
    assert next[0] == ValueText(value)[0] && s[0] == ItemText(item)[0];
    hide ItemText;
    RunItem(s, below + [top], limit);
    if KeyName(key) in top.keys {
      KeyRepeats(below, top, key, before, after, next);
    } else {
      KeyPends(below, top, KeyName(key));
      KeyIsTaken(below, top, key, before, after, next);
      FaultRefused(value, below + [WithKey(top, KeyName(key))], rest, limit);
    }
  }

  lemma KeyRepeats(below: seq<Frame>, top: Frame, key: KeyTokens, before: string, after: string, rest: string)
    requires Between(below + [top]) && Keyed(top) && KeyAllowed(key) && KeyName(key) in top.keys
    requires Blanks(before)
    ensures Keyed(Top(below + [top]))
    ensures KeyStep(KeyText(key) + (before + (['='] + (after + rest))), below + [top]) == Err(DuplicateKey)
  {
    var tail := before + (['='] + (after + rest));
    assert tail[0] == if before == "" then '=' else before[0];
    KeyIsRead(key, tail);
    SkipBlanks(before, ['='] + (after + rest));
    SkipNothing(['='] + (after + rest));
    assert Top(below + [top]) == top;
    hide KeyRest, SkipSpace, Stacked, KeyText, KeyName, KeyAllowed, WithKey;
  }

  // ----- the whole attribute -----

  /** What parsing a text in the documented syntax comes to: its arguments, or
      its first fault. */
  lemma DocumentedOutcome(items: ItemTokens, end: string, limit: nat)
    requires ItemsAllowed(items, true) && Blanks(end)
    ensures Parse(ItemsText(items) + ([')'] + end), limit)
            == if limit == 0 then Err(Nesting(1))
               else if ItemsFault(items, Some({}), limit - 1, limit).Some? then Err(ItemsFault(items, Some({}), limit - 1, limit).value)
               else Ok(FieldsOf(items))
  {
    hide Run, Writable, ItemsText, ItemsAllowed, FieldsOf, ItemsFault;
    if limit > 0 {
      var top := ArgumentsFrame([], {}, None);
      assert [] + [top] == [top];
      if ItemsFault(items, Some({}), limit - 1, limit).Some? {
        ItemsRefused(items, [], top, end, limit);
      } else {
        FaultlessItems(items, top, limit - 1, limit);
        TokensParse(items, end, limit);
      }
    }
  }

  /** The only faults are a repeated key and one bracket too many. */
  lemma {:induction false} FaultKinds(v: ValueTokens, room: nat, limit: nat)
    requires Fault(v, room, limit).Some?
    ensures Fault(v, room, limit).value == DuplicateKey || Fault(v, room, limit).value == Nesting(limit + 1)
    decreases v
  {
    match v
    case CallTokens(_, _, items) => if room > 0 { ItemsFaultKinds(items, None, room - 1, limit); }
    case ListTokens(items) => if room > 0 { ItemsFaultKinds(items, None, room - 1, limit); }
    case RecordTokens(items) => if room > 0 { ItemsFaultKinds(items, Some({}), room - 1, limit); }
  }

  lemma {:induction false} ItemsFaultKinds(items: ItemTokens, keys: Option<set<string>>, room: nat, limit: nat)
    requires ItemsFault(items, keys, room, limit).Some?
    ensures var e := ItemsFault(items, keys, room, limit).value; e == DuplicateKey || e == Nesting(limit + 1)
    decreases items
  {
    if ItemFault(items.item, keys, room, limit).Some? {
      if Fault(items.item.value, room, limit).Some? { FaultKinds(items.item.value, room, limit); }
    } else {
      ItemsFaultKinds(items.rest, And(keys, ItemKey(items.item)), room, limit);
    }
  }

  /** A text in the documented syntax is never called malformed. */
  lemma DocumentedIsNotMalformed(items: ItemTokens, end: string, limit: nat)
    requires ItemsAllowed(items, true) && Blanks(end)
    ensures var r := Parse(ItemsText(items) + ([')'] + end), limit);
            r.Err? ==> r.error == DuplicateKey || r.error == Nesting(limit + 1)
  {
    hide Parse, ItemsText, ItemsAllowed, FieldsOf, ItemsFault;
    DocumentedOutcome(items, end, limit);
    if limit > 0 && ItemsFault(items, Some({}), limit - 1, limit).Some? { ItemsFaultKinds(items, Some({}), limit - 1, limit); }
  }
}
