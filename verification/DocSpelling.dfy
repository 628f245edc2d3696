/** Every text the parser accepts is the text of allowed tokens that stand for
    what it returns; with the reading of tokens this is the documented syntax. */
module DocSpelling {
  import opened Wrappers
  import opened DocParsing
  import opened DocRoundTrip
  import opened DocKeys
  import opened DocGrammar
  import opened DocSyntax
  import opened DocReading

  // ----- what is still to be read -----

  /** After an item: blanks and the closing bracket, or a comma and more items. */
  datatype AfterItem = End(post: string) | Comma(post: string, items: ItemTokens)

  /** In the innermost bracket: items, or what follows an item. */
  datatype Inner = Items(items: ItemTokens) | After(after: AfterItem)

  function AfterText(a: AfterItem): string {
    match a
    case End(post) => post
    case Comma(post, items) => post + ([','] + ItemsText(items))
  }

  function InnerText(inner: Inner): string {
    match inner
    case Items(items) => ItemsText(items)
    case After(after) => AfterText(after)
  }

  function Remaining(inner: Inner): ItemTokens {
    match inner
    case Items(items) => items
    case After(End(post)) => NoItems(post)
    case After(Comma(_, items)) => items
  }

  ghost predicate AfterAllowed(a: AfterItem, keyed: bool) {
    match a
    case End(post) => Blanks(post)
    case Comma(post, items) => Blanks(post) && ItemsAllowed(items, keyed)
  }

  ghost predicate InnerAllowed(inner: Inner, keyed: bool) {
    match inner
    case Items(items) => ItemsAllowed(items, keyed)
    case After(after) => AfterAllowed(after, keyed)
  }

  /** The rest of the text: the innermost bracket, its closing bracket, and the
      rest of the brackets around it. */
  function RestText(frames: seq<Frame>, outer: seq<AfterItem>, inner: Inner, end: string): string
    requires frames != [] && |outer| == |frames| - 1
    decreases |frames|
  {
    InnerText(inner) + ([Closer(Top(frames))] + OuterText(frames, outer, end))
  }

  function OuterText(frames: seq<Frame>, outer: seq<AfterItem>, end: string): string
    requires frames != [] && |outer| == |frames| - 1
    decreases |frames|, 0
  {
    if |frames| == 1 then end
    else
      AfterText(outer[|outer| - 1])
      + ([Closer(frames[|frames| - 2])] + OuterText(frames[..|frames| - 1], outer[..|outer| - 1], end))
  }

  ghost predicate RestAllowed(frames: seq<Frame>, outer: seq<AfterItem>, inner: Inner, end: string) {
    && frames != [] && |outer| == |frames| - 1 && Blanks(end)
    && InnerAllowed(inner, Keyed(Top(frames)))
    && forall i :: 0 <= i < |outer| ==> AfterAllowed(outer[i], Keyed(frames[i]))
  }

  /** What a bracket holds once the rest of it is read. */
  function ClosedWith(f: Frame, items: ItemTokens): DocValue
    requires !f.ArgumentsFrame?
  {
    match f
    case RecordFrame(fields, _, _) => RecordValue(fields + FieldsOf(items))
    case CallFrame(name, values) => CallValue(name, values + ValuesOf(items))
    case ListFrame(values) => ListValue(values + ValuesOf(items))
  }

  /** The arguments once everything is read. */
  function ReadsTo(frames: seq<Frame>, outer: seq<AfterItem>, inner: Inner): seq<DocArgument>
    requires Between(frames) && |outer| == |frames| - 1
    decreases |frames|
  {
    if |frames| == 1 then Top(frames).fields + FieldsOf(Remaining(inner))
    else
      BelowTop(frames);
      ReadsTo(Attach(frames[..|frames| - 1], ClosedWith(Top(frames), Remaining(inner))),
              outer[..|outer| - 1], After(outer[|outer| - 1]))
  }

  lemma BelowTop(frames: seq<Frame>)
    requires Between(frames)
    ensures |frames| == 1 ==> Top(frames).ArgumentsFrame?
    ensures |frames| > 1 ==> !Top(frames).ArgumentsFrame? && Ready(frames[..|frames| - 1])
  {
  }

  // ----- texts taken apart -----

  lemma {:induction false} BlankFront(s: string) returns (blank: string)
    ensures Blanks(blank) && s == blank + SkipSpace(s)
  {
    if s != "" && Blank(s[0]) {
      blank := BlankFront(s[1..]);
      blank := [s[0]] + blank;
      assert s == [s[0]] + s[1..];
    } else {
      blank := "";
    }
  }

  lemma {:induction false} AllBlank(s: string)
    requires SkipSpace(s) == ""
    ensures Blanks(s)
  {
    if s != "" {
      AllBlank(s[1..]);
      assert forall i :: 0 < i < |s| ==> s[i] == s[1..][i - 1];
    }
  }

  /** Only the closing brackets of the frames matter to the text around them. */
  lemma {:induction false} OuterSame(frames: seq<Frame>, others: seq<Frame>, outer: seq<AfterItem>, end: string)
    requires frames != [] && |outer| == |frames| - 1 && |others| == |frames|
    requires forall i :: 0 <= i < |frames| - 1 ==> Closer(others[i]) == Closer(frames[i])
    ensures OuterText(others, outer, end) == OuterText(frames, outer, end)
    decreases |frames|
  {
    if |frames| > 1 { OuterSame(frames[..|frames| - 1], others[..|frames| - 1], outer[..|outer| - 1], end); }
  }

  /** Brackets that come to the same read to the same. */
  lemma ReadsSame(frames: seq<Frame>, others: seq<Frame>, outer: seq<AfterItem>, inner: Inner, other: Inner)
    requires Between(frames) && Between(others) && |outer| == |frames| - 1 == |others| - 1
    requires frames[..|frames| - 1] == others[..|others| - 1]
    requires Top(frames).ArgumentsFrame? == Top(others).ArgumentsFrame?
    requires Top(frames).ArgumentsFrame? ==>
               Top(frames).fields + FieldsOf(Remaining(inner)) == Top(others).fields + FieldsOf(Remaining(other))
    requires !Top(frames).ArgumentsFrame? ==>
               ClosedWith(Top(frames), Remaining(inner)) == ClosedWith(Top(others), Remaining(other))
    ensures ReadsTo(frames, outer, inner) == ReadsTo(others, outer, other)
  {
    BelowTop(frames);
    BelowTop(others);
    hide Stacked, ClosedWith, Attach;
  }

  // ----- an item in front of the rest -----

  /** The item with what follows it. */
  function ItemsFrom(pre: string, item: Item, a: AfterItem): ItemTokens {
    match a
    case End(post) => LastItem(pre, item, post)
    case Comma(post, items) => MoreItems(pre, item, post, items)
  }

  /** The frame with the item's value attached under its key. */
  ghost predicate Holds(top: Frame, item: Item, next: Frame) {
    if Keyed(top) then item.KeyedItem? && next == AddTo(WithKey(top, KeyName(item.key)), ValueOf(item.value))
    else Plain(top) && item.PlainItem? && next == AddTo(top, ValueOf(item.value))
  }

  lemma ItemJoins(top: Frame, item: Item, next: Frame, pre: string, a: AfterItem)
    requires Holds(top, item, next)
    ensures top.ArgumentsFrame? == next.ArgumentsFrame? && Closer(top) == Closer(next) && Keyed(top) == Keyed(next)
    ensures top.ArgumentsFrame? ==>
              next.fields + FieldsOf(Remaining(After(a))) == top.fields + FieldsOf(ItemsFrom(pre, item, a))
    ensures !top.ArgumentsFrame? ==>
              ClosedWith(next, Remaining(After(a))) == ClosedWith(top, ItemsFrom(pre, item, a))
  {
    if Keyed(top) {
      var field := DocArgument(ItemKey(item), ValueOf(item.value));
      assert next.fields == top.fields + [field];
      assert top.fields + [field] + FieldsOf(Remaining(After(a))) == top.fields + FieldsOf(ItemsFrom(pre, item, a));
    } else {
      var v := ValueOf(item.value);
      assert top.values + [v] + ValuesOf(Remaining(After(a))) == top.values + ValuesOf(ItemsFrom(pre, item, a));
    }
  }

  lemma ItemFirst(pre: string, item: Item, a: AfterItem, tail: string)
    ensures ItemsText(ItemsFrom(pre, item, a)) + tail == pre + (ItemText(item) + (AfterText(a) + tail))
  {
    hide ItemText;
  }

  /** What a run from some frames has read when it is done. */
  ghost predicate Spells(rest: string, frames: seq<Frame>, args: seq<DocArgument>, outer: seq<AfterItem>, inner: Inner, end: string) {
    && Between(frames) && RestAllowed(frames, outer, inner, end)
    && rest == RestText(frames, outer, inner, end)
    && args == ReadsTo(frames, outer, inner)
  }

  lemma ItemText1(frames: seq<Frame>, item: Item, next: seq<Frame>, pre: string,
                  outer: seq<AfterItem>, a: AfterItem, end: string)
    requires frames != [] && |next| == |frames| == |outer| + 1 && next[..|next| - 1] == frames[..|frames| - 1]
    requires Closer(Top(next)) == Closer(Top(frames))
    ensures pre + (ItemText(item) + RestText(next, outer, After(a), end))
            == RestText(frames, outer, Items(ItemsFrom(pre, item, a)), end)
  {
    assert forall i :: 0 <= i < |frames| - 1 ==> frames[i] == frames[..|frames| - 1][i] == next[i];
    hide ItemText, ItemsText, OuterText, ItemsFrom;
    OuterSame(frames, next, outer, end);
    ItemFirst(pre, item, a, [Closer(Top(frames))] + OuterText(frames, outer, end));
  }

  lemma ItemAllowed1(frames: seq<Frame>, item: Item, next: seq<Frame>, pre: string, outer: seq<AfterItem>, a: AfterItem, end: string)
    requires frames != [] && |next| == |frames| && next[..|next| - 1] == frames[..|frames| - 1]
    requires Keyed(Top(next)) == Keyed(Top(frames)) && Blanks(pre) && ItemAllowed(item, Keyed(Top(frames)))
    requires RestAllowed(next, outer, After(a), end)
    ensures RestAllowed(frames, outer, Items(ItemsFrom(pre, item, a)), end)
  {
    assert forall i :: 0 <= i < |frames| - 1 ==> frames[i] == frames[..|frames| - 1][i] == next[i];
    hide ItemAllowed;
  }

  /** An item in front of what a run spells. */
  lemma ItemInFront(frames: seq<Frame>, item: Item, next: seq<Frame>, pre: string, rest: string, args: seq<DocArgument>,
                    outer: seq<AfterItem>, a: AfterItem, end: string)
    requires Between(frames) && Blanks(pre) && ItemAllowed(item, Keyed(Top(frames)))
    requires next != [] && next[..|next| - 1] == frames[..|frames| - 1] && Holds(Top(frames), item, Top(next))
    requires Spells(rest, next, args, outer, After(a), end)
    ensures Spells(pre + (ItemText(item) + rest), frames, args, outer, Items(ItemsFrom(pre, item, a)), end)
  {
    assert |next| == |outer| + 1;
    assert |frames| - 1 == |frames[..|frames| - 1]|;
    hide Stacked, ItemText, ItemsText, ItemAllowed, ClosedWith, Holds, ItemsAllowed, RestText, RestAllowed, ReadsTo, Between, ItemsFrom, AfterText;
    ItemJoins(Top(frames), item, Top(next), pre, a);
    ItemText1(frames, item, next, pre, outer, a, end);
    ItemAllowed1(frames, item, next, pre, outer, a, end);
    ReadsSame(frames, next, outer, Items(ItemsFrom(pre, item, a)), After(a));
  }

  lemma BracketText1(frames: seq<Frame>, blank: string, afterItem: bool, next: seq<Frame>, outer: seq<AfterItem>, a: AfterItem, end: string)
    requires |frames| > 1 && |next| == |frames| - 1 == |outer| + 1
    requires forall i :: 0 <= i < |next| ==> Closer(next[i]) == Closer(frames[i])
    ensures var inner := if afterItem then After(End(blank)) else Items(NoItems(blank));
            blank + ([Closer(Top(frames))] + RestText(next, outer, After(a), end)) == RestText(frames, outer + [a], inner, end)
  {
    assert (outer + [a])[..|outer|] == outer;
    var below := frames[..|frames| - 1];
    OuterSame(below, next, outer, end);
    assert Closer(Top(next)) == Closer(frames[|frames| - 2]);
    hide Closer, AfterText;
  }

  lemma BracketAllowed1(frames: seq<Frame>, blank: string, afterItem: bool, next: seq<Frame>, outer: seq<AfterItem>, a: AfterItem, end: string)
    requires |frames| > 1 && |next| == |frames| - 1 && Blanks(blank) && RestAllowed(next, outer, After(a), end)
    requires forall i :: 0 <= i < |next| ==> Keyed(next[i]) == Keyed(frames[i])
    ensures RestAllowed(frames, outer + [a], if afterItem then After(End(blank)) else Items(NoItems(blank)), end)
  {
    assert AfterAllowed(End(blank), Keyed(Top(frames)));
    hide AfterAllowed, Keyed;
    InnerIsAfter(next, outer, a, end);
  }

  lemma InnerIsAfter(frames: seq<Frame>, outer: seq<AfterItem>, a: AfterItem, end: string)
    requires RestAllowed(frames, outer, After(a), end)
    ensures AfterAllowed(a, Keyed(Top(frames)))
  {
  }

  lemma BracketReads1(frames: seq<Frame>, blank: string, afterItem: bool, outer: seq<AfterItem>, a: AfterItem)
    requires Between(frames) && |frames| > 1 && |outer| == |frames| - 2 && Ready(frames[..|frames| - 1])
    ensures !Top(frames).ArgumentsFrame?
    ensures var inner := if afterItem then After(End(blank)) else Items(NoItems(blank));
            ReadsTo(frames, outer + [a], inner) == ReadsTo(Attach(frames[..|frames| - 1], Closed(Top(frames))), outer, After(a))
  {
    BelowTop(frames);
    NothingAdded(Top(frames), blank);
    assert (outer + [a])[..|outer|] == outer;
    hide Stacked, Closed, ClosedWith, Attach;
  }

  /** A closed bracket in front of what a run spells. */
  lemma BracketInFront(frames: seq<Frame>, blank: string, afterItem: bool, rest: string, args: seq<DocArgument>,
                       outer: seq<AfterItem>, a: AfterItem, end: string)
    requires Between(frames) && |frames| > 1 && Blanks(blank) && Ready(frames[..|frames| - 1]) && !Top(frames).ArgumentsFrame?
    requires Spells(rest, Attach(frames[..|frames| - 1], Closed(Top(frames))), args, outer, After(a), end)
    ensures var inner := if afterItem then After(End(blank)) else Items(NoItems(blank));
            Spells(blank + ([Closer(Top(frames))] + rest), frames, args, outer + [a], inner, end)
  {
    var below := frames[..|frames| - 1];
    var next := Attach(below, Closed(Top(frames)));
    assert |outer| == |next| - 1;
    hide Stacked, Closed, ClosedWith, RestText, RestAllowed, ReadsTo, Attach, Ready, Between;
    AttachKeeps(below, Closed(Top(frames)));
    SameBelow(below, next);
    BracketText1(frames, blank, afterItem, next, outer, a, end);
    BracketAllowed1(frames, blank, afterItem, next, outer, a, end);
    BracketReads1(frames, blank, afterItem, outer, a);
  }

  lemma SameBelow(frames: seq<Frame>, next: seq<Frame>)
    requires frames != [] && |next| == |frames| && next[..|frames| - 1] == frames[..|frames| - 1]
    requires Closer(Top(next)) == Closer(Top(frames)) && Keyed(Top(next)) == Keyed(Top(frames))
    ensures forall i :: 0 <= i < |next| ==> Closer(next[i]) == Closer(frames[i]) && Keyed(next[i]) == Keyed(frames[i])
  {
    hide Closer, Keyed;
    forall i | 0 <= i < |next| ensures Closer(next[i]) == Closer(frames[i]) && Keyed(next[i]) == Keyed(frames[i]) {
      if i < |next| - 1 { assert next[..|frames| - 1][i] == frames[..|frames| - 1][i]; }
    }
  }

  lemma NothingAdded(f: Frame, blank: string)
    requires !f.ArgumentsFrame?
    ensures ClosedWith(f, NoItems(blank)) == Closed(f)
  {
  }

  lemma AttachKeeps(frames: seq<Frame>, v: DocValue)
    requires Ready(frames)
    ensures |Attach(frames, v)| == |frames| && Closer(Top(Attach(frames, v))) == Closer(Top(frames))
    ensures Keyed(Top(Attach(frames, v))) == Keyed(Top(frames))
    ensures Attach(frames, v)[..|frames| - 1] == frames[..|frames| - 1] && Top(Attach(frames, v)) == AddTo(Top(frames), v)
  {
  }

  // ----- what one turn takes -----

  /** Blanks before what follows an item belong to it. */
  function Later(blank: string, a: AfterItem): AfterItem {
    match a
    case End(post) => End(blank + post)
    case Comma(post, items) => Comma(blank + post, items)
  }

  lemma BlanksLater(blank: string, rest: string, frames: seq<Frame>, args: seq<DocArgument>,
                    outer: seq<AfterItem>, a: AfterItem, end: string)
    requires Blanks(blank) && Spells(rest, frames, args, outer, After(a), end)
    ensures Spells(blank + rest, frames, args, outer, After(Later(blank, a)), end)
  {
    var tail := [Closer(Top(frames))] + OuterText(frames, outer, end);
    hide Stacked, ItemsText, ItemsAllowed, OuterText, ReadsTo, Between, Closer, FieldsOf, ValuesOf, Remaining;
    LaterText(blank, a);
    Regroup(blank, AfterText(a), tail);
    ReadsSame(frames, frames, outer, After(a), After(Later(blank, a)));
  }

  lemma LaterText(blank: string, a: AfterItem)
    ensures AfterText(Later(blank, a)) == blank + AfterText(a)
    ensures FieldsOf(Remaining(After(Later(blank, a)))) == FieldsOf(Remaining(After(a)))
    ensures ValuesOf(Remaining(After(Later(blank, a)))) == ValuesOf(Remaining(After(a)))
  {
    hide ItemsText;
  }

  /** The tokens of a leaf: what a value step takes when it opens nothing. */
  lemma LeafSpells(s: string, frames: seq<Frame>, limit: nat) returns (v: ValueTokens, blank: string)
    requires Ready(frames) && ValueStep(s, frames, limit).Ok? && ValueStep(s, frames, limit).value.state.afterItem
    ensures Allowed(v) && Blanks(blank)
    ensures var next := ValueStep(s, frames, limit).value.state;
            s == ValueText(v) + (blank + next.rest) && next.frames == Attach(frames, ValueOf(v))
  {
    hide Stacked, Attach, Spelled, NumberText, TextRest, NumberLength, Span, SkipSpace, Written;
    if s[0] == '"' {
      var spelling := TextSpells(s[1..]);
      v, blank := TextTokens(spelling, TextRest(s[1..]).value.0), "";
      QuotedFront(s, Written(spelling), TextRest(s[1..]).value.1);
    } else if s[0] == '-' || Digit(s[0]) {
      NumberStands(s);
      var n := NumberLength(s).value;
      NumberIsSpelled(s[..n]);
      v, blank := NumberTokens(s[..n]), "";
      assert s == s[..n] + (blank + s[n..]);
    } else {
      var n := Span(s, IdentChar);
      WordAt(s);
      blank := BlankFront(s[n..]);
      v := WordTokens(s[..n]);
      assert s == s[..n] + s[n..];
    }
  }

  lemma QuotedFront(s: string, written: string, tail: string)
    requires s != "" && s[0] == '"' && s[1..] == written + (['"'] + tail)
    ensures s == (['"'] + (written + ['"'])) + ("" + tail)
  {
    assert s == ['"'] + s[1..];
  }

  /** The bracket a value step opens, and the text it takes. */
  lemma BracketSpells(s: string, frames: seq<Frame>, limit: nat) returns (f: Frame, gap: string)
    requires Ready(frames) && ValueStep(s, frames, limit).Ok? && !ValueStep(s, frames, limit).value.state.afterItem
    ensures !f.ArgumentsFrame? && Empty(f) && Blanks(gap) && (f.CallFrame? ==> Word(f.name))
    ensures var next := ValueStep(s, frames, limit).value.state;
            next.frames == frames + [f] && s == Opener(f, gap) + next.rest
  {
    hide Stacked, Attach, TextRest, NumberLength, Span, SkipSpace;
    if s[0] == '[' {
      f, gap := ListFrame([]), "";
      assert s == ['['] + s[1..];
    } else if s[0] == '{' {
      f, gap := RecordFrame([], {}, None), "";
      assert s == ['{'] + s[1..];
    } else {
      var n := Span(s, IdentChar);
      WordAt(s);
      gap := BlankFront(s[n..]);
      var after := SkipSpace(s[n..]);
      f := CallFrame(s[..n], []);
      assert s == s[..n] + s[n..] && after == ['('] + after[1..];
      assert s == (s[..n] + (gap + ['('])) + after[1..];
    }
  }

  function Opener(f: Frame, gap: string): string
    requires !f.ArgumentsFrame?
  {
    match f
    case RecordFrame(_, _, _) => ['{']
    case ListFrame(_) => ['[']
    case CallFrame(name, _) => name + (gap + ['('])
  }

  /** The tokens of a bracket. */
  function BracketOf(f: Frame, gap: string, items: ItemTokens): ValueTokens
    requires !f.ArgumentsFrame?
  {
    match f
    case RecordFrame(_, _, _) => RecordTokens(items)
    case ListFrame(_) => ListTokens(items)
    case CallFrame(name, _) => CallTokens(name, gap, items)
  }

  lemma BracketText(f: Frame, gap: string, items: ItemTokens, tail: string)
    requires !f.ArgumentsFrame? && Empty(f)
    ensures Opener(f, gap) + (ItemsText(items) + ([Closer(f)] + tail)) == ValueText(BracketOf(f, gap, items)) + tail
    ensures ClosedWith(f, items) == ValueOf(BracketOf(f, gap, items))
    ensures Blanks(gap) && (f.CallFrame? ==> Word(f.name)) && ItemsAllowed(items, Keyed(f)) ==> Allowed(BracketOf(f, gap, items))
  {
    hide ItemsText, ItemsAllowed, ValuesOf, FieldsOf, Word, Blanks;
    match f
    case RecordFrame(fields, _, _) => assert fields + FieldsOf(items) == FieldsOf(items);
    case ListFrame(values) => assert values + ValuesOf(items) == ValuesOf(items);
    case CallFrame(_, values) => assert values + ValuesOf(items) == ValuesOf(items);
  }

  lemma BracketRest(frames: seq<Frame>, f: Frame, gap: string, outer: seq<AfterItem>, items: ItemTokens, end: string, next: seq<Frame>)
    requires |outer| == |frames| > 0 && !f.ArgumentsFrame? && Empty(f) && |next| == |frames|
    requires forall i :: 0 <= i < |next| ==> Closer(next[i]) == Closer(frames[i])
    ensures var n := |frames| - 1;
            Opener(f, gap) + RestText(frames + [f], outer, Items(items), end)
            == ValueText(BracketOf(f, gap, items)) + RestText(next, outer[..n], After(outer[n]), end)
  {
    hide ItemsText, BracketOf, ValueText, Opener, Empty, Closer, AfterText, OuterText;
    var n := |frames| - 1;
    OneMoreFrame(frames, f, outer, end);
    OuterSame(frames, next, outer[..n], end);
    BracketText(f, gap, items, OuterText(frames + [f], outer, end));
    BracketRegroups(frames, f, gap, outer, items, end, next);
  }

  lemma OneMoreFrame(frames: seq<Frame>, f: Frame, outer: seq<AfterItem>, end: string)
    requires |outer| == |frames| > 0
    ensures var n := |frames| - 1;
            && Top(frames + [f]) == f
            && OuterText(frames + [f], outer, end) == AfterText(outer[n]) + ([Closer(frames[n])] + OuterText(frames, outer[..n], end))
  {
    assert (frames + [f])[..|frames|] == frames && (frames + [f])[|frames| - 1] == frames[|frames| - 1];
    hide AfterText, Closer;
  }

  lemma BracketRegroups(frames: seq<Frame>, f: Frame, gap: string, outer: seq<AfterItem>, items: ItemTokens, end: string, next: seq<Frame>)
    requires !f.ArgumentsFrame? && Empty(f)
    requires |outer| == |frames| > 0 && |next| == |frames| && Closer(next[|frames| - 1]) == Closer(frames[|frames| - 1])
    requires Top(frames + [f]) == f
    requires var n, text := |frames| - 1, OuterText(frames + [f], outer, end);
             && text == AfterText(outer[n]) + ([Closer(frames[n])] + OuterText(frames, outer[..n], end))
             && OuterText(next, outer[..n], end) == OuterText(frames, outer[..n], end)
             && Opener(f, gap) + (ItemsText(items) + ([Closer(f)] + text)) == ValueText(BracketOf(f, gap, items)) + text
    ensures var n := |frames| - 1;
            Opener(f, gap) + RestText(frames + [f], outer, Items(items), end)
            == ValueText(BracketOf(f, gap, items)) + RestText(next, outer[..n], After(outer[n]), end)
  {
    hide ItemsText, BracketOf, ValueText, Opener, Empty, Closer, AfterText, OuterText;
  }

  lemma BracketAllows(frames: seq<Frame>, f: Frame, outer: seq<AfterItem>, items: ItemTokens, end: string, next: seq<Frame>)
    requires frames != [] && RestAllowed(frames + [f], outer, Items(items), end) && |next| == |frames|
    requires forall i :: 0 <= i < |next| ==> Keyed(next[i]) == Keyed(frames[i])
    ensures |outer| == |frames| && ItemsAllowed(items, Keyed(f))
    ensures RestAllowed(next, outer[..|frames| - 1], After(outer[|frames| - 1]), end)
  {
    assert forall i :: 0 <= i < |frames| ==> (frames + [f])[i] == frames[i];
    assert Top(frames + [f]) == f;
    hide AfterAllowed, Keyed, ItemsAllowed;
  }

  lemma BracketReadsTo(frames: seq<Frame>, f: Frame, outer: seq<AfterItem>, items: ItemTokens)
    requires Ready(frames) && Between(frames + [f]) && !f.ArgumentsFrame? && |outer| == |frames|
    ensures ReadsTo(frames + [f], outer, Items(items))
            == ReadsTo(Attach(frames, ClosedWith(f, items)), outer[..|frames| - 1], After(outer[|frames| - 1]))
  {
    assert (frames + [f])[..|frames|] == frames && Top(frames + [f]) == f;
    hide Stacked, ClosedWith, Attach;
  }

  /** A bracket and its items are a value in front of the rest. */
  lemma BracketIsValue(frames: seq<Frame>, f: Frame, gap: string, rest: string, args: seq<DocArgument>,
                       outer: seq<AfterItem>, items: ItemTokens, end: string) returns (later: string)
    requires Ready(frames) && !f.ArgumentsFrame? && Empty(f) && Blanks(gap) && (f.CallFrame? ==> Word(f.name))
    requires Spells(rest, frames + [f], args, outer, Items(items), end)
    ensures var v, n := BracketOf(f, gap, items), |frames| - 1;
            && Allowed(v) && |outer| == |frames| && Opener(f, gap) + rest == ValueText(v) + later
            && Spells(later, Attach(frames, ValueOf(v)), args, outer[..n], After(outer[n]), end)
  {
    var n := |frames| - 1;
    var v := BracketOf(f, gap, items);
    var next := Attach(frames, ValueOf(v));
    hide Stacked, ItemsText, ItemsAllowed, ClosedWith, BracketOf, ValueText, ValueOf, Opener, Closed, Empty, RestText, RestAllowed, ReadsTo, Attach, Allowed, Between, Ready;
    AttachKeeps(frames, ValueOf(v));
    SameBelow(frames, next);
    BracketAllows(frames, f, outer, items, end, next);
    BracketText(f, gap, items, "");
    BracketRest(frames, f, gap, outer, items, end, next);
    BracketReadsTo(frames, f, outer, items);
    later := RestText(next, outer[..n], After(outer[n]), end);
  }

  // ----- the whole run -----

  /** A value, and what the run spells after it. */
  lemma {:induction false} ValueSpells(s: string, frames: seq<Frame>, limit: nat, args: seq<DocArgument>)
    returns (v: ValueTokens, later: string, outer: seq<AfterItem>, a: AfterItem, end: string)
    requires Ready(frames) && ValueStep(s, frames, limit).Ok? && Run(ValueStep(s, frames, limit).value.state, limit) == Ok(args)
    ensures Allowed(v) && s == ValueText(v) + later
    ensures Spells(later, Attach(frames, ValueOf(v)), args, outer, After(a), end)
    decreases |s|, 0
  {
    assert frames != [];
    hide Run, ValueStep, Stacked, Attach, Spells, Allowed, ValueText, ValueOf, Between, Ready, Empty, BracketOf, Opener, Word;
    var next := ValueStep(s, frames, limit).value.state;
    var inner;
    if next.afterItem {
      var blank;
      v, blank := LeafSpells(s, frames, limit);
      outer, inner, end := RunSpells(next, limit, args);
      a := Later(blank, inner.after);
      later := blank + next.rest;
      BlanksLater(blank, next.rest, next.frames, args, outer, inner.after, end);
    } else {
      var f, gap := BracketSpells(s, frames, limit);
      outer, inner, end := RunSpells(next, limit, args);
      later := BracketIsValue(frames, f, gap, next.rest, args, outer, inner.items, end);
      v := BracketOf(f, gap, inner.items);
      a, outer := outer[|frames| - 1], outer[..|frames| - 1];
    }
  }

  lemma KeyFront(s: string) returns (key: KeyTokens)
    requires KeyRest(s).Ok?
    ensures KeyAllowed(key) && KeyName(key) == KeyRest(s).value.0 && s == KeyText(key) + KeyRest(s).value.1
  {
    hide TextRest, Span, Written, Spelled;
    if s[0] == '"' {
      var spelling := TextSpells(s[1..]);
      key := TextKey(spelling, TextRest(s[1..]).value.0);
      QuotedFront(s, Written(spelling), TextRest(s[1..]).value.1);
      assert "" + TextRest(s[1..]).value.1 == TextRest(s[1..]).value.1;
    } else {
      var n := Span(s, IdentChar);
      WordAt(s);
      key := WordKey(s[..n]);
      assert s == s[..n] + s[n..];
    }
  }

  /** The key and equals sign of an item. */
  lemma KeySpells(s: string, frames: seq<Frame>) returns (key: KeyTokens, before: string, after: string)
    requires Between(frames) && Keyed(Top(frames)) && KeyStep(s, frames).Ok?
    ensures KeyAllowed(key) && Blanks(before) && Blanks(after)
    ensures var (rest, next) := KeyStep(s, frames).value;
            && s == KeyText(key) + (before + (['='] + (after + rest)))
            && next == frames[..|frames| - 1] + [WithKey(Top(frames), KeyName(key))]
  {
    hide Stacked, KeyRest, SkipSpace, KeyText, KeyName, KeyAllowed, WithKey, Blanks;
    key := KeyFront(s);
    var tail := KeyRest(s).value.1;
    before := BlankFront(tail);
    var equals := SkipSpace(tail);
    after := BlankFront(equals[1..]);
    assert equals == ['='] + equals[1..];
  }

  /** An item, with what the run spells after it. */
  lemma {:induction false} ItemSpells(s: string, blank: string, frames: seq<Frame>, limit: nat, args: seq<DocArgument>)
    returns (outer: seq<AfterItem>, items: ItemTokens, end: string)
    requires Between(frames) && Blanks(blank)
    requires ItemStep(s, frames, limit).Ok? && Run(ItemStep(s, frames, limit).value.state, limit) == Ok(args)
    ensures Spells(blank + s, frames, args, outer, Items(items), end)
    decreases |s|, 1
  {
    assert frames != [];
    hide Run, ValueStep, KeyStep, Stacked, Attach, Spells, ValueText, ValueOf, KeyText, KeyAllowed, Between, WithKey, AddTo, ItemsFrom;
    var v, later, a;
    if Keyed(Top(frames)) {
      var (rest, ready) := KeyStep(s, frames).value;
      var key, before, after := KeySpells(s, frames);
      v, later, outer, a, end := ValueSpells(rest, ready, limit, args);
      var item := KeyedItem(key, before, after, v);
      KeyedText(item, later);
      ReadyAttached(frames, ready, WithKey(Top(frames), KeyName(key)), ValueOf(v));
      ItemInFront(frames, item, Attach(ready, ValueOf(v)), blank, later, args, outer, a, end);
      items := ItemsFrom(blank, item, a);
    } else {
      PlainReady(frames);
      v, later, outer, a, end := ValueSpells(s, frames, limit, args);
      var item := Item.PlainItem(v);
      ReadyAttached(frames, frames, Top(frames), ValueOf(v));
      ItemInFront(frames, item, Attach(frames, ValueOf(v)), blank, later, args, outer, a, end);
      items := ItemsFrom(blank, item, a);
    }
  }

  lemma PlainReady(frames: seq<Frame>)
    requires Between(frames) && !Keyed(Top(frames))
    ensures Ready(frames) && Plain(Top(frames)) && frames != []
    ensures frames == frames[..|frames| - 1] + [Top(frames)]
  {
  }

  lemma ReadyAttached(frames: seq<Frame>, ready: seq<Frame>, top: Frame, v: DocValue)
    requires Between(frames) && Ready(ready) && ready == frames[..|frames| - 1] + [top]
    ensures frames != [] && Attach(ready, v) != []
    ensures Attach(ready, v)[..|Attach(ready, v)| - 1] == frames[..|frames| - 1] && Top(Attach(ready, v)) == AddTo(top, v)
  {
    AttachKeeps(ready, v);
    assert |ready| == |frames| && ready[..|frames| - 1] == frames[..|frames| - 1];
  }

  /** Closing a bracket, or the arguments. */
  lemma {:induction false} CloseSpells(s: string, blank: string, st: State, limit: nat, args: seq<DocArgument>)
    returns (outer: seq<AfterItem>, inner: Inner, end: string)
    requires Between(st.frames) && Blanks(blank) && s != "" && s[0] == Closer(Top(st.frames)) && CloseStep(s, st.frames).Ok?
    requires match CloseStep(s, st.frames).value
             case Done(done) => done == args
             case More(next) => Run(next, limit) == Ok(args)
    ensures Spells(blank + s, st.frames, args, outer, inner, end)
    ensures inner.After? == st.afterItem
    decreases |s|, 1
  {
    BelowTop(st.frames);
    assert s == [Closer(Top(st.frames))] + s[1..];
    inner := if st.afterItem then After(End(blank)) else Items(NoItems(blank));
    if |st.frames| == 1 {
      AllBlank(s[1..]);
      hide Run, Stacked, Closer;
      outer, end := [], s[1..];
      assert Top(st.frames).fields + [] == Top(st.frames).fields;
    } else {
      hide Run, Stacked, Attach, Closed, Spells, Ready, Closer, SkipSpace;
      var next := CloseStep(s, st.frames).value.state;
      var a;
      outer, a, end := RunSpells(next, limit, args);
      BracketInFront(st.frames, blank, st.afterItem, s[1..], args, outer, a.after, end);
      outer := outer + [a.after];
    }
  }

  lemma CommaInFront(blank: string, rest: string, frames: seq<Frame>, args: seq<DocArgument>,
                     outer: seq<AfterItem>, items: ItemTokens, end: string)
    requires Blanks(blank) && Spells(rest, frames, args, outer, Items(items), end)
    ensures Spells(blank + ([','] + rest), frames, args, outer, After(Comma(blank, items)), end)
  {
    hide Stacked, ItemsText, ItemsAllowed, OuterText, Closer, ClosedWith;
    ReadsSame(frames, frames, outer, Items(items), After(Comma(blank, items)));
  }

  /** Everything a run takes is spelled by tokens. */
  lemma {:induction false} RunSpells(st: State, limit: nat, args: seq<DocArgument>)
    returns (outer: seq<AfterItem>, inner: Inner, end: string)
    requires Between(st.frames) && Run(st, limit) == Ok(args)
    ensures Spells(st.rest, st.frames, args, outer, inner, end)
    ensures inner.After? == st.afterItem
    decreases |st.rest|, 2
  {
    assert st.frames != [];
    hide Run, CloseStep, ItemStep, Stacked, Spells, Closer, SkipSpace;
    RunStep(st, limit);
    var s := SkipSpace(st.rest);
    var blank := BlankFront(st.rest);
    if s != "" && s[0] == Closer(Top(st.frames)) {
      outer, inner, end := CloseSpells(s, blank, st, limit, args);
    } else if st.afterItem {
      outer, inner, end := CommaSpells(s, blank, st, limit, args);
    } else {
      var items;
      outer, items, end := ItemSpells(s, blank, st.frames, limit, args);
      inner := Items(items);
    }
  }

  /** A comma after an item, and the items it is followed by. */
  lemma {:induction false} CommaSpells(s: string, blank: string, st: State, limit: nat, args: seq<DocArgument>)
    returns (outer: seq<AfterItem>, inner: Inner, end: string)
    requires Between(st.frames) && st.afterItem && Run(st, limit) == Ok(args)
    requires s == SkipSpace(st.rest) && st.rest == blank + s && Blanks(blank)
    requires s == "" || s[0] != Closer(Top(st.frames))
    ensures Spells(st.rest, st.frames, args, outer, inner, end) && inner.After?
    decreases |st.rest|, 1
  {
    hide Run, CloseStep, ItemStep, Stacked, Spells, Closer, SkipSpace, Blanks;
    RunStep(st, limit);
    var before;
    outer, before, end := RunSpells(State(s[1..], st.frames, false), limit, args);
    CommaInFront(blank, s[1..], st.frames, args, outer, before.items, end);
    inner := After(Comma(blank, before.items));
    assert s == [','] + s[1..];
  }

  /** The documented syntax, both ways: a text parses to some arguments exactly
      when it is the text of allowed tokens that stand for them, closed and
      followed by blanks, with keys distinct and brackets within the limit. */
  lemma ParsesAsDocumented(text: string, limit: nat, args: seq<DocArgument>)
    ensures Parse(text, limit) == Ok(args) <==>
              && limit >= 1 && WritableArguments(args, limit - 1)
              && exists items, end ::
                   ItemsAllowed(items, true) && Blanks(end) && text == ItemsText(items) + ([')'] + end) && FieldsOf(items) == args
  {
    hide Run, WritableArguments, ItemsAllowed, ItemsText, FieldsOf, Blanks;
    if Parse(text, limit) == Ok(args) {
      AcceptedIsWritable(text, limit);
      StartSpells(text, limit, args);
    }
    if limit >= 1 && WritableArguments(args, limit - 1) {
      if items, end :|
        ItemsAllowed(items, true) && Blanks(end) && text == ItemsText(items) + ([')'] + end) && FieldsOf(items) == args
      {
        TokensParse(items, end, limit);
      }
    }
  }

  lemma StartSpells(text: string, limit: nat, args: seq<DocArgument>)
    requires Parse(text, limit) == Ok(args)
    ensures exists items, end ::
              ItemsAllowed(items, true) && Blanks(end) && text == ItemsText(items) + ([')'] + end) && FieldsOf(items) == args
  {
    hide Run, ItemsAllowed, ItemsText, FieldsOf, Blanks;
    var outer, inner, end := RunSpells(Start(text), limit, args);
    assert [] + FieldsOf(inner.items) == FieldsOf(inner.items);
  }
}
