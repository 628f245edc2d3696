/** The one-pass scan over a document's text, and that it applies the rule on
    positions to the tree the text spells. */
module JsonPositions {
  import opened Wrappers
  import opened JsonTrees

  datatype Frame = ObjectFrame(low: nat, high: nat, awaitingKey: bool) | ArrayFrame(index: nat)

  datatype Scan = Scan(stack: seq<Frame>, opaqueDepth: nat, at: nat)

  // ----- the scan as a function -----

  function StringEndFrom(input: string, at: nat): (r: nat)
    ensures at < |input| ==> at <= r <= |input|
    ensures at >= |input| ==> r == |input|
    decreases |input| - at
  {
    if at >= |input| then |input|
    else if input[at] == '\\' then StringEndFrom(input, at + 2)
    else if input[at] == '"' then at
    else StringEndFrom(input, at + 1)
  }

  /** Where the frame's key stands; a frame holds a range within the input. */
  function KeyText(input: string, f: Frame): string {
    if f.ObjectFrame? && f.low <= f.high <= |input| then input[f.low..f.high] else ""
  }

  function ParentOf(input: string, stack: seq<Frame>): Parent {
    if stack == [] then Root
    else if stack[|stack| - 1].ArrayFrame? then InArray
    else AtKey(KeyText(input, stack[|stack| - 1]), |stack| == 1)
  }

  function SetKey(stack: seq<Frame>, low: nat, high: nat): seq<Frame> {
    if stack != [] && stack[|stack| - 1].ObjectFrame? && stack[|stack| - 1].awaitingKey
    then stack[..|stack| - 1] + [ObjectFrame(low, high, false)] else stack
  }

  function Comma(stack: seq<Frame>): seq<Frame> {
    if stack == [] then stack
    else
      var top := stack[|stack| - 1];
      stack[..|stack| - 1]
      + [if top.ObjectFrame? then top.(awaitingKey := true) else ArrayFrame(top.index + 1)]
  }

  /** One turn of the loop: the next state, or the refused position. */
  function Turn(k: Keys, input: string, s: Scan): (r: Result<Scan, nat>)
    requires s.at < |input|
    ensures r.Ok? ==> r.value.at > s.at
  {
    var c := input[s.at];
    if c == '"' then
      var end := StringEndFrom(input, s.at + 1);
      Ok(Scan(if s.opaqueDepth == 0 then SetKey(s.stack, s.at + 1, end) else s.stack, s.opaqueDepth, end + 1))
    else if c == '{' || c == '[' then
      var parent := ParentOf(input, s.stack);
      if s.opaqueDepth > 0 then Ok(s.(opaqueDepth := s.opaqueDepth + 1, at := s.at + 1))
      else if Opaque(k, parent) then Ok(s.(opaqueDepth := 1, at := s.at + 1))
      else if c == '{' then
        if !ObjectAllowed(k, parent) then Err(s.at)
        else Ok(Scan(s.stack + [ObjectFrame(0, 0, true)], 0, s.at + 1))
      else if ArrayAllowed(k, parent) then Ok(Scan(s.stack + [ArrayFrame(0)], 0, s.at + 1))
      else Err(s.at)
    else if c == '}' || c == ']' then
      if s.opaqueDepth > 0 then Ok(s.(opaqueDepth := s.opaqueDepth - 1, at := s.at + 1))
      else Ok(s.(stack := if s.stack == [] then [] else s.stack[..|s.stack| - 1], at := s.at + 1))
    else if c == ',' && s.opaqueDepth == 0 then Ok(s.(stack := Comma(s.stack), at := s.at + 1))
    else Ok(s.(at := s.at + 1))
  }

  /** The loop: the refused position, or none. */
  function Run(k: Keys, input: string, s: Scan): Option<nat>
    decreases |input| - s.at
  {
    if s.at >= |input| then None
    else
      var next := Turn(k, input, s);
      if next.Err? then Some(next.error) else Run(k, input, next.value)
  }

  // ----- pieces of text -----

  ghost predicate At(input: string, a: nat, s: string) {
    a + |s| <= |input| && input[a..a + |s|] == s
  }

  lemma AtSplit(input: string, a: nat, s: string, t: string)
    requires At(input, a, s + t)
    ensures At(input, a, s) && At(input, a + |s|, t)
  {
    assert input[a..a + |s|] == (s + t)[..|s|];
    assert input[a + |s|..a + |s| + |t|] == (s + t)[|s|..];
  }

  lemma AtChar(input: string, a: nat, c: char)
    requires At(input, a, [c])
    ensures a < |input| && input[a] == c
  {
    assert input[a..a + 1][0] == input[a];
  }

  lemma TurnInert(k: Keys, input: string, s: Scan)
    requires s.at < |input| && !Structural(input[s.at])
    ensures Turn(k, input, s) == Ok(s.(at := s.at + 1))
  {
  }

  lemma {:induction false} SkipInert(k: Keys, input: string, s: Scan, text: string)
    requires Inert(text) && At(input, s.at, text)
    ensures Run(k, input, s) == Run(k, input, s.(at := s.at + |text|))
    decreases |text|
  {
    hide Run, At, Structural;
    if text != "" {
      FrontAt(input, s.at, text);
      RunInert(k, input, s);
      SkipInert(k, input, s.(at := s.at + 1), text[1..]);
    }
  }

  lemma FrontAt(input: string, a: nat, text: string)
    requires At(input, a, text) && text != ""
    ensures a < |input| && input[a] == text[0] && At(input, a + 1, text[1..])
  {
    assert [text[0]] + text[1..] == text;
    AtSplit(input, a, [text[0]], text[1..]);
    AtChar(input, a, text[0]);
  }

  lemma RunInert(k: Keys, input: string, s: Scan)
    requires s.at < |input| && !Structural(input[s.at])
    ensures Run(k, input, s) == Run(k, input, s.(at := s.at + 1))
  {
    TurnInert(k, input, s);
    hide Turn, Structural;
  }

  lemma {:induction false} StringEnds(input: string, a: nat, raw: string)
    requires StringBody(raw) && At(input, a, raw + "\"")
    ensures StringEndFrom(input, a) == a + |raw|
    decreases |raw|
  {
    if raw == "" {
      assert raw + "\"" == ['"'];
      AtChar(input, a, '"');
    } else if raw[0] == '\\' {
      assert raw + "\"" == [raw[0]] + ([raw[1]] + (raw[2..] + "\""));
      AtSplit(input, a, [raw[0]], [raw[1]] + (raw[2..] + "\""));
      AtSplit(input, a + 1, [raw[1]], raw[2..] + "\"");
      AtChar(input, a, raw[0]);
      StringEnds(input, a + 2, raw[2..]);
    } else {
      assert raw + "\"" == [raw[0]] + (raw[1..] + "\"");
      AtSplit(input, a, [raw[0]], raw[1..] + "\"");
      AtChar(input, a, raw[0]);
      StringEnds(input, a + 1, raw[1..]);
    }
  }

  /** One character, and one turn. */
  lemma OneChar(k: Keys, input: string, s: Scan, c: char, rest: string)
    requires At(input, s.at, [c] + rest)
    ensures s.at < |input| && input[s.at] == c && At(input, s.at + 1, rest)
    ensures Run(k, input, s) ==
            var next := Turn(k, input, s);
            if next.Err? then Some(next.error) else Run(k, input, next.value)
  {
    AtSplit(input, s.at, [c], rest);
    AtChar(input, s.at, c);
  }

  /** A string is stepped over; it sets the key of an object awaiting one. */
  lemma SkipString(k: Keys, input: string, s: Scan, raw: string)
    requires StringBody(raw) && At(input, s.at, Quote(raw))
    ensures Run(k, input, s)
            == Run(k, input, Scan(if s.opaqueDepth == 0 then SetKey(s.stack, s.at + 1, s.at + 1 + |raw|) else s.stack,
                                  s.opaqueDepth, s.at + |Quote(raw)|))
  {
    hide Run, StringBody;
    assert Quote(raw) == ['"'] + (raw + "\"");
    OneChar(k, input, s, '"', raw + "\"");
    StringEnds(input, s.at + 1, raw);
    hide StringEndFrom, SetKey;
  }

  // ----- opaque values -----

  /** Inside an opaque value every bracket is counted and nothing else is
      looked at. */
  lemma {:induction false} OpaqueValue(k: Keys, input: string, s: Scan, v: Json)
    requires ValidJson(v) && s.opaqueDepth > 0 && At(input, s.at, Text(v))
    ensures Run(k, input, s) == Run(k, input, s.(at := s.at + |Text(v)|))
    decreases v, 0
  {
    hide Run, At, ItemsText, MembersText;
    match v
    case Scalar(text) => SkipInert(k, input, s, text);
    case Str(raw) => SkipString(k, input, s, raw);
    case Arr(items) =>
      assert Text(v) == ['['] + (ItemsText(items) + [']']);
      OpaqueOpen(k, input, s, '[', ItemsText(items), ']');
      OpaqueItems(k, input, s.(opaqueDepth := s.opaqueDepth + 1, at := s.at + 1), items);
      OpaqueClose(k, input, s.(opaqueDepth := s.opaqueDepth + 1, at := s.at + 1 + |ItemsText(items)|), ']');
    case Obj(members) =>
      assert Text(v) == ['{'] + (MembersText(members) + ['}']);
      OpaqueOpen(k, input, s, '{', MembersText(members), '}');
      OpaqueMembers(k, input, s.(opaqueDepth := s.opaqueDepth + 1, at := s.at + 1), members);
      OpaqueClose(k, input, s.(opaqueDepth := s.opaqueDepth + 1, at := s.at + 1 + |MembersText(members)|), '}');
  }

  lemma OpaqueOpen(k: Keys, input: string, s: Scan, open: char, body: string, close: char)
    requires s.opaqueDepth > 0 && (open == '{' || open == '[') && At(input, s.at, [open] + (body + [close]))
    ensures At(input, s.at + 1, body) && At(input, s.at + 1 + |body|, [close])
    ensures Run(k, input, s) == Run(k, input, s.(opaqueDepth := s.opaqueDepth + 1, at := s.at + 1))
  {
    hide Run;
    OneChar(k, input, s, open, body + [close]);
    AtSplit(input, s.at + 1, body, [close]);
  }

  lemma OpaqueClose(k: Keys, input: string, s: Scan, c: char)
    requires s.opaqueDepth > 0 && (c == '}' || c == ']') && At(input, s.at, [c])
    ensures Run(k, input, s) == Run(k, input, s.(opaqueDepth := s.opaqueDepth - 1, at := s.at + 1))
  {
    AtChar(input, s.at, c);
  }

  lemma {:induction false} OpaqueItems(k: Keys, input: string, s: Scan, items: Items)
    requires ValidItems(items) && s.opaqueDepth > 0 && At(input, s.at, ItemsText(items))
    ensures Run(k, input, s) == Run(k, input, s.(at := s.at + |ItemsText(items)|))
    decreases items, 2
  {
    hide Run, Text;
    match items
    case NoItems(blank) => SkipInert(k, input, s, blank);
    case LastItem(pre, value, post) => OpaquePart(k, input, s, pre, value, post);
    case MoreItems(pre, value, post, rest) =>
      var front := pre + Text(value) + post;
      assert ItemsText(items) == front + ([','] + ItemsText(rest));
      AtSplit(input, s.at, front, [','] + ItemsText(rest));
      OpaquePart(k, input, s, pre, value, post);
      OpaqueComma(k, input, s.(at := s.at + |front|), ItemsText(rest));
      OpaqueItems(k, input, s.(at := s.at + |front| + 1), rest);
  }

  lemma OpaqueComma(k: Keys, input: string, s: Scan, rest: string)
    requires s.opaqueDepth > 0 && At(input, s.at, [','] + rest)
    ensures At(input, s.at + 1, rest) && Run(k, input, s) == Run(k, input, s.(at := s.at + 1))
  {
    OneChar(k, input, s, ',', rest);
  }

  /** A value with the inert text around it. */
  lemma {:induction false} OpaquePart(k: Keys, input: string, s: Scan, pre: string, value: Json, post: string)
    requires Inert(pre) && ValidJson(value) && Inert(post) && s.opaqueDepth > 0
    requires At(input, s.at, pre + Text(value) + post)
    ensures Run(k, input, s) == Run(k, input, s.(at := s.at + |pre + Text(value) + post|))
    decreases value, 1
  {
    hide Run, Text;
    AtSplit(input, s.at, pre + Text(value), post);
    AtSplit(input, s.at, pre, Text(value));
    SkipInert(k, input, s, pre);
    OpaqueValue(k, input, s.(at := s.at + |pre|), value);
    SkipInert(k, input, s.(at := s.at + |pre| + |Text(value)|), post);
  }

  /** The text of members, regrouped around the value. */
  lemma LastText(pre: string, key: string, mid: string, value: Json, post: string, tail: string)
    ensures MembersText(LastMember(pre, key, mid, value, post)) + tail
            == pre + (Quote(key) + ((mid + Text(value) + post) + tail))
    ensures |MembersText(LastMember(pre, key, mid, value, post))| == |pre| + |Quote(key)| + |mid + Text(value) + post|
  {
    hide Text, Quote;
  }

  lemma MoreText(pre: string, key: string, mid: string, value: Json, post: string, rest: Members, tail: string)
    ensures MembersText(MoreMembers(pre, key, mid, value, post, rest)) + tail
            == pre + (Quote(key) + ((mid + Text(value) + post) + ([','] + (MembersText(rest) + tail))))
    ensures |MembersText(MoreMembers(pre, key, mid, value, post, rest))|
            == |pre| + |Quote(key)| + |mid + Text(value) + post| + 1 + |MembersText(rest)|
  {
    hide Text, Quote;
  }

  lemma {:induction false} OpaqueMembers(k: Keys, input: string, s: Scan, members: Members)
    requires ValidMembers(members) && s.opaqueDepth > 0 && At(input, s.at, MembersText(members))
    ensures Run(k, input, s) == Run(k, input, s.(at := s.at + |MembersText(members)|))
    decreases members, 4
  {
    hide Run, Text, Quote;
    match members
    case NoMembers(blank) => SkipInert(k, input, s, blank);
    case LastMember(pre, key, mid, value, post) =>
      LastText(pre, key, mid, value, post, "");
      hide MembersText;
      assert MembersText(members) + "" == MembersText(members);
      OpaqueMember(k, input, s, pre, key, mid, value, post, "");
    case MoreMembers(_, _, _, _, _, _) =>
      hide MembersText;
      OpaqueMore(k, input, s, members);
  }

  lemma MoreTextOnly(pre: string, key: string, mid: string, value: Json, post: string, rest: Members)
    ensures MembersText(MoreMembers(pre, key, mid, value, post, rest))
            == pre + (Quote(key) + ((mid + Text(value) + post) + ([','] + MembersText(rest))))
  {
    MoreText(pre, key, mid, value, post, rest, "");
    hide MembersText, Text, Quote;
    assert MembersText(rest) + "" == MembersText(rest);
    assert MembersText(MoreMembers(pre, key, mid, value, post, rest)) + ""
        == MembersText(MoreMembers(pre, key, mid, value, post, rest));
  }

  lemma {:induction false} OpaqueMore(k: Keys, input: string, s: Scan, members: Members)
    requires members.MoreMembers? && ValidMembers(members) && s.opaqueDepth > 0 && At(input, s.at, MembersText(members))
    ensures Run(k, input, s) == Run(k, input, s.(at := s.at + |MembersText(members)|))
    decreases members, 3
  {
    hide Run, Text, Quote, MembersText, Inert, StringBody, ValidJson, At;
    var MoreMembers(pre, key, mid, value, post, rest) := members;
    MoreTextOnly(pre, key, mid, value, post, rest);
    OpaqueMember(k, input, s, pre, key, mid, value, post, [','] + MembersText(rest));
    var t := s.(at := s.at + |pre| + |Quote(key)| + |mid + Text(value) + post|);
    OpaqueComma(k, input, t, MembersText(rest));
    OpaqueMembers(k, input, t.(at := t.at + 1), rest);
  }

  lemma {:induction false} OpaqueMember(k: Keys, input: string, s: Scan, pre: string, key: string, mid: string, value: Json,
                                        post: string, rest: string)
    requires Inert(pre) && StringBody(key) && Inert(mid) && ValidJson(value) && Inert(post) && s.opaqueDepth > 0
    requires At(input, s.at, pre + (Quote(key) + ((mid + Text(value) + post) + rest)))
    ensures At(input, s.at + |pre| + |Quote(key)| + |mid + Text(value) + post|, rest)
    ensures Run(k, input, s) == Run(k, input, s.(at := s.at + |pre| + |Quote(key)| + |mid + Text(value) + post|))
    decreases value, 2
  {
    hide Run, Text, Quote;
    var part := mid + Text(value) + post;
    OpaqueKey(k, input, s, pre, key, part + rest);
    var t := s.(at := s.at + |pre| + |Quote(key)|);
    AtSplit(input, t.at, part, rest);
    OpaquePart(k, input, t, mid, value, post);
  }

  lemma OpaqueKey(k: Keys, input: string, s: Scan, pre: string, key: string, rest: string)
    requires Inert(pre) && StringBody(key) && s.opaqueDepth > 0 && At(input, s.at, pre + (Quote(key) + rest))
    ensures At(input, s.at + |pre| + |Quote(key)|, rest)
    ensures Run(k, input, s) == Run(k, input, s.(at := s.at + |pre| + |Quote(key)|))
  {
    hide Run, Quote;
    AtSplit(input, s.at, pre, Quote(key) + rest);
    AtSplit(input, s.at + |pre|, Quote(key), rest);
    SkipInert(k, input, s, pre);
    SkipString(k, input, s.(at := s.at + |pre|), key);
  }

  // ----- values under the rule -----

  /** What the rest of the scan comes to once a piece is behind it: its first
      misplaced value, if any, ends the scan. */
  function After(bad: Option<nat>, rest: Option<nat>): Option<nat> { if bad.Some? then bad else rest }

  /** A value starts with no object on top still awaiting its key. */
  ghost predicate Settled(stack: seq<Frame>) {
    stack != [] && stack[|stack| - 1].ObjectFrame? ==> !stack[|stack| - 1].awaitingKey
  }

  lemma TurnOpen(k: Keys, input: string, s: Scan)
    requires s.at < |input| && s.opaqueDepth == 0 && (input[s.at] == '[' || input[s.at] == '{')
    ensures Turn(k, input, s) ==
            var parent := ParentOf(input, s.stack);
            if Opaque(k, parent) then Ok(Scan(s.stack, 1, s.at + 1))
            else if input[s.at] == '{' then
              if ObjectAllowed(k, parent) then Ok(Scan(s.stack + [ObjectFrame(0, 0, true)], 0, s.at + 1)) else Err(s.at)
            else if ArrayAllowed(k, parent) then Ok(Scan(s.stack + [ArrayFrame(0)], 0, s.at + 1)) else Err(s.at)
  {
  }

  /** Opening a bracket outside an opaque value: refused, opaque from here, or
      one frame more. */
  lemma Opened(k: Keys, input: string, stack: seq<Frame>, a: nat, open: char, body: string)
    requires (open == '[' || open == '{') && At(input, a, [open] + body)
    ensures At(input, a + 1, body)
    ensures var parent := ParentOf(input, stack);
            Run(k, input, Scan(stack, 0, a)) ==
              if Opaque(k, parent) then Run(k, input, Scan(stack, 1, a + 1))
              else if open == '{' then
                if ObjectAllowed(k, parent) then Run(k, input, Scan(stack + [ObjectFrame(0, 0, true)], 0, a + 1)) else Some(a)
              else if ArrayAllowed(k, parent) then Run(k, input, Scan(stack + [ArrayFrame(0)], 0, a + 1)) else Some(a)
  {
    hide Run, Opaque, ArrayAllowed, ObjectAllowed, ParentOf;
    OneChar(k, input, Scan(stack, 0, a), open, body);
    TurnOpen(k, input, Scan(stack, 0, a));
    hide Turn;
  }

  lemma RootOnly(input: string, stack: seq<Frame>)
    ensures ParentOf(input, stack).Root? <==> stack == []
  {
  }

  lemma {:induction false} ScanArray(k: Keys, input: string, stack: seq<Frame>, a: nat, items: Items)
    requires ValidItems(items) && At(input, a, ['['] + (ItemsText(items) + [']']))
    ensures Run(k, input, Scan(stack, 0, a))
            == After(FirstBad(k, Arr(items), ParentOf(input, stack), a),
                     Run(k, input, Scan(stack, 0, a + |ItemsText(items)| + 2)))
    decreases items, 5
  {
    hide Run, At, ParentOf, Opaque, ArrayAllowed, ObjectAllowed, ItemsText, FirstBadItem;
    var parent := ParentOf(input, stack);
    Opened(k, input, stack, a, '[', ItemsText(items) + [']']);
    if Opaque(k, parent) {
      AtSplit(input, a + 1, ItemsText(items), [']']);
      OpaqueItems(k, input, Scan(stack, 1, a + 1), items);
      OpaqueClose(k, input, Scan(stack, 1, a + 1 + |ItemsText(items)|), ']');
    } else if ArrayAllowed(k, parent) {
      ScanItems(k, input, stack, 0, a + 1, items);
    }
  }

  lemma {:induction false} ScanObject(k: Keys, input: string, stack: seq<Frame>, a: nat, members: Members)
    requires ValidMembers(members) && At(input, a, ['{'] + (MembersText(members) + ['}']))
    ensures Run(k, input, Scan(stack, 0, a))
            == After(FirstBad(k, Obj(members), ParentOf(input, stack), a),
                     Run(k, input, Scan(stack, 0, a + |MembersText(members)| + 2)))
    decreases members, 5
  {
    hide Run, At, ParentOf, Opaque, ArrayAllowed, ObjectAllowed, MembersText, FirstBadMember;
    RootOnly(input, stack);
    var parent := ParentOf(input, stack);
    Opened(k, input, stack, a, '{', MembersText(members) + ['}']);
    if Opaque(k, parent) {
      AtSplit(input, a + 1, MembersText(members), ['}']);
      OpaqueMembers(k, input, Scan(stack, 1, a + 1), members);
      OpaqueClose(k, input, Scan(stack, 1, a + 1 + |MembersText(members)|), '}');
    } else if ObjectAllowed(k, parent) {
      ScanMembers(k, input, stack, 0, 0, a + 1, members);
    }
  }

  lemma {:induction false} ScanValue(k: Keys, input: string, stack: seq<Frame>, a: nat, v: Json)
    requires ValidJson(v) && At(input, a, Text(v)) && Settled(stack)
    ensures Run(k, input, Scan(stack, 0, a))
            == After(FirstBad(k, v, ParentOf(input, stack), a), Run(k, input, Scan(stack, 0, a + |Text(v)|)))
    decreases v, 0
  {
    hide Run, ParentOf;
    match v
    case Scalar(text) => SkipInert(k, input, Scan(stack, 0, a), text);
    case Str(raw) => SkipString(k, input, Scan(stack, 0, a), raw);
    case Arr(items) =>
      hide FirstBad;
      assert Text(v) == ['['] + (ItemsText(items) + [']']);
      ScanArray(k, input, stack, a, items);
    case Obj(members) =>
      hide FirstBad;
      assert Text(v) == ['{'] + (MembersText(members) + ['}']);
      ScanObject(k, input, stack, a, members);
  }

  /** The items of an array with its closing bracket. */
  lemma {:induction false} ScanItems(k: Keys, input: string, stack: seq<Frame>, index: nat, a: nat, items: Items)
    requires ValidItems(items) && At(input, a, ItemsText(items) + [']'])
    ensures Run(k, input, Scan(stack + [ArrayFrame(index)], 0, a))
            == After(FirstBadItem(k, items, a), Run(k, input, Scan(stack, 0, a + |ItemsText(items)| + 1)))
    decreases items, 2
  {
    hide Run, Text;
    var inner := stack + [ArrayFrame(index)];
    match items
    case NoItems(blank) =>
      AtSplit(input, a, blank, [']']);
      SkipInert(k, input, Scan(inner, 0, a), blank);
      Close(k, input, stack, ArrayFrame(index), a + |blank|, ']');
    case LastItem(pre, value, post) =>
      assert ItemsText(items) + [']'] == (pre + Text(value) + post) + [']'];
      AtSplit(input, a, pre + Text(value) + post, [']']);
      ScanPart(k, input, inner, a, pre, value, post);
      Close(k, input, stack, ArrayFrame(index), a + |pre + Text(value) + post|, ']');
    case MoreItems(_, _, _, _) =>
      hide Text, ItemsText, FirstBadItem;
      ScanMoreItems(k, input, stack, index, a, items);
  }

  lemma {:induction false} ScanMoreItems(k: Keys, input: string, stack: seq<Frame>, index: nat, a: nat, items: Items)
    requires items.MoreItems? && ValidItems(items) && At(input, a, ItemsText(items) + [']'])
    ensures Run(k, input, Scan(stack + [ArrayFrame(index)], 0, a))
            == After(FirstBadItem(k, items, a), Run(k, input, Scan(stack, 0, a + |ItemsText(items)| + 1)))
    decreases items, 1
  {
    hide Run, Text, FirstBad, ParentOf;
    var MoreItems(pre, value, post, rest) := items;
    var part := pre + Text(value) + post;
    var tail := ItemsText(rest) + [']'];
    assert ItemsText(items) + [']'] == part + ([','] + tail);
    assert |ItemsText(items)| == |part| + 1 + |ItemsText(rest)|;
    hide ItemsText;
    AtSplit(input, a, part, [','] + tail);
    InsideArray(input, stack, index);
    ScanPart(k, input, stack + [ArrayFrame(index)], a, pre, value, post);
    NextItem(k, input, stack, ArrayFrame(index), a + |part|, tail);
    ScanItems(k, input, stack, index + 1, a + |part| + 1, rest);
  }

  lemma InsideArray(input: string, stack: seq<Frame>, index: nat)
    ensures ParentOf(input, stack + [ArrayFrame(index)]) == InArray && Settled(stack + [ArrayFrame(index)])
  {
  }

  lemma Close(k: Keys, input: string, stack: seq<Frame>, top: Frame, a: nat, c: char)
    requires (c == '}' || c == ']') && At(input, a, [c])
    ensures Run(k, input, Scan(stack + [top], 0, a)) == Run(k, input, Scan(stack, 0, a + 1))
  {
    AtChar(input, a, c);
    assert (stack + [top])[..|stack|] == stack;
  }

  lemma TurnComma(k: Keys, input: string, s: Scan)
    requires s.at < |input| && input[s.at] == ',' && s.opaqueDepth == 0
    ensures Turn(k, input, s) == Ok(s.(stack := Comma(s.stack), at := s.at + 1))
  {
  }

  /** A comma: the next item, or the next key. */
  lemma NextItem(k: Keys, input: string, stack: seq<Frame>, top: Frame, a: nat, rest: string)
    requires At(input, a, [','] + rest)
    ensures At(input, a + 1, rest)
    ensures Run(k, input, Scan(stack + [top], 0, a))
            == Run(k, input, Scan(stack + [if top.ObjectFrame? then top.(awaitingKey := true) else ArrayFrame(top.index + 1)],
                                  0, a + 1))
  {
    hide Run;
    OneChar(k, input, Scan(stack + [top], 0, a), ',', rest);
    TurnComma(k, input, Scan(stack + [top], 0, a));
    hide Turn;
    assert (stack + [top])[..|stack|] == stack;
  }

  lemma {:induction false} ScanPart(k: Keys, input: string, stack: seq<Frame>, a: nat, pre: string, value: Json, post: string)
    requires Inert(pre) && ValidJson(value) && Inert(post) && Settled(stack)
    requires At(input, a, pre + Text(value) + post)
    ensures Run(k, input, Scan(stack, 0, a))
            == After(FirstBad(k, value, ParentOf(input, stack), a + |pre|),
                     Run(k, input, Scan(stack, 0, a + |pre + Text(value) + post|)))
    decreases value, 1
  {
    hide Run, Text, FirstBad;
    AtSplit(input, a, pre + Text(value), post);
    AtSplit(input, a, pre, Text(value));
    SkipInert(k, input, Scan(stack, 0, a), pre);
    ScanValue(k, input, stack, a + |pre|, value);
    SkipInert(k, input, Scan(stack, 0, a + |pre| + |Text(value)|), post);
  }

  /** The members of an object with its closing brace. */
  lemma {:induction false} ScanMembers(k: Keys, input: string, stack: seq<Frame>, low: nat, high: nat, a: nat, members: Members)
    requires ValidMembers(members) && At(input, a, MembersText(members) + ['}'])
    ensures Run(k, input, Scan(stack + [ObjectFrame(low, high, true)], 0, a))
            == After(FirstBadMember(k, members, stack == [], a),
                     Run(k, input, Scan(stack, 0, a + |MembersText(members)| + 1)))
    decreases members, 4
  {
    match members
    case NoMembers(blank) =>
      hide Run;
      AtSplit(input, a, blank, ['}']);
      SkipInert(k, input, Scan(stack + [ObjectFrame(low, high, true)], 0, a), blank);
      Close(k, input, stack, ObjectFrame(low, high, true), a + |blank|, '}');
    case LastMember(pre, key, mid, value, post) =>
      LastText(pre, key, mid, value, post, ['}']);
      hide Run, Text, Quote, FirstBad, MembersText;
      var top, b := ScanMember(k, input, stack, low, high, a, pre, key, mid, value, post, ['}']);
      Close(k, input, stack, top, b, '}');
    case MoreMembers(_, _, _, _, _, _) =>
      hide Run, Text, MembersText, FirstBadMember;
      ScanMore(k, input, stack, low, high, a, members);
  }

  lemma {:induction false} ScanMore(k: Keys, input: string, stack: seq<Frame>, low: nat, high: nat, a: nat, members: Members)
    requires members.MoreMembers? && ValidMembers(members) && At(input, a, MembersText(members) + ['}'])
    ensures Run(k, input, Scan(stack + [ObjectFrame(low, high, true)], 0, a))
            == After(FirstBadMember(k, members, stack == [], a),
                     Run(k, input, Scan(stack, 0, a + |MembersText(members)| + 1)))
    decreases members, 3
  {
    hide Run, Text, Quote, FirstBad, MembersText, Inert, StringBody, ValidJson;
    var MoreMembers(pre, key, mid, value, post, rest) := members;
    var tail := MembersText(rest) + ['}'];
    MoreText(pre, key, mid, value, post, rest, ['}']);
    var top, b := ScanMember(k, input, stack, low, high, a, pre, key, mid, value, post, [','] + tail);
    NextItem(k, input, stack, top, b, tail);
    ScanMembers(k, input, stack, top.low, top.high, b + 1, rest);
  }

  /** One member: its key, then its value under that key. */
  lemma {:induction false} ScanMember(k: Keys, input: string, stack: seq<Frame>, low: nat, high: nat, a: nat,
                                      pre: string, key: string, mid: string, value: Json, post: string, rest: string)
    returns (top: Frame, b: nat)
    requires Inert(pre) && StringBody(key) && Inert(mid) && ValidJson(value) && Inert(post)
    requires At(input, a, pre + (Quote(key) + ((mid + Text(value) + post) + rest)))
    ensures top.ObjectFrame? && b == a + |pre| + |Quote(key)| + |mid| + |Text(value)| + |post| && At(input, b, rest)
    ensures Run(k, input, Scan(stack + [ObjectFrame(low, high, true)], 0, a))
            == After(FirstBad(k, value, AtKey(key, stack == []), a + |pre| + |Quote(key)| + |mid|),
                     Run(k, input, Scan(stack + [top], 0, b)))
    decreases value, 2
  {
    hide Run, Text, FirstBad, Quote, StringBody;
    var part := mid + Text(value) + post;
    top := TakeKey(k, input, stack, low, high, a, pre, key, part + rest);
    var c := a + |pre| + |Quote(key)|;
    b := c + |part|;
    AtSplit(input, c, part, rest);
    ScanPart(k, input, stack + [top], c, mid, value, post);
  }

  /** Reading a key: the frame then holds the range of its text. */
  lemma TakeKey(k: Keys, input: string, stack: seq<Frame>, low: nat, high: nat, a: nat, pre: string, key: string, rest: string)
    returns (top: Frame)
    requires Inert(pre) && StringBody(key) && At(input, a, pre + (Quote(key) + rest))
    ensures top.ObjectFrame? && !top.awaitingKey && ParentOf(input, stack + [top]) == AtKey(key, stack == [])
    ensures At(input, a + |pre| + |Quote(key)|, rest)
    ensures Run(k, input, Scan(stack + [ObjectFrame(low, high, true)], 0, a))
            == Run(k, input, Scan(stack + [top], 0, a + |pre| + |Quote(key)|))
  {
    hide Run;
    var start := a + |pre|;
    AtSplit(input, a, pre, Quote(key) + rest);
    AtSplit(input, start, Quote(key), rest);
    SkipInert(k, input, Scan(stack + [ObjectFrame(low, high, true)], 0, a), pre);
    SkipString(k, input, Scan(stack + [ObjectFrame(low, high, true)], 0, start), key);
    top := ObjectFrame(start + 1, start + 1 + |key|, false);
    assert (stack + [ObjectFrame(low, high, true)])[..|stack|] == stack;
    KeyHeld(input, stack, start, key);
  }

  lemma KeyHeld(input: string, stack: seq<Frame>, start: nat, key: string)
    requires At(input, start, Quote(key))
    ensures ParentOf(input, stack + [ObjectFrame(start + 1, start + 1 + |key|, false)]) == AtKey(key, stack == [])
  {
    assert Quote(key) == ['"'] + (key + ['"']);
    AtSplit(input, start, ['"'], key + ['"']);
    AtSplit(input, start + 1, key, ['"']);
  }

  // ----- the whole document -----

  /** On the text of a document the scan refuses exactly the first value that
      may not stand where it does, and accepts a document that has none. */
  lemma ScanAppliesTheRule(k: Keys, pre: string, v: Json, post: string)
    requires Inert(pre) && ValidJson(v) && Inert(post)
    ensures Run(k, pre + Text(v) + post, Scan([], 0, 0)) == FirstBad(k, v, Root, |pre|)
  {
    hide Text, FirstBad;
    var input := pre + Text(v) + post;
    assert input[0..0 + |input|] == input;
    assert At(input, 0, pre + Text(v) + post);
    ScanPart(k, input, [], 0, pre, v, post);
  }

  /** `refuse_alternate_forms`: the refused position, or none. */
  method RefuseAlternateForms(k: Keys, input: string) returns (refused: Option<nat>)
    ensures forall pre, v, post :: Inert(pre) && ValidJson(v) && Inert(post) && input == pre + Text(v) + post
              ==> refused == FirstBad(k, v, Root, |pre|)
  {
    refused := ScanDocument(k, input);
    forall pre, v, post | Inert(pre) && ValidJson(v) && Inert(post) && input == pre + Text(v) + post
      ensures Run(k, input, Scan([], 0, 0)) == FirstBad(k, v, Root, |pre|)
    {
      ScanAppliesTheRule(k, pre, v, post);
    }
  }

  method ScanDocument(k: Keys, input: string) returns (refused: Option<nat>)
    ensures refused == Run(k, input, Scan([], 0, 0))
  {
    hide StringEndFrom, ParentOf, Opaque, ObjectAllowed, ArrayAllowed;
    var stack: seq<Frame> := [];
    var opaqueDepth, at := 0, 0;
    while at < |input|
      invariant Run(k, input, Scan(stack, opaqueDepth, at)) == Run(k, input, Scan([], 0, 0))
      decreases |input| - at
    {
      var c := input[at];
      if c == '"' {
        var end := StringEnd(input, at);
        if opaqueDepth == 0 && stack != [] {
          var top := stack[|stack| - 1];
          if top.ObjectFrame? && top.awaitingKey {
            stack := stack[..|stack| - 1] + [ObjectFrame(at + 1, end, false)];
          }
        }
        at := end;
      } else if c == '{' || c == '[' {
        var entered := OpenBracket(k, input, stack, opaqueDepth, at);
        if entered.Err? { return Some(at); }
        stack, opaqueDepth := entered.value.0, entered.value.1;
      } else if c == '}' || c == ']' {
        if opaqueDepth > 0 {
          opaqueDepth := opaqueDepth - 1;
        } else if stack != [] {
          stack := stack[..|stack| - 1];
        }
      } else if c == ',' && opaqueDepth == 0 && stack != [] {
        var top := stack[|stack| - 1];
        stack := stack[..|stack| - 1]
                 + [if top.ObjectFrame? then top.(awaitingKey := true) else ArrayFrame(top.index + 1)];
      }
      at := at + 1;
    }
    refused := None;
  }

  /** An opening bracket: entered, counted inside an opaque value, or refused. */
  method OpenBracket(k: Keys, input: string, stack: seq<Frame>, opaqueDepth: nat, at: nat)
    returns (r: Result<(seq<Frame>, nat), ()>)
    requires at < |input| && (input[at] == '{' || input[at] == '[')
    ensures match Turn(k, input, Scan(stack, opaqueDepth, at))
            case Ok(next) => r == Ok((next.stack, next.opaqueDepth)) && next.at == at + 1
            case Err(refused) => r.Err? && refused == at
  {
    hide KeyIn, KeyText;
    var frames, depth := stack, opaqueDepth;
    if depth > 0 {
      depth := depth + 1;
    } else if |stack| == 1 && stack[0].ObjectFrame? && KeyIn(k, KeyText(input, stack[0]), k.opaque_) {
      depth := 1;
    }
    if depth == 0 {
      if input[at] == '{' {
        if !ObjectAllowed(k, ParentOf(input, stack)) { return Err(()); }
        frames := stack + [ObjectFrame(0, 0, true)];
      } else {
        if !ArrayAllowed(k, ParentOf(input, stack)) { return Err(()); }
        frames := stack + [ArrayFrame(0)];
      }
    }
    r := Ok((frames, depth));
  }

  method StringEnd(input: string, start: nat) returns (end: nat)
    requires start < |input|
    ensures end == StringEndFrom(input, start + 1)
  {
    var at := start + 1;
    while at < |input|
      invariant start < at && StringEndFrom(input, at) == StringEndFrom(input, start + 1)
      decreases |input| - at
    {
      if input[at] == '\\' {
        at := at + 2;
      } else if input[at] == '"' {
        return at;
      } else {
        at := at + 1;
      }
    }
    end := |input|;
  }
}
