/** The nesting preflight of values: a flat scan over a document's text that
    agrees with the height of the tree the text spells. */
module JsonNesting {
  import opened Wrappers
  import opened JsonTrees

  // ----- the height of a tree -----

  function Max(a: nat, b: nat): nat { if a < b then b else a }

  /** How many arrays and objects stand around the deepest part of a value,
      itself included. */
  function Height(v: Json): nat {
    match v
    case Scalar(_) => 0
    case Str(_) => 0
    case Arr(items) => 1 + ItemsHeight(items)
    case Obj(members) => 1 + MembersHeight(members)
  }

  function ItemsHeight(items: Items): nat {
    match items
    case NoItems(_) => 0
    case LastItem(_, value, _) => Height(value)
    case MoreItems(_, value, _, rest) => Max(Height(value), ItemsHeight(rest))
  }

  function MembersHeight(members: Members): nat {
    match members
    case NoMembers(_) => 0
    case LastMember(_, _, _, value, _) => Height(value)
    case MoreMembers(_, _, _, value, _, rest) => Max(Height(value), MembersHeight(rest))
  }

  // ----- the scan -----

  /** The scan's variables. */
  datatype Scan = Scan(depth: nat, inString: bool, escaped: bool)

  /** One character: the next state, or the depth that is over the limit. */
  function Step(limit: nat, s: Scan, c: char): Result<Scan, nat> {
    if s.inString then
      if s.escaped then Ok(s.(escaped := false))
      else if c == '\\' then Ok(s.(escaped := true))
      else if c == '"' then Ok(s.(inString := false))
      else Ok(s)
    else if c == '"' then Ok(s.(inString := true))
    else if c == '{' || c == '[' then if s.depth + 1 > limit then Err(s.depth + 1) else Ok(s.(depth := s.depth + 1))
    else if c == '}' || c == ']' then Ok(s.(depth := if s.depth == 0 then 0 else s.depth - 1))
    else Ok(s)
  }

  function Run(limit: nat, s: Scan, text: string): Result<Scan, nat>
    decreases |text|
  {
    if text == "" then Ok(s)
    else
      var next := Step(limit, s, text[0]);
      if next.Err? then next else Run(limit, next.value, text[1..])
  }

  /** Scanning one text after another. */
  lemma {:induction false} RunBoth(limit: nat, s: Scan, a: string, b: string)
    ensures Run(limit, s, a + b) == var first := Run(limit, s, a); if first.Err? then first else Run(limit, first.value, b)
    decreases |a|
  {
    hide Step;
    if a == "" {
      assert a + b == b;
    } else {
      assert (a + b)[1..] == a[1..] + b;
      var next := Step(limit, s, a[0]);
      if next.Ok? { RunBoth(limit, next.value, a[1..], b); }
    }
  }

  lemma {:induction false} RunInert(limit: nat, depth: nat, text: string)
    requires Inert(text)
    ensures Run(limit, Scan(depth, false, false), text) == Ok(Scan(depth, false, false))
  {
    if text != "" {
      assert text[0] in text;
      RunInert(limit, depth, text[1..]);
    }
  }

  lemma {:induction false} RunBody(limit: nat, depth: nat, raw: string)
    requires StringBody(raw)
    ensures Run(limit, Scan(depth, true, false), raw) == Ok(Scan(depth, true, false))
    decreases |raw|
  {
    if raw != "" {
      if raw[0] == '\\' {
        assert raw[1..][1..] == raw[2..];
        RunBody(limit, depth, raw[2..]);
      } else {
        RunBody(limit, depth, raw[1..]);
      }
    }
  }

  lemma RunOne(limit: nat, s: Scan, c: char)
    ensures Run(limit, s, [c]) == Step(limit, s, c)
  {
    assert [c][1..] == "";
  }

  lemma RunQuote(limit: nat, depth: nat, raw: string)
    requires StringBody(raw)
    ensures Run(limit, Scan(depth, false, false), Quote(raw)) == Ok(Scan(depth, false, false))
  {
    RunOne(limit, Scan(depth, false, false), '"');
    RunOne(limit, Scan(depth, true, false), '"');
    RunBody(limit, depth, raw);
    hide Run;
    RunBoth(limit, Scan(depth, false, false), "\"", raw + "\"");
    RunBoth(limit, Scan(depth, true, false), raw, "\"");
    assert Quote(raw) == "\"" + (raw + "\"");
  }

  // ----- the scan measures the height -----

  /** What scanning a text of some height comes to at a depth. */
  ghost predicate Measures(limit: nat, depth: nat, text: string, height: nat) {
    Run(limit, Scan(depth, false, false), text)
    == if depth + height <= limit then Ok(Scan(depth, false, false)) else Err(limit + 1)
  }

  lemma MeasuresBoth(limit: nat, depth: nat, a: string, m: nat, b: string, n: nat)
    requires depth <= limit && Measures(limit, depth, a, m) && Measures(limit, depth, b, n)
    ensures Measures(limit, depth, a + b, Max(m, n))
  {
    hide Run;
    RunBoth(limit, Scan(depth, false, false), a, b);
  }

  lemma MeasuresNothing(limit: nat, depth: nat, text: string)
    requires depth <= limit && Inert(text)
    ensures Measures(limit, depth, text, 0)
  {
    RunInert(limit, depth, text);
  }

  lemma MeasuresComma(limit: nat, depth: nat)
    requires depth <= limit
    ensures Measures(limit, depth, ",", 0)
  {
    RunOne(limit, Scan(depth, false, false), ',');
  }

  lemma MeasuresBrackets(limit: nat, depth: nat, open: char, body: string, close: char, height: nat)
    requires depth <= limit && (open == '{' || open == '[') && (close == '}' || close == ']')
    requires depth < limit ==> Measures(limit, depth + 1, body, height)
    ensures Measures(limit, depth, [open] + body + [close], 1 + height)
  {
    RunOne(limit, Scan(depth, false, false), open);
    RunOne(limit, Scan(depth + 1, false, false), close);
    hide Run;
    RunBoth(limit, Scan(depth, false, false), [open], body + [close]);
    RunBoth(limit, Scan(depth + 1, false, false), body, [close]);
    assert [open] + body + [close] == [open] + (body + [close]);
  }

  /** White space, a value, white space. */
  lemma MeasuresPart(limit: nat, depth: nat, pre: string, text: string, post: string, height: nat)
    requires depth <= limit && Measures(limit, depth, pre, 0) && Measures(limit, depth, text, height) && Inert(post)
    ensures Measures(limit, depth, pre + text + post, height)
  {
    hide Measures;
    MeasuresNothing(limit, depth, post);
    MeasuresBoth(limit, depth, pre, 0, text, height);
    MeasuresBoth(limit, depth, pre + text, height, post, 0);
  }

  lemma MeasuresMore(limit: nat, depth: nat, part: string, m: nat, rest: string, n: nat)
    requires depth <= limit && Measures(limit, depth, part, m) && Measures(limit, depth, rest, n)
    ensures Measures(limit, depth, part + "," + rest, Max(m, n))
  {
    hide Measures;
    MeasuresComma(limit, depth);
    MeasuresBoth(limit, depth, part, m, ",", 0);
    MeasuresBoth(limit, depth, part + ",", m, rest, n);
  }

  lemma MeasuresKey(limit: nat, depth: nat, pre: string, key: string, mid: string)
    requires depth <= limit && Inert(pre) && StringBody(key) && Inert(mid)
    ensures Measures(limit, depth, pre + Quote(key) + mid, 0)
  {
    RunQuote(limit, depth, key);
    assert Measures(limit, depth, Quote(key), 0);
    hide Measures, Quote;
    MeasuresNothing(limit, depth, pre);
    MeasuresPart(limit, depth, pre, Quote(key), mid, 0);
  }

  /** On the text of a JSON value the scan keeps its depth, or refuses with one
      more than the limit, exactly by the value's height. */
  lemma {:induction false} ValueMeasures(limit: nat, depth: nat, v: Json)
    requires ValidJson(v) && depth <= limit
    ensures Measures(limit, depth, Text(v), Height(v))
    decreases v
  {
    hide Measures;
    match v
    case Scalar(text) => MeasuresNothing(limit, depth, text);
    case Str(raw) => StringMeasures(limit, depth, raw);
    case Arr(items) =>
      if depth < limit { ItemsMeasure(limit, depth + 1, items); }
      MeasuresBrackets(limit, depth, '[', ItemsText(items), ']', ItemsHeight(items));
    case Obj(members) =>
      if depth < limit { MembersMeasure(limit, depth + 1, members); }
      MeasuresBrackets(limit, depth, '{', MembersText(members), '}', MembersHeight(members));
  }

  lemma StringMeasures(limit: nat, depth: nat, raw: string)
    requires StringBody(raw) && depth <= limit
    ensures Measures(limit, depth, Quote(raw), 0)
  {
    RunQuote(limit, depth, raw);
  }

  lemma {:induction false} ItemsMeasure(limit: nat, depth: nat, items: Items)
    requires ValidItems(items) && depth <= limit
    ensures Measures(limit, depth, ItemsText(items), ItemsHeight(items))
    decreases items
  {
    hide Measures;
    match items
    case NoItems(blank) => MeasuresNothing(limit, depth, blank);
    case LastItem(pre, value, post) =>
      MeasuresNothing(limit, depth, pre);
      ValueMeasures(limit, depth, value);
      MeasuresPart(limit, depth, pre, Text(value), post, Height(value));
    case MoreItems(pre, value, post, rest) =>
      MeasuresNothing(limit, depth, pre);
      ValueMeasures(limit, depth, value);
      MeasuresPart(limit, depth, pre, Text(value), post, Height(value));
      ItemsMeasure(limit, depth, rest);
      MeasuresMore(limit, depth, pre + Text(value) + post, Height(value), ItemsText(rest), ItemsHeight(rest));
  }

  lemma {:induction false} MembersMeasure(limit: nat, depth: nat, members: Members)
    requires ValidMembers(members) && depth <= limit
    ensures Measures(limit, depth, MembersText(members), MembersHeight(members))
    decreases members
  {
    hide Measures, Quote;
    match members
    case NoMembers(blank) => MeasuresNothing(limit, depth, blank);
    case LastMember(pre, key, mid, value, post) =>
      MeasuresKey(limit, depth, pre, key, mid);
      ValueMeasures(limit, depth, value);
      MeasuresPart(limit, depth, pre + Quote(key) + mid, Text(value), post, Height(value));
    case MoreMembers(pre, key, mid, value, post, rest) =>
      MeasuresKey(limit, depth, pre, key, mid);
      ValueMeasures(limit, depth, value);
      MeasuresPart(limit, depth, pre + Quote(key) + mid, Text(value), post, Height(value));
      MembersMeasure(limit, depth, rest);
      MeasuresMore(limit, depth, pre + Quote(key) + mid + Text(value) + post, Height(value), MembersText(rest), MembersHeight(rest));
  }

  // ----- the loop -----

  /** `check_value_nesting`: on the text of any JSON document, exactly the
      documents within the limit are accepted, and any other is refused with
      one more than the limit. */
  method CheckValueNesting(input: string, limit: nat) returns (r: Result<(), nat>)
    ensures r.Err? ==> r.error == limit + 1
    ensures forall pre, v, post :: Inert(pre) && ValidJson(v) && Inert(post) && input == pre + Text(v) + post ==>
              (r.Ok? <==> Height(v) <= limit)
  {
    hide Run, Text, Height, ValidJson;
    var depth, inString, escaped := 0, false, false;
    ghost var start := Scan(0, false, false);
    for index := 0 to |input|
      invariant depth <= limit
      invariant Run(limit, start, input) == Run(limit, Scan(depth, inString, escaped), input[index..])
    {
      RunNext(limit, Scan(depth, inString, escaped), input, index);
      var c := input[index];
      if inString {
        if escaped {
          escaped := false;
        } else if c == '\\' {
          escaped := true;
        } else if c == '"' {
          inString := false;
        }
      } else if c == '"' {
        inString := true;
      } else if c == '{' || c == '[' {
        depth := depth + 1;
        if depth > limit {
          DocumentsMeasure(limit, input);
          return Err(depth);
        }
      } else if c == '}' || c == ']' {
        if depth > 0 { depth := depth - 1; }
      }
    }
    RunEnds(limit, Scan(depth, inString, escaped), input);
    DocumentsMeasure(limit, input);
    r := Ok(());
  }

  lemma RunNext(limit: nat, s: Scan, input: string, index: nat)
    requires index < |input|
    ensures Run(limit, s, input[index..])
            == var next := Step(limit, s, input[index]); if next.Err? then next else Run(limit, next.value, input[index + 1..])
  {
    assert input[index..][1..] == input[index + 1..];
  }

  lemma RunEnds(limit: nat, s: Scan, input: string)
    ensures Run(limit, s, input[|input|..]) == Ok(s)
  {
  }

  lemma DocumentsMeasure(limit: nat, input: string)
    ensures forall pre, v, post :: Inert(pre) && ValidJson(v) && Inert(post) && input == pre + Text(v) + post ==>
              (Run(limit, Scan(0, false, false), input).Ok? <==> Height(v) <= limit)
  {
    hide Run, Text, Height, ValidJson;
    forall pre, v, post | Inert(pre) && ValidJson(v) && Inert(post) && input == pre + Text(v) + post
      ensures Run(limit, Scan(0, false, false), input).Ok? <==> Height(v) <= limit
    {
      MeasuresNothing(limit, 0, pre);
      ValueMeasures(limit, 0, v);
      MeasuresPart(limit, 0, pre, Text(v), post, Height(v));
    }
  }
}
