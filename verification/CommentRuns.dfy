/** The comment-run preflight: a flat scan that agrees with a recursive reading
    of nested comments and strings on the longest run of comments. */
module CommentRuns {
  import opened Bytes
  import opened Wrappers

  type Source = seq<byte>

  const SLASH: byte := 47
  const STAR: byte := 42
  const QUOTE: byte := 34
  const BACKSLASH: byte := 92
  const NEWLINE: byte := 10

  predicate Space(b: byte) { b == 32 || b == 9 || b == 13 || b == NEWLINE }

  predicate Starts(t: Source, a: byte, b: byte) { |t| >= 2 && t[0] == a && t[1] == b }

  // ----- the recursive reading -----

  /** How much of the text the inside of a block comment takes, with its
      closing mark; comments inside it are read whole. */
  function Inside(t: Source): (n: nat)
    ensures n <= |t|
    decreases |t|
  {
    if t == [] then 0
    else if Starts(t, STAR, SLASH) then 2
    else if Starts(t, SLASH, STAR) then
      var inner := 2 + Inside(t[2..]);
      inner + Inside(t[inner..])
    else 1 + Inside(t[1..])
  }

  /** How much a string takes after its opening quote, with its closing one. */
  function Quoted(t: Source): (n: nat)
    ensures n <= |t|
    decreases |t|
  {
    if t == [] then 0
    else if t[0] == QUOTE then 1
    else if t[0] == BACKSLASH then if |t| == 1 then 1 else 2 + Quoted(t[2..])
    else 1 + Quoted(t[1..])
  }

  /** How much of the text is left of its line. */
  function Line(t: Source): (n: nat)
    ensures n <= |t|
  {
    if t == [] || t[0] == NEWLINE then 0 else 1 + Line(t[1..])
  }

  datatype Lexeme = Blank | Comment | Token

  /** The lexeme a text starts with and its length. */
  function First(t: Source): (r: (Lexeme, nat))
    requires t != []
    ensures 1 <= r.1 <= |t|
  {
    if Space(t[0]) then (Blank, 1)
    else if Starts(t, SLASH, SLASH) then (Comment, 2 + Line(t[2..]))
    else if Starts(t, SLASH, STAR) then (Comment, 2 + Inside(t[2..]))
    else if t[0] == QUOTE then (Token, 1 + Quoted(t[1..]))
    else (Token, 1)
  }

  function Lex(t: Source): seq<Lexeme>
    decreases |t|
  {
    if t == [] then [] else [First(t).0] + Lex(t[First(t).1..])
  }

  // ----- runs -----

  /** The comments since the last token. */
  function LastRun(l: seq<Lexeme>): nat {
    if l == [] then 0
    else
      var rest := LastRun(l[..|l| - 1]);
      match l[|l| - 1]
      case Blank => rest
      case Comment => rest + 1
      case Token => 0
  }

  function LongestRun(l: seq<Lexeme>): nat {
    if l == [] then 0
    else
      var rest := LongestRun(l[..|l| - 1]);
      if LastRun(l) > rest then LastRun(l) else rest
  }

  function Comments(l: seq<Lexeme>): nat {
    if l == [] then 0 else Comments(l[..|l| - 1]) + if l[|l| - 1] == Comment then 1 else 0
  }

  /** A stretch of comments and blanks. */
  ghost predicate Run(l: seq<Lexeme>, i: nat, j: nat) {
    i <= j <= |l| && forall m :: i <= m < j ==> l[m] != Token
  }

  lemma {:induction false} LastRunBounds(l: seq<Lexeme>, k: nat)
    requires Run(l, k, |l|)
    ensures Comments(l[k..]) <= LastRun(l)
  {
    if k < |l| {
      var front, n := l[..|l| - 1], |l| - 1;
      LastRunBounds(front, k);
      assert l[k..] == front[k..] + [l[n]];
      assert l[k..][..|l[k..]| - 1] == front[k..];
    }
  }

  lemma RunTakes(front: seq<Lexeme>, x: Lexeme, i: nat)
    requires Run(front, i, |front|) && x != Token
    ensures Run(front + [x], i, |front + [x]|)
    ensures Comments((front + [x])[i..]) == Comments(front[i..]) + if x == Comment then 1 else 0
  {
    assert (front + [x])[i..] == front[i..] + [x];
    assert (front[i..] + [x])[..|front[i..]|] == front[i..];
  }

  lemma {:induction false} LastRunIs(l: seq<Lexeme>) returns (i: nat)
    ensures Run(l, i, |l|) && Comments(l[i..]) == LastRun(l)
  {
    if l == [] || l[|l| - 1] == Token {
      i := |l|;
    } else {
      var front, n := l[..|l| - 1], |l| - 1;
      i := LastRunIs(front);
      assert l == front + [l[n]];
      RunTakes(front, l[n], i);
    }
  }

  /** The longest run is a run, and no run has more comments. */
  lemma {:induction false} LongestRunIs(l: seq<Lexeme>) returns (i: nat, j: nat)
    ensures Run(l, i, j) && Comments(l[i..j]) == LongestRun(l)
    ensures forall a: nat, b: nat :: Run(l, a, b) ==> Comments(l[a..b]) <= LongestRun(l)
  {
    if l == [] {
      i, j := 0, 0;
    } else {
      var front, n := l[..|l| - 1], |l| - 1;
      i, j := LongestRunIs(front);
      assert front[i..j] == l[i..j];
      var last := LastRunIs(l);
      assert l[last..|l|] == l[last..];
      if LastRun(l) > LongestRun(front) { i, j := last, |l|; }
      forall a: nat, b: nat | Run(l, a, b) ensures Comments(l[a..b]) <= LongestRun(l) {
        if b == |l| {
          assert l[a..b] == l[a..];
          LastRunBounds(l, a);
        } else {
          assert front[a..b] == l[a..b];
          assert Run(front, a, b);
        }
      }
    }
  }

  lemma {:induction false} RunGrows(l: seq<Lexeme>, more: seq<Lexeme>)
    ensures LongestRun(l) <= LongestRun(l + more)
    decreases |more|
  {
    if more == [] {
      assert l + more == l;
    } else {
      RunGrows(l, more[..|more| - 1]);
      assert (l + more)[..|l + more| - 1] == l + more[..|more| - 1];
    }
  }

  // ----- the scan -----

  /** What closing `depth` open comments takes. */
  function Closing(t: Source, depth: nat): (n: nat)
    ensures n <= |t|
    decreases depth
  {
    if depth == 0 then 0 else Inside(t) + Closing(t[Inside(t)..], depth - 1)
  }

  /** One step of the depth counter. */
  lemma ClosingStep(t: Source, depth: nat)
    requires depth > 0 && t != []
    ensures Starts(t, SLASH, STAR) ==> Closing(t, depth) == 2 + Closing(t[2..], depth + 1)
    ensures Starts(t, STAR, SLASH) ==> Closing(t, depth) == 2 + Closing(t[2..], depth - 1)
    ensures !Starts(t, SLASH, STAR) && !Starts(t, STAR, SLASH) ==> Closing(t, depth) == 1 + Closing(t[1..], depth)
  {
    if Starts(t, SLASH, STAR) {
      var inner := Inside(t[2..]);
      assert t[2..][inner..] == t[2 + inner..];
      var rest := t[2 + inner..];
      assert rest[Inside(rest)..] == t[Inside(t)..];
      assert Closing(t[2..], depth + 1) == inner + Closing(rest, depth);
    } else if Starts(t, STAR, SLASH) {
    } else {
      assert t[1..][Inside(t[1..])..] == t[Inside(t)..];
    }
  }

  method SkipBlock(text: Source, start: nat) returns (index: nat)
    requires start <= |text|
    ensures index == start + Inside(text[start..])
  {
    hide Inside, Closing, Starts;
    var depth := 1;
    index := start;
    ClosingOne(text[start..]);
    while index < |text| && depth > 0
      invariant start <= index <= |text|
      invariant index + Closing(text[index..], depth) == start + Inside(text[start..])
    {
      var here := text[index..];
      assert here[1..] == text[index + 1..] && (|here| >= 2 ==> here[2..] == text[index + 2..]);
      assert here[0] == text[index] && (|here| >= 2 ==> here[1] == text[index + 1]);
      ClosingStep(here, depth);
      StartsAt(here, SLASH, STAR);
      StartsAt(here, STAR, SLASH);
      if text[index] == SLASH && index + 1 < |text| && text[index + 1] == STAR {
        depth := depth + 1;
        index := index + 2;
      } else if text[index] == STAR && index + 1 < |text| && text[index + 1] == SLASH {
        depth := depth - 1;
        index := index + 2;
      } else {
        index := index + 1;
      }
    }
    ClosingNone(text[index..], depth);
  }

  lemma StartsAt(t: Source, a: byte, b: byte)
    ensures Starts(t, a, b) <==> |t| >= 2 && t[0] == a && t[1] == b
  {
  }

  lemma ClosingOne(t: Source)
    ensures Closing(t, 1) == Inside(t)
  {
  }

  lemma ClosingNone(t: Source, depth: nat)
    requires t == [] || depth == 0
    ensures Closing(t, depth) == 0
  {
  }

  method SkipLine(text: Source, start: nat) returns (index: nat)
    requires start <= |text|
    ensures index == start + Line(text[start..])
  {
    index := start;
    while index < |text| && text[index] != NEWLINE
      invariant start <= index <= |text|
      invariant index + Line(text[index..]) == start + Line(text[start..])
    {
      assert text[index..][1..] == text[index + 1..];
      index := index + 1;
    }
  }

  /** A trailing escape steps past the end, where the scan stops as well. */
  method SkipString(text: Source, start: nat) returns (index: nat)
    requires start <= |text|
    ensures index == start + Quoted(text[start..]) || (index == |text| + 1 && start + Quoted(text[start..]) == |text|)
  {
    index := start;
    while index < |text|
      invariant start <= index <= |text| + 1
      invariant index <= |text| ==> index + Quoted(text[index..]) == start + Quoted(text[start..])
      invariant index > |text| ==> start + Quoted(text[start..]) == |text|
    {
      var here := text[index..];
      assert here[0] == text[index] && here[1..] == text[index + 1..] && (|here| >= 2 ==> here[2..] == text[index + 2..]);
      if text[index] == BACKSLASH {
        index := index + 2;
      } else if text[index] == QUOTE {
        index := index + 1;
        return;
      } else {
        index := index + 1;
      }
    }
  }

  /** `comment_run_preflight`: the longest run of comments, or one more than the
      limit if it is over it. */
  method CommentRunPreflight(text: Source, limit: nat) returns (r: Result<nat, nat>)
    ensures r == if LongestRun(Lex(text)) <= limit then Ok(LongestRun(Lex(text))) else Err(limit + 1)
  {
    hide LongestRun, LastRun, Lex, First, Inside, Line, Quoted, Space;
    var index, run, longest := 0, 0, 0;
    ghost var seen: seq<Lexeme> := [];
    NoRunYet(text);
    while index < |text|
      invariant run == LastRun(seen) && run <= longest == LongestRun(seen) <= limit
      invariant Lex(text) == seen + Lex(if index <= |text| then text[index..] else [])
      decreases |text| - index
    {
      ghost var (lexeme, size) := First(text[index..]);
      LexAt(text, index);
      OneMore(seen, lexeme, Lex(text[index + size..]), Lex(text));
      if Space(text[index]) {
        index := index + 1;
      } else if text[index] == SLASH && index + 1 < |text| && (text[index + 1] == SLASH || text[index + 1] == STAR) {
        run := run + 1;
        if run > limit { return Err(run); }
        if run > longest { longest := run; }
        if text[index + 1] == STAR {
          index := SkipBlock(text, index + 2);
        } else {
          index := SkipLine(text, index + 2);
        }
      } else if text[index] == QUOTE {
        run := 0;
        index := SkipString(text, index + 1);
        assert text[|text|..] == [];
      } else {
        run := 0;
        index := index + 1;
      }
      seen := seen + [lexeme];
    }
    LexNothing();
    assert index <= |text| ==> text[index..] == [];
    assert seen + [] == seen;
    r := Ok(longest);
  }

  lemma NoRunYet(text: Source)
    ensures LastRun([]) == 0 && LongestRun([]) == 0 && text[0..] == text && [] + Lex(text) == Lex(text)
  {
  }

  lemma LexNothing()
    ensures Lex([]) == []
  {
  }

  lemma LexStep(t: Source)
    requires t != []
    ensures Lex(t) == [First(t).0] + Lex(t[First(t).1..])
  {
  }

  /** What the next lexeme does to the run and the longest run, and that later
      lexemes only add. */
  lemma OneMore(seen: seq<Lexeme>, lexeme: Lexeme, rest: seq<Lexeme>, all: seq<Lexeme>)
    requires all == seen + ([lexeme] + rest)
    ensures all == (seen + [lexeme]) + rest
    ensures LastRun(seen + [lexeme]) ==
            match lexeme case Blank => LastRun(seen) case Comment => LastRun(seen) + 1 case Token => 0
    ensures LongestRun(seen + [lexeme]) ==
            if LastRun(seen + [lexeme]) > LongestRun(seen) then LastRun(seen + [lexeme]) else LongestRun(seen)
    ensures LastRun(seen + [lexeme]) <= LongestRun(seen + [lexeme]) <= LongestRun(all)
    ensures lexeme == Blank && LastRun(seen) <= LongestRun(seen) ==> LongestRun(seen + [lexeme]) == LongestRun(seen)
  {
    assert (seen + [lexeme])[..|seen + [lexeme]| - 1] == seen;
    RunGrows(seen + [lexeme], rest);
  }

  predicate Opens(text: Source, index: nat, mark: byte) {
    index + 1 < |text| && text[index] == SLASH && text[index + 1] == mark
  }

  /** The lexeme at a position of the text, and what is left after it. */
  lemma LexAt(text: Source, index: nat)
    requires index < |text|
    ensures var (lexeme, size) := First(text[index..]);
            && 0 < size && index + size <= |text|
            && Lex(text[index..]) == [lexeme] + Lex(text[index + size..])
            && (Space(text[index]) ==> lexeme == Blank && size == 1)
            && (Opens(text, index, SLASH) ==> lexeme == Comment && size == 2 + Line(text[index + 2..]))
            && (Opens(text, index, STAR) ==> lexeme == Comment && size == 2 + Inside(text[index + 2..]))
            && (text[index] == QUOTE ==> lexeme == Token && size == 1 + Quoted(text[index + 1..]))
            && (!Space(text[index]) && !Opens(text, index, SLASH) && !Opens(text, index, STAR) && text[index] != QUOTE ==>
                  lexeme == Token && size == 1)
  {
    hide First, Lex, Inside, Line, Quoted, Space, Starts;
    var here := text[index..];
    var size := First(here).1;
    LexStep(here);
    FirstIs(here);
    StartsAt(here, SLASH, STAR);
    StartsAt(here, SLASH, SLASH);
    assert here[size..] == text[index + size..] && here[1..] == text[index + 1..];
    assert |here| >= 2 ==> here[2..] == text[index + 2..];
  }

  lemma FirstIs(t: Source)
    requires t != []
    ensures Space(t[0]) ==> First(t) == (Blank, 1)
    ensures Starts(t, SLASH, SLASH) ==> First(t) == (Comment, 2 + Line(t[2..]))
    ensures Starts(t, SLASH, STAR) ==> First(t) == (Comment, 2 + Inside(t[2..]))
    ensures t[0] == QUOTE ==> First(t) == (Token, 1 + Quoted(t[1..]))
    ensures !Space(t[0]) && !Starts(t, SLASH, SLASH) && !Starts(t, SLASH, STAR) && t[0] != QUOTE ==> First(t) == (Token, 1)
  {
  }
}
