/** Source texts as pieces: blanks, comments, strings and other characters. The
    lexemes the preflight counts are those of the pieces a text is written
    with, and every text is written with some. */
module CommentPieces {
  import opened Bytes
  import opened CommentRuns

  /** The inside of a block comment: characters and comments within it. */
  datatype Parts =
    | NoParts
    | CharPart(b: byte, rest: Parts)
    | NestedPart(inner: Parts, rest: Parts)
    | OpenPart(inner: Parts)

  datatype Piece =
    | BlankPiece(b: byte)
    | LinePiece(body: Source)
    | BlockPiece(parts: Parts)
    | StringPiece(body: Source)
    | OtherPiece(b: byte)
    | OpenBlock(parts: Parts)
    | OpenString(body: Source)

  function PartsText(parts: Parts): Source {
    match parts
    case NoParts => []
    case CharPart(b, rest) => [b] + PartsText(rest)
    case NestedPart(inner, rest) => [SLASH, STAR] + (PartsText(inner) + ([STAR, SLASH] + PartsText(rest)))
    case OpenPart(inner) => [SLASH, STAR] + PartsText(inner)
  }

  function PieceText(p: Piece): Source {
    match p
    case BlankPiece(b) => [b]
    case LinePiece(body) => [SLASH, SLASH] + body
    case BlockPiece(parts) => [SLASH, STAR] + (PartsText(parts) + [STAR, SLASH])
    case StringPiece(body) => [QUOTE] + (body + [QUOTE])
    case OtherPiece(b) => [b]
    case OpenBlock(parts) => [SLASH, STAR] + PartsText(parts)
    case OpenString(body) => [QUOTE] + body
  }

  function PiecesText(ps: seq<Piece>): Source {
    if ps == [] then [] else PieceText(ps[0]) + PiecesText(ps[1..])
  }

  /** A space, a tab, a carriage return or a line feed. */
  const BLANKS: seq<byte> := [32, 9, 13, 10]

  /** Characters of a block comment spell no mark, whatever stands after them. */
  predicate Clean(parts: Parts, after: Source) {
    match parts
    case NoParts => true
    case CharPart(b, rest) =>
      var here := [b] + (PartsText(rest) + after);
      !(STAR == here[0] && |here| > 1 && here[1] == SLASH) && !(SLASH == here[0] && |here| > 1 && here[1] == STAR)
      && Clean(rest, after)
    case NestedPart(inner, rest) =>
      Clean(inner, [STAR, SLASH] + (PartsText(rest) + after)) && Clean(rest, after)
    case OpenPart(inner) => after == [] && Clean(inner, [])
  }

  /** No quote but an escaped one, and no escape without a character. */
  predicate Body(s: Source) {
    s == [] || (if s[0] == BACKSLASH then |s| >= 2 && Body(s[2..]) else s[0] != QUOTE && Body(s[1..]))
  }

  /** The body of a string whose closing quote is missing. */
  predicate OpenBody(s: Source) {
    Body(s) || (s != [] && s[|s| - 1] == BACKSLASH && Body(s[..|s| - 1]))
  }

  predicate Allowed(p: Piece, after: Source) {
    match p
    case BlankPiece(b) => b in BLANKS
    case LinePiece(body) => 10 !in body && (after == [] || after[0] == 10)
    case BlockPiece(parts) => Clean(parts, [STAR, SLASH] + after)
    case StringPiece(body) => Body(body)
    case OtherPiece(b) =>
      b !in BLANKS && b != QUOTE && !(b == SLASH && after != [] && (after[0] == SLASH || after[0] == STAR))
    case OpenBlock(parts) => after == [] && Clean(parts, [])
    case OpenString(body) => after == [] && OpenBody(body)
  }

  predicate AllAllowed(ps: seq<Piece>) {
    ps == [] || (Allowed(ps[0], PiecesText(ps[1..])) && AllAllowed(ps[1..]))
  }

  function Kind(p: Piece): Lexeme {
    match p
    case BlankPiece(_) => Blank
    case LinePiece(_) => Comment
    case BlockPiece(_) => Comment
    case OpenBlock(_) => Comment
    case _ => Token
  }

  function Kinds(ps: seq<Piece>): (l: seq<Lexeme>)
    ensures |l| == |ps|
  { seq(|ps|, i requires 0 <= i < |ps| => Kind(ps[i])) }

  // ----- pieces are read as they are -----

  lemma InsideChar(b: byte, rest: Source)
    requires !Starts([b] + rest, STAR, SLASH) && !Starts([b] + rest, SLASH, STAR)
    ensures Inside([b] + rest) == 1 + Inside(rest)
  {
    assert ([b] + rest)[1..] == rest;
  }

  lemma InsideClose(after: Source)
    ensures Inside([STAR, SLASH] + after) == 2
  {
  }

  function Opened(t: Source): Source { [SLASH, STAR] + t }

  function Closed(inner: Source, later: Source): Source { inner + ([STAR, SLASH] + later) }

  lemma InsideNested(inner: Source, later: Source)
    requires Inside(Closed(inner, later)) == |inner| + 2
    ensures Inside(Opened(Closed(inner, later))) == |inner| + 4 + Inside(later)
  {
    hide Inside, Starts, Opened, Closed;
    ClosedCut(inner, later);
    OpenedCut(Closed(inner, later), |inner| + 2);
    InsideOpen(Opened(Closed(inner, later)));
  }

  lemma OpenedCut(t: Source, n: nat)
    requires n <= |t|
    ensures Starts(Opened(t), SLASH, STAR) && |Opened(t)| == |t| + 2 && Opened(t)[2..] == t && Opened(t)[2 + n..] == t[n..]
  {
  }

  lemma ClosedCut(inner: Source, later: Source)
    ensures |Closed(inner, later)| == |inner| + 2 + |later| && Closed(inner, later)[|inner| + 2..] == later
  {
    assert Closed(inner, later) == inner + [STAR, SLASH] + later;
  }

  lemma InsideOpen(t: Source)
    requires Starts(t, SLASH, STAR)
    ensures Inside(t) == 2 + Inside(t[2..]) + Inside(t[2 + Inside(t[2..])..])
  {
  }

  lemma InsideOpened(inner: Source)
    requires Inside(inner) == |inner|
    ensures Inside([SLASH, STAR] + inner) == |inner| + 2
  {
    var t := [SLASH, STAR] + inner;
    hide Inside;
    assert t[2..] == inner && t[2 + |inner|..] == [];
    InsideOpen(t);
    InsideOfNothing();
  }

  lemma MarksAre(b: byte, rest: Source)
    ensures Starts([b] + rest, STAR, SLASH) <==> b == STAR && rest != [] && rest[0] == SLASH
    ensures Starts([b] + rest, SLASH, STAR) <==> b == SLASH && rest != [] && rest[0] == STAR
  {
  }

  lemma {:induction false} PartsRead(parts: Parts, after: Source)
    requires Clean(parts, [STAR, SLASH] + after)
    ensures Inside(PartsText(parts) + ([STAR, SLASH] + after)) == |PartsText(parts)| + 2
  {
    hide Inside, Starts;
    var close := [STAR, SLASH] + after;
    match parts
    case NoParts =>
      assert PartsText(parts) + close == close;
      InsideClose(after);
    case CharPart(b, rest) =>
      var later := PartsText(rest) + close;
      assert PartsText(parts) + close == [b] + later;
      MarksAre(b, later);
      InsideChar(b, later);
      PartsRead(rest, after);
    case NestedPart(inner, rest) =>
      var later := PartsText(rest) + close;
      NestedText(inner, rest, close);
      PartsRead(inner, later);
      InsideNested(PartsText(inner), later);
      PartsRead(rest, after);
    case OpenPart(_) =>
  }

  lemma NestedText(inner: Parts, rest: Parts, after: Source)
    ensures PartsText(NestedPart(inner, rest)) + after
            == [SLASH, STAR] + (PartsText(inner) + ([STAR, SLASH] + (PartsText(rest) + after)))
  {
    hide PartsText;
    assert PartsText(NestedPart(inner, rest)) == [SLASH, STAR] + (PartsText(inner) + ([STAR, SLASH] + PartsText(rest))) by {
      NestedIs(inner, rest);
    }
  }

  lemma NestedIs(inner: Parts, rest: Parts)
    ensures PartsText(NestedPart(inner, rest)) == [SLASH, STAR] + (PartsText(inner) + ([STAR, SLASH] + PartsText(rest)))
  {
  }

  lemma {:induction false} OpenPartsRead(parts: Parts)
    requires Clean(parts, [])
    ensures Inside(PartsText(parts)) == |PartsText(parts)|
  {
    match parts
    case NoParts =>
    case CharPart(b, rest) =>
      hide Inside, Starts;
      assert PartsText(rest) + [] == PartsText(rest);
      MarksAre(b, PartsText(rest));
      InsideChar(b, PartsText(rest));
      OpenPartsRead(rest);
    case NestedPart(inner, rest) =>
      hide Inside, Starts;
      assert PartsText(rest) + [] == PartsText(rest);
      PartsRead(inner, PartsText(rest));
      InsideNested(PartsText(inner), PartsText(rest));
      OpenPartsRead(rest);
    case OpenPart(inner) =>
      hide Starts;
      OpenPartsRead(inner);
      InsideOpened(PartsText(inner));
  }

  lemma {:induction false} BodyRead(body: Source, after: Source)
    requires Body(body)
    ensures Quoted(body + ([QUOTE] + after)) == |body| + 1
    ensures Quoted(body) == |body| && Quoted(body + [BACKSLASH]) == |body| + 1
    decreases |body|
  {
    var t := body + ([QUOTE] + after);
    if body == [] {
      assert t == [QUOTE] + after && body + [BACKSLASH] == [BACKSLASH];
    } else if body[0] == BACKSLASH {
      assert t[2..] == body[2..] + ([QUOTE] + after) && (body + [BACKSLASH])[2..] == body[2..] + [BACKSLASH];
      BodyRead(body[2..], after);
    } else {
      assert t[1..] == body[1..] + ([QUOTE] + after) && (body + [BACKSLASH])[1..] == body[1..] + [BACKSLASH];
      BodyRead(body[1..], after);
    }
  }

  lemma {:induction false} LineRead(body: Source, after: Source)
    requires 10 !in body && (after == [] || after[0] == 10)
    ensures Line(body + after) == |body|
  {
    if body == [] {
      assert body + after == after;
    } else {
      assert (body + after)[1..] == body[1..] + after;
      LineRead(body[1..], after);
    }
  }

  lemma CommentFirst(t: Source)
    ensures First([SLASH, SLASH] + t) == (Comment, 2 + Line(t)) && First([SLASH, STAR] + t) == (Comment, 2 + Inside(t))
  {
    hide Line, Inside, Quoted;
    assert ([SLASH, SLASH] + t)[2..] == t && ([SLASH, STAR] + t)[2..] == t;
  }

  lemma StringFirst(t: Source)
    ensures First([QUOTE] + t) == (Token, 1 + Quoted(t))
  {
    assert ([QUOTE] + t)[1..] == t;
    hide Quoted;
  }

  lemma OneFirst(b: byte, after: Source)
    requires b in BLANKS || Allowed(OtherPiece(b), after)
    ensures First([b] + after) == (if b in BLANKS then Blank else Token, 1)
  {
    assert b in BLANKS <==> Space(b);
    assert ([b] + after)[1..] == after;
    hide Line, Inside, Quoted;
  }

  /** A comment's text before what follows it. */
  lemma CommentText(p: Piece, after: Source)
    ensures p.LinePiece? ==> PieceText(p) + after == [SLASH, SLASH] + (p.body + after) && |PieceText(p)| == |p.body| + 2
    ensures p.BlockPiece? ==>
              PieceText(p) + after == [SLASH, STAR] + (PartsText(p.parts) + ([STAR, SLASH] + after))
              && |PieceText(p)| == |PartsText(p.parts)| + 4
    ensures p.OpenBlock? ==> PieceText(p) + [] == [SLASH, STAR] + PartsText(p.parts) && |PieceText(p)| == |PartsText(p.parts)| + 2
  {
    hide PartsText;
  }

  lemma CommentReads(p: Piece, after: Source)
    requires Allowed(p, after) && (p.LinePiece? || p.BlockPiece? || p.OpenBlock?)
    ensures PieceText(p) != [] && First(PieceText(p) + after) == (Comment, |PieceText(p)|)
  {
    CommentText(p, after);
    hide First, Line, Inside, PartsText, PieceText, Clean;
    match p
    case LinePiece(body) =>
      LineRead(body, after);
      CommentFirst(body + after);
    case BlockPiece(parts) =>
      PartsRead(parts, after);
      CommentFirst(PartsText(parts) + ([STAR, SLASH] + after));
    case OpenBlock(parts) =>
      OpenPartsRead(parts);
      CommentFirst(PartsText(parts));
  }

  lemma StringReads(p: Piece, after: Source)
    requires Allowed(p, after) && (p.StringPiece? || p.OpenString?)
    ensures PieceText(p) != [] && First(PieceText(p) + after) == (Token, |PieceText(p)|)
  {
    hide First, Quoted;
    match p
    case StringPiece(body) =>
      BodyRead(body, after);
      StringFirst(body + ([QUOTE] + after));
      assert PieceText(p) + after == [QUOTE] + (body + ([QUOTE] + after));
    case OpenString(body) =>
      OpenBodyRead(body);
      StringFirst(body);
      assert PieceText(p) + after == [QUOTE] + body;
  }

  lemma PieceReads(p: Piece, after: Source)
    requires Allowed(p, after)
    ensures PieceText(p) != [] && First(PieceText(p) + after) == (Kind(p), |PieceText(p)|)
  {
    match p
    case BlankPiece(b) => OneFirst(b, after);
    case OtherPiece(b) => OneFirst(b, after);
    case LinePiece(_) => CommentReads(p, after);
    case BlockPiece(_) => CommentReads(p, after);
    case OpenBlock(_) => CommentReads(p, after);
    case StringPiece(_) => StringReads(p, after);
    case OpenString(_) => StringReads(p, after);
  }

  lemma OpenBodyRead(body: Source)
    requires OpenBody(body)
    ensures Quoted(body) == |body|
  {
    if Body(body) {
      BodyRead(body, []);
    } else {
      hide Body;
      BodyRead(body[..|body| - 1], []);
      assert body[..|body| - 1] + [BACKSLASH] == body;
    }
  }

  /** The lexemes of a text are the kinds of the pieces it is written with. */
  lemma {:induction false} PiecesRead(ps: seq<Piece>)
    requires AllAllowed(ps)
    ensures Lex(PiecesText(ps)) == Kinds(ps)
  {
    hide First, Allowed, Kind, PieceText;
    if ps != [] {
      var after := PiecesText(ps[1..]);
      PieceReads(ps[0], after);
      PiecesRead(ps[1..]);
      assert PiecesText(ps)[|PieceText(ps[0])|..] == after;
      assert Kinds(ps) == [Kind(ps[0])] + Kinds(ps[1..]);
    }
  }

  // ----- every text is written with pieces -----

  lemma FirstSkips(t: Source)
    requires t != [] && !Starts(t, STAR, SLASH) && !Starts(t, SLASH, STAR)
    ensures Inside(t) == 1 + Inside(t[1..])
  {
  }

  /** What is left of the inside of a comment after its parts: nothing, or its
      closing mark and what comes after. */
  predicate Ends(t: Source, close: Source) {
    if close == [] then Inside(t) == |t| else Starts(close, STAR, SLASH) && close[2..] == t[Inside(t)..]
  }

  /** The inside of a comment: its parts, up to the closing mark or the end. */
  lemma {:induction false} InsideParts(t: Source) returns (parts: Parts, close: Source)
    ensures t == PartsText(parts) + close && Clean(parts, close) && Ends(t, close)
    decreases |t|
  {
    hide Inside, Ends, PartsText, Clean;
    if t == [] {
      parts, close := NoParts, [];
      NothingSplits();
    } else if Starts(t, STAR, SLASH) {
      parts, close := NoParts, t;
      CloseSplits(t);
    } else if Starts(t, SLASH, STAR) {
      var inner, later := InsideParts(t[2..]);
      if later == [] {
        parts, close := OpenPart(inner), [];
        OpenSplits(t, inner);
      } else {
        LaterShrinks(t, inner, later);
        var rest;
        rest, close := InsideParts(later[2..]);
        parts := NestedPart(inner, rest);
        NestedSplits(t, inner, later, rest, close);
      }
    } else {
      var rest;
      rest, close := InsideParts(t[1..]);
      parts := CharPart(t[0], rest);
      CharSplits(t, rest, close);
    }
  }

  lemma NothingSplits()
    ensures [] == PartsText(NoParts) + [] && Clean(NoParts, []) && Ends([], [])
  {
  }

  lemma CloseSplits(t: Source)
    requires Starts(t, STAR, SLASH)
    ensures t == PartsText(NoParts) + t && Clean(NoParts, t) && Ends(t, t)
  {
  }

  lemma CharSplits(t: Source, rest: Parts, close: Source)
    requires t != [] && !Starts(t, STAR, SLASH) && !Starts(t, SLASH, STAR)
    requires t[1..] == PartsText(rest) + close && Clean(rest, close) && Ends(t[1..], close)
    ensures t == PartsText(CharPart(t[0], rest)) + close && Clean(CharPart(t[0], rest), close) && Ends(t, close)
  {
    hide *;
    var b, later := t[0], t[1..];
    assert t == [b] + later;
    FirstSkips(t);
    MarksAre(b, later);
    CharIs(b, rest, close);
    EndsLater(t, close);
  }

  lemma CharIs(b: byte, rest: Parts, close: Source)
    ensures PartsText(CharPart(b, rest)) + close == [b] + (PartsText(rest) + close)
    ensures var later := PartsText(rest) + close;
            Clean(CharPart(b, rest), close) <==>
            !(b == STAR && later != [] && later[0] == SLASH) && !(b == SLASH && later != [] && later[0] == STAR) && Clean(rest, close)
  {
    var later := PartsText(rest) + close;
    assert [b] + later == [b] + later && ([b] + later)[0] == b && (later != [] ==> ([b] + later)[1] == later[0]);
    assert PartsText(CharPart(b, rest)) == [b] + PartsText(rest);
  }

  lemma EndsLater(t: Source, close: Source)
    requires t != [] && Inside(t) == 1 + Inside(t[1..]) && Ends(t[1..], close)
    ensures Ends(t, close)
  {
    hide Inside, Starts;
    CutTwice(t, 1, Inside(t[1..]));
  }

  lemma OpenSplits(t: Source, inner: Parts)
    requires Starts(t, SLASH, STAR) && t[2..] == PartsText(inner) + [] && Clean(inner, []) && Ends(t[2..], [])
    ensures t == PartsText(OpenPart(inner)) + [] && Clean(OpenPart(inner), []) && Ends(t, [])
  {
    InsideOpen(t);
    hide Inside;
    assert t == [SLASH, STAR] + t[2..] && t[2 + |t[2..]|..] == [];
    InsideOfNothing();
  }

  lemma LaterShrinks(t: Source, inner: Parts, later: Source)
    requires Starts(t, SLASH, STAR) && t[2..] == PartsText(inner) + later && later != [] && Ends(t[2..], later)
    ensures |later| >= 2 && |later[2..]| < |t|
  {
    hide Inside, PartsText;
  }

  lemma NestedSplits(t: Source, inner: Parts, later: Source, rest: Parts, close: Source)
    requires Starts(t, SLASH, STAR) && t[2..] == PartsText(inner) + later && Clean(inner, later)
    requires later != [] && Ends(t[2..], later)
    requires |later| >= 2 && later[2..] == PartsText(rest) + close && Clean(rest, close) && Ends(later[2..], close)
    ensures t == PartsText(NestedPart(inner, rest)) + close && Clean(NestedPart(inner, rest), close) && Ends(t, close)
  {
    hide Inside, PartsText, Clean;
    assert later == [STAR, SLASH] + (PartsText(rest) + close) by { hide Clean; assert later == later[..2] + later[2..]; }
    assert t == [SLASH, STAR] + t[2..];
    NestedText(inner, rest, close);
    InsideOpen(t);
    NestedEnds(t, later, close);
    NestedClean(inner, rest, close);
  }

  lemma NestedClean(inner: Parts, rest: Parts, close: Source)
    requires Clean(inner, [STAR, SLASH] + (PartsText(rest) + close)) && Clean(rest, close)
    ensures Clean(NestedPart(inner, rest), close)
  {
  }

  lemma CutTwice(t: Source, n: nat, m: nat)
    requires n + m <= |t|
    ensures t[n..][m..] == t[n + m..]
  {
  }

  lemma NestedEnds(t: Source, later: Source, close: Source)
    requires Starts(t, SLASH, STAR) && Ends(t[2..], later) && later != [] && |later| >= 2 && Ends(later[2..], close)
    ensures Ends(t, close)
  {
    InsideOpen(t);
    hide Inside, Starts;
    var n := 2 + Inside(t[2..]);
    CutTwice(t, 2, Inside(t[2..]));
    CutTwice(t, n, Inside(t[n..]));
  }

  lemma InsideOfNothing()
    ensures Inside([]) == 0
  {
  }

  /** What a string takes, or the rest of the text if its quote is missing. */
  lemma {:induction false} StringBody(t: Source) returns (body: Source, close: Source)
    ensures t == body + close
    ensures close == [] ==> OpenBody(body)
    ensures close != [] ==> Body(body) && close[0] == QUOTE
    decreases |t|
  {
    if t == [] {
      body, close := [], [];
    } else if t[0] == QUOTE {
      body, close := [], t;
    } else if t[0] != BACKSLASH {
      var rest;
      rest, close := StringBody(t[1..]);
      body := [t[0]] + rest;
      BodyGrows([t[0]], rest);
    } else if |t| == 1 {
      body, close := t, [];
      assert t[..0] == [];
    } else {
      var rest;
      rest, close := StringBody(t[2..]);
      body := t[..2] + rest;
      BodyGrows(t[..2], rest);
    }
  }

  lemma BodyGrows(one: Source, rest: Source)
    requires one != [] && if one[0] == BACKSLASH then |one| == 2 else one[0] != QUOTE && |one| == 1
    ensures Body(rest) ==> Body(one + rest)
    ensures OpenBody(rest) ==> OpenBody(one + rest)
  {
    assert (one + rest)[|one|..] == rest;
    if OpenBody(rest) && !Body(rest) {
      var cut := rest[..|rest| - 1];
      assert (one + rest)[..|one + rest| - 1] == one + cut && (one + cut)[|one|..] == cut;
    }
  }

  lemma {:induction false} LineBody(t: Source) returns (body: Source, rest: Source)
    ensures t == body + rest && 10 !in body && (rest == [] || rest[0] == 10)
  {
    if t == [] || t[0] == 10 {
      body, rest := [], t;
    } else {
      var more;
      more, rest := LineBody(t[1..]);
      body := [t[0]] + more;
    }
  }

  /** The piece a text starts with. */
  lemma FirstPiece(t: Source) returns (p: Piece, after: Source)
    requires t != []
    ensures t == PieceText(p) + after && Allowed(p, after)
  {
    hide Inside, PartsText, Clean, Body, OpenBody, PieceText, Allowed;
    if t[0] in BLANKS {
      p, after := BlankPiece(t[0]), t[1..];
      OnePiece(t);
    } else if Starts(t, SLASH, SLASH) {
      var body;
      body, after := LineBody(t[2..]);
      p := LinePiece(body);
      LineFirst(t, body, after);
    } else if Starts(t, SLASH, STAR) {
      var parts, close := InsideParts(t[2..]);
      if close == [] {
        p, after := OpenBlock(parts), [];
      } else {
        p, after := BlockPiece(parts), Dropped(close);
      }
      BlockFirst(t, parts, close);
    } else if t[0] == QUOTE {
      var body, close := StringBody(t[1..]);
      if close == [] {
        p, after := OpenString(body), [];
      } else {
        p, after := StringPiece(body), close[1..];
      }
      StringFirstIs(t, body, close);
    } else {
      p, after := OtherPiece(t[0]), t[1..];
      OnePiece(t);
    }
  }

  function Dropped(close: Source): Source { if |close| < 2 then [] else close[2..] }

  lemma OnePiece(t: Source)
    requires t != []
    ensures t[0] in BLANKS ==> t == PieceText(BlankPiece(t[0])) + t[1..] && Allowed(BlankPiece(t[0]), t[1..])
    ensures t[0] !in BLANKS && t[0] != QUOTE && !Starts(t, SLASH, SLASH) && !Starts(t, SLASH, STAR)
            ==> t == PieceText(OtherPiece(t[0])) + t[1..] && Allowed(OtherPiece(t[0]), t[1..])
  {
    hide PartsText, Clean, Body;
    assert t == [t[0]] + t[1..];
  }

  lemma LineFirst(t: Source, body: Source, after: Source)
    requires Starts(t, SLASH, SLASH) && t[2..] == body + after && 10 !in body && (after == [] || after[0] == 10)
    ensures t == PieceText(LinePiece(body)) + after && Allowed(LinePiece(body), after)
  {
    hide PartsText, Clean, Body;
    assert t == [SLASH, SLASH] + t[2..];
  }

  lemma BlockFirst(t: Source, parts: Parts, close: Source)
    requires Starts(t, SLASH, STAR) && t[2..] == PartsText(parts) + close && Clean(parts, close)
    requires close == [] || Starts(close, STAR, SLASH)
    ensures close == [] ==> t == PieceText(OpenBlock(parts)) + [] && Allowed(OpenBlock(parts), [])
    ensures close != [] ==> t == PieceText(BlockPiece(parts)) + Dropped(close) && Allowed(BlockPiece(parts), Dropped(close))
  {
    hide *;
    TwoFirst(t, SLASH, STAR);
    if close == [] {
      CommentText(OpenBlock(parts), []);
      assert PartsText(parts) + [] == PartsText(parts);
      BlockAllowed(parts, []);
    } else {
      TwoFirst(close, STAR, SLASH);
      CommentText(BlockPiece(parts), Dropped(close));
      BlockAllowed(parts, Dropped(close));
    }
  }

  lemma TwoFirst(t: Source, a: byte, b: byte)
    requires Starts(t, a, b)
    ensures t == [a, b] + t[2..] && t[2..] == Dropped(t)
  {
  }

  lemma BlockAllowed(parts: Parts, after: Source)
    ensures Clean(parts, []) ==> Allowed(OpenBlock(parts), [])
    ensures Clean(parts, [STAR, SLASH] + after) ==> Allowed(BlockPiece(parts), after)
  {
    hide Clean;
  }

  lemma StringFirstIs(t: Source, body: Source, close: Source)
    requires t != [] && t[0] == QUOTE && t[1..] == body + close
    requires if close == [] then OpenBody(body) else Body(body) && close[0] == QUOTE
    ensures close == [] ==> t == PieceText(OpenString(body)) + [] && Allowed(OpenString(body), [])
    ensures close != [] ==> t == PieceText(StringPiece(body)) + close[1..] && Allowed(StringPiece(body), close[1..])
  {
    hide PartsText, Clean, Body, OpenBody;
    assert t == [QUOTE] + t[1..];
    assert close != [] ==> close == [QUOTE] + close[1..];
  }

  /** Every text is written with pieces. */
  lemma {:induction false} EveryTextIsPieces(t: Source) returns (ps: seq<Piece>)
    ensures PiecesText(ps) == t && AllAllowed(ps)
    decreases |t|
  {
    hide Allowed, PieceText;
    if t == [] {
      ps := [];
    } else {
      var p, after := FirstPiece(t);
      PieceReads(p, after);
      var rest := EveryTextIsPieces(after);
      ps := [p] + rest;
      assert ps[1..] == rest;
    }
  }

  /** The preflight counts the longest run of comments among the pieces: some
      stretch of pieces without tokens holds that many comments, none more. */
  lemma RunsOfPieces(ps: seq<Piece>) returns (i: nat, j: nat)
    requires AllAllowed(ps)
    ensures Run(Kinds(ps), i, j) && Comments(Kinds(ps)[i..j]) == LongestRun(Lex(PiecesText(ps)))
    ensures forall a: nat, b: nat :: Run(Kinds(ps), a, b) ==> Comments(Kinds(ps)[a..b]) <= LongestRun(Lex(PiecesText(ps)))
  {
    PiecesRead(ps);
    i, j := LongestRunIs(Kinds(ps));
  }
}
