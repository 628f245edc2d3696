/** The rule on positions, place by place: every bracket of a document outside
    opaque values, with where it stands, and which of them may stand there. */
module JsonPlaces {
  import opened Wrappers
  import opened JsonTrees
  import JsonPositions

  /** An opening bracket of the text: where it is and what it stands in. */
  datatype Spot = Spot(position: nat, isArray: bool, parent: Parent)

  /** The key as written stands for a name: itself, or what it decodes to if it
      is written with an escape. */
  ghost predicate Means(k: Keys, raw: string, name: string) {
    if exists i :: 0 <= i < |raw| && raw[i] == '\\' then k.decode(raw) == Some(name) else raw == name
  }

  ghost predicate MeansOneOf(k: Keys, raw: string, names: seq<string>) {
    exists name :: name in names && Means(k, raw, name)
  }

  /** An array stands only at a key of the array list; an object anywhere but at
      a key that is not of the object list. */
  ghost predicate Stands(k: Keys, s: Spot) {
    if s.parent.AtKey? then MeansOneOf(k, s.parent.key, if s.isArray then ARRAY_KEYS else OBJECT_KEYS) else !s.isArray
  }

  /** The value of an opaque key of the document itself. */
  ghost predicate Hidden(k: Keys, parent: Parent) {
    parent.AtKey? && parent.ofRoot && MeansOneOf(k, parent.key, k.opaque_)
  }

  /** The brackets of a value whose text starts at a position, in the order of
      the text, without what lies in opaque values. */
  ghost function Spots(k: Keys, v: Json, parent: Parent, at: nat): seq<Spot> {
    match v
    case Scalar(_) => []
    case Str(_) => []
    case Arr(items) => if Hidden(k, parent) then [] else [Spot(at, true, parent)] + SpotsOfItems(k, items, at + 1)
    case Obj(members) => if Hidden(k, parent) then [] else [Spot(at, false, parent)] + SpotsOfMembers(k, members, parent.Root?, at + 1)
  }

  ghost function SpotsOfItems(k: Keys, items: Items, at: nat): seq<Spot> {
    match items
    case NoItems(_) => []
    case LastItem(pre, value, _) => Spots(k, value, InArray, at + |pre|)
    case MoreItems(pre, value, post, rest) =>
      Spots(k, value, InArray, at + |pre|) + SpotsOfItems(k, rest, at + |pre + Text(value) + post + ","|)
  }

  ghost function SpotsOfMembers(k: Keys, members: Members, ofRoot: bool, at: nat): seq<Spot> {
    match members
    case NoMembers(_) => []
    case LastMember(pre, key, mid, value, _) => Spots(k, value, AtKey(key, ofRoot), at + |pre + Quote(key) + mid|)
    case MoreMembers(pre, key, mid, value, post, rest) =>
      Spots(k, value, AtKey(key, ofRoot), at + |pre + Quote(key) + mid|)
      + SpotsOfMembers(k, rest, ofRoot, at + |pre + Quote(key) + mid + Text(value) + post + ","|)
  }

  ghost function FirstMisplaced(k: Keys, spots: seq<Spot>): Option<nat> {
    if spots == [] then None else if !Stands(k, spots[0]) then Some(spots[0].position) else FirstMisplaced(k, spots[1..])
  }

  lemma {:induction false} MisplacedInEither(k: Keys, a: seq<Spot>, b: seq<Spot>)
    ensures FirstMisplaced(k, a + b) == if FirstMisplaced(k, a).Some? then FirstMisplaced(k, a) else FirstMisplaced(k, b)
  {
    if a == [] {
      assert a + b == b;
    } else {
      assert (a + b)[1..] == a[1..] + b;
      MisplacedInEither(k, a[1..], b);
    }
  }

  lemma MeansIs(k: Keys, raw: string, names: seq<string>)
    ensures MeansOneOf(k, raw, names) <==> KeyIn(k, raw, names)
  {
    if name :| name in names && Means(k, raw, name) {
      var i :| 0 <= i < |names| && names[i] == name;
      assert KeyIs(k, raw, names[i]);
    }
    if KeyIn(k, raw, names) {
      var i :| 0 <= i < |names| && KeyIs(k, raw, names[i]);
      assert names[i] in names && Means(k, raw, names[i]);
    }
  }

  lemma PlacesAre(k: Keys, parent: Parent, at: nat)
    ensures Hidden(k, parent) <==> Opaque(k, parent)
    ensures Stands(k, Spot(at, true, parent)) <==> ArrayAllowed(k, parent)
    ensures Stands(k, Spot(at, false, parent)) <==> ObjectAllowed(k, parent)
  {
    if parent.AtKey? {
      MeansIs(k, parent.key, k.opaque_);
      MeansIs(k, parent.key, ARRAY_KEYS);
      MeansIs(k, parent.key, OBJECT_KEYS);
    }
    hide MeansOneOf, KeyIn;
  }

  lemma {:induction false} RuleIsByPlaces(k: Keys, v: Json, parent: Parent, at: nat)
    ensures FirstBad(k, v, parent, at) == FirstMisplaced(k, Spots(k, v, parent, at))
    decreases v
  {
    PlacesAre(k, parent, at);
    hide Stands, Hidden, ArrayAllowed, ObjectAllowed, Opaque;
    match v
    case Scalar(_) =>
    case Str(_) =>
    case Arr(items) =>
      ItemsByPlaces(k, items, at + 1);
      BracketFirst(k, Spot(at, true, parent), SpotsOfItems(k, items, at + 1));
    case Obj(members) =>
      MembersByPlaces(k, members, parent.Root?, at + 1);
      BracketFirst(k, Spot(at, false, parent), SpotsOfMembers(k, members, parent.Root?, at + 1));
  }

  lemma BracketFirst(k: Keys, s: Spot, rest: seq<Spot>)
    ensures FirstMisplaced(k, [s] + rest) == if Stands(k, s) then FirstMisplaced(k, rest) else Some(s.position)
  {
    assert ([s] + rest)[1..] == rest;
  }

  lemma {:induction false} ItemsByPlaces(k: Keys, items: Items, at: nat)
    ensures FirstBadItem(k, items, at) == FirstMisplaced(k, SpotsOfItems(k, items, at))
    decreases items
  {
    match items
    case NoItems(_) =>
    case LastItem(pre, value, _) => RuleIsByPlaces(k, value, InArray, at + |pre|);
    case MoreItems(pre, value, post, rest) =>
      hide FirstMisplaced, FirstBad, Spots;
      RuleIsByPlaces(k, value, InArray, at + |pre|);
      var next := at + |pre + Text(value) + post + ","|;
      ItemsByPlaces(k, rest, next);
      MisplacedInEither(k, Spots(k, value, InArray, at + |pre|), SpotsOfItems(k, rest, next));
  }

  lemma {:induction false} MembersByPlaces(k: Keys, members: Members, ofRoot: bool, at: nat)
    ensures FirstBadMember(k, members, ofRoot, at) == FirstMisplaced(k, SpotsOfMembers(k, members, ofRoot, at))
    decreases members
  {
    match members
    case NoMembers(_) =>
    case LastMember(pre, key, mid, value, _) => RuleIsByPlaces(k, value, AtKey(key, ofRoot), at + |pre + Quote(key) + mid|);
    case MoreMembers(pre, key, mid, value, post, rest) => MoreByPlaces(k, members, ofRoot, at);
  }

  lemma MoreByPlaces(k: Keys, members: Members, ofRoot: bool, at: nat)
    requires members.MoreMembers?
    ensures FirstBadMember(k, members, ofRoot, at) == FirstMisplaced(k, SpotsOfMembers(k, members, ofRoot, at))
    decreases members, 0
  {
    hide FirstMisplaced, FirstBad, Spots, Text, Quote;
    var MoreMembers(pre, key, mid, value, post, rest) := members;
    var start := at + |pre + Quote(key) + mid|;
    var next := at + |pre + Quote(key) + mid + Text(value) + post + ","|;
    Lengths(pre, Quote(key), mid, Text(value), post);
    RuleIsByPlaces(k, value, AtKey(key, ofRoot), start);
    MembersByPlaces(k, rest, ofRoot, next);
    MisplacedInEither(k, Spots(k, value, AtKey(key, ofRoot), start), SpotsOfMembers(k, rest, ofRoot, next));
  }

  lemma Lengths(pre: string, key: string, mid: string, text: string, post: string)
    ensures |pre + key + mid| == |pre| + |key| + |mid|
    ensures |pre + key + mid + text + post + ","| == |pre| + |key| + |mid| + |text| + |post| + 1
  {
  }

  /** A document is accepted exactly when each of its brackets outside opaque
      values may stand where it does; otherwise the refused position is that of
      the first that may not. */
  lemma {:induction false} FirstMisplacedIs(k: Keys, spots: seq<Spot>)
    ensures FirstMisplaced(k, spots) == None <==> forall i :: 0 <= i < |spots| ==> Stands(k, spots[i])
    ensures forall p: nat :: FirstMisplaced(k, spots) == Some(p) ==> Misplaces(k, spots, p)
  {
    hide Stands;
    if spots != [] {
      FirstMisplacedIs(k, spots[1..]);
      if Stands(k, spots[0]) {
        forall p: nat | FirstMisplaced(k, spots) == Some(p) ensures Misplaces(k, spots, p) { LaterMisplaced(k, spots, p); }
        assert forall i :: 0 < i < |spots| ==> spots[i] == spots[1..][i - 1];
        assert forall i :: 0 <= i < |spots[1..]| ==> spots[1..][i] == spots[i + 1];
      } else {
        assert Misplaced(k, spots, 0);
      }
    }
  }

  ghost predicate Misplaced(k: Keys, spots: seq<Spot>, i: nat) {
    i < |spots| && !Stands(k, spots[i]) && forall j :: 0 <= j < i ==> Stands(k, spots[j])
  }

  ghost predicate Misplaces(k: Keys, spots: seq<Spot>, p: nat) {
    exists i: nat :: Misplaced(k, spots, i) && spots[i].position == p
  }

  lemma LaterMisplaced(k: Keys, spots: seq<Spot>, p: nat)
    requires spots != [] && Stands(k, spots[0]) && Misplaces(k, spots[1..], p)
    ensures Misplaces(k, spots, p)
  {
    hide Stands;
    var i: nat :| Misplaced(k, spots[1..], i) && spots[1..][i].position == p;
    assert spots[1..][i] == spots[i + 1];
    forall j | 0 <= j < i + 1 ensures Stands(k, spots[j]) {
      if j > 0 { assert spots[j] == spots[1..][j - 1]; }
    }
    assert Misplaced(k, spots, i + 1);
  }

  /** Every spot is an opening bracket of the text of its kind. */
  ghost predicate Brackets(text: string, at: nat, spots: seq<Spot>) {
    forall i :: 0 <= i < |spots| ==>
      at <= spots[i].position < at + |text| && text[spots[i].position - at] == (if spots[i].isArray then '[' else '{')
  }

  lemma BracketsInside(before: string, text: string, after: string, at: nat, spots: seq<Spot>)
    requires Brackets(text, at + |before|, spots)
    ensures Brackets(before + text + after, at, spots)
  {
  }

  lemma BothBracket(text: string, at: nat, a: seq<Spot>, b: seq<Spot>)
    requires Brackets(text, at, a) && Brackets(text, at, b)
    ensures Brackets(text, at, a + b)
  {
  }

  lemma {:induction false} SpotsAreBrackets(k: Keys, v: Json, parent: Parent, at: nat)
    ensures Brackets(Text(v), at, Spots(k, v, parent, at))
    decreases v
  {
    hide Hidden;
    match v
    case Scalar(_) =>
    case Str(_) =>
    case Arr(items) =>
      ItemSpots(k, items, at + 1);
      BracketsInside("[", ItemsText(items), "]", at, SpotsOfItems(k, items, at + 1));
      BothBracket(Text(v), at, [Spot(at, true, parent)], SpotsOfItems(k, items, at + 1));
    case Obj(members) =>
      MemberSpots(k, members, parent.Root?, at + 1);
      BracketsInside("{", MembersText(members), "}", at, SpotsOfMembers(k, members, parent.Root?, at + 1));
      BothBracket(Text(v), at, [Spot(at, false, parent)], SpotsOfMembers(k, members, parent.Root?, at + 1));
  }

  lemma {:induction false} ItemSpots(k: Keys, items: Items, at: nat)
    ensures Brackets(ItemsText(items), at, SpotsOfItems(k, items, at))
    decreases items
  {
    hide Brackets, Spots;
    match items
    case NoItems(blank) => NoBrackets(blank, at);
    case LastItem(pre, value, post) =>
      SpotsAreBrackets(k, value, InArray, at + |pre|);
      BracketsInside(pre, Text(value), post, at, Spots(k, value, InArray, at + |pre|));
    case MoreItems(pre, value, post, rest) =>
      var front := pre + Text(value) + post + ",";
      var mine := Spots(k, value, InArray, at + |pre|);
      SpotsAreBrackets(k, value, InArray, at + |pre|);
      BracketsInside(pre, Text(value), post + "," + ItemsText(rest), at, mine);
      ItemSpots(k, rest, at + |front|);
      BracketsInside(front, ItemsText(rest), "", at, SpotsOfItems(k, rest, at + |front|));
      assert pre + Text(value) + (post + "," + ItemsText(rest)) == ItemsText(items) == front + ItemsText(rest) + "";
      BothBracket(ItemsText(items), at, mine, SpotsOfItems(k, rest, at + |front|));
  }

  lemma NoBrackets(text: string, at: nat)
    ensures Brackets(text, at, [])
  {
  }

  lemma {:induction false} MemberSpots(k: Keys, members: Members, ofRoot: bool, at: nat)
    ensures Brackets(MembersText(members), at, SpotsOfMembers(k, members, ofRoot, at))
    decreases members
  {
    hide Brackets, Spots;
    match members
    case NoMembers(blank) => NoBrackets(blank, at);
    case LastMember(pre, key, mid, value, post) =>
      var lead := pre + Quote(key) + mid;
      SpotsAreBrackets(k, value, AtKey(key, ofRoot), at + |lead|);
      BracketsInside(lead, Text(value), post, at, Spots(k, value, AtKey(key, ofRoot), at + |lead|));
    case MoreMembers(pre, key, mid, value, post, rest) =>
      var lead := pre + Quote(key) + mid;
      var front := lead + Text(value) + post + ",";
      var mine := Spots(k, value, AtKey(key, ofRoot), at + |lead|);
      SpotsAreBrackets(k, value, AtKey(key, ofRoot), at + |lead|);
      BracketsInside(lead, Text(value), post + "," + MembersText(rest), at, mine);
      MemberSpots(k, rest, ofRoot, at + |front|);
      BracketsInside(front, MembersText(rest), "", at, SpotsOfMembers(k, rest, ofRoot, at + |front|));
      assert lead + Text(value) + (post + "," + MembersText(rest)) == MembersText(members) == front + MembersText(rest) + "";
      BothBracket(MembersText(members), at, mine, SpotsOfMembers(k, rest, ofRoot, at + |front|));
  }

  /** What the scan of a document comes to, on the places of its tree. */
  lemma DocumentRule(k: Keys, pre: string, v: Json, post: string)
    requires Inert(pre) && ValidJson(v) && Inert(post)
    ensures var spots, refused := Spots(k, v, Root, |pre|), JsonPositions.Run(k, pre + Text(v) + post, JsonPositions.Scan([], 0, 0));
            && Brackets(pre + Text(v) + post, 0, spots)
            && (refused == None <==> forall i :: 0 <= i < |spots| ==> Stands(k, spots[i]))
            && forall p: nat :: refused == Some(p) ==> Misplaces(k, spots, p)
  {
    hide Spots, FirstBad, FirstMisplaced, Stands, Misplaces, Brackets, JsonPositions.Run, Text, ValidJson, Inert;
    JsonPositions.ScanAppliesTheRule(k, pre, v, post);
    RuleIsByPlaces(k, v, Root, |pre|);
    FirstMisplacedIs(k, Spots(k, v, Root, |pre|));
    SpotsAreBrackets(k, v, Root, |pre|);
    BracketsInside(pre, Text(v), post, 0, Spots(k, v, Root, |pre|));
  }
}
