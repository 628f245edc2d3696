/** What the limits on imports come to, over walks of imports: a load that
    succeeds stays within every one of them, and each refusal is for something
    that the sources reached from the entry really have. */
module LoadBounds {
  import opened Wrappers
  import opened Sorting
  import opened Budgets
  import opened Loading
  import opened LoadedGraph
  import SourceIds

  // ----- where requests and units come from -----

  /** A walk of imports from one source to another. */
  ghost predicate WalksTo(units: seq<Unit>, walk: seq<string>, from: string, to: string) {
    walk != [] && walk[0] == from && walk[|walk| - 1] == to && ImportWalk(units, walk)
  }

  /** A request was made along a walk from the entry, one import a level. */
  ghost predicate RequestWalks(units: seq<Unit>, entry: string, r: Request) {
    r.depth == |r.ancestors| && WalksTo(units, r.ancestors + [r.id], entry, r.id)
  }

  /** The source is reached from the entry by at most that many imports. */
  ghost predicate ReachedWithin(units: seq<Unit>, entry: string, imports: nat, x: string) {
    exists walk :: WalksTo(units, walk, entry, x) && |walk| - 1 <= imports
  }

  ghost predicate Rooted(limits: LoadLimits, entry: string, p: Progress) {
    && (forall r :: r in p.pending ==> RequestWalks(p.units, entry, r) && r.depth <= limits.importDepth + 1)
    && (forall x :: x in Names(p.units) ==> ReachedWithin(p.units, entry, limits.importDepth, x))
    && NoDuplicates(Names(p.units))
  }

  ghost predicate UnitFits(limits: LoadLimits, u: Unit) {
    ByteLength(u.source) <= limits.sourceBytes && ByteLength(u.name) <= limits.sourceIdBytes
  }

  /** Every unit is within the limits on one source, and once there is one the
      counters are within theirs. */
  ghost predicate Bounded(limits: LoadLimits, p: Progress) {
    && (forall i :: 0 <= i < |p.units| ==> UnitFits(limits, p.units[i]))
    && (p.units != [] ==> p.sources <= limits.sources && p.bytes <= limits.bundleBytes && p.edges <= limits.importEdges)
  }

  ghost predicate SameEdges(units: seq<Unit>, more: seq<Unit>) {
    forall x, y :: EdgeOf(units, x, y) ==> EdgeOf(more, x, y)
  }

  lemma WalkCarries(units: seq<Unit>, more: seq<Unit>, walk: seq<string>, from: string, to: string)
    requires SameEdges(units, more) && WalksTo(units, walk, from, to)
    ensures WalksTo(more, walk, from, to)
  {
    hide EdgeOf;
  }

  lemma ReachCarries(units: seq<Unit>, more: seq<Unit>, entry: string, imports: nat, x: string)
    requires SameEdges(units, more) && ReachedWithin(units, entry, imports, x)
    ensures ReachedWithin(more, entry, imports, x)
  {
    var walk :| WalksTo(units, walk, entry, x) && |walk| - 1 <= imports;
    WalkCarries(units, more, walk, entry, x);
  }

  /** Marking a unit's actor changes no edge. */
  lemma MarkRooted(limits: LoadLimits, entry: string, p: Progress, units: seq<Unit>)
    requires Rooted(limits, entry, p) && p.pending != [] && Names(units) == Names(p.units) && SameEdges(p.units, units)
    ensures Rooted(limits, entry, p.(units := units, pending := p.pending[..|p.pending| - 1]))
  {
    hide SameEdges, WalksTo, ReachedWithin, Names, NoDuplicates;
    forall r | r in p.pending[..|p.pending| - 1] ensures RequestWalks(units, entry, r) && r.depth <= limits.importDepth + 1 {
      assert r in p.pending;
      WalkCarries(p.units, units, r.ancestors + [r.id], entry, r.id);
    }
    forall x | x in Names(units) ensures ReachedWithin(units, entry, limits.importDepth, x) {
      ReachCarries(p.units, units, entry, limits.importDepth, x);
    }
  }

  /** A walk goes on along an import of its last source. */
  lemma WalkGoesOn(units: seq<Unit>, walk: seq<string>, from: string, x: string, y: string)
    requires WalksTo(units, walk, from, x) && EdgeOf(units, x, y)
    ensures WalksTo(units, walk + [y], from, y)
  {
    hide EdgeOf;
  }

  ghost predicate Added(p: Progress, u: Unit, q: Progress) {
    && p.pending != [] && p.pending[|p.pending| - 1].id == u.name && u.name !in Names(p.units)
    && q.units == p.units + [u]
    && q.pending == p.pending[..|p.pending| - 1]
                    + Requests(u.imports, p.pending[|p.pending| - 1].depth + 1, p.pending[|p.pending| - 1].ancestors + [u.name])
  }

  lemma NewRequestWalks(limits: LoadLimits, entry: string, p: Progress, u: Unit, q: Progress, r: Request)
    requires Rooted(limits, entry, p) && Added(p, u, q) && p.pending[|p.pending| - 1].depth <= limits.importDepth
    requires r in Requests(u.imports, p.pending[|p.pending| - 1].depth + 1, p.pending[|p.pending| - 1].ancestors + [u.name])
    ensures RequestWalks(q.units, entry, r) && r.depth <= limits.importDepth + 1
  {
    var last := p.pending[|p.pending| - 1];
    assert last in p.pending && RequestWalks(p.units, entry, last);
    AddedEdges(p.units, u);
    var k := RequestTargets(u.imports, last.depth + 1, last.ancestors + [u.name], r);
    assert ImportsOf(u, r.id);
    hide EdgeOf, ImportsOf, Requests, Names, ReachedWithin, NoDuplicates;
    WalkCarries(p.units, q.units, last.ancestors + [u.name], entry, u.name);
    WalkGoesOn(q.units, last.ancestors + [u.name], entry, u.name, r.id);
  }

  lemma OpenRooted(limits: LoadLimits, entry: string, p: Progress, u: Unit, q: Progress)
    requires Rooted(limits, entry, p) && Added(p, u, q) && p.pending[|p.pending| - 1].depth <= limits.importDepth
    ensures Rooted(limits, entry, q)
  {
    var last, rest := p.pending[|p.pending| - 1], p.pending[..|p.pending| - 1];
    AddedEdges(p.units, u);
    hide EdgeOf, ImportsOf, Requests, WalksTo, ReachedWithin;
    assert SameEdges(p.units, q.units);
    forall r | r in q.pending ensures RequestWalks(q.units, entry, r) && r.depth <= limits.importDepth + 1 {
      if r in rest {
        assert r in p.pending && RequestWalks(p.units, entry, r);
        WalkCarries(p.units, q.units, r.ancestors + [r.id], entry, r.id);
      } else {
        NewRequestWalks(limits, entry, p, u, q, r);
      }
    }
    forall x | x in Names(q.units) ensures ReachedWithin(q.units, entry, limits.importDepth, x) {
      if x in Names(p.units) {
        ReachCarries(p.units, q.units, entry, limits.importDepth, x);
      } else {
        OpenedReached(limits, entry, p, u, q);
      }
    }
  }

  lemma OpenedReached(limits: LoadLimits, entry: string, p: Progress, u: Unit, q: Progress)
    requires Rooted(limits, entry, p) && Added(p, u, q) && p.pending[|p.pending| - 1].depth <= limits.importDepth
    ensures ReachedWithin(q.units, entry, limits.importDepth, u.name)
  {
    var last := p.pending[|p.pending| - 1];
    assert last in p.pending && RequestWalks(p.units, entry, last);
    AddedEdges(p.units, u);
    hide EdgeOf, ImportsOf, Requests;
    WalkCarries(p.units, q.units, last.ancestors + [u.name], entry, u.name);
  }

  /** Opening a source passes every test on it. */
  lemma OpenBounded(w: World, limits: LoadLimits, p: Progress, r: Request)
    requires Bounded(limits, p) && Open(w, limits, p, r).Ok?
    ensures Bounded(limits, Open(w, limits, p, r).value)
  {
    hide ByteLength, SourceIds.Parse, Identify, Requests;
  }

  lemma MarkBounded(limits: LoadLimits, p: Progress, i: nat, actor: bool, pending: seq<Request>)
    requires Bounded(limits, p) && i < |p.units|
    ensures Bounded(limits, p.(units := MarkActor(p.units, i, actor), pending := pending))
  {
    hide ByteLength;
  }

  lemma MarkKeeps(limits: LoadLimits, entry: string, p: Progress, i: nat, actor: bool)
    requires Rooted(limits, entry, p) && Bounded(limits, p) && p.pending != [] && i < |p.units|
    ensures var q := p.(units := MarkActor(p.units, i, actor), pending := p.pending[..|p.pending| - 1]);
            Rooted(limits, entry, q) && Bounded(limits, q)
  {
    hide Names, MarkActor, EdgeOf, Bounded, Rooted;
    MarkedEdges(p.units, i, actor);
    MarkRooted(limits, entry, p, MarkActor(p.units, i, actor));
    MarkBounded(limits, p, i, actor, p.pending[..|p.pending| - 1]);
  }

  lemma OpenKeeps(w: World, limits: LoadLimits, entry: string, p: Progress, rest: Progress, r: Request)
    requires Rooted(limits, entry, p) && Bounded(limits, p) && p.pending != []
    requires r == p.pending[|p.pending| - 1] && rest == p.(pending := p.pending[..|p.pending| - 1])
    requires r.depth <= limits.importDepth && r.id !in Names(p.units) && Open(w, limits, rest, r).Ok?
    ensures Rooted(limits, entry, Open(w, limits, rest, r).value) && Bounded(limits, Open(w, limits, rest, r).value)
  {
    hide Open, Names, Bounded, Rooted, Requests;
    var u := OpenAdds(w, limits, rest, r);
    OpenRooted(limits, entry, p, u, Open(w, limits, rest, r).value);
    RestBounded(limits, p, rest.pending);
    OpenBounded(w, limits, rest, r);
  }

  lemma StepKeeps(w: World, limits: LoadLimits, entry: string, p: Progress)
    requires Rooted(limits, entry, p) && Bounded(limits, p) && p.pending != [] && Step(w, limits, p).Ok?
    ensures Rooted(limits, entry, Step(w, limits, p).value) && Bounded(limits, Step(w, limits, p).value)
  {
    hide *;
    var r, rest := p.pending[|p.pending| - 1], p.(pending := p.pending[..|p.pending| - 1]);
    StepCases(w, limits, p);
    if r.id in Names(p.units) {
      MarkKeeps(limits, entry, p, IndexOf(Names(p.units), r.id), r.includeActor);
    } else {
      OpenKeeps(w, limits, entry, p, rest, r);
    }
  }

  lemma StepCases(w: World, limits: LoadLimits, p: Progress)
    requires p.pending != [] && Step(w, limits, p).Ok?
    ensures var r, rest := p.pending[|p.pending| - 1], p.(pending := p.pending[..|p.pending| - 1]);
            && r.depth <= limits.importDepth
            && (r.id in Names(p.units) ==>
                  IndexOf(Names(p.units), r.id) < |p.units|
                  && Step(w, limits, p).value == rest.(units := MarkActor(p.units, IndexOf(Names(p.units), r.id), r.includeActor)))
            && (r.id !in Names(p.units) ==> Open(w, limits, rest, r).Ok? && Step(w, limits, p) == Open(w, limits, rest, r))
  {
    hide Open, MarkActor;
  }

  lemma RestBounded(limits: LoadLimits, p: Progress, pending: seq<Request>)
    requires Bounded(limits, p)
    ensures Bounded(limits, p.(pending := pending))
  {
  }

  lemma {:induction false} RunKeeps(w: World, limits: LoadLimits, entry: string, p: Progress)
    requires Rooted(limits, entry, p) && Bounded(limits, p) && Run(w, limits, p).Ok?
    ensures Rooted(limits, entry, Run(w, limits, p).value) && Bounded(limits, Run(w, limits, p).value)
    decreases Room(limits, p), |p.pending|
  {
    hide Step, Rooted, Bounded;
    if p.pending != [] {
      StepKeeps(w, limits, entry, p);
      RunKeeps(w, limits, entry, Step(w, limits, p).value);
    }
  }

  lemma StartRooted(limits: LoadLimits, entry: string, sources: nat, bytes: nat, edges: nat)
    ensures Rooted(limits, entry, Started(entry, sources, bytes, edges)) && Bounded(limits, Started(entry, sources, bytes, edges))
  {
    assert [] + [entry] == [entry];
  }

  // ----- a load that succeeds -----

  ghost predicate SpellingsFit(limits: LoadLimits, u: Unit) {
    forall k :: 0 <= k < |u.imports| ==> ByteLength(u.imports[k].spelling) <= limits.sourceIdBytes
  }

  /** Everything loaded is within the limits, and every source is reached from
      the entry by at most as many imports as the limit allows. */
  ghost predicate WithinLimits(limits: LoadLimits, units: seq<Unit>, entry: string, sources: nat, bytes: nat, edges: nat) {
    && (forall i :: 0 <= i < |units| ==> UnitFits(limits, units[i]) && SpellingsFit(limits, units[i]))
    && (forall i :: 0 <= i < |units| ==> ReachedWithin(units, entry, limits.importDepth, units[i].name))
    && sources + |units| <= limits.sources
    && bytes + BytesOf(units) <= limits.bundleBytes
    && edges + EdgesOf(units) <= limits.importEdges
  }

  lemma {:induction false} NoLongSpelling(limits: LoadLimits, units: seq<Unit>)
    requires LongSpelling(limits, Spellings(units)).None?
    ensures forall i :: 0 <= i < |units| ==> SpellingsFit(limits, units[i])
  {
    hide ByteLength;
    if units != [] {
      var first := SpellingsOf(units[0].imports);
      ShortSpellings(limits, first, Spellings(units[1..]));
      NoLongSpelling(limits, units[1..]);
      forall k | 0 <= k < |units[0].imports| ensures ByteLength(units[0].imports[k].spelling) <= limits.sourceIdBytes {
        assert first[k] in first;
      }
      assert forall i :: 0 < i < |units| ==> units[i] == units[1..][i - 1];
    }
  }

  lemma {:induction false} ShortSpellings(limits: LoadLimits, a: seq<string>, b: seq<string>)
    requires LongSpelling(limits, a + b).None?
    ensures LongSpelling(limits, b).None? && forall x :: x in a ==> ByteLength(x) <= limits.sourceIdBytes
  {
    hide ByteLength;
    if a == [] {
      assert a + b == b;
    } else {
      assert (a + b)[0] == a[0] && (a + b)[1..] == a[1..] + b;
      ShortSpellings(limits, a[1..], b);
      assert forall x :: x in a <==> x == a[0] || x in a[1..];
    }
  }

  /** A load that succeeds is within every limit. */
  lemma LoadWithinLimits(w: World, limits: LoadLimits, entry: string, sources: nat, bytes: nat, edges: nat)
    requires Load(w, limits, entry, sources, bytes, edges).Ok?
    ensures var (units, id) := Load(w, limits, entry, sources, bytes, edges).value;
            WithinLimits(limits, units, id, sources, bytes, edges)
  {
    hide Run, ByteLength, IdentifyValid, Spellings, LongSpelling, EdgeOf, BytesOf, EdgesOf;
    var id := IdentifyValid(w, None, entry).value;
    var start := Started(id, sources, bytes, edges);
    StartRooted(limits, id, sources, bytes, edges);
    RunKeeps(w, limits, id, start);
    RunPays(w, limits, start);
    RunLoads(w, limits, start);
    var p := Run(w, limits, start).value;
    NothingPaid();
    NoLongSpelling(limits, p.units);
    forall i | 0 <= i < |p.units| ensures ReachedWithin(p.units, id, limits.importDepth, p.units[i].name) {
      assert Names(p.units)[i] in Names(p.units);
    }
  }

  lemma NothingPaid()
    ensures BytesOf([]) == 0 && EdgesOf([]) == 0
  {
  }

  /** The entry at least is loaded. */
  lemma RunLoads(w: World, limits: LoadLimits, p: Progress)
    requires p.pending != [] && p.units == [] && Run(w, limits, p).Ok?
    ensures Run(w, limits, p).value.units != []
  {
    hide Open, BytesOf, EdgesOf, Requests;
    var r, rest := p.pending[|p.pending| - 1], p.(pending := p.pending[..|p.pending| - 1]);
    assert Names(p.units) == [];
    hide Names;
    var u := OpenAdds(w, limits, rest, r);
    RunGrows(w, limits, Step(w, limits, p).value);
  }

  lemma {:induction false} RunGrows(w: World, limits: LoadLimits, p: Progress)
    requires Run(w, limits, p).Ok?
    ensures |p.units| <= |Run(w, limits, p).value.units|
    decreases Room(limits, p), |p.pending|
  {
    hide Open, Names;
    if p.pending != [] {
      var r, rest := p.pending[|p.pending| - 1], p.(pending := p.pending[..|p.pending| - 1]);
      if r.id !in Names(p.units) { var u := OpenAdds(w, limits, rest, r); }
      RunGrows(w, limits, Step(w, limits, p).value);
    }
  }

  // ----- a load that is refused -----

  /** The source is reached from the entry by a walk of imports in the world. */
  ghost predicate Meets(w: World, entry: string, x: string) {
    exists walk :: walk != [] && walk[0] == entry && walk[|walk| - 1] == x && WorldWalk(w, walk)
  }

  /** Distinct sources reached from the entry, as the world has them. */
  ghost predicate Gathered(w: World, entry: string, units: seq<Unit>) {
    && Reflects(w, units) && NoDuplicates(Names(units))
    && forall i :: 0 <= i < |units| ==> Meets(w, entry, units[i].name)
  }

  /** One more reached source, with its text. */
  ghost predicate Fetches(w: World, entry: string, x: string, text: string) {
    Meets(w, entry, x) && w.fetch(x) == Ok((x, text))
  }

  /** What the resolver identifies: the entry, or an import of a reached source. */
  ghost predicate Asked(w: World, entry: string, id: string, from: Option<string>, spelling: string) {
    match from
    case None => spelling == entry
    case Some(x) =>
      exists text :: Fetches(w, id, x, text) && w.parse(text).Ok?
        && exists k :: 0 <= k < |w.parse(text).value| && w.parse(text).value[k].0 == spelling
  }

  /** An identifier the resolver returned, for an import or with a source. */
  ghost predicate Answered(w: World, entry: string, id: string, answer: string) {
    || (exists from, spelling :: Asked(w, entry, id, from, spelling) && w.identify(from, spelling) == Ok(answer))
    || exists x, text :: Meets(w, id, x) && w.fetch(x) == Ok((answer, text))
  }

  /** Loading one more reached source takes a counter over its limit. */
  ghost predicate TooMany(w: World, limits: LoadLimits, id: string, start: Progress, resource: string, limit: nat, observed: nat) {
    exists units, x, text :: Gathered(w, id, units) && x !in Names(units) && Fetches(w, id, x, text) && limit < observed
      && ( || (resource == "sources" && limit == limits.sources && observed == start.sources + |units| + 1)
           || (resource == "bundle_bytes" && limit == limits.bundleBytes
               && observed == start.bytes + BytesOf(units) + ByteLength(text))
           || (resource == "import_edges" && limit == limits.importEdges && w.parse(text).Ok?
               && observed == start.edges + EdgesOf(units) + |w.parse(text).value|))
  }

  /** Some reached source, or the spelling of an import, is too long. */
  ghost predicate TooLong(w: World, limits: LoadLimits, entry: string, id: string, resource: string, limit: nat, observed: nat) {
    limit < observed &&
    ( || (resource == "source_bytes" && limit == limits.sourceBytes
          && exists x, text :: Fetches(w, id, x, text) && observed == ByteLength(text))
      || (resource == "source_id_bytes" && limit == limits.sourceIdBytes
          && exists x :: Meets(w, id, x) && observed == ByteLength(x))
      || (resource == "source_id_bytes" && limit == limits.sourceIdBytes
          && exists x, spelling :: Asked(w, entry, id, Some(x), spelling) && observed == ByteLength(spelling)))
  }

  /** A walk of one import more than the limit leads from the entry. */
  ghost predicate TooFar(w: World, limits: LoadLimits, id: string, resource: string, limit: nat, observed: nat) {
    && resource == "import_depth" && limit == limits.importDepth && observed == limit + 1
    && exists walk :: |walk| == observed + 1 && walk[0] == id && WorldWalk(w, walk)
  }

  ghost predicate Exceeds(w: World, limits: LoadLimits, entry: string, id: string, start: Progress,
                          resource: string, limit: nat, observed: nat)
  {
    || TooFar(w, limits, id, resource, limit, observed)
    || TooMany(w, limits, id, start, resource, limit, observed)
    || TooLong(w, limits, entry, id, resource, limit, observed)
  }

  /** The sources reached from the entry have what the error says. */
  ghost predicate Blames(w: World, limits: LoadLimits, entry: string, id: string, start: Progress, e: LoadError) {
    match e
    case Unresolved(code) =>
      || (exists from, spelling :: Asked(w, entry, id, from, spelling) && w.identify(from, spelling) == Err(code))
      || exists x :: Meets(w, id, x) && w.fetch(x) == Err(code)
    case Unparsed(code) => exists x, text :: Fetches(w, id, x, text) && w.parse(text) == Err(code)
    case BadId(reason) => exists answer :: Answered(w, entry, id, answer) && SourceIds.Parse(answer) == Err(reason)
    case NonCanonicalId(answer) =>
      Answered(w, entry, id, answer) && SourceIds.Parse(answer).Ok? && SourceIds.Parse(answer) != Ok(answer)
    case IdentityMismatch(x, found) => Meets(w, id, x) && found != x && exists text :: w.fetch(x) == Ok((found, text))
    case ImportCycle(x) => exists walk :: walk != [] && walk[0] == id && x in walk && WorldWalk(w, walk + [x])
    case OverLimit(ResourceLimit(resource, limit, observed)) =>
      Exceeds(w, limits, entry, id, start, resource, limit, observed)
  }

  /** Walks of imports between units are walks in the world. */
  lemma UnitsWalkWorld(w: World, units: seq<Unit>, walk: seq<string>)
    requires Reflects(w, units) && ImportWalk(units, walk)
    ensures WorldWalk(w, walk)
  {
    hide Reflects, WorldEdge, ImportsOf;
    forall i | 0 <= i < |walk| - 1 ensures WorldEdge(w, walk[i], walk[i + 1]) {
      assert EdgeOf(units, walk[i], walk[i + 1]);
      var j :| 0 <= j < |units| && units[j].name == walk[i] && ImportsOf(units[j], walk[i + 1]);
      assert Names(units)[j] in Names(units);
      EdgeInWorld(w, units, walk[i], walk[i + 1]);
    }
  }

  lemma UnitsGathered(w: World, limits: LoadLimits, entry: string, p: Progress)
    requires Rooted(limits, entry, p) && Reflects(w, p.units)
    ensures Gathered(w, entry, p.units)
  {
    hide Reflects, WorldWalk, ImportWalk;
    forall i | 0 <= i < |p.units| ensures Meets(w, entry, p.units[i].name) {
      var x := p.units[i].name;
      assert Names(p.units)[i] in Names(p.units);
      var walk :| WalksTo(p.units, walk, entry, x) && |walk| - 1 <= limits.importDepth;
      UnitsWalkWorld(w, p.units, walk);
    }
  }

  lemma RequestMeets(w: World, limits: LoadLimits, entry: string, p: Progress, r: Request)
    requires Rooted(limits, entry, p) && Reflects(w, p.units) && r in p.pending
    ensures r.depth == |r.ancestors| <= limits.importDepth + 1
    ensures WorldWalk(w, r.ancestors + [r.id]) && (r.ancestors + [r.id])[0] == entry
    ensures Meets(w, entry, r.id)
  {
    hide Reflects, WorldWalk, ImportWalk;
    assert RequestWalks(p.units, entry, r);
    UnitsWalkWorld(w, p.units, r.ancestors + [r.id]);
  }

  lemma IdentifyValidRefuses(w: World, limits: LoadLimits, entry: string, id: string, start: Progress,
                             from: Option<string>, spelling: string)
    requires IdentifyValid(w, from, spelling).Err? && Asked(w, entry, id, from, spelling)
    ensures Blames(w, limits, entry, id, start, IdentifyValid(w, from, spelling).error)
  {
    hide SourceIds.Parse, Asked;
    var answer := w.identify(from, spelling);
    if answer.Ok? { assert Answered(w, entry, id, answer.value); }
  }

  lemma {:induction false} IdentifyRefuses(w: World, from: string, imports: seq<(string, ImportKind)>) returns (k: nat)
    requires Identify(w, from, imports).Err?
    ensures k < |imports| && IdentifyValid(w, Some(from), imports[k].0) == Err(Identify(w, from, imports).error)
  {
    hide IdentifyValid;
    if IdentifyValid(w, Some(from), imports[0].0).Err? {
      k := 0;
    } else {
      k := IdentifyRefuses(w, from, imports[1..]);
      k := k + 1;
    }
  }

  /** Accepting the text would take a counter over its limit, or is too long. */
  lemma AcceptRefuses(w: World, limits: LoadLimits, entry: string, id: string, start: Progress, p: Progress, x: string, text: string)
    requires Gathered(w, id, p.units) && x !in Names(p.units) && Fetches(w, id, x, text)
    requires start.units == [] && PaidFor(start, p) && Accept(limits, p, x, text).Err?
    ensures Blames(w, limits, entry, id, start, Accept(limits, p, x, text).error)
  {
    hide ByteLength, Gathered, Names, BytesOf, EdgesOf, Meets, Exceeds, TooFar, TooMany, TooLong, PaidFor, WorldWalk;
    if ByteLength(text) > limits.sourceBytes {
      LongText(w, limits, entry, id, x, text);
      Over(w, limits, entry, id, start, "source_bytes", limits.sourceBytes, ByteLength(text));
    } else {
      OneTooMany(w, limits, id, start, p, x, text);
      if p.sources + 1 > limits.sources {
        Over(w, limits, entry, id, start, "sources", limits.sources, p.sources + 1);
      } else if p.bytes + ByteLength(text) > limits.bundleBytes {
        Over(w, limits, entry, id, start, "bundle_bytes", limits.bundleBytes, p.bytes + ByteLength(text));
      } else {
        LongName(w, limits, entry, id, x);
        Over(w, limits, entry, id, start, "source_id_bytes", limits.sourceIdBytes, ByteLength(x));
      }
    }
  }

  lemma Over(w: World, limits: LoadLimits, entry: string, id: string, start: Progress, resource: string, limit: nat, observed: nat)
    requires TooMany(w, limits, id, start, resource, limit, observed) || TooLong(w, limits, entry, id, resource, limit, observed)
    ensures Exceeds(w, limits, entry, id, start, resource, limit, observed)
  {
  }

  lemma LongText(w: World, limits: LoadLimits, entry: string, id: string, x: string, text: string)
    requires Fetches(w, id, x, text) && ByteLength(text) > limits.sourceBytes
    ensures TooLong(w, limits, entry, id, "source_bytes", limits.sourceBytes, ByteLength(text))
  {
    hide ByteLength, Fetches, Asked, Meets;
  }

  lemma LongName(w: World, limits: LoadLimits, entry: string, id: string, x: string)
    requires Meets(w, id, x) && ByteLength(x) > limits.sourceIdBytes
    ensures TooLong(w, limits, entry, id, "source_id_bytes", limits.sourceIdBytes, ByteLength(x))
  {
    hide ByteLength, Fetches, Asked, Meets;
  }

  lemma OneTooMany(w: World, limits: LoadLimits, id: string, start: Progress, p: Progress, x: string, text: string)
    requires Gathered(w, id, p.units) && x !in Names(p.units) && Fetches(w, id, x, text)
    requires start.units == [] && PaidFor(start, p)
    ensures p.sources + 1 > limits.sources ==> TooMany(w, limits, id, start, "sources", limits.sources, p.sources + 1)
    ensures p.bytes + ByteLength(text) > limits.bundleBytes ==>
              TooMany(w, limits, id, start, "bundle_bytes", limits.bundleBytes, p.bytes + ByteLength(text))
  {
    NothingPaid();
    hide ByteLength, Gathered, Names, BytesOf, EdgesOf, Fetches;
  }

  lemma ReadRefuses(w: World, limits: LoadLimits, entry: string, id: string, start: Progress, p: Progress, q: Progress,
                    r: Request, text: string)
    requires Gathered(w, id, p.units) && r.id !in Names(p.units) && Fetches(w, id, r.id, text)
    requires start.units == [] && PaidFor(start, p) && q.edges == p.edges && ReadImports(w, limits, q, r, r.id, text).Err?
    ensures Blames(w, limits, entry, id, start, ReadImports(w, limits, q, r, r.id, text).error)
  {
    hide ByteLength, Gathered, Names, Identify, IdentifyValid, Requests, Meets;
    NothingPaid();
    hide BytesOf, EdgesOf;
    var parsed := w.parse(text);
    if parsed.Ok? && p.edges + |parsed.value| <= limits.importEdges {
      var k := IdentifyRefuses(w, r.id, parsed.value);
      assert Asked(w, entry, id, Some(r.id), parsed.value[k].0);
      IdentifyValidRefuses(w, limits, entry, id, start, Some(r.id), parsed.value[k].0);
    }
  }

  lemma OpenRefuses(w: World, limits: LoadLimits, entry: string, id: string, start: Progress, p: Progress, r: Request)
    requires Gathered(w, id, p.units) && r.id !in Names(p.units) && Meets(w, id, r.id)
    requires start.units == [] && PaidFor(start, p) && Open(w, limits, p, r).Err?
    ensures Blames(w, limits, entry, id, start, Open(w, limits, p, r).error)
  {
    hide ByteLength, Gathered, Names, Accept, ReadImports, Meets, SourceIds.Parse, PaidFor, TooFar, TooLong, TooMany;
    var resolved := w.fetch(r.id);
    if resolved.Ok? {
      var (found, text) := resolved.value;
      if ValidateId(found).Err? {
        assert Answered(w, entry, id, found);
      } else if found == r.id {
        assert Fetches(w, id, found, text);
        var accepted := Accept(limits, p, found, text);
        if accepted.Err? {
          AcceptRefuses(w, limits, entry, id, start, p, found, text);
        } else {
          ReadRefuses(w, limits, entry, id, start, p, accepted.value, r, text);
        }
      }
    }
  }

  /** A request past the depth limit was made along a walk one import too long. */
  lemma DeepRefuses(w: World, limits: LoadLimits, entry: string, id: string, start: Progress, r: Request)
    requires r.depth == |r.ancestors| == limits.importDepth + 1
    requires WorldWalk(w, r.ancestors + [r.id]) && (r.ancestors + [r.id])[0] == id
    ensures Blames(w, limits, entry, id, start, OverBy("import_depth", limits.importDepth, r.depth))
  {
    hide WorldWalk, TooMany, TooLong;
    assert |r.ancestors + [r.id]| == r.depth + 1;
  }

  lemma StepRefuses(w: World, limits: LoadLimits, entry: string, id: string, start: Progress, p: Progress)
    requires Rooted(limits, id, p) && Reflects(w, p.units) && start.units == [] && PaidFor(start, p)
    requires p.pending != [] && Step(w, limits, p).Err?
    ensures Blames(w, limits, entry, id, start, Step(w, limits, p).error)
  {
    var r, rest := p.pending[|p.pending| - 1], p.(pending := p.pending[..|p.pending| - 1]);
    assert r in p.pending && PaidFor(start, rest);
    hide Open, Names, MarkActor, Meets, Gathered, Rooted, Reflects, WorldWalk, Blames, PaidFor;
    RequestMeets(w, limits, id, p, r);
    UnitsGathered(w, limits, id, p);
    if r.depth > limits.importDepth {
      DeepRefuses(w, limits, entry, id, start, r);
    } else if r.id in r.ancestors {
      CycleRefuses(w, limits, entry, id, start, r);
    } else {
      OpenRefuses(w, limits, entry, id, start, rest, r);
    }
  }

  lemma CycleRefuses(w: World, limits: LoadLimits, entry: string, id: string, start: Progress, r: Request)
    requires r.id in r.ancestors && WorldWalk(w, r.ancestors + [r.id]) && (r.ancestors + [r.id])[0] == id
    ensures Blames(w, limits, entry, id, start, ImportCycle(r.id))
  {
    hide WorldWalk;
    assert r.ancestors[0] == (r.ancestors + [r.id])[0];
  }

  lemma {:induction false} RunRefuses(w: World, limits: LoadLimits, entry: string, id: string, start: Progress, p: Progress)
    requires Rooted(limits, id, p) && Bounded(limits, p) && Reflects(w, p.units) && start.units == [] && PaidFor(start, p)
    requires Run(w, limits, p).Err?
    ensures Blames(w, limits, entry, id, start, Run(w, limits, p).error)
    decreases Room(limits, p), |p.pending|
  {
    hide Step, Rooted, Bounded, Reflects, Blames, BytesOf, EdgesOf;
    if Step(w, limits, p).Err? {
      StepRefuses(w, limits, entry, id, start, p);
    } else {
      StepKeeps(w, limits, id, p);
      StepPays(w, limits, p);
      StepReflects(w, limits, p);
      RunRefuses(w, limits, entry, id, start, Step(w, limits, p).value);
    }
  }

  lemma StepReflects(w: World, limits: LoadLimits, p: Progress)
    requires Reflects(w, p.units) && p.pending != [] && Step(w, limits, p).Ok?
    ensures Reflects(w, Step(w, limits, p).value.units)
  {
    hide Reflects, Open, Names, MarkActor;
    var r, rest := p.pending[|p.pending| - 1], p.(pending := p.pending[..|p.pending| - 1]);
    if r.id in Names(p.units) {
      MarkReflects(w, p.units, IndexOf(Names(p.units), r.id), r.includeActor);
    } else {
      var u := OpenAdds(w, limits, rest, r);
      OpenReflects(w, limits, rest, r, u);
    }
  }

  lemma {:induction false} SpellingsKept(w: World, from: string, imports: seq<(string, ImportKind)>)
    requires Identify(w, from, imports).Ok?
    ensures forall k :: 0 <= k < |imports| ==> Identify(w, from, imports).value[k].spelling == imports[k].0
  {
    hide IdentifyValid;
    if imports != [] { SpellingsKept(w, from, imports[1..]); }
  }

  lemma {:induction false} LongFound(limits: LoadLimits, units: seq<Unit>) returns (i: nat, k: nat)
    requires LongSpelling(limits, Spellings(units)).Some?
    ensures i < |units| && k < |units[i].imports|
    ensures LongSpelling(limits, Spellings(units)) == Some(units[i].imports[k].spelling)
    ensures ByteLength(units[i].imports[k].spelling) > limits.sourceIdBytes
  {
    hide ByteLength;
    var first, later := SpellingsOf(units[0].imports), Spellings(units[1..]);
    var m := LongAt(limits, first + later);
    if m < |first| {
      assert (first + later)[m] == first[m];
      i, k := 0, m;
    } else {
      LongLater(limits, first, later, m);
      i, k := LongFound(limits, units[1..]);
      i := i + 1;
    }
  }

  /** Where the first long spelling stands. */
  lemma {:induction false} LongAt(limits: LoadLimits, s: seq<string>) returns (m: nat)
    requires LongSpelling(limits, s).Some?
    ensures m < |s| && LongSpelling(limits, s) == Some(s[m]) && ByteLength(s[m]) > limits.sourceIdBytes
    ensures forall h :: 0 <= h < m ==> ByteLength(s[h]) <= limits.sourceIdBytes
  {
    hide ByteLength;
    if ByteLength(s[0]) > limits.sourceIdBytes {
      m := 0;
    } else {
      m := LongAt(limits, s[1..]);
      m := m + 1;
      assert forall h :: 0 < h < m ==> s[h] == s[1..][h - 1];
    }
  }

  lemma {:induction false} LongLater(limits: LoadLimits, a: seq<string>, b: seq<string>, m: nat)
    requires |a| <= m < |a + b| && forall h :: 0 <= h < m ==> ByteLength((a + b)[h]) <= limits.sourceIdBytes
    ensures LongSpelling(limits, a + b) == LongSpelling(limits, b)
  {
    hide ByteLength;
    if a == [] {
      assert a + b == b;
    } else {
      assert (a + b)[0] == a[0] && (a + b)[1..] == a[1..] + b;
      assert forall h :: 0 <= h < m - 1 ==> (a[1..] + b)[h] == (a + b)[h + 1];
      LongLater(limits, a[1..], b, m - 1);
    }
  }

  lemma FinishRefuses(w: World, limits: LoadLimits, entry: string, id: string, start: Progress, p: Progress)
    requires Rooted(limits, id, p) && Reflects(w, p.units) && Finish(limits, p, id).Err?
    ensures Blames(w, limits, entry, id, start, Finish(limits, p, id).error)
  {
    hide ByteLength, SourceIds.Parse, LongSpelling, Spellings, TooFar, TooMany, Identify, WorldWalk;
    UnitsGathered(w, limits, id, p);
    var i, k := LongFound(limits, p.units);
    var u := p.units[i];
    assert ReadSource(w, u.name) == Some((u.source, u.imports));
    SpellingsKept(w, u.name, w.parse(u.source).value);
    assert Fetches(w, id, u.name, u.source);
    assert w.parse(u.source).value[k].0 == u.imports[k].spelling;
    assert Asked(w, entry, id, Some(u.name), u.imports[k].spelling);
  }

  /** Every refusal is for something the sources reached from the entry really
      have; one for the import depth comes with a walk one import too long. */
  lemma RefusalsAreReal(w: World, limits: LoadLimits, entry: string, sources: nat, bytes: nat, edges: nat)
    requires Load(w, limits, entry, sources, bytes, edges).Err?
    ensures var id := if IdentifyValid(w, None, entry).Ok? then IdentifyValid(w, None, entry).value else entry;
            Blames(w, limits, entry, id, Started(id, sources, bytes, edges), Load(w, limits, entry, sources, bytes, edges).error)
  {
    hide Run, Blames, IdentifyValid, Finish, BytesOf, EdgesOf;
    var found := IdentifyValid(w, None, entry);
    if found.Err? {
      IdentifyValidRefuses(w, limits, entry, entry, Started(entry, sources, bytes, edges), None, entry);
    } else {
      var id := found.value;
      var start := Started(id, sources, bytes, edges);
      StartRooted(limits, id, sources, bytes, edges);
      assert Reflects(w, start.units);
      if Run(w, limits, start).Err? {
        RunRefuses(w, limits, entry, id, start, start);
      } else {
        RunKeeps(w, limits, id, start);
        RunReflects(w, limits, start);
        FinishRefuses(w, limits, entry, id, start, Run(w, limits, start).value);
      }
    }
  }
}
