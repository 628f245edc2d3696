/** What a finished load guarantees: every imported source is loaded, no source
    imports itself through others, and each unit's actor is kept exactly when
    the entry or some service import asks for it. */
module LoadedGraph {
  import opened Wrappers
  import opened Sorting
  import opened Loading
  import SourceIds

  // ----- the import graph -----

  ghost predicate ImportsOf(u: Unit, y: string) {
    exists k :: 0 <= k < |u.imports| && u.imports[k].target == y
  }

  /** The loaded source `x` imports `y`. */
  ghost predicate EdgeOf(units: seq<Unit>, x: string, y: string) {
    exists i :: 0 <= i < |units| && units[i].name == x && ImportsOf(units[i], y)
  }

  /** A list of all units in which every unit comes after what it imports. */
  ghost predicate Topological(units: seq<Unit>, order: seq<string>) {
    && NoDuplicates(order)
    && (forall x :: x in order <==> x in Names(units))
    && Retired(units, order)
  }

  ghost predicate Retired(units: seq<Unit>, order: seq<string>) {
    forall b, y :: 0 <= b < |order| && EdgeOf(units, order[b], y) ==> y in order[..b]
  }

  ghost predicate ImportWalk(units: seq<Unit>, p: seq<string>) {
    forall i :: 0 <= i < |p| - 1 ==> EdgeOf(units, p[i], p[i + 1])
  }

  // ----- the invariant of the walk -----

  ghost predicate Awaits(pending: seq<Request>, y: string, depth: nat) {
    exists r :: r in pending && r.id == y && |r.ancestors| == depth
  }

  /** A request was made by the source its ancestors end in. */
  ghost predicate RequestOk(units: seq<Unit>, entry: string, path: seq<string>, r: Request) {
    && |r.ancestors| <= |path| && r.ancestors == path[..|r.ancestors|]
    && if r.ancestors == [] then r.id == entry else EdgeOf(units, r.ancestors[|r.ancestors| - 1], r.id)
  }

  /** Requests lie on the stack with their ancestors getting longer. */
  ghost predicate Nested(pending: seq<Request>) {
    forall i, j :: 0 <= i < j < |pending| ==> |pending[i].ancestors| <= |pending[j].ancestors|
  }

  /** Loaded sources are split into those on the current path of imports and
      those retired from it. */
  ghost predicate Placed(units: seq<Unit>, path: seq<string>, black: seq<string>) {
    && NoDuplicates(Names(units)) && NoDuplicates(path) && NoDuplicates(black)
    && (forall x :: x in Names(units) <==> x in path || x in black)
    && forall x :: x in path ==> x !in black
  }

  /** What a source on the path imports is retired, next on the path, or still
      awaited. */
  ghost predicate Expanding(units: seq<Unit>, pending: seq<Request>, path: seq<string>, black: seq<string>) {
    forall i, y :: 0 <= i < |path| && EdgeOf(units, path[i], y) ==>
      y in black || (i + 1 < |path| && path[i + 1] == y) || Awaits(pending, y, i + 1)
  }

  ghost predicate Walking(entry: string, p: Progress, path: seq<string>, black: seq<string>) {
    && Placed(p.units, path, black)
    && Retired(p.units, black)
    && Nested(p.pending)
    && (forall r :: r in p.pending ==> RequestOk(p.units, entry, path, r))
    && (path != [] ==> path[0] == entry)
    && ImportWalk(p.units, path)
    && Expanding(p.units, p.pending, path, black)
  }

  /** The deepest source of the path retires once nothing it imports is
      awaited. */
  lemma RetireLast(entry: string, p: Progress, path: seq<string>, black: seq<string>)
    requires Walking(entry, p, path, black) && path != []
    requires forall r :: r in p.pending ==> |r.ancestors| < |path|
    ensures Walking(entry, p, path[..|path| - 1], black + [path[|path| - 1]])
  {
    hide EdgeOf;
    var n := |path| - 1;
    var x, shorter, more := path[n], path[..n], black + [path[n]];
    assert path == shorter + [x];
    forall y | EdgeOf(p.units, x, y) ensures y in black {
      assert !Awaits(p.pending, y, n + 1);
    }
    forall b, y | 0 <= b < |more| && EdgeOf(p.units, more[b], y) ensures y in more[..b] {
      assert more[..b] == if b < |black| then black[..b] else black;
    }
    forall r | r in p.pending ensures RequestOk(p.units, entry, shorter, r) {
      assert RequestOk(p.units, entry, path, r);
    }
    forall i, y | 0 <= i < |shorter| && EdgeOf(p.units, shorter[i], y)
      ensures y in more || (i + 1 < |shorter| && shorter[i + 1] == y) || Awaits(p.pending, y, i + 1)
    {
      assert EdgeOf(p.units, path[i], y);
    }
    assert x !in black && x !in shorter;
  }

  lemma MarkedEdges(units: seq<Unit>, i: nat, actor: bool)
    requires i < |units|
    ensures Names(MarkActor(units, i, actor)) == Names(units)
    ensures forall x, y :: EdgeOf(MarkActor(units, i, actor), x, y) <==> EdgeOf(units, x, y)
  {
    var marked := MarkActor(units, i, actor);
    assert Names(marked) == Names(units);
    forall x, y ensures EdgeOf(marked, x, y) <==> EdgeOf(units, x, y) {
      if EdgeOf(units, x, y) {
        var j :| 0 <= j < |units| && units[j].name == x && ImportsOf(units[j], y);
        assert marked[j].name == x && marked[j].imports == units[j].imports;
        assert ImportsOf(marked[j], y);
      }
      if EdgeOf(marked, x, y) {
        var j :| 0 <= j < |marked| && marked[j].name == x && ImportsOf(marked[j], y);
        assert units[j].name == x && marked[j].imports == units[j].imports;
        assert ImportsOf(units[j], y);
      }
    }
  }

  lemma AddedEdges(units: seq<Unit>, u: Unit)
    ensures Names(units + [u]) == Names(units) + [u.name]
    ensures forall x, y :: EdgeOf(units + [u], x, y) <==> EdgeOf(units, x, y) || (x == u.name && ImportsOf(u, y))
  {
    hide ImportsOf;
    var more := units + [u];
    forall x, y ensures EdgeOf(more, x, y) <==> EdgeOf(units, x, y) || (x == u.name && ImportsOf(u, y)) {
      if EdgeOf(units, x, y) {
        var j :| 0 <= j < |units| && units[j].name == x && ImportsOf(units[j], y);
        assert more[j] == units[j];
      }
      if x == u.name && ImportsOf(u, y) { assert more[|units|] == u; }
    }
  }

  /** Asking again for a source that is loaded and not on the path. */
  lemma WalkMarks(entry: string, p: Progress, path: seq<string>, black: seq<string>, units: seq<Unit>)
    requires Walking(entry, p, path, black) && p.pending != []
    requires var r := p.pending[|p.pending| - 1]; r.ancestors == path && r.id !in path && r.id in Names(p.units)
    requires Names(units) == Names(p.units) && forall x, y :: EdgeOf(units, x, y) <==> EdgeOf(p.units, x, y)
    ensures Walking(entry, p.(units := units, pending := p.pending[..|p.pending| - 1]), path, black)
  {
    hide EdgeOf;
    var last, rest := p.pending[|p.pending| - 1], p.pending[..|p.pending| - 1];
    assert forall r :: r in p.pending <==> r == last || r in rest;
    forall i, y | 0 <= i < |path| && EdgeOf(units, path[i], y)
      ensures y in black || (i + 1 < |path| && path[i + 1] == y) || Awaits(rest, y, i + 1)
    {
      assert EdgeOf(p.units, path[i], y);
      if y != last.id && Awaits(p.pending, y, i + 1) {
        var r :| r in p.pending && r.id == y && |r.ancestors| == i + 1;
        assert r in rest;
      }
    }
    forall r | r in rest ensures RequestOk(units, entry, path, r) { assert RequestOk(p.units, entry, path, r); }
  }

  lemma RequestMembers(imports: seq<Import>, depth: nat, ancestors: seq<string>)
    ensures var rs := Requests(imports, depth, ancestors);
            && (forall r :: r in rs ==> r.ancestors == ancestors)
            && forall k :: 0 <= k < |imports| ==>
                 Request(imports[k].target, imports[k].kind.ServiceImport?, depth, ancestors) in rs
  {
    var rs := Requests(imports, depth, ancestors);
    forall k | 0 <= k < |imports|
      ensures Request(imports[k].target, imports[k].kind.ServiceImport?, depth, ancestors) in rs
    {
      assert rs[|imports| - 1 - k] == Request(imports[k].target, imports[k].kind.ServiceImport?, depth, ancestors);
    }
  }

  lemma RequestTargets(imports: seq<Import>, depth: nat, ancestors: seq<string>, r: Request) returns (k: nat)
    requires r in Requests(imports, depth, ancestors)
    ensures k < |imports| && r == Request(imports[k].target, imports[k].kind.ServiceImport?, depth, ancestors)
  {
    var i: nat :| i < |imports| && Requests(imports, depth, ancestors)[i] == r;
    k := |imports| - 1 - i;
  }

  ghost predicate Opening(p: Progress, path: seq<string>, u: Unit, q: Progress, depth: nat) {
    && p.pending != []
    && p.pending[|p.pending| - 1].ancestors == path && p.pending[|p.pending| - 1].id == u.name
    && u.name !in Names(p.units)
    && q.units == p.units + [u]
    && q.pending == p.pending[..|p.pending| - 1] + Requests(u.imports, depth, path + [u.name])
  }

  lemma RequestsAfterOpening(entry: string, p: Progress, path: seq<string>, black: seq<string>, u: Unit, q: Progress, depth: nat)
    requires Walking(entry, p, path, black) && Opening(p, path, u, q, depth)
    ensures forall r :: r in q.pending ==> RequestOk(q.units, entry, path + [u.name], r)
  {
    var rest, longer := p.pending[..|p.pending| - 1], path + [u.name];
    var asked := Requests(u.imports, depth, longer);
    AddedEdges(p.units, u);
    RequestMembers(u.imports, depth, longer);
    hide EdgeOf, Requests, Placed, Retired, Expanding, Nested;
    assert forall r :: r in q.pending <==> r in rest || r in asked;
    assert forall r :: r in rest ==> r in p.pending;
    forall r | r in q.pending ensures RequestOk(q.units, entry, longer, r) {
      if r in rest {
        assert RequestOk(p.units, entry, path, r);
        assert longer[..|r.ancestors|] == path[..|r.ancestors|];
      } else {
        var k := RequestTargets(u.imports, depth, longer, r);
        assert ImportsOf(u, r.id);
      }
    }
  }

  /** What a source already on the path imports stays accounted for. */
  lemma PathStaysExpanding(entry: string, p: Progress, path: seq<string>, black: seq<string>, u: Unit, q: Progress, depth: nat,
                           i: nat, y: string)
    requires Walking(entry, p, path, black) && Opening(p, path, u, q, depth) && i < |path| && EdgeOf(p.units, path[i], y)
    ensures y in black || (path + [u.name])[i + 1] == y || Awaits(q.pending, y, i + 1)
  {
    hide EdgeOf, Requests, Retired, RequestOk, Nested, Placed, ImportWalk;
    var last, rest := p.pending[|p.pending| - 1], p.pending[..|p.pending| - 1];
    if Awaits(p.pending, y, i + 1) {
      var r :| r in p.pending && r.id == y && |r.ancestors| == i + 1;
      if r != last {
        assert r in rest;
        assert r in q.pending;
      }
    }
  }

  /** What the new source imports is asked for. */
  lemma NewIsExpanding(p: Progress, path: seq<string>, u: Unit, q: Progress, depth: nat, y: string)
    requires Opening(p, path, u, q, depth) && ImportsOf(u, y)
    ensures Awaits(q.pending, y, |path| + 1)
  {
    var longer := path + [u.name];
    RequestMembers(u.imports, depth, longer);
    hide Requests;
    var k :| 0 <= k < |u.imports| && u.imports[k].target == y;
    assert Request(u.imports[k].target, u.imports[k].kind.ServiceImport?, depth, longer) in q.pending;
  }

  lemma ExpandingAfterOpening(entry: string, p: Progress, path: seq<string>, black: seq<string>, u: Unit, q: Progress, depth: nat)
    requires Walking(entry, p, path, black) && Opening(p, path, u, q, depth)
    ensures Expanding(q.units, q.pending, path + [u.name], black)
  {
    var longer := path + [u.name];
    AddedEdges(p.units, u);
    hide EdgeOf, Requests, Retired, RequestOk, Nested, Awaits, ImportWalk, ImportsOf;
    forall i, y | 0 <= i < |longer| && EdgeOf(q.units, longer[i], y)
      ensures y in black || (i + 1 < |longer| && longer[i + 1] == y) || Awaits(q.pending, y, i + 1)
    {
      if i < |path| {
        assert path[i] in path && EdgeOf(p.units, path[i], y);
        PathStaysExpanding(entry, p, path, black, u, q, depth, i, y);
      } else {
        NoEdgeOut(p.units, u.name, y);
        NewIsExpanding(p, path, u, q, depth, y);
      }
    }
  }

  lemma PathAfterOpening(entry: string, p: Progress, path: seq<string>, black: seq<string>, u: Unit, q: Progress, depth: nat)
    requires Walking(entry, p, path, black) && Opening(p, path, u, q, depth)
    ensures ImportWalk(q.units, path + [u.name]) && (path + [u.name])[0] == entry
  {
    var last, longer := p.pending[|p.pending| - 1], path + [u.name];
    AddedEdges(p.units, u);
    hide EdgeOf, Requests, Placed, Retired, Expanding, Nested;
    assert last in p.pending && RequestOk(p.units, entry, path, last);
  }

  /** Loading a source extends the path by it. */
  lemma WalkOpens(entry: string, p: Progress, path: seq<string>, black: seq<string>, u: Unit, q: Progress, depth: nat)
    requires Walking(entry, p, path, black) && Opening(p, path, u, q, depth)
    ensures Walking(entry, q, path + [u.name], black)
  {
    RequestsAfterOpening(entry, p, path, black, u, q, depth);
    ExpandingAfterOpening(entry, p, path, black, u, q, depth);
    PathAfterOpening(entry, p, path, black, u, q, depth);
    RequestMembers(u.imports, depth, path + [u.name]);
    NestedOpens(p.pending, Requests(u.imports, depth, path + [u.name]), path);
    PlacedOpens(p.units, path, black, u);
    RetiredOpens(p.units, path, black, u);
    hide Placed, Retired, Nested, RequestOk, ImportWalk, Expanding, Requests, Names;
  }

  lemma NoEdgeOut(units: seq<Unit>, x: string, y: string)
    requires x !in Names(units)
    ensures !EdgeOf(units, x, y)
  {
    forall j | 0 <= j < |units| ensures units[j].name != x { assert Names(units)[j] in Names(units); }
  }

  lemma NestedOpens(pending: seq<Request>, asked: seq<Request>, path: seq<string>)
    requires Nested(pending) && pending != [] && pending[|pending| - 1].ancestors == path
    requires forall r :: r in asked ==> |r.ancestors| == |path| + 1
    ensures Nested(pending[..|pending| - 1] + asked)
  {
    var rest := pending[..|pending| - 1];
    var all := rest + asked;
    forall i, j | 0 <= i < j < |all| ensures |all[i].ancestors| <= |all[j].ancestors| {
      if j >= |rest| { assert all[j] == asked[j - |rest|]; }
      if i >= |rest| { assert all[i] == asked[i - |rest|]; }
    }
  }

  lemma PlacedOpens(units: seq<Unit>, path: seq<string>, black: seq<string>, u: Unit)
    requires Placed(units, path, black) && u.name !in Names(units)
    ensures Placed(units + [u], path + [u.name], black)
  {
    assert Names(units + [u]) == Names(units) + [u.name];
  }

  lemma RetiredOpens(units: seq<Unit>, path: seq<string>, black: seq<string>, u: Unit)
    requires Placed(units, path, black) && u.name !in Names(units) && Retired(units, black)
    ensures Retired(units + [u], black)
  {
    AddedEdges(units, u);
    hide EdgeOf;
    forall b, y | 0 <= b < |black| && EdgeOf(units + [u], black[b], y) ensures y in black[..b] {
      assert black[b] in black && black[b] in Names(units);
    }
  }

  lemma ReadAdds(w: World, limits: LoadLimits, p: Progress, r: Request, id: string, source: string) returns (u: Unit)
    requires ReadImports(w, limits, p, r, id, source).Ok?
    ensures u.name == id && u.includeActor == r.includeActor
    ensures var q := ReadImports(w, limits, p, r, id, source).value;
            && q.units == p.units + [u]
            && q.pending == p.pending + Requests(u.imports, r.depth + 1, r.ancestors + [u.name])
  {
    hide Identify, Requests;
    u := Unit(id, source, Identify(w, id, w.parse(source).value).value, r.includeActor);
  }

  /** What an opened source adds. */
  lemma OpenAdds(w: World, limits: LoadLimits, p: Progress, r: Request) returns (u: Unit)
    requires Open(w, limits, p, r).Ok?
    ensures u.name == r.id && u.includeActor == r.includeActor
    ensures var q := Open(w, limits, p, r).value;
            && q.units == p.units + [u]
            && q.pending == p.pending + Requests(u.imports, r.depth + 1, r.ancestors + [u.name])
  {
    hide Accept, ReadImports, ValidateId, Requests;
    var (id, source) := w.fetch(r.id).value;
    u := ReadAdds(w, limits, Accept(limits, p, id, source).value, r, id, source);
  }

  /** The finished load has a topological order of its imports, so it holds no
      import cycle. */
  lemma {:induction false} RunOrders(w: World, limits: LoadLimits, entry: string, p: Progress,
                                     path: seq<string>, black: seq<string>) returns (order: seq<string>)
    requires Walking(entry, p, path, black) && Run(w, limits, p).Ok?
    ensures Topological(Run(w, limits, p).value.units, order)
    decreases Room(limits, p), |p.pending|, |path|
  {
    hide EdgeOf, Walking, Open, Names, MarkActor, Retired;
    if path != [] && (p.pending == [] || |p.pending[|p.pending| - 1].ancestors| < |path|) {
      ShorterRequests(entry, p, path, black);
      RetireLast(entry, p, path, black);
      order := RunOrders(w, limits, entry, p, path[..|path| - 1], black + [path[|path| - 1]]);
    } else if p.pending == [] {
      AllRetired(entry, p, black);
      order := black;
    } else {
      TopIsPath(entry, p, path, black);
      var r := p.pending[|p.pending| - 1];
      var next := Step(w, limits, p).value;
      if r.id in Names(p.units) {
        var i := IndexOf(Names(p.units), r.id);
        MarkedEdges(p.units, i, r.includeActor);
        WalkMarks(entry, p, path, black, MarkActor(p.units, i, r.includeActor));
        order := RunOrders(w, limits, entry, next, path, black);
      } else {
        var u := OpenAdds(w, limits, p.(pending := p.pending[..|p.pending| - 1]), r);
        WalkOpens(entry, p, path, black, u, next, r.depth + 1);
        order := RunOrders(w, limits, entry, next, path + [u.name], black);
      }
    }
  }

  lemma ShorterRequests(entry: string, p: Progress, path: seq<string>, black: seq<string>)
    requires Walking(entry, p, path, black)
    requires p.pending == [] || |p.pending[|p.pending| - 1].ancestors| < |path|
    ensures forall r :: r in p.pending ==> |r.ancestors| < |path|
  {
    hide EdgeOf;
    forall r | r in p.pending ensures |r.ancestors| < |path| {
      var i :| 0 <= i < |p.pending| && p.pending[i] == r;
      if i < |p.pending| - 1 {
        assert |p.pending[i].ancestors| <= |p.pending[|p.pending| - 1].ancestors|;
      }
    }
  }

  lemma AllRetired(entry: string, p: Progress, black: seq<string>)
    requires Walking(entry, p, [], black)
    ensures Topological(p.units, black)
  {
    hide EdgeOf;
  }

  lemma TopIsPath(entry: string, p: Progress, path: seq<string>, black: seq<string>)
    requires Walking(entry, p, path, black) && p.pending != []
    requires |p.pending[|p.pending| - 1].ancestors| >= |path|
    ensures p.pending[|p.pending| - 1].ancestors == path
  {
    hide EdgeOf;
    assert p.pending[|p.pending| - 1] in p.pending;
    assert RequestOk(p.units, entry, path, p.pending[|p.pending| - 1]);
  }

  // ----- the loaded units and the world -----

  /** The text of a source and its identified imports. */
  ghost function ReadSource(w: World, x: string): Option<(string, seq<Import>)> {
    var resolved := w.fetch(x);
    if resolved.Err? || resolved.value.0 != x then None
    else
      var parsed := w.parse(resolved.value.1);
      if parsed.Err? then None
      else
        var imports := Identify(w, x, parsed.value);
        if imports.Ok? then Some((resolved.value.1, imports.value)) else None
  }

  ghost predicate Reflects(w: World, units: seq<Unit>) {
    forall i :: 0 <= i < |units| ==>
      && ReadSource(w, units[i].name) == Some((units[i].source, units[i].imports))
      && SourceIds.Parse(units[i].name) == Ok(units[i].name)
  }

  /** In the world, the source `x` can be read and imports `y`. */
  ghost predicate WorldEdge(w: World, x: string, y: string) {
    var source := ReadSource(w, x);
    source.Some? && exists k :: 0 <= k < |source.value.1| && source.value.1[k].target == y
  }

  ghost predicate WorldWalk(w: World, p: seq<string>) {
    forall i :: 0 <= i < |p| - 1 ==> WorldEdge(w, p[i], p[i + 1])
  }

  lemma OpenReflects(w: World, limits: LoadLimits, p: Progress, r: Request, u: Unit)
    requires Open(w, limits, p, r).Ok? && Open(w, limits, p, r).value.units == p.units + [u]
    requires Reflects(w, p.units)
    ensures Reflects(w, p.units + [u])
  {
    hide Accept, Identify, SourceIds.Parse;
    var more := p.units + [u];
    assert more[|p.units|] == u;
    assert Open(w, limits, p, r).value.units[|p.units|] == u;
    forall i | 0 <= i < |more|
      ensures ReadSource(w, more[i].name) == Some((more[i].source, more[i].imports))
      ensures SourceIds.Parse(more[i].name) == Ok(more[i].name)
    {
      if i < |p.units| { assert more[i] == p.units[i]; }
    }
  }

  lemma MarkReflects(w: World, units: seq<Unit>, i: nat, actor: bool)
    requires i < |units| && Reflects(w, units)
    ensures Reflects(w, MarkActor(units, i, actor))
  {
    hide ReadSource, SourceIds.Parse;
    var marked := MarkActor(units, i, actor);
    forall j | 0 <= j < |marked|
      ensures ReadSource(w, marked[j].name) == Some((marked[j].source, marked[j].imports))
      ensures SourceIds.Parse(marked[j].name) == Ok(marked[j].name)
    {
      assert marked[j].name == units[j].name && marked[j].source == units[j].source && marked[j].imports == units[j].imports;
    }
  }

  lemma {:induction false} RunReflects(w: World, limits: LoadLimits, p: Progress)
    requires Reflects(w, p.units) && Run(w, limits, p).Ok?
    ensures Reflects(w, Run(w, limits, p).value.units)
    decreases Room(limits, p), |p.pending|
  {
    hide Reflects, Open, Names, MarkActor;
    if p.pending != [] {
      var r := p.pending[|p.pending| - 1];
      var rest := p.(pending := p.pending[..|p.pending| - 1]);
      if r.id in Names(p.units) {
        MarkReflects(w, p.units, IndexOf(Names(p.units), r.id), r.includeActor);
      } else {
        var u := OpenAdds(w, limits, rest, r);
        OpenReflects(w, limits, rest, r, u);
      }
      RunReflects(w, limits, Step(w, limits, p).value);
    }
  }

  lemma EdgeInWorld(w: World, units: seq<Unit>, x: string, y: string)
    requires Reflects(w, units) && x in Names(units)
    ensures EdgeOf(units, x, y) ==> WorldEdge(w, x, y)
    ensures WorldEdge(w, x, y) ==> EdgeOf(units, x, y)
  {
    hide ReadSource, SourceIds.Parse;
    var j := IndexOf(Names(units), x);
    assert units[j].name == x;
    if EdgeOf(units, x, y) {
      var i :| 0 <= i < |units| && units[i].name == x && ImportsOf(units[i], y);
      assert ReadSource(w, units[i].name) == Some((units[i].source, units[i].imports));
    }
    if WorldEdge(w, x, y) {
      assert ReadSource(w, units[j].name) == Some((units[j].source, units[j].imports));
      assert ImportsOf(units[j], y);
    }
  }

  /** A refusal for an import cycle names a source that really reaches itself:
      a walk of imports leads from the entry to it twice. */
  lemma {:induction false} RunCycle(w: World, limits: LoadLimits, entry: string, p: Progress,
                                    path: seq<string>, black: seq<string>, x: string) returns (walk: seq<string>)
    requires Walking(entry, p, path, black) && Reflects(w, p.units)
    requires Run(w, limits, p) == Err(ImportCycle(x))
    ensures |walk| >= 1 && x in walk && WorldWalk(w, walk + [x]) && walk[0] == entry
    decreases Room(limits, p), |p.pending|, |path|
  {
    hide EdgeOf, Walking, Open, Names, MarkActor, Retired, Reflects, WorldWalk;
    assert p.pending != [];
    var r := p.pending[|p.pending| - 1];
    if |r.ancestors| < |path| {
      ShorterRequests(entry, p, path, black);
      RetireLast(entry, p, path, black);
      walk := RunCycle(w, limits, entry, p, path[..|path| - 1], black + [path[|path| - 1]], x);
    } else {
      TopIsPath(entry, p, path, black);
      var rest := p.(pending := p.pending[..|p.pending| - 1]);
      var step := Step(w, limits, p);
      if r.id in Names(p.units) && step.Ok? {
        var i := IndexOf(Names(p.units), r.id);
        MarkedEdges(p.units, i, r.includeActor);
        WalkMarks(entry, p, path, black, MarkActor(p.units, i, r.includeActor));
        MarkReflects(w, p.units, i, r.includeActor);
        walk := RunCycle(w, limits, entry, step.value, path, black, x);
      } else if step.Ok? {
        var u := OpenAdds(w, limits, rest, r);
        WalkOpens(entry, p, path, black, u, step.value, r.depth + 1);
        OpenReflects(w, limits, rest, r, u);
        walk := RunCycle(w, limits, entry, step.value, path + [u.name], black, x);
      } else {
        OpenFindsNoCycle(w, limits, rest, r);
        walk := path;
        PathWalksWorld(w, entry, p, path, black);
      }
    }
  }

  lemma OpenFindsNoCycle(w: World, limits: LoadLimits, p: Progress, r: Request)
    ensures match Open(w, limits, p, r) case Err(ImportCycle(_)) => false case _ => true
  {
    hide ByteLength, SourceIds.Parse;
    var resolved := w.fetch(r.id);
    if resolved.Ok? {
      var parsed := w.parse(resolved.value.1);
      if parsed.Ok? { IdentifyFindsNoCycle(w, resolved.value.0, parsed.value); }
    }
  }

  lemma {:induction false} IdentifyFindsNoCycle(w: World, from: string, imports: seq<(string, ImportKind)>)
    ensures match Identify(w, from, imports) case Err(ImportCycle(_)) => false case _ => true
  {
    if imports != [] { IdentifyFindsNoCycle(w, from, imports[1..]); }
  }

  /** The path and the request on top of it are a walk in the world. */
  lemma PathWalksWorld(w: World, entry: string, p: Progress, path: seq<string>, black: seq<string>)
    requires Walking(entry, p, path, black) && Reflects(w, p.units)
    requires p.pending != [] && p.pending[|p.pending| - 1].ancestors == path
    ensures WorldWalk(w, path + [p.pending[|p.pending| - 1].id])
    ensures path != [] ==> path[0] == entry
  {
    hide EdgeOf, Reflects, WorldEdge;
    var r := p.pending[|p.pending| - 1];
    var walk := path + [r.id];
    assert r in p.pending && RequestOk(p.units, entry, path, r);
    forall i | 0 <= i < |walk| - 1 ensures WorldEdge(w, walk[i], walk[i + 1]) {
      assert walk[i] in path && EdgeOf(p.units, walk[i], walk[i + 1]);
      EdgeInWorld(w, p.units, walk[i], walk[i + 1]);
    }
  }
}
