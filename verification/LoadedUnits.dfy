/** The whole loader: closed and acyclic imports, every source once, and the
    actor of a unit kept exactly when something asks for it. */
module LoadedUnits {
  import opened Wrappers
  import opened Sorting
  import opened Loading
  import opened LoadedGraph

  // ----- who asks for a source -----

  /** The unit imports the source, as a service import or not. */
  ghost predicate AsksFor(u: Unit, id: string, actor: bool) {
    exists k :: 0 <= k < |u.imports| && u.imports[k].target == id && u.imports[k].kind.ServiceImport? == actor
  }

  ghost predicate SomeoneAsks(units: seq<Unit>, id: string, actor: bool) {
    exists i :: 0 <= i < |units| && AsksFor(units[i], id, actor)
  }

  /** The entry is asked for with its actor; other sources by imports. */
  ghost predicate Asked(units: seq<Unit>, entry: string, id: string, actor: bool) {
    (id == entry && actor) || SomeoneAsks(units, id, actor)
  }

  ghost predicate Waiting(pending: seq<Request>, id: string, actor: bool) {
    exists r :: r in pending && r.id == id && r.includeActor == actor
  }

  ghost predicate Served(units: seq<Unit>, id: string, actor: bool) {
    exists i :: 0 <= i < |units| && units[i].name == id && (actor ==> units[i].includeActor)
  }

  ghost predicate UnitAsked(units: seq<Unit>, entry: string, u: Unit) {
    && (Asked(units, entry, u.name, true) || Asked(units, entry, u.name, false))
    && (u.includeActor ==> Asked(units, entry, u.name, true))
  }

  /** Requests are asked for, and what is asked for is waiting or served. */
  ghost predicate Serving(entry: string, p: Progress) {
    && (forall r :: r in p.pending ==> Asked(p.units, entry, r.id, r.includeActor))
    && (forall id, actor :: Asked(p.units, entry, id, actor) ==> Waiting(p.pending, id, actor) || Served(p.units, id, actor))
    && forall i :: 0 <= i < |p.units| ==> UnitAsked(p.units, entry, p.units[i])
  }

  lemma MarkedAsks(units: seq<Unit>, i: nat, actor: bool)
    requires i < |units|
    ensures forall id, b :: SomeoneAsks(MarkActor(units, i, actor), id, b) <==> SomeoneAsks(units, id, b)
  {
    var marked := MarkActor(units, i, actor);
    forall id, b ensures SomeoneAsks(marked, id, b) <==> SomeoneAsks(units, id, b) {
      if SomeoneAsks(units, id, b) {
        var j :| 0 <= j < |units| && AsksFor(units[j], id, b);
        assert marked[j].imports == units[j].imports && AsksFor(marked[j], id, b);
      }
      if SomeoneAsks(marked, id, b) {
        var j :| 0 <= j < |marked| && AsksFor(marked[j], id, b);
        assert marked[j].imports == units[j].imports && AsksFor(units[j], id, b);
      }
    }
  }

  lemma MarkedServes(units: seq<Unit>, i: nat, actor: bool, id: string, b: bool)
    requires i < |units| && (Served(units, id, b) || (units[i].name == id && actor == b))
    ensures Served(MarkActor(units, i, actor), id, b)
  {
    var marked := MarkActor(units, i, actor);
    if Served(units, id, b) {
      var j :| 0 <= j < |units| && units[j].name == id && (b ==> units[j].includeActor);
      assert marked[j].name == id;
    } else {
      assert marked[i].name == id;
    }
  }

  lemma MarkedUnits(units: seq<Unit>, entry: string, i: nat, actor: bool)
    requires i < |units| && Asked(units, entry, units[i].name, actor)
    requires forall j :: 0 <= j < |units| ==> UnitAsked(units, entry, units[j])
    ensures var marked := MarkActor(units, i, actor);
            forall j :: 0 <= j < |marked| ==> UnitAsked(marked, entry, marked[j])
  {
    var marked := MarkActor(units, i, actor);
    MarkedAsks(units, i, actor);
    hide SomeoneAsks;
    forall j | 0 <= j < |marked| ensures UnitAsked(marked, entry, marked[j]) {
      assert UnitAsked(units, entry, units[j]);
    }
  }

  lemma ServingMarks(entry: string, p: Progress, i: nat)
    requires Serving(entry, p) && p.pending != [] && i < |p.units| && p.units[i].name == p.pending[|p.pending| - 1].id
    ensures var r := p.pending[|p.pending| - 1];
            Serving(entry, p.(units := MarkActor(p.units, i, r.includeActor), pending := p.pending[..|p.pending| - 1]))
  {
    var last, rest := p.pending[|p.pending| - 1], p.pending[..|p.pending| - 1];
    var marked := MarkActor(p.units, i, last.includeActor);
    assert last in p.pending;
    assert forall r :: r in p.pending <==> r == last || r in rest;
    MarkedUnits(p.units, entry, i, last.includeActor);
    MarkedAsks(p.units, i, last.includeActor);
    hide SomeoneAsks, UnitAsked, Served, MarkActor;
    forall id, actor | Asked(marked, entry, id, actor) ensures Waiting(rest, id, actor) || Served(marked, id, actor) {
      assert Asked(p.units, entry, id, actor);
      if !Waiting(rest, id, actor) {
        MarkedServes(p.units, i, last.includeActor, id, actor);
      }
    }
  }

  lemma AddedAsks(units: seq<Unit>, u: Unit)
    ensures forall id, b :: SomeoneAsks(units + [u], id, b) <==> SomeoneAsks(units, id, b) || AsksFor(u, id, b)
  {
    hide AsksFor;
    var more := units + [u];
    forall id, b ensures SomeoneAsks(more, id, b) <==> SomeoneAsks(units, id, b) || AsksFor(u, id, b) {
      if SomeoneAsks(units, id, b) {
        var j :| 0 <= j < |units| && AsksFor(units[j], id, b);
        assert more[j] == units[j];
      }
      if AsksFor(u, id, b) { assert more[|units|] == u; }
    }
  }

  lemma ServingOpens(entry: string, p: Progress, u: Unit, q: Progress, depth: nat, ancestors: seq<string>)
    requires Serving(entry, p) && p.pending != []
    requires var r := p.pending[|p.pending| - 1]; r.id == u.name && r.includeActor == u.includeActor
    requires q.units == p.units + [u]
    requires q.pending == p.pending[..|p.pending| - 1] + Requests(u.imports, depth, ancestors)
    ensures Serving(entry, q)
  {
    var last, rest := p.pending[|p.pending| - 1], p.pending[..|p.pending| - 1];
    var asked := Requests(u.imports, depth, ancestors);
    AddedAsks(p.units, u);
    RequestMembers(u.imports, depth, ancestors);
    hide SomeoneAsks, Requests;
    assert forall r :: r in p.pending <==> r == last || r in rest;
    assert forall r :: r in q.pending <==> r in rest || r in asked;
    forall r | r in q.pending ensures Asked(q.units, entry, r.id, r.includeActor) {
      if r in asked {
        var k := RequestTargets(u.imports, depth, ancestors, r);
        assert AsksFor(u, r.id, r.includeActor);
      }
    }
    forall id, actor | Asked(q.units, entry, id, actor) ensures Waiting(q.pending, id, actor) || Served(q.units, id, actor) {
      ServedAfter(entry, p, u, q, depth, ancestors, id, actor);
    }
    forall j | 0 <= j < |q.units| ensures UnitAsked(q.units, entry, q.units[j]) {
      if j < |p.units| {
        assert UnitAsked(p.units, entry, p.units[j]);
      } else {
        assert Asked(p.units, entry, last.id, last.includeActor);
      }
    }
  }

  lemma NewIsWaiting(u: Unit, rest: seq<Request>, depth: nat, ancestors: seq<string>, id: string, actor: bool)
    requires AsksFor(u, id, actor)
    ensures Waiting(rest + Requests(u.imports, depth, ancestors), id, actor)
  {
    RequestMembers(u.imports, depth, ancestors);
    hide Requests;
    var k :| 0 <= k < |u.imports| && u.imports[k].target == id && u.imports[k].kind.ServiceImport? == actor;
    assert Request(u.imports[k].target, u.imports[k].kind.ServiceImport?, depth, ancestors)
      in rest + Requests(u.imports, depth, ancestors);
  }

  lemma OldIsWaiting(pending: seq<Request>, more: seq<Request>, id: string, actor: bool)
    requires pending != [] && Waiting(pending, id, actor)
    ensures var last := pending[|pending| - 1];
            (last.id == id && last.includeActor == actor) || Waiting(pending[..|pending| - 1] + more, id, actor)
  {
    var last, rest := pending[|pending| - 1], pending[..|pending| - 1];
    var r :| r in pending && r.id == id && r.includeActor == actor;
    if r != last {
      assert r in rest;
      assert r in rest + more;
    }
  }

  lemma ServedStays(units: seq<Unit>, u: Unit, id: string, actor: bool)
    requires Served(units, id, actor) || (u.name == id && u.includeActor == actor)
    ensures Served(units + [u], id, actor)
  {
    var more := units + [u];
    if Served(units, id, actor) {
      var j :| 0 <= j < |units| && units[j].name == id && (actor ==> units[j].includeActor);
      assert more[j] == units[j];
    } else {
      assert more[|units|] == u;
    }
  }

  lemma ServedAfter(entry: string, p: Progress, u: Unit, q: Progress, depth: nat, ancestors: seq<string>,
                    id: string, actor: bool)
    requires Serving(entry, p) && p.pending != []
    requires var r := p.pending[|p.pending| - 1]; r.id == u.name && r.includeActor == u.includeActor
    requires q.units == p.units + [u]
    requires q.pending == p.pending[..|p.pending| - 1] + Requests(u.imports, depth, ancestors)
    requires Asked(q.units, entry, id, actor)
    ensures Waiting(q.pending, id, actor) || Served(q.units, id, actor)
  {
    AddedAsks(p.units, u);
    hide SomeoneAsks, Requests, Waiting, Served, UnitAsked, AsksFor;
    if AsksFor(u, id, actor) {
      NewIsWaiting(u, p.pending[..|p.pending| - 1], depth, ancestors, id, actor);
    } else {
      assert Asked(p.units, entry, id, actor);
      if Waiting(p.pending, id, actor) {
        OldIsWaiting(p.pending, Requests(u.imports, depth, ancestors), id, actor);
      }
      if Served(p.units, id, actor) || (u.name == id && u.includeActor == actor) {
        ServedStays(p.units, u, id, actor);
      }
    }
  }

  lemma {:induction false} RunServes(w: World, limits: LoadLimits, entry: string, p: Progress)
    requires Serving(entry, p) && Run(w, limits, p).Ok?
    ensures Serving(entry, Run(w, limits, p).value) && Run(w, limits, p).value.pending == []
    decreases Room(limits, p), |p.pending|
  {
    hide Serving, Open, Names, MarkActor;
    if p.pending != [] {
      var r := p.pending[|p.pending| - 1];
      var next := Step(w, limits, p).value;
      if r.id in Names(p.units) {
        var i := IndexOf(Names(p.units), r.id);
        ServingMarks(entry, p, i);
      } else {
        var u := OpenAdds(w, limits, p.(pending := p.pending[..|p.pending| - 1]), r);
        ServingOpens(entry, p, u, next, r.depth + 1, r.ancestors + [u.name]);
      }
      RunServes(w, limits, entry, next);
    }
  }

  // ----- a finished load -----

  ghost predicate IncludesActors(units: seq<Unit>, entry: string) {
    forall i :: 0 <= i < |units| ==>
      (units[i].includeActor <==> units[i].name == entry || SomeoneAsks(units, units[i].name, true))
  }

  /** Every unit but the entry is imported. */
  ghost predicate AllImported(units: seq<Unit>, entry: string) {
    forall x :: x in Names(units) && x != entry ==> exists y :: EdgeOf(units, y, x)
  }

  ghost predicate ClosedImports(units: seq<Unit>) {
    forall x, y :: EdgeOf(units, x, y) ==> y in Names(units)
  }

  ghost predicate WellLoaded(units: seq<Unit>, entry: string) {
    && NoDuplicates(Names(units))
    && entry in Names(units)
    && ClosedImports(units)
    && AllImported(units, entry)
    && IncludesActors(units, entry)
    && exists order :: Topological(units, order)
  }

  lemma NameAt(units: seq<Unit>, x: string) returns (i: nat)
    requires x in Names(units)
    ensures i < |units| && units[i].name == x
  {
    i := IndexOf(Names(units), x);
  }

  lemma AskIsEdge(units: seq<Unit>, x: string, actor: bool) returns (y: string)
    requires SomeoneAsks(units, x, actor)
    ensures EdgeOf(units, y, x)
  {
    var i :| 0 <= i < |units| && AsksFor(units[i], x, actor);
    y := units[i].name;
    assert ImportsOf(units[i], x);
  }

  lemma ServedAtEnd(units: seq<Unit>, entry: string, p: Progress)
    requires Serving(entry, p) && p.pending == [] && p.units == units && NoDuplicates(Names(units))
    ensures entry in Names(units) && ClosedImports(units) && AllImported(units, entry) && IncludesActors(units, entry)
  {
    forall id, actor | Asked(units, entry, id, actor)
      ensures id in Names(units) && (actor ==> units[IndexOf(Names(units), id)].includeActor)
    {
      assert Served(units, id, actor);
      var i: nat :| i < |units| && units[i].name == id && (actor ==> units[i].includeActor);
      assert Names(units)[i] == id;
      IndexOfUnique(Names(units), i);
    }
    assert Asked(units, entry, entry, true);
    hide SomeoneAsks;
    forall x, y | EdgeOf(units, x, y) ensures y in Names(units) {
      EdgeIsAsk(units, x, y);
      assert Asked(units, entry, y, true) || Asked(units, entry, y, false);
    }
    forall x | x in Names(units) && x != entry ensures exists y :: EdgeOf(units, y, x) {
      var i := NameAt(units, x);
      assert UnitAsked(units, entry, units[i]);
      var y := AskIsEdge(units, x, SomeoneAsks(units, x, true));
    }
    forall i: nat | i < |units|
      ensures units[i].includeActor <==> units[i].name == entry || SomeoneAsks(units, units[i].name, true)
    {
      assert UnitAsked(units, entry, units[i]);
      IndexOfUnique(Names(units), i);
      assert Names(units)[i] == units[i].name;
      if units[i].name == entry || SomeoneAsks(units, units[i].name, true) {
        assert Asked(units, entry, units[i].name, true);
      }
    }
  }

  lemma EdgeIsAsk(units: seq<Unit>, x: string, y: string)
    requires EdgeOf(units, x, y)
    ensures SomeoneAsks(units, y, true) || SomeoneAsks(units, y, false)
  {
    var i :| 0 <= i < |units| && units[i].name == x && ImportsOf(units[i], y);
    var k :| 0 <= k < |units[i].imports| && units[i].imports[k].target == y;
    assert AsksFor(units[i], y, units[i].imports[k].kind.ServiceImport?);
  }

  /** A load that succeeds has loaded every imported source once, in a graph
      without import cycles, and kept exactly the actors asked for. */
  lemma LoadIsWellLoaded(w: World, limits: LoadLimits, entry: string, sources: nat, bytes: nat, edges: nat)
    requires Load(w, limits, entry, sources, bytes, edges).Ok?
    ensures var (units, id) := Load(w, limits, entry, sources, bytes, edges).value; WellLoaded(units, id)
  {
    var id := IdentifyValid(w, None, entry).value;
    var start := Started(id, sources, bytes, edges);
    var (units, _) := Load(w, limits, entry, sources, bytes, edges).value;
    hide Run, Finish, EdgeOf, SomeoneAsks, IdentifyValid;
    StartWalks(id, sources, bytes, edges);
    var order := RunOrders(w, limits, id, start, [], []);
    RunServes(w, limits, id, start);
    FinishKeeps(w, limits, entry, sources, bytes, edges);
    assert NoDuplicates(Names(units)) by { RunNamesOnce(w, limits, start); }
    ServedAtEnd(units, id, Run(w, limits, start).value);
  }

  lemma FinishKeeps(w: World, limits: LoadLimits, entry: string, sources: nat, bytes: nat, edges: nat)
    requires Load(w, limits, entry, sources, bytes, edges).Ok?
    ensures var (units, id) := Load(w, limits, entry, sources, bytes, edges).value;
            && IdentifyValid(w, None, entry) == Ok(id)
            && Run(w, limits, Started(id, sources, bytes, edges)).Ok?
            && Run(w, limits, Started(id, sources, bytes, edges)).value.units == units
            && LongSpelling(limits, Spellings(units)).None?
  {
  }

  lemma StartWalks(id: string, sources: nat, bytes: nat, edges: nat)
    ensures Walking(id, Started(id, sources, bytes, edges), [], []) && Serving(id, Started(id, sources, bytes, edges))
  {
    var p := Started(id, sources, bytes, edges);
    assert p.pending[0] in p.pending;
    assert Waiting(p.pending, id, true);
  }

  lemma {:induction false} RunNamesOnce(w: World, limits: LoadLimits, p: Progress)
    requires NoDuplicates(Names(p.units)) && Run(w, limits, p).Ok?
    ensures NoDuplicates(Names(Run(w, limits, p).value.units))
    decreases Room(limits, p), |p.pending|
  {
    hide Open, NoDuplicates;
    if p.pending != [] {
      var r := p.pending[|p.pending| - 1];
      var next := Step(w, limits, p).value;
      if r.id in Names(p.units) {
        MarkedEdges(p.units, IndexOf(Names(p.units), r.id), r.includeActor);
      } else {
        var u := OpenAdds(w, limits, p.(pending := p.pending[..|p.pending| - 1]), r);
        AddedEdges(p.units, u);
        OneMoreName(Names(p.units), u.name);
      }
      RunNamesOnce(w, limits, next);
    }
  }

  lemma OneMoreName(s: seq<string>, x: string)
    requires NoDuplicates(s) && x !in s
    ensures NoDuplicates(s + [x])
  {
  }

  // ----- cycles -----

  /** A walk of imports never returns to where it started. */
  lemma WalkDescends(units: seq<Unit>, order: seq<string>, p: seq<string>)
    requires Topological(units, order) && ImportWalk(units, p) && |p| >= 1 && p[0] in Names(units)
    ensures p[|p| - 1] in order && p[0] in order
    ensures IndexOf(order, p[|p| - 1]) + |p| - 1 <= IndexOf(order, p[0])
  {
    hide EdgeOf;
    if |p| > 1 {
      var q := p[..|p| - 1];
      assert ImportWalk(units, q);
      WalkDescends(units, order, q);
      var x, y := p[|p| - 2], p[|p| - 1];
      assert q[|q| - 1] == x && EdgeOf(units, p[|p| - 2], p[|p| - 2 + 1]);
      var b := IndexOf(order, x);
      assert EdgeOf(units, order[b], y);
      var c: nat :| c < b && order[..b][c] == y;
      IndexOfUnique(order, c);
    }
  }

  lemma WellLoadedHasNoCycle(units: seq<Unit>, entry: string, p: seq<string>)
    requires WellLoaded(units, entry) && ImportWalk(units, p) && |p| >= 2
    ensures p[0] != p[|p| - 1]
  {
    var order :| Topological(units, order);
    hide EdgeOf;
    assert EdgeOf(units, p[0], p[0 + 1]);
    EdgeFrom(units, p[0], p[1]);
    WalkDescends(units, order, p);
  }

  lemma EdgeFrom(units: seq<Unit>, x: string, y: string)
    requires EdgeOf(units, x, y)
    ensures x in Names(units)
  {
    var i :| 0 <= i < |units| && units[i].name == x && ImportsOf(units[i], y);
    assert Names(units)[i] == x;
  }

  /** The entry is the only source that nothing imports. */
  lemma EntryIsTheRoot(units: seq<Unit>, entry: string, x: string)
    requires WellLoaded(units, entry)
    ensures (x in Names(units) && forall y :: !EdgeOf(units, y, x)) <==> x == entry
  {
    var order :| Topological(units, order);
    hide EdgeOf;
    var last := order[|order| - 1];
    assert last in order && entry in order;
    IndexOfUnique(order, |order| - 1);
    if last != entry {
      var y :| EdgeOf(units, y, last);
      ImportedEarlier(units, order, y, last);
    }
    if y :| EdgeOf(units, y, entry) {
      ImportedEarlier(units, order, y, entry);
    }
  }

  lemma ImportedEarlier(units: seq<Unit>, order: seq<string>, y: string, x: string)
    requires Topological(units, order) && EdgeOf(units, y, x)
    ensures x in order && y in order && IndexOf(order, x) < IndexOf(order, y)
  {
    EdgeFrom(units, y, x);
    hide EdgeOf;
    var b := IndexOf(order, y);
    assert EdgeOf(units, order[b], x);
    var c: nat :| c < b && order[..b][c] == x;
    IndexOfUnique(order, c);
  }

  lemma LoadReflects(w: World, limits: LoadLimits, entry: string, sources: nat, bytes: nat, edges: nat)
    requires Load(w, limits, entry, sources, bytes, edges).Ok?
    ensures Reflects(w, Load(w, limits, entry, sources, bytes, edges).value.0)
  {
    hide Run, Finish, ReadSource;
    FinishKeeps(w, limits, entry, sources, bytes, edges);
    RunReflects(w, limits, Started(IdentifyValid(w, None, entry).value, sources, bytes, edges));
  }

  lemma {:induction false} WalkStaysLoaded(w: World, units: seq<Unit>, walk: seq<string>, k: nat)
    requires Reflects(w, units) && ClosedImports(units) && WorldWalk(w, walk)
    requires walk != [] && walk[0] in Names(units) && k < |walk|
    ensures walk[k] in Names(units)
    ensures forall i :: 0 <= i < k ==> EdgeOf(units, walk[i], walk[i + 1])
  {
    hide EdgeOf, WorldEdge, Reflects;
    if k > 0 {
      WalkStaysLoaded(w, units, walk, k - 1);
      assert WorldEdge(w, walk[k - 1], walk[k - 1 + 1]);
      EdgeInWorld(w, units, walk[k - 1], walk[k]);
    }
  }

  /** A walk of imports from the entry that meets a source twice is never
      loaded, and a refusal for a cycle has such a walk. */
  lemma CyclesAreRefused(w: World, limits: LoadLimits, entry: string, sources: nat, bytes: nat, edges: nat,
                         walk: seq<string>, i: nat, j: nat)
    requires IdentifyValid(w, None, entry).Ok? && walk != [] && walk[0] == IdentifyValid(w, None, entry).value
    requires WorldWalk(w, walk) && i < j < |walk| && walk[i] == walk[j]
    ensures Load(w, limits, entry, sources, bytes, edges).Err?
  {
    hide Load, Reflects, WellLoaded, WorldWalk, EdgeOf, Names, ClosedImports, NoDuplicates, IdentifyValid;
    if Load(w, limits, entry, sources, bytes, edges).Ok? {
      var (units, id) := Load(w, limits, entry, sources, bytes, edges).value;
      LoadIsWellLoaded(w, limits, entry, sources, bytes, edges);
      LoadReflects(w, limits, entry, sources, bytes, edges);
      FinishKeeps(w, limits, entry, sources, bytes, edges);
      WellLoadedParts(units, id);
      LoadedWalkMeetsOnce(w, units, id, walk, i, j);
    }
  }

  lemma LoadedWalkMeetsOnce(w: World, units: seq<Unit>, entry: string, walk: seq<string>, i: nat, j: nat)
    requires WellLoaded(units, entry) && Reflects(w, units) && ClosedImports(units) && entry in Names(units)
    requires walk != [] && walk[0] == entry && WorldWalk(w, walk) && i < j < |walk|
    ensures walk[i] != walk[j]
  {
    hide Reflects, WellLoaded, WorldWalk, EdgeOf, Names, ClosedImports;
    WalkStaysLoaded(w, units, walk, |walk| - 1);
    var p := walk[i..j + 1];
    forall k | 0 <= k < |p| - 1 ensures EdgeOf(units, p[k], p[k + 1]) {
      assert EdgeOf(units, walk[i + k], walk[i + k + 1]);
    }
    WellLoadedHasNoCycle(units, entry, p);
  }

  lemma WellLoadedParts(units: seq<Unit>, entry: string)
    requires WellLoaded(units, entry)
    ensures entry in Names(units) && ClosedImports(units) && NoDuplicates(Names(units))
  {
  }

  lemma CycleRefusalIsReal(w: World, limits: LoadLimits, entry: string, sources: nat, bytes: nat, edges: nat, x: string)
    returns (walk: seq<string>)
    requires Load(w, limits, entry, sources, bytes, edges) == Err(ImportCycle(x))
    ensures IdentifyValid(w, None, entry).Ok? && |walk| >= 1 && walk[0] == IdentifyValid(w, None, entry).value
    ensures WorldWalk(w, walk + [x]) && x in walk
  {
    hide Run, WorldWalk;
    var id := IdentifyValid(w, None, entry).value;
    StartWalks(id, sources, bytes, edges);
    walk := RunCycle(w, limits, id, Started(id, sources, bytes, edges), [], [], x);
  }
}
