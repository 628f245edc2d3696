/** The order units are listed in: depth first, imports in the order they are
    written. Each unit after the entry is the first import, not loaded before,
    of the latest unit that has one. */
module LoadOrder {
  import opened Wrappers
  import opened Sorting
  import opened Loading
  import opened LoadedGraph
  import opened LoadedUnits

  /** An import of a unit names a source that is among the names. */
  predicate Loaded(names: seq<string>, u: Unit, m: nat)
    requires m < |u.imports|
  { u.imports[m].target in names }

  ghost predicate AllLoaded(names: seq<string>, u: Unit) {
    forall m: nat :: m < |u.imports| ==> Loaded(names, u, m)
  }

  /** The unit at `k` is what the unit at `i` imports at `m`: whatever comes
      before it in that unit, and whatever later units import, is there. */
  ghost predicate FirstOf(units: seq<Unit>, k: nat, i: nat, m: nat) {
    && i < k < |units| && m < |units[i].imports| && units[i].imports[m].target == units[k].name
    && (forall n: nat :: n < m ==> Loaded(Names(units[..k]), units[i], n))
    && forall j: nat :: i < j < k ==> AllLoaded(Names(units[..k]), units[j])
  }

  ghost predicate Follows(units: seq<Unit>, k: nat) {
    exists i: nat, m: nat :: FirstOf(units, k, i, m)
  }

  ghost predicate DepthFirst(units: seq<Unit>) {
    forall k: nat :: 0 < k < |units| ==> Follows(units, k)
  }

  // ----- the stack -----

  /** Where a request comes from: the unit and the position of the import. */
  datatype Origin = Origin(unit: nat, position: nat)

  ghost predicate ComesFrom(units: seq<Unit>, r: Request, o: Origin) {
    o.unit < |units| && o.position < |units[o.unit].imports| && units[o.unit].imports[o.position].target == r.id
  }

  /** Nearer the top: of a later unit, or earlier in the same one. */
  predicate Sooner(a: Origin, b: Origin) {
    a.unit > b.unit || (a.unit == b.unit && a.position < b.position)
  }

  ghost predicate Origins(units: seq<Unit>, pending: seq<Request>, origins: seq<Origin>) {
    && |origins| == |pending|
    && (forall a :: 0 <= a < |pending| ==> ComesFrom(units, pending[a], origins[a]))
    && forall a, b :: 0 <= a < b < |origins| ==> Sooner(origins[b], origins[a])
  }

  /** Every import is loaded or waits. */
  ghost predicate NoneForgotten(units: seq<Unit>, origins: seq<Origin>) {
    forall j: nat, m: nat :: j < |units| && m < |units[j].imports| ==>
      Loaded(Names(units), units[j], m) || Origin(j, m) in origins
  }

  ghost predicate Stacked(p: Progress, origins: seq<Origin>) {
    && Origins(p.units, p.pending, origins) && NoneForgotten(p.units, origins) && DepthFirst(p.units)
  }

  // ----- a source that is there -----

  lemma MarkedNames(units: seq<Unit>, i: nat, actor: bool, k: nat)
    requires i < |units| && k <= |units|
    ensures Names(MarkActor(units, i, actor)[..k]) == Names(units[..k])
    ensures Names(MarkActor(units, i, actor)) == Names(units)
    ensures forall j: nat :: j < |units| ==>
              var marked := MarkActor(units, i, actor); marked[j].imports == units[j].imports && marked[j].name == units[j].name
  {
  }

  lemma MarkedIsDepthFirst(units: seq<Unit>, i: nat, actor: bool)
    requires i < |units| && DepthFirst(units)
    ensures DepthFirst(MarkActor(units, i, actor))
  {
    hide MarkActor;
    var marked := MarkActor(units, i, actor);
    MarkedNames(units, i, actor, 0);
    forall k: nat | 0 < k < |marked| ensures Follows(marked, k) {
      MarkedNames(units, i, actor, k);
      assert Follows(units, k);
      var o: nat, m: nat :| FirstOf(units, k, o, m);
      forall j: nat | o < j < k ensures AllLoaded(Names(marked[..k]), marked[j]) {
        assert AllLoaded(Names(units[..k]), units[j]);
        forall n: nat | n < |marked[j].imports| ensures Loaded(Names(marked[..k]), marked[j], n) {
          assert Loaded(Names(units[..k]), units[j], n);
        }
      }
      forall n: nat | n < m ensures Loaded(Names(marked[..k]), marked[o], n) { assert Loaded(Names(units[..k]), units[o], n); }
      assert FirstOf(marked, k, o, m);
    }
  }

  lemma MarkedStacked(p: Progress, i: nat, actor: bool, origins: seq<Origin>)
    requires Stacked(p, origins) && p.pending != [] && i < |p.units| && p.units[i].name == p.pending[|p.pending| - 1].id
    ensures Stacked(p.(units := MarkActor(p.units, i, actor), pending := p.pending[..|p.pending| - 1]), origins[..|origins| - 1])
  {
    hide MarkActor, DepthFirst, Names;
    var n := |origins| - 1;
    var marked, rest := MarkActor(p.units, i, actor), p.pending[..n];
    MarkedIsDepthFirst(p.units, i, actor);
    MarkedNames(p.units, i, actor, 0);
    NameListed(p.units, i);
    forall a | 0 <= a < n ensures ComesFrom(marked, rest[a], origins[..n][a]) { assert ComesFrom(p.units, p.pending[a], origins[a]); }
    forall j: nat, m: nat | j < |marked| && m < |marked[j].imports|
      ensures Loaded(Names(marked), marked[j], m) || Origin(j, m) in origins[..n]
    {
      assert Loaded(Names(p.units), p.units[j], m) || Origin(j, m) in origins;
      if Origin(j, m) == origins[n] { assert ComesFrom(p.units, p.pending[n], origins[n]); }
      assert origins == origins[..n] + [origins[n]];
    }
  }

  lemma NameListed(units: seq<Unit>, i: nat)
    requires i < |units|
    ensures units[i].name in Names(units)
  {
    assert Names(units)[i] == units[i].name;
  }

  // ----- a source that is opened -----

  /** The origins of a unit's requests. */
  function OriginsOf(unit: nat, n: nat): (r: seq<Origin>)
    ensures |r| == n && forall i :: 0 <= i < n ==> r[i] == Origin(unit, n - 1 - i)
  { seq(n, i requires 0 <= i < n => Origin(unit, n - 1 - i)) }

  lemma OpenedOrigins(units: seq<Unit>, u: Unit, rest: seq<Request>, origins: seq<Origin>, depth: nat, ancestors: seq<string>)
    requires Origins(units, rest, origins)
    ensures Origins(units + [u], rest + Requests(u.imports, depth, ancestors), origins + OriginsOf(|units|, |u.imports|))
  {
    var more, pending := units + [u], rest + Requests(u.imports, depth, ancestors);
    var all := origins + OriginsOf(|units|, |u.imports|);
    hide Requests;
    forall a | 0 <= a < |pending| ensures ComesFrom(more, pending[a], all[a]) {
      if a < |rest| {
        assert ComesFrom(units, rest[a], origins[a]);
      } else {
        var i := a - |rest|;
        assert pending[a] == Requests(u.imports, depth, ancestors)[i];
      }
    }
    forall a, b | 0 <= a < b < |all| ensures Sooner(all[b], all[a]) {
      if a < |rest| { assert ComesFrom(units, rest[a], origins[a]); }
    }
  }

  lemma AddedName(units: seq<Unit>, u: Unit, k: nat)
    requires k <= |units|
    ensures Names(units + [u]) == Names(units) + [u.name]
    ensures Names((units + [u])[..k]) == Names(units[..k])
  {
    assert (units + [u])[..k] == units[..k];
  }

  lemma OpenedForgetsNone(units: seq<Unit>, u: Unit, origins: seq<Origin>)
    requires origins != [] && NoneForgotten(units, origins)
    requires var top := origins[|origins| - 1];
             top.unit < |units| && top.position < |units[top.unit].imports| && units[top.unit].imports[top.position].target == u.name
    ensures NoneForgotten(units + [u], origins[..|origins| - 1] + OriginsOf(|units|, |u.imports|))
  {
    hide Names;
    var n, more := |origins| - 1, units + [u];
    var all := origins[..n] + OriginsOf(|units|, |u.imports|);
    AddedName(units, u, 0);
    assert origins == origins[..n] + [origins[n]];
    forall j: nat, m: nat | j < |more| && m < |more[j].imports| ensures Loaded(Names(more), more[j], m) || Origin(j, m) in all {
      if j == |units| {
        assert OriginsOf(|units|, |u.imports|)[|u.imports| - 1 - m] == Origin(j, m);
      } else {
        assert Loaded(Names(units), units[j], m) || Origin(j, m) in origins;
      }
    }
  }

  /** What the stack shows of a source that is opened next. */
  lemma OpenedIsFirst(units: seq<Unit>, u: Unit, pending: seq<Request>, origins: seq<Origin>)
    requires pending != [] && Origins(units, pending, origins) && NoneForgotten(units, origins)
    requires u.name == pending[|pending| - 1].id && u.name !in Names(units)
    ensures var top := origins[|origins| - 1]; FirstOf(units + [u], |units|, top.unit, top.position)
  {
    hide Names;
    var k, more, top := |units|, units + [u], origins[|origins| - 1];
    assert ComesFrom(units, pending[|pending| - 1], top);
    assert more[..k] == units;
    forall n: nat | n < top.position ensures Loaded(Names(units), units[top.unit], n) {
      if !Loaded(Names(units), units[top.unit], n) { NothingSooner(units, pending, origins, Origin(top.unit, n)); }
    }
    forall j: nat | top.unit < j < k ensures AllLoaded(Names(units), more[j]) {
      forall n: nat | n < |more[j].imports| ensures Loaded(Names(units), more[j], n) {
        if !Loaded(Names(units), units[j], n) { NothingSooner(units, pending, origins, Origin(j, n)); }
      }
    }
  }

  lemma NothingSooner(units: seq<Unit>, pending: seq<Request>, origins: seq<Origin>, o: Origin)
    requires pending != [] && Origins(units, pending, origins) && o in origins
    ensures !Sooner(o, origins[|origins| - 1])
  {
    var a :| 0 <= a < |origins| && origins[a] == o;
    if a < |origins| - 1 { assert Sooner(origins[|origins| - 1], origins[a]); }
  }

  lemma DepthFirstGrows(units: seq<Unit>, u: Unit, i: nat, m: nat)
    requires DepthFirst(units) && FirstOf(units + [u], |units|, i, m)
    ensures DepthFirst(units + [u])
  {
    hide Names;
    var more := units + [u];
    forall k: nat | 0 < k < |more| ensures Follows(more, k) {
      if k < |units| {
        AddedName(units, u, k);
        assert Follows(units, k);
        var o: nat, n: nat :| FirstOf(units, k, o, n);
        assert FirstOf(more, k, o, n);
      } else {
        assert FirstOf(more, k, i, m);
      }
    }
  }

  lemma OpenedStacked(p: Progress, u: Unit, q: Progress, depth: nat, ancestors: seq<string>, origins: seq<Origin>)
    requires Stacked(p, origins) && p.pending != [] && u.name == p.pending[|p.pending| - 1].id && u.name !in Names(p.units)
    requires q.units == p.units + [u]
    requires q.pending == p.pending[..|p.pending| - 1] + Requests(u.imports, depth, ancestors)
    ensures Stacked(q, origins[..|origins| - 1] + OriginsOf(|p.units|, |u.imports|))
  {
    hide Names, Requests, OriginsOf, NoneForgotten, DepthFirst, FirstOf;
    var n := |origins| - 1;
    OpenedIsFirst(p.units, u, p.pending, origins);
    DepthFirstGrows(p.units, u, origins[n].unit, origins[n].position);
    assert ComesFrom(p.units, p.pending[n], origins[n]);
    OpenedForgetsNone(p.units, u, origins);
    FewerOrigins(p.units, p.pending, origins);
    OpenedOrigins(p.units, u, p.pending[..n], origins[..n], depth, ancestors);
  }

  lemma FewerOrigins(units: seq<Unit>, pending: seq<Request>, origins: seq<Origin>)
    requires pending != [] && Origins(units, pending, origins)
    ensures Origins(units, pending[..|pending| - 1], origins[..|origins| - 1])
  {
    var n := |origins| - 1;
    forall a | 0 <= a < n ensures ComesFrom(units, pending[..n][a], origins[..n][a]) { assert ComesFrom(units, pending[a], origins[a]); }
  }

  // ----- the whole load -----

  lemma {:induction false} RunStacks(w: World, limits: LoadLimits, p: Progress, origins: seq<Origin>)
    requires Stacked(p, origins) && Run(w, limits, p).Ok?
    ensures DepthFirst(Run(w, limits, p).value.units)
    decreases Room(limits, p), |p.pending|
  {
    hide Stacked, Open, Names, MarkActor, Room;
    StackedIsDepthFirst(p, origins);
    if p.pending != [] {
      var r := p.pending[|p.pending| - 1];
      var next := Step(w, limits, p).value;
      StepRoom(w, limits, p);
      if r.id in Names(p.units) {
        MarkedStacked(p, IndexOf(Names(p.units), r.id), r.includeActor, origins);
        RunStacks(w, limits, next, origins[..|origins| - 1]);
      } else {
        var u := OpenAdds(w, limits, p.(pending := p.pending[..|p.pending| - 1]), r);
        OpenedStacked(p, u, next, r.depth + 1, r.ancestors + [u.name], origins);
        RunStacks(w, limits, next, origins[..|origins| - 1] + OriginsOf(|p.units|, |u.imports|));
      }
    }
  }

  lemma StackedIsDepthFirst(p: Progress, origins: seq<Origin>)
    requires Stacked(p, origins)
    ensures DepthFirst(p.units) && |origins| == |p.pending|
  {
  }

  lemma StepRoom(w: World, limits: LoadLimits, p: Progress)
    requires p.pending != [] && Step(w, limits, p).Ok?
    ensures var q := Step(w, limits, p).value;
            Room(limits, q) < Room(limits, p) || (Room(limits, q) == Room(limits, p) && |q.pending| < |p.pending|)
  {
  }

  lemma {:induction false} RunKeepsFirst(w: World, limits: LoadLimits, p: Progress)
    requires Run(w, limits, p).Ok? && p.units != []
    ensures var units := Run(w, limits, p).value.units; units != [] && units[0].name == p.units[0].name
    decreases Room(limits, p), |p.pending|
  {
    hide Open, Room;
    if p.pending != [] {
      var r := p.pending[|p.pending| - 1];
      StepRoom(w, limits, p);
      if r.id !in Names(p.units) {
        var u := OpenAdds(w, limits, p.(pending := p.pending[..|p.pending| - 1]), r);
      }
      RunKeepsFirst(w, limits, Step(w, limits, p).value);
    }
  }

  lemma OpenedFirst(u: Unit, q: Progress, depth: nat, ancestors: seq<string>)
    requires q.units == [u] && q.pending == Requests(u.imports, depth, ancestors)
    ensures Stacked(q, OriginsOf(0, |u.imports|))
  {
    hide Requests;
    OpenedOrigins([], u, [], [], depth, ancestors);
    assert [] + [u] == [u] && [] + q.pending == q.pending && [] + OriginsOf(0, |u.imports|) == OriginsOf(0, |u.imports|);
    forall m: nat | m < |u.imports| ensures Origin(0, m) in OriginsOf(0, |u.imports|) {
      assert OriginsOf(0, |u.imports|)[|u.imports| - 1 - m] == Origin(0, m);
    }
  }

  lemma EntryOpens(w: World, limits: LoadLimits, id: string, sources: nat, bytes: nat, edges: nat)
    requires var p := Started(id, sources, bytes, edges); Run(w, limits, p).Ok?
    ensures var units := Run(w, limits, Started(id, sources, bytes, edges)).value.units;
            DepthFirst(units) && units != [] && units[0].name == id
  {
    hide Open, Room, Stacked;
    var p := Started(id, sources, bytes, edges);
    StepRoom(w, limits, p);
    var q := Step(w, limits, p).value;
    var u := OpenAdds(w, limits, p.(pending := p.pending[..0]), p.pending[0]);
    assert q.units == [u] && q.pending == Requests(u.imports, 1, [] + [u.name]);
    OpenedFirst(u, q, 1, [] + [u.name]);
    RunStacks(w, limits, q, OriginsOf(0, |u.imports|));
    RunKeepsFirst(w, limits, q);
  }

  /** A successful load lists the entry first and the rest depth first. */
  lemma LoadIsDepthFirst(w: World, limits: LoadLimits, entry: string, sources: nat, bytes: nat, edges: nat)
    requires Load(w, limits, entry, sources, bytes, edges).Ok?
    ensures var (units, id) := Load(w, limits, entry, sources, bytes, edges).value;
            DepthFirst(units) && units != [] && units[0].name == id
  {
    hide Run, Finish, IdentifyValid, Started, DepthFirst, Spellings;
    FinishKeeps(w, limits, entry, sources, bytes, edges);
    var (units, id) := Load(w, limits, entry, sources, bytes, edges).value;
    EntryOpens(w, limits, id, sources, bytes, edges);
  }

  // ----- there is one such order -----

  /** Units of the same name have the same imports. */
  ghost predicate SameImports(a: seq<Unit>, b: seq<Unit>) {
    forall i, j :: 0 <= i < |a| && 0 <= j < |b| && a[i].name == b[j].name ==> a[i].imports == b[j].imports
  }

  lemma SamePlace(a: seq<Unit>, b: seq<Unit>, k: nat, i: nat, m: nat, j: nat, n: nat)
    requires SameImports(a, b) && NoDuplicates(Names(a)) && NoDuplicates(Names(b))
    requires k < |a| && k < |b| && Names(a[..k]) == Names(b[..k])
    requires FirstOf(a, k, i, m) && FirstOf(b, k, j, n)
    ensures i <= j && (i == j ==> m <= n)
  {
    assert Names(a[..k])[i] == a[i].name && Names(b[..k])[i] == b[i].name && a[i].imports == b[i].imports;
    NotYet(a, k);
    if i > j {
      ImportLoaded(Names(b[..k]), b[i], m);
    } else if i == j && m > n {
      NotYet(b, k);
      ImportBefore(a, k, i, m, n);
    }
  }

  lemma ImportLoaded(names: seq<string>, u: Unit, m: nat)
    requires AllLoaded(names, u) && m < |u.imports|
    ensures u.imports[m].target in names
  {
    assert Loaded(names, u, m);
  }

  lemma ImportBefore(units: seq<Unit>, k: nat, i: nat, m: nat, n: nat)
    requires FirstOf(units, k, i, m) && n < m
    ensures units[i].imports[n].target in Names(units[..k])
  {
    assert Loaded(Names(units[..k]), units[i], n);
  }

  /** A name listed once is not listed before. */
  lemma NotYet(units: seq<Unit>, k: nat)
    requires k < |units| && NoDuplicates(Names(units))
    ensures units[k].name !in Names(units[..k])
  {
    forall i | 0 <= i < k ensures Names(units[..k])[i] != units[k].name {
      assert Names(units)[i] == Names(units[..k])[i] && Names(units)[i] != Names(units)[k];
    }
  }

  /** Depth-first lists that start alike and give units the same imports list
      the same names in the same order. */
  lemma {:induction false} OneOrder(a: seq<Unit>, b: seq<Unit>, k: nat)
    requires SameImports(a, b) && NoDuplicates(Names(a)) && NoDuplicates(Names(b)) && DepthFirst(a) && DepthFirst(b)
    requires k <= |a| && k <= |b| && (k > 0 ==> a[0].name == b[0].name)
    ensures Names(a[..k]) == Names(b[..k])
  {
    if k == 1 {
      assert Names(a[..1]) == [a[0].name] == Names(b[..1]);
    } else if k > 1 {
      var l := k - 1;
      OneOrder(a, b, l);
      assert Follows(a, l) && Follows(b, l);
      var i: nat, m: nat :| FirstOf(a, l, i, m);
      var j: nat, n: nat :| FirstOf(b, l, j, n);
      hide DepthFirst, NoDuplicates;
      SamePlace(a, b, l, i, m, j, n);
      SamePlace(b, a, l, j, n, i, m);
      assert Names(a[..l])[i] == a[i].name && Names(b[..l])[i] == b[i].name;
      assert a[l].name == b[l].name;
      assert Names(a[..k]) == Names(a[..l]) + [a[l].name] && Names(b[..k]) == Names(b[..l]) + [b[l].name];
    }
  }
}
