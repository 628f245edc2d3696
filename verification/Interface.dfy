/** The interface payload: the actor-reachable prefix of the canonical arena.
    It depends on the actor alone. */
module Interface {
  import opened Wrappers
  import opened TypeGraph
  import opened Remapping
  import opened Meaning
  import opened Partition
  import opened Quotient
  import opened Images
  import opened Reindex
  import opened Canonical
  import opened CanonicalForm
  import opened Invariance

  // ----- breadth-first reachability -----

  ghost predicate Marked(reached: seq<bool>, s: set<TypeRef>) {
    forall i: nat :: i in s <==> i < |reached| && reached[i]
  }

  /** The walk's invariant: marked nodes and queued ones are reached, and every
      edge out of a marked node has been followed or is queued. */
  ghost predicate Frontier(types: Types, root: TypeRef, done: set<TypeRef>, work: seq<TypeRef>) {
    && (forall x :: x in work ==> x < |types| && Reachable(types, [root], x))
    && (forall x :: x in done ==> x < |types| && Reachable(types, [root], x))
    && (root in done || root in work)
    && forall i, x :: i in done && i < |types| && x in StoredRefs(types[i]) ==> x in done || x in work
  }

  ghost function Unmarked(n: nat, done: set<TypeRef>): set<TypeRef> {
    set i: nat | i < n && i !in done
  }

  lemma FrontierSkips(types: Types, root: TypeRef, done: set<TypeRef>, work: seq<TypeRef>)
    requires Frontier(types, root, done, work) && work != [] && work[0] in done
    ensures Frontier(types, root, done, work[1..])
  {
    assert work == [work[0]] + work[1..];
    assert forall x :: x in work <==> x == work[0] || x in work[1..];
  }

  lemma FrontierExpands(types: Types, root: TypeRef, done: set<TypeRef>, work: seq<TypeRef>)
    requires Closed(types) && Frontier(types, root, done, work) && work != []
    ensures work[0] < |types|
    ensures Frontier(types, root, done + {work[0]}, work[1..] + SortedChildren(types[work[0]]))
  {
    var v := work[0];
    assert v in work;
    StoredAndSorted(types[v]);
    ChildrenReachable(types, root, v);
    assert RefsBelow(types[v], |types|);
    var rest, kids := work[1..], SortedChildren(types[v]);
    assert work == [v] + rest;
    assert forall x :: x in work <==> x == v || x in rest;
    assert forall x :: x in rest + kids <==> x in rest || x in kids;
  }

  lemma FrontierEmpty(types: Types, root: TypeRef, done: set<TypeRef>, i: nat)
    requires Frontier(types, root, done, []) && i < |types|
    ensures i in done <==> Reachable(types, [root], i)
  {
    assert ClosedSet(types, done);
  }

  /** `reachable_from`: marks exactly the nodes the root reaches. */
  method ReachableFrom(root: TypeRef, types: Types) returns (result: seq<bool>)
    requires Closed(types) && root < |types|
    ensures |result| == |types|
    ensures forall i: nat :: i < |types| ==> (result[i] <==> Reachable(types, [root], i))
  {
    hide Frontier, Reachable, Closed;
    var reached := new bool[|types|](_ => false);
    ghost var done: set<TypeRef> := {};
    var work: seq<TypeRef> := [root];
    FrontierStarts(types, root);
    while work != []
      invariant Marked(reached[..], done) && Frontier(types, root, done, work)
      decreases Unmarked(|types|, done), |work|
    {
      FrontierExpands(types, root, done, work);
      var reference := work[0];
      if reached[reference] {
        FrontierSkips(types, root, done, work);
        work := work[1..];
        continue;
      }
      assert reference in Unmarked(|types|, done) && reference !in Unmarked(|types|, done + {reference});
      reached[reference] := true;
      done := done + {reference};
      work := work[1..] + SortedChildren(types[reference]);
    }
    result := reached[..];
    forall i: nat | i < |types| ensures result[i] <==> Reachable(types, [root], i) {
      FrontierEmpty(types, root, done, i);
    }
  }

  lemma FrontierStarts(types: Types, root: TypeRef)
    requires root < |types|
    ensures Frontier(types, root, {}, [root])
  {
    assert root in [root];
  }

  lemma ChildrenReachable(types: Types, root: TypeRef, v: TypeRef)
    requires v < |types| && Reachable(types, [root], v)
    ensures forall x :: x in StoredRefs(types[v]) ==> Reachable(types, [root], x)
  {
    forall x | x in StoredRefs(types[v]) ensures Reachable(types, [root], x) {
      forall s: set<TypeRef> | (forall r :: r in [root] ==> r in s) && ClosedSet(types, s) ensures x in s {
        assert v in s;
      }
    }
  }

  // ----- the reachable nodes are a prefix -----

  /** How many nodes the actor's visit numbers. */
  ghost function ActorVisit(q: Contract): seq<TypeRef>
    requires Indexable(q)
  {
    RootsInRange(q);
    VisitAll(q.types, ActorRoots(q), [])
  }

  lemma ActorVisitLeads(q: Contract)
    requires Indexable(q)
    ensures ActorVisit(q) <= CanonicalOrder(q)
  {
    hide VisitAll;
    OrderInStages(q);
  }

  /** A node's new number lies in the prefix exactly when the actor's visit
      lists it. */
  lemma PrefixNumbers(q: Contract, v: nat)
    requires Indexable(q) && v < |q.types|
    ensures NewNumbers(q)[v] < |ActorVisit(q)| <==> v in ActorVisit(q)
    ensures v in ActorVisit(q) ==> ActorVisit(q)[NewNumbers(q)[v]] == v
  {
    hide VisitAll, ActorVisit, CanonicalOrder, NewNumbers, Closed;
    ActorVisitLeads(q);
    NumbersInvert(q);
    var k := NewNumbers(q)[v];
    var visit := ActorVisit(q);
    if v in visit {
      var m :| 0 <= m < |visit| && visit[m] == v;
      assert CanonicalOrder(q)[m] == v;
      assert NewNumbers(q)[CanonicalOrder(q)[m]] == m;
    }
    if k < |visit| {
      assert visit[k] == CanonicalOrder(q)[k];
    }
  }

  /** Reachability carries forward along an image. */
  lemma ReachForward(a: Types, to: seq<TypeRef>, b: Types, rep: seq<TypeRef>, t: nat, v: nat)
    requires ValidArena(a) && Image(a, to, b, rep) && t < |a| && v < |a| && Reachable(a, [t], v)
    ensures Reachable(b, [to[t]], to[v])
  {
    forall s: set<TypeRef> | (forall r :: r in [to[t]] ==> r in s) && ClosedSet(b, s) ensures to[v] in s {
      var back := set i: nat | i < |a| && to[i] in s;
      assert to[t] in [to[t]];
      forall i, x | i in back && 0 <= i < |a| && x in StoredRefs(a[i]) ensures x in back {
        ImageEdge(a, to, b, rep, i, x);
      }
      assert v in back;
    }
  }

  /** And back, when no two nodes of the source mean the same. */
  lemma ReachBack(a: Types, to: seq<TypeRef>, b: Types, rep: seq<TypeRef>, t: nat, v: nat)
    requires ValidArena(a) && Image(a, to, b, rep) && Minimal(a) && t < |a| && v < |a| && Reachable(b, [to[t]], to[v])
    ensures Reachable(a, [t], v)
  {
    forall s: set<TypeRef> | (forall r :: r in [t] ==> r in s) && ClosedSet(a, s) ensures v in s {
      assert t in [t];
      var forth := set i: nat | i < |a| && i in s :: to[i];
      forall k, x | k in forth && 0 <= k < |b| && x in StoredRefs(b[k]) ensures x in forth {
        var i: nat :| i < |a| && i in s && to[i] == k;
        ImageNode(a, to, b, rep, k);
        MinimalApart(a, rep[k], i);
        var m :| 0 <= m < |StoredRefs(b[k])| && StoredRefs(b[k])[m] == x;
        var y := SortedChildren(a[i])[m];
        StoredAndSorted(a[i]);
        assert y in StoredRefs(a[i]) && x == to[y];
      }
      assert to[v] in forth;
      var w: nat :| w < |a| && w in s && to[w] == to[v];
      MinimalApart(a, w, v);
    }
  }

  /** The number of nodes the interface payload lists. */
  ghost function PrefixLength(c: Contract): nat
    requires ValidContract(c)
  {
    ClassesNumbered(c);
    |ActorVisit(QuotientOf(c))|
  }

  lemma ActorNumber(q: Contract)
    requires ValidContract(q) && Minimal(q.types) && q.actor.Some?
    ensures Indexable(q)
    ensures NewNumbers(q)[q.actor.value.target] == 0
    ensures IndexedOf(q).actor == Some(match q.actor.value case ServiceActor(_) => ServiceActor(0) case ClassActor(_) => ClassActor(0))
    ensures 0 < |ActorVisit(q)| <= |q.types|
  {
    hide Reachable, ValidNode, VisitAll, CanonicalOrder, NewNumbers;
    ValidIsIndexable(q);
    var t := q.actor.value.target;
    FirstVisited(q.types, t);
    ActorVisitLeads(q);
    NumbersInvert(q);
    assert CanonicalOrder(q)[0] == t;
    assert NewNumbers(q)[CanonicalOrder(q)[0]] == 0;
  }

  lemma FirstVisited(types: Types, t: nat)
    requires Closed(types) && t < |types|
    ensures VisitAll(types, [t], []) != [] && VisitAll(types, [t], [])[0] == t
  {
    ChildrenInRange(types, t);
    SingleVisit(types, t, []);
    assert [] + [t] <= Visit(types, t, []);
  }

  lemma QuotientPrefix(q: Contract, k: nat)
    requires ValidContract(q) && Minimal(q.types) && q.actor.Some? && k < |q.types|
    ensures Indexable(q)
    ensures Reachable(IndexedOf(q).types, [0], k) <==> k < |ActorVisit(q)|
  {
    hide Reachable, ValidNode, VisitAll, CanonicalOrder, NewNumbers, Image, IndexedTypes, Minimal;
    ValidIsIndexable(q);
    IndexedIsImage(q);
    ActorNumber(q);
    NumbersInvert(q);
    var t, v := q.actor.value.target, CanonicalOrder(q)[k];
    var d := IndexedOf(q);
    PrefixNumbers(q, v);
    RootsInRange(q);
    assert ActorRoots(q) == [t];
    VisitReaches(q.types, [t], v);
    if Reachable(q.types, [t], v) { ReachForward(q.types, NewNumbers(q), d.types, CanonicalOrder(q), t, v); }
    if Reachable(d.types, [0], k) { ReachBack(q.types, NewNumbers(q), d.types, CanonicalOrder(q), t, v); }
  }

  /** The canonical arena starts with exactly the nodes its actor reaches, and
      the actor is node zero. */
  lemma ReachableIsPrefix(c: Contract, k: nat)
    requires ValidContract(c) && c.actor.Some? && k < |CanonicalOf(c).types|
    ensures CanonicalOf(c).actor.Some? && CanonicalOf(c).actor.value.target == 0
    ensures PrefixLength(c) <= |CanonicalOf(c).types|
    ensures Reachable(CanonicalOf(c).types, [0], k) <==> k < PrefixLength(c)
  {
    hide Reachable, ValidNode, QuotientTypes, ActorVisit, Image, Minimal, NewNumbers;
    QuotientContract(c);
    QuotientPrefix(QuotientOf(c), k);
    ActorNumber(QuotientOf(c));
  }

  // ----- walks over two arenas side by side -----

  ghost predicate Paired(a: Types, x: seq<TypeRef>, b: Types, y: seq<TypeRef>)
    requires Closed(a) && Closed(b)
  {
    |x| == |y| && forall k :: 0 <= k < |x| ==> x[k] < |a| && y[k] < |b| && Same(a, x[k], b, y[k])
  }

  ghost predicate BothMinimal(a: Types, b: Types) {
    Closed(a) && Closed(b) && Minimal(a) && Minimal(b)
  }

  lemma PairedMember(a: Types, x: seq<TypeRef>, b: Types, y: seq<TypeRef>, v: TypeRef, w: TypeRef, k: nat)
    requires BothMinimal(a, b) && Paired(a, x, b, y) && v < |a| && w < |b| && Same(a, v, b, w) && k < |x|
    ensures x[k] == v <==> y[k] == w
  {
    hide Unfold;
    SameSymmetric(a, b);
    if x[k] == v {
      SameTransitive(b, y[k], a, v, b, w);
      MinimalApart(b, y[k], w);
    }
    if y[k] == w {
      SameTransitive(a, x[k], b, w, a, v);
      MinimalApart(a, x[k], v);
    }
  }

  lemma PairedIn(a: Types, x: seq<TypeRef>, b: Types, y: seq<TypeRef>, v: TypeRef, w: TypeRef)
    requires BothMinimal(a, b) && Paired(a, x, b, y) && v < |a| && w < |b| && Same(a, v, b, w)
    ensures v in x <==> w in y
  {
    hide Same;
    if v in x {
      var k :| 0 <= k < |x| && x[k] == v;
      PairedMember(a, x, b, y, v, w, k);
    }
    if w in y {
      var k :| 0 <= k < |y| && y[k] == w;
      PairedMember(a, x, b, y, v, w, k);
    }
  }

  /** Visits of nodes of the same meaning discover nodes of the same meaning, in
      the same order. */
  lemma {:induction false} VisitsPair(a: Types, v: TypeRef, x: seq<TypeRef>, b: Types, w: TypeRef, y: seq<TypeRef>)
    requires BothMinimal(a, b) && Paired(a, x, b, y) && v < |a| && w < |b| && Same(a, v, b, w)
    ensures Paired(a, Visit(a, v, x), b, Visit(b, w, y))
    decreases Unvisited(|a|, x), 0
  {
    hide Same, Minimal;
    PairedIn(a, x, b, y, v, w);
    if v !in x {
      SameStep(a, v, b, w);
      ChildrenInRange(a, v);
      ChildrenInRange(b, w);
      assert v in Unvisited(|a|, x) && v !in Unvisited(|a|, x + [v]);
      VisitAllsPair(a, SortedChildren(a[v]), x + [v], b, SortedChildren(b[w]), y + [w]);
    }
  }

  lemma {:induction false} VisitAllsPair(a: Types, vs: seq<TypeRef>, x: seq<TypeRef>, b: Types, ws: seq<TypeRef>, y: seq<TypeRef>)
    requires BothMinimal(a, b) && Paired(a, x, b, y) && Paired(a, vs, b, ws)
    ensures forall v :: v in vs ==> v < |a|
    ensures forall w :: w in ws ==> w < |b|
    ensures Paired(a, VisitAll(a, vs, x), b, VisitAll(b, ws, y))
    decreases Unvisited(|a|, x), 1 + |vs|
  {
    hide Same, Minimal;
    if vs != [] {
      assert forall v :: v in vs[1..] ==> v in vs;
      assert forall w :: w in ws[1..] ==> w in ws;
      VisitsPair(a, vs[0], x, b, ws[0], y);
      var first := Visit(a, vs[0], x);
      assert Unvisited(|a|, first) <= Unvisited(|a|, x);
      VisitAllsPair(a, vs[1..], first, b, ws[1..], Visit(b, ws[0], y));
    }
  }

  // ----- the interface payload -----

  datatype InterfacePayload = InterfacePayload(types: Types, actor: Actor)

  ghost function InterfaceOf(c: Contract): InterfacePayload
    requires ValidContract(c) && c.actor.Some?
  {
    var d := CanonicalOf(c);
    CanonicalPrefix(c);
    InterfacePayload(d.types[..PrefixLength(c)], d.actor.value)
  }

  lemma CanonicalPrefix(c: Contract)
    requires ValidContract(c) && c.actor.Some?
    ensures CanonicalOf(c).actor.Some? && CanonicalOf(c).actor.value.target == 0
    ensures 0 < PrefixLength(c) <= |CanonicalOf(c).types|
  {
    hide Reachable, ValidNode, QuotientTypes, ActorVisit, Image, Minimal, NewNumbers;
    QuotientContract(c);
    ActorNumber(QuotientOf(c));
  }

  /** `identities_for_canonical`, up to hashing: walk from the actor and take
      the reached prefix. */
  method InterfacePayloadOf(c: Contract, canonical: Contract) returns (payload: InterfacePayload)
    requires ValidContract(c) && c.actor.Some? && canonical == CanonicalOf(c)
    ensures payload == InterfaceOf(c)
  {
    hide CanonicalOf, Reachable, ValidArena, PrefixLength, Minimal;
    CanonicalPrefix(c);
    CanonicalMeansTheSame(c);
    CanonicalClosed(c);
    var reached := ReachableFrom(canonical.actor.value.target, canonical.types);
    var prefix := 0;
    while prefix < |reached| && reached[prefix]
      invariant prefix <= |reached|
      invariant forall i :: 0 <= i < prefix ==> reached[i]
    {
      prefix := prefix + 1;
    }
    assert prefix == PrefixLength(c) by {
      if prefix < |reached| { ReachableIsPrefix(c, prefix); }
      if PrefixLength(c) < prefix { ReachableIsPrefix(c, PrefixLength(c)); }
    }
    payload := InterfacePayload(canonical.types[..prefix], canonical.actor.value);
  }

  lemma CanonicalClosed(c: Contract)
    requires ValidContract(c)
    ensures Closed(CanonicalOf(c).types)
  {
    hide CanonicalOf, Reachable, ValidNode;
    CanonicalMeansTheSame(c);
  }

  // ----- bisimilar actors have one payload -----

  /** One node of the two renumbered prefixes. */
  lemma PrefixNodesEqual(p: Contract, q: Contract, k: nat)
    requires ValidContract(p) && Minimal(p.types) && p.actor.Some? && ValidContract(q) && Minimal(q.types) && q.actor.Some?
    requires Indexable(p) && Indexable(q) && Paired(p.types, ActorVisit(p), q.types, ActorVisit(q)) && k < |ActorVisit(p)|
    ensures k < |p.types| && k < |q.types| && IndexedTypes(p)[k] == IndexedTypes(q)[k]
  {
    hide Reachable, ValidNode, VisitAll, ActorVisit, CanonicalOrder, NewNumbers, Minimal, RemapNode, Same, ShapeOf, SortedChildren, StoredRefs;
    IndexedIsImage(p);
    IndexedIsImage(q);
    ActorNumber(p);
    ActorNumber(q);
    ActorVisitLeads(p);
    ActorVisitLeads(q);
    var i, j := ActorVisit(p)[k], ActorVisit(q)[k];
    assert CanonicalOrder(p)[k] == i && CanonicalOrder(q)[k] == j;
    SameStep(p.types, i, q.types, j);
    StoredAndSorted(p.types[i]);
    StoredAndSorted(q.types[j]);
    var ki, kj := SortedChildren(p.types[i]), SortedChildren(q.types[j]);
    assert RefsBelow(p.types[i], |NewNumbers(p)|) && RefsBelow(q.types[j], |NewNumbers(q)|);
    forall m | 0 <= m < |ki| ensures MapRefs(ki, NewNumbers(p))[m] == MapRefs(kj, NewNumbers(q))[m] {
      assert Same(p.types, ki[m], q.types, kj[m]);
      VisitHoldsChild(p, k, ki[m]);
      PrefixNumbers(p, ki[m]);
      var n := NewNumbers(p)[ki[m]];
      assert ActorVisit(p)[n] == ki[m];
      PairedMember(p.types, ActorVisit(p), q.types, ActorVisit(q), ki[m], kj[m], n);
      assert ActorVisit(q)[n] == kj[m] && CanonicalOrder(q)[n] == kj[m];
      NumbersInvert(q);
    }
    RemapDetermined(p.types[i], NewNumbers(p), q.types[j], NewNumbers(q));
  }

  lemma VisitHoldsChild(q: Contract, k: nat, x: TypeRef)
    requires Indexable(q) && k < |ActorVisit(q)|
    requires ActorVisit(q)[k] < |q.types| && x in SortedChildren(q.types[ActorVisit(q)[k]])
    ensures x in ActorVisit(q)
  {
    hide VisitAll;
    RootsInRange(q);
    VisitAllClosed(q.types, ActorRoots(q), []);
    assert ActorVisit(q)[k] in ActorVisit(q);
  }

  lemma ActorVisitsPair(p: Contract, q: Contract)
    requires ValidContract(p) && Minimal(p.types) && p.actor.Some? && ValidContract(q) && Minimal(q.types) && q.actor.Some?
    requires Indexable(p) && Indexable(q)
    requires Same(p.types, p.actor.value.target, q.types, q.actor.value.target)
    ensures Paired(p.types, ActorVisit(p), q.types, ActorVisit(q))
  {
    hide Reachable, ValidNode, VisitAll, Minimal, Same;
    assert ActorRoots(p) == [p.actor.value.target] && ActorRoots(q) == [q.actor.value.target];
    VisitAllsPair(p.types, ActorRoots(p), [], q.types, ActorRoots(q), []);
  }

  lemma QuotientActorsSame(c: Contract, d: Contract)
    requires ValidContract(c) && ValidContract(d) && c.actor.Some? && d.actor.Some? && SameActors(c, d)
    ensures var p, q := QuotientOf(c), QuotientOf(d);
            && ValidContract(p) && ValidContract(q) && p.actor.Some? && q.actor.Some?
            && Same(p.types, p.actor.value.target, q.types, q.actor.value.target)
  {
    hide Reachable, ValidNode, Same, Minimal, QuotientOf, SameDeclared, Image, SemanticClassesOf;
    var p, q := QuotientOf(c), QuotientOf(d);
    QuotientContract(c);
    QuotientContract(d);
    ImageSame(c, SemanticClassesOf(c.types), p, FirstMembers(c.types));
    ImageSame(d, SemanticClassesOf(d.types), q, FirstMembers(d.types));
    SwapEquivalent(c, p);
    SameTransitive(p.types, p.actor.value.target, c.types, c.actor.value.target, d.types, d.actor.value.target);
    SameTransitive(p.types, p.actor.value.target, d.types, d.actor.value.target, q.types, q.actor.value.target);
  }

  lemma PrefixesEqual(p: Contract, q: Contract)
    requires ValidContract(p) && Minimal(p.types) && p.actor.Some? && ValidContract(q) && Minimal(q.types) && q.actor.Some?
    requires Indexable(p) && Indexable(q) && Paired(p.types, ActorVisit(p), q.types, ActorVisit(q))
    ensures |ActorVisit(p)| == |ActorVisit(q)| && |ActorVisit(p)| <= |p.types| && |ActorVisit(q)| <= |q.types|
    ensures IndexedTypes(p)[..|ActorVisit(p)|] == IndexedTypes(q)[..|ActorVisit(q)|]
  {
    hide Reachable, ValidNode, Same, Minimal, ActorVisit, IndexedTypes, Paired, Closed, NewNumbers;
    PairedLength(p, q);
    ActorNumber(p);
    ActorNumber(q);
    forall k: nat | k < |ActorVisit(p)| ensures IndexedTypes(p)[k] == IndexedTypes(q)[k] {
      PrefixNodesEqual(p, q, k);
    }
  }

  lemma SameActorSameInterface(c: Contract, d: Contract)
    requires ValidContract(c) && ValidContract(d) && c.actor.Some? && d.actor.Some? && SameActors(c, d)
    ensures InterfaceOf(c) == InterfaceOf(d)
  {
    hide Reachable, ValidNode, Same, Minimal, SemanticClassesOf, Image, ActorVisit, IndexedTypes, QuotientTypes, Paired, Closed, NewNumbers;
    var p, q := QuotientOf(c), QuotientOf(d);
    QuotientContract(c);
    QuotientContract(d);
    ValidIsIndexable(p);
    ValidIsIndexable(q);
    QuotientActorsSame(c, d);
    ActorVisitsPair(p, q);
    PrefixesEqual(p, q);
    CanonicalPrefix(c);
    CanonicalPrefix(d);
    ActorNumber(p);
    ActorNumber(q);
  }

  lemma PairedLength(p: Contract, q: Contract)
    requires Indexable(p) && Indexable(q) && Paired(p.types, ActorVisit(p), q.types, ActorVisit(q))
    ensures |ActorVisit(p)| == |ActorVisit(q)|
  {
  }

  // ----- equal payloads have bisimilar actors -----

  ghost predicate ClosedBelow(types: Types, n: nat) {
    n <= |types| && forall i: nat :: i < n ==> RefsBelow(types[i], n)
  }

  lemma PrefixClosed(c: Contract)
    requires ValidContract(c) && c.actor.Some?
    ensures ClosedBelow(CanonicalOf(c).types, PrefixLength(c))
  {
    hide CanonicalOf, Reachable, ValidNode, PrefixLength, Minimal;
    CanonicalPrefix(c);
    CanonicalClosed(c);
    var d := CanonicalOf(c);
    forall i: nat | i < PrefixLength(c) ensures RefsBelow(d.types[i], PrefixLength(c)) {
      ReachableIsPrefix(c, i);
      ChildrenReachable(d.types, 0, i);
      forall x | x in StoredRefs(d.types[i]) ensures x < PrefixLength(c) {
        assert RefsBelow(d.types[i], |d.types|);
        ReachableIsPrefix(c, x);
      }
    }
  }

  lemma {:induction false} SharedPrefixUnfolds(a: Types, b: Types, len: nat, i: nat, n: nat)
    requires Closed(a) && Closed(b) && ClosedBelow(a, len) && len <= |b| && a[..len] == b[..len] && i < len
    ensures Unfold(a, i, n) == Unfold(b, i, n)
    decreases n
  {
    hide ShapeOf, SortedChildren, StoredRefs;
    if n > 0 {
      assert a[i] == a[..len][i] == b[..len][i] == b[i];
      StoredAndSorted(a[i]);
      assert RefsBelow(a[i], len);
      UnfoldStep(a, i, b, i, n - 1);
      forall k | 0 <= k < |SortedChildren(a[i])|
        ensures Unfold(a, SortedChildren(a[i])[k], n - 1) == Unfold(b, SortedChildren(b[i])[k], n - 1)
      {
        assert SortedChildren(a[i])[k] in SortedChildren(a[i]);
        SharedPrefixUnfolds(a, b, len, SortedChildren(a[i])[k], n - 1);
      }
    }
  }

  lemma SameInterfaceSameActor(c: Contract, d: Contract)
    requires ValidContract(c) && ValidContract(d) && c.actor.Some? && d.actor.Some? && InterfaceOf(c) == InterfaceOf(d)
    ensures SameActors(c, d)
  {
    hide CanonicalOf, Reachable, ValidNode, PrefixLength, Minimal, Unfold, SameDeclared;
    var x, y := CanonicalOf(c), CanonicalOf(d);
    CanonicalPrefix(c);
    CanonicalPrefix(d);
    CanonicalClosed(c);
    CanonicalClosed(d);
    CanonicalIsSame(c);
    CanonicalIsSame(d);
    PrefixClosed(c);
    var len := PrefixLength(c);
    assert |x.types[..len]| == |y.types[..PrefixLength(d)]|;
    forall n: nat ensures Unfold(x.types, 0, n) == Unfold(y.types, 0, n) {
      SharedPrefixUnfolds(x.types, y.types, len, 0, n);
    }
    assert Same(x.types, 0, y.types, 0);
    SwapEquivalent(d, y);
    SameTransitive(c.types, c.actor.value.target, x.types, 0, y.types, 0);
    SameTransitive(c.types, c.actor.value.target, y.types, 0, d.types, d.actor.value.target);
  }

  /** Two contracts have the same interface payload exactly when their actors
      are of one kind and bisimilar: nothing else about them matters. */
  lemma InterfaceDecidesActor(c: Contract, d: Contract)
    requires ValidContract(c) && ValidContract(d) && c.actor.Some? && d.actor.Some?
    ensures InterfaceOf(c) == InterfaceOf(d) <==> SameActor(c, d)
  {
    hide InterfaceOf, SameActors, SameActor, Reachable, ValidNode;
    SameActorsAre(c, d);
    if SameActors(c, d) { SameActorSameInterface(c, d); }
    if InterfaceOf(c) == InterfaceOf(d) { SameInterfaceSameActor(c, d); }
  }
}
