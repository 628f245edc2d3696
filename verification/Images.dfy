/** Arenas rewritten by a map of references, as both the quotient and the
    renumbering are. Such an image keeps what every node means and every
    structural rule. */
module Images {
  import opened Bytes
  import opened Wrappers
  import opened TypeGraph
  import opened Remapping
  import opened Meaning

  lemma SameSymmetric(a: Types, b: Types)
    requires Closed(a) && Closed(b)
    ensures forall i: nat, j: nat :: i < |a| && j < |b| ==> (Same(a, i, b, j) <==> Same(b, j, a, i))
  {
  }

  lemma SameTransitive(a: Types, i: TypeRef, b: Types, j: TypeRef, c: Types, k: TypeRef)
    requires Closed(a) && Closed(b) && Closed(c) && i < |a| && j < |b| && k < |c|
    requires Same(a, i, b, j) && Same(b, j, c, k)
    ensures Same(a, i, c, k)
  {
    forall n: nat ensures Unfold(a, i, n) == Unfold(c, k, n) {
      assert Unfold(a, i, n) == Unfold(b, j, n) && Unfold(b, j, n) == Unfold(c, k, n);
    }
  }

  /** No two nodes mean the same. */
  ghost predicate Minimal(types: Types)
    requires Closed(types)
  {
    forall k: nat, l: nat :: k < |types| && l < |types| && Same(types, k, types, l) ==> k == l
  }

  /** `b` lists, for every new reference `k`, the node `rep[k]` of `a` rewritten
      by `to`; exactly the nodes of the same meaning share a new reference. */
  ghost predicate Image(a: Types, to: seq<TypeRef>, b: Types, rep: seq<TypeRef>) {
    && Closed(a)
    && |to| == |a| && |rep| == |b| <= |a|
    && (forall i: nat :: i < |a| ==> to[i] < |b|)
    && (forall i: nat, j: nat :: i < |a| && j < |a| ==> (to[i] == to[j] <==> Same(a, i, a, j)))
    && forall k: nat :: k < |b| ==>
         rep[k] < |a| && to[rep[k]] == k && RefsBelow(a[rep[k]], |to|) && b[k] == RemapNode(a[rep[k]], to)
  }

  lemma ImageNode(a: Types, to: seq<TypeRef>, b: Types, rep: seq<TypeRef>, k: nat)
    requires ValidArena(a) && Image(a, to, b, rep) && k < |b|
    ensures rep[k] < |a| && to[rep[k]] == k
    ensures forall x :: x in SortedChildren(a[rep[k]]) ==> x < |a|
    ensures ShapeOf(b[k]) == ShapeOf(a[rep[k]]) && ValidLocally(b[k])
    ensures SortedChildren(b[k]) == StoredRefs(b[k]) == MapRefs(SortedChildren(a[rep[k]]), to)
  {
    hide RemapNode, ShapeOf, SortedChildren, StoredRefs, ValidLocally;
    assert ValidNode(a, rep[k]);
    RemapKeepsShape(a[rep[k]], to);
  }

  lemma ImageClosed(a: Types, to: seq<TypeRef>, b: Types, rep: seq<TypeRef>)
    requires ValidArena(a) && Image(a, to, b, rep)
    ensures Closed(b)
  {
    forall k: nat | k < |b| ensures RefsBelow(b[k], |b|) {
      ImageNode(a, to, b, rep, k);
      forall x | x in StoredRefs(b[k]) ensures x < |b| {
        var m :| 0 <= m < |StoredRefs(b[k])| && StoredRefs(b[k])[m] == x;
        assert SortedChildren(a[rep[k]])[m] in SortedChildren(a[rep[k]]);
      }
    }
  }

  /** A node's image unfolds like the node. */
  lemma {:induction false} ImageUnfolds(a: Types, to: seq<TypeRef>, b: Types, rep: seq<TypeRef>, i: nat, n: nat)
    requires ValidArena(a) && Image(a, to, b, rep) && Closed(b) && i < |a|
    ensures to[i] < |b| && Unfold(b, to[i], n) == Unfold(a, i, n)
    decreases n
  {
    hide ShapeOf, SortedChildren, StoredRefs, ValidLocally, ValidNode, RemapNode;
    if n > 0 {
      var k := to[i];
      var r := rep[k];
      ImageNode(a, to, b, rep, k);
      assert Same(a, r, a, i);
      assert Unfold(a, r, n) == Unfold(a, i, n);
      ChildrenInRange(b, k);
      ChildrenInRange(a, r);
      forall m | 0 <= m < |SortedChildren(a[r])|
        ensures Unfold(b, SortedChildren(b[k])[m], n - 1) == Unfold(a, SortedChildren(a[r])[m], n - 1)
      {
        ImageUnfolds(a, to, b, rep, SortedChildren(a[r])[m], n - 1);
      }
      UnfoldStep(b, k, a, r, n - 1);
    }
  }

  lemma ImageMeansSame(a: Types, to: seq<TypeRef>, b: Types, rep: seq<TypeRef>, i: nat)
    requires ValidArena(a) && Image(a, to, b, rep) && Closed(b) && i < |a|
    ensures to[i] < |b| && Same(b, to[i], a, i)
  {
    forall n: nat ensures Unfold(b, to[i], n) == Unfold(a, i, n) {
      ImageUnfolds(a, to, b, rep, i, n);
    }
  }

  /** No two nodes of an image mean the same. */
  lemma ImageIsMinimal(a: Types, to: seq<TypeRef>, b: Types, rep: seq<TypeRef>)
    requires ValidArena(a) && Image(a, to, b, rep)
    ensures Closed(b) && Minimal(b)
  {
    hide Unfold;
    ImageClosed(a, to, b, rep);
    SameSymmetric(b, a);
    forall k: nat, l: nat | k < |b| && l < |b| && Same(b, k, b, l) ensures k == l {
      ImageMeansSame(a, to, b, rep, rep[k]);
      ImageMeansSame(a, to, b, rep, rep[l]);
      SameTransitive(a, rep[k], b, k, b, l);
      SameTransitive(a, rep[k], b, l, a, rep[l]);
    }
  }

  lemma ShapeDecidesKind(a: TypeNode, b: TypeNode)
    requires ShapeOf(a) == ShapeOf(b)
    ensures a.Class? <==> b.Class?
    ensures a.Service? <==> b.Service?
    ensures a.Func? <==> b.Func?
  {
  }

  /** A node and its image are of one kind. */
  lemma ImageKind(a: Types, to: seq<TypeRef>, b: Types, rep: seq<TypeRef>, i: nat)
    requires ValidArena(a) && Image(a, to, b, rep) && i < |a|
    ensures to[i] < |b|
    ensures a[i].Class? <==> b[to[i]].Class?
    ensures a[i].Service? <==> b[to[i]].Service?
    ensures a[i].Func? <==> b[to[i]].Func?
  {
    var k := to[i];
    ImageNode(a, to, b, rep, k);
    assert Same(a, rep[k], a, i);
    SameStep(a, rep[k], a, i);
    ShapeDecidesKind(a[rep[k]], a[i]);
    ShapeDecidesKind(a[rep[k]], b[k]);
  }

  lemma ImageNodeValid(a: Types, to: seq<TypeRef>, b: Types, rep: seq<TypeRef>, k: nat)
    requires ValidArena(a) && Image(a, to, b, rep) && Closed(b) && k < |b|
    ensures ValidNode(b, k)
  {
    var r := rep[k];
    ImageNode(a, to, b, rep, k);
    ShapeDecidesKind(b[k], a[r]);
    StoredAndSorted(a[r]);
    assert ValidNode(a, r) && RefsBelow(b[k], |b|);
    forall x | x in StoredRefs(b[k])
      ensures x < |b| && !b[x].Class? && (b[k].Service? ==> b[x].Func?)
    {
      var m :| 0 <= m < |StoredRefs(b[k])| && StoredRefs(b[k])[m] == x;
      var y := SortedChildren(a[r])[m];
      assert y in SortedChildren(a[r]) && y in StoredRefs(a[r]) && x == to[y];
      ImageKind(a, to, b, rep, y);
    }
    if b[k].Class? {
      var last := |SortedChildren(a[r])| - 1;
      assert SortedChildren(a[r])[last] == a[r].service;
      assert SortedChildren(b[k])[last] == b[k].service == to[a[r].service];
      ImageKind(a, to, b, rep, a[r].service);
    }
  }

  /** The image of a valid arena is valid. */
  lemma ImageArenaValid(a: Types, to: seq<TypeRef>, b: Types, rep: seq<TypeRef>)
    requires ValidArena(a) && Image(a, to, b, rep)
    ensures ValidArena(b)
  {
    ImageClosed(a, to, b, rep);
    forall k: nat | k < |b| ensures ValidNode(b, k) { ImageNodeValid(a, to, b, rep, k); }
  }

  // ----- contracts -----

  ghost predicate DeclarationsImage(ds: seq<Declaration>, to: seq<TypeRef>, es: seq<Declaration>) {
    && (forall d :: d in ds ==> d.ty < |to|)
    && (forall d :: d in ds ==> Declaration(d.name, to[d.ty]) in es)
    && (forall e :: e in es ==> exists d :: d in ds && e == Declaration(d.name, to[d.ty]))
    && forall i, j :: 0 <= i < j < |es| ==> es[i].name != es[j].name
  }

  ghost predicate ActorImage(x: Option<Actor>, to: seq<TypeRef>, y: Option<Actor>) {
    match x
    case None => y.None?
    case Some(ServiceActor(t)) => t < |to| && y == Some(ServiceActor(to[t]))
    case Some(ClassActor(t)) => t < |to| && y == Some(ClassActor(to[t]))
  }

  ghost predicate ContractImage(c: Contract, to: seq<TypeRef>, d: Contract, rep: seq<TypeRef>) {
    && Image(c.types, to, d.types, rep)
    && DeclarationsImage(c.declarations, to, d.declarations)
    && ActorImage(c.actor, to, d.actor)
  }

  lemma RootMember(c: Contract, r: TypeRef)
    ensures r in Roots(c) <==>
            (c.actor.Some? && c.actor.value.target == r) || exists d :: d in c.declarations && d.ty == r
  {
    var actors: seq<TypeRef> := if c.actor.Some? then [c.actor.value.target] else [];
    var targets: seq<TypeRef> := seq(|c.declarations|, i requires 0 <= i < |c.declarations| => c.declarations[i].ty);
    assert Roots(c) == actors + targets;
    if exists d :: d in c.declarations && d.ty == r {
      var d :| d in c.declarations && d.ty == r;
      var i :| 0 <= i < |c.declarations| && c.declarations[i] == d;
      assert targets[i] == r;
    }
    if r in targets {
      var i :| 0 <= i < |targets| && targets[i] == r;
      assert c.declarations[i] in c.declarations;
    }
  }

  lemma ImageReachable(c: Contract, to: seq<TypeRef>, d: Contract, rep: seq<TypeRef>, k: nat)
    requires ValidContract(c) && ContractImage(c, to, d, rep) && k < |d.types|
    ensures Reachable(d.types, Roots(d), k)
  {
    forall s: set<TypeRef> | (forall r :: r in Roots(d) ==> r in s) && ClosedSet(d.types, s) ensures k in s {
      var back := set i: nat | i < |c.types| && to[i] in s;
      forall r | r in Roots(c) ensures r in back { ImageRoot(c, to, d, rep, r); }
      forall i, x | i in back && 0 <= i < |c.types| && x in StoredRefs(c.types[i]) ensures x in back {
        ImageEdge(c.types, to, d.types, rep, i, x);
      }
      assert Reachable(c.types, Roots(c), rep[k]);
      assert rep[k] in back;
    }
  }

  lemma ImageRoot(c: Contract, to: seq<TypeRef>, d: Contract, rep: seq<TypeRef>, r: TypeRef)
    requires ContractImage(c, to, d, rep) && r in Roots(c)
    ensures r < |to| && to[r] in Roots(d)
  {
    RootMember(c, r);
    if exists e :: e in c.declarations && e.ty == r {
      var e :| e in c.declarations && e.ty == r;
      assert Declaration(e.name, to[e.ty]) in d.declarations;
    }
    if r < |to| { RootMember(d, to[r]); }
  }

  /** An edge has an edge as its image. */
  lemma ImageEdge(a: Types, to: seq<TypeRef>, b: Types, rep: seq<TypeRef>, i: nat, x: TypeRef)
    requires ValidArena(a) && Image(a, to, b, rep) && i < |a| && x in StoredRefs(a[i])
    ensures x < |a| && to[x] in StoredRefs(b[to[i]])
  {
    var k := to[i];
    var r := rep[k];
    ImageNode(a, to, b, rep, k);
    assert Same(a, r, a, i);
    StoredAndSorted(a[i]);
    SameStep(a, r, a, i);
    var m :| 0 <= m < |SortedChildren(a[i])| && SortedChildren(a[i])[m] == x;
    assert Same(a, SortedChildren(a[r])[m], a, x);
    assert to[SortedChildren(a[r])[m]] == to[x];
    assert StoredRefs(b[k])[m] == to[SortedChildren(a[r])[m]];
  }

  /** The image of a valid contract is valid. */
  lemma ImageContractValid(c: Contract, to: seq<TypeRef>, d: Contract, rep: seq<TypeRef>)
    requires ValidContract(c) && ContractImage(c, to, d, rep)
    ensures ValidContract(d)
  {
    hide Reachable, ValidArena, Image;
    ImageArenaValid(c.types, to, d.types, rep);
    ImageDeclarationsValid(c, to, d, rep);
    ImageActorValid(c, to, d, rep);
    forall k: nat | k < |d.types| ensures Reachable(d.types, Roots(d), k) { ImageReachable(c, to, d, rep, k); }
    forall k: nat | k < |d.types| && d.types[k].Class? ensures d.actor == Some(ClassActor(k)) {
      ImageClassIsActor(c, to, d, rep, k);
    }
  }

  lemma ImageClassIsActor(c: Contract, to: seq<TypeRef>, d: Contract, rep: seq<TypeRef>, k: nat)
    requires ValidContract(c) && ContractImage(c, to, d, rep) && k < |d.types| && d.types[k].Class?
    ensures d.actor == Some(ClassActor(k))
  {
    ImageKind(c.types, to, d.types, rep, rep[k]);
    assert c.types[rep[k]].Class?;
  }

  lemma ImageDeclarationsValid(c: Contract, to: seq<TypeRef>, d: Contract, rep: seq<TypeRef>)
    requires ValidContract(c) && ContractImage(c, to, d, rep)
    ensures ValidDeclarations(d)
  {
    forall e | e in d.declarations ensures e.name != [] && e.ty < |d.types| && !d.types[e.ty].Class? {
      var x :| x in c.declarations && e == Declaration(x.name, to[x.ty]);
      ImageKind(c.types, to, d.types, rep, x.ty);
    }
  }

  lemma ImageActorValid(c: Contract, to: seq<TypeRef>, d: Contract, rep: seq<TypeRef>)
    requires ValidContract(c) && ContractImage(c, to, d, rep)
    ensures ValidActor(d)
  {
    if c.actor.Some? {
      ImageKind(c.types, to, d.types, rep, c.actor.value.target);
    }
  }

  ghost predicate DeclaredBy(name: Bytes.Text, c: Contract) {
    exists x :: x in c.declarations && x.name == name
  }

  /** Equal declared names with targets of the same meaning, and actors of one
      kind and the same meaning, whatever the arenas look like. */
  ghost predicate Equivalent(c: Contract, d: Contract) {
    && (forall x :: x in c.declarations ==> DeclaredBy(x.name, d))
    && (forall y :: y in d.declarations ==> DeclaredBy(y.name, c))
    && (forall x, y :: x in c.declarations && y in d.declarations && x.name == y.name ==>
          Bisimilar(c.types, x.ty, d.types, y.ty))
    && SameActor(c, d)
  }

  /** The actors agree on their kind and mean the same. */
  ghost predicate SameActor(c: Contract, d: Contract) {
    match (c.actor, d.actor)
    case (None, None) => true
    case (Some(ServiceActor(s)), Some(ServiceActor(t))) => Bisimilar(c.types, s, d.types, t)
    case (Some(ClassActor(s)), Some(ClassActor(t))) => Bisimilar(c.types, s, d.types, t)
    case _ => false
  }
}
