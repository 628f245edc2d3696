/** Equal meaning is equal canonical form: the main theorem, in both
    directions, and its consequences. */
module Invariance {
  import opened Sorting
  import opened TypeGraph
  import opened Remapping
  import opened Meaning
  import opened Partition
  import opened Quotient
  import opened Images
  import opened Canonical
  import opened CanonicalForm

  // ----- equivalence, by unfoldings -----

  ghost predicate SameDeclared(c: Contract, d: Contract)
    requires ValidContract(c) && ValidContract(d)
  {
    && (forall x :: x in c.declarations ==> DeclaredBy(x.name, d))
    && (forall y :: y in d.declarations ==> DeclaredBy(y.name, c))
    && forall x, y :: x in c.declarations && y in d.declarations && x.name == y.name ==> Same(c.types, x.ty, d.types, y.ty)
  }

  ghost predicate SameActors(c: Contract, d: Contract)
    requires ValidContract(c) && ValidContract(d)
  {
    match (c.actor, d.actor)
    case (None, None) => true
    case (Some(ServiceActor(s)), Some(ServiceActor(t))) => Same(c.types, s, d.types, t)
    case (Some(ClassActor(s)), Some(ClassActor(t))) => Same(c.types, s, d.types, t)
    case _ => false
  }

  lemma SameActorsAre(c: Contract, d: Contract)
    requires ValidContract(c) && ValidContract(d)
    ensures SameActor(c, d) <==> SameActors(c, d)
  {
    if c.actor.Some? && d.actor.Some? {
      BisimilarIsSame(c.types, c.actor.value.target, d.types, d.actor.value.target);
    }
  }

  lemma EquivalentIs(c: Contract, d: Contract)
    requires ValidContract(c) && ValidContract(d)
    ensures Equivalent(c, d) <==> SameDeclared(c, d) && SameActors(c, d)
  {
    hide Bisimilar, Same, Reachable, ValidNode, DeclaredBy, SameActor, SameActors;
    SameActorsAre(c, d);
    forall x, y | x in c.declarations && y in d.declarations
      ensures Bisimilar(c.types, x.ty, d.types, y.ty) <==> Same(c.types, x.ty, d.types, y.ty)
    {
      DeclaredTarget(c, x);
      DeclaredTarget(d, y);
      BisimilarIsSame(c.types, x.ty, d.types, y.ty);
    }
  }

  lemma DeclaredTarget(c: Contract, x: Declaration)
    requires ValidContract(c) && x in c.declarations
    ensures x.ty < |c.types|
  {
  }

  // ----- equivalent contracts cover each other -----

  lemma DeclaredTwin(c: Contract, d: Contract, x: Declaration)
    requires ValidContract(c) && ValidContract(d) && SameDeclared(c, d) && x in c.declarations
    ensures x.ty < |c.types| && HasTwin(c.types, x.ty, d.types)
  {
    hide Reachable, ValidNode, Same;
    assert DeclaredBy(x.name, d);
    var y :| y in d.declarations && y.name == x.name;
    assert Same(c.types, x.ty, d.types, y.ty);
  }

  lemma ActorTwin(c: Contract, d: Contract)
    requires ValidContract(c) && ValidContract(d) && SameActors(c, d) && c.actor.Some?
    ensures c.actor.value.target < |c.types| && HasTwin(c.types, c.actor.value.target, d.types)
  {
    hide Reachable, ValidNode, Same;
  }

  lemma RootHasTwin(c: Contract, d: Contract, r: TypeRef)
    requires ValidContract(c) && ValidContract(d) && SameDeclared(c, d) && SameActors(c, d) && r in Roots(c)
    ensures r < |c.types| && HasTwin(c.types, r, d.types)
  {
    RootMember(c, r);
    hide HasTwin, SameDeclared, SameActors, Roots, Reachable, ValidNode;
    if exists x :: x in c.declarations && x.ty == r {
      var x :| x in c.declarations && x.ty == r;
      DeclaredTwin(c, d, x);
    } else {
      ActorTwin(c, d);
    }
  }

  lemma ChildHasTwin(a: Types, b: Types, i: nat, x: TypeRef)
    requires Closed(a) && Closed(b) && i < |a| && x in StoredRefs(a[i]) && HasTwin(a, i, b)
    ensures x < |a| && HasTwin(a, x, b)
  {
    var j: nat :| j < |b| && Same(a, i, b, j);
    SameStep(a, i, b, j);
    StoredAndSorted(a[i]);
    var m :| 0 <= m < |SortedChildren(a[i])| && SortedChildren(a[i])[m] == x;
    assert Same(a, x, b, SortedChildren(b[j])[m]);
  }

  lemma EquivalentCover(c: Contract, d: Contract)
    requires ValidContract(c) && ValidContract(d) && SameDeclared(c, d) && SameActors(c, d)
    ensures Covered(c.types, d.types)
  {
    hide HasTwin, SameDeclared, SameActors, ValidNode;
    var s := set i: nat | i < |c.types| && HasTwin(c.types, i, d.types);
    forall r | r in Roots(c) ensures r in s { RootHasTwin(c, d, r); }
    forall i, x | i in s && 0 <= i < |c.types| && x in StoredRefs(c.types[i]) ensures x in s {
      ChildHasTwin(c.types, d.types, i, x);
    }
    forall i: nat | i < |c.types| ensures HasTwin(c.types, i, d.types) {
      assert Reachable(c.types, Roots(c), i);
      assert i in s;
    }
  }

  lemma SwapEquivalent(c: Contract, d: Contract)
    requires ValidContract(c) && ValidContract(d) && SameDeclared(c, d) && SameActors(c, d)
    ensures SameDeclared(d, c) && SameActors(d, c)
  {
    hide Reachable, ValidNode, Same;
    SameSymmetric(c.types, d.types);
    forall y, x | y in d.declarations && x in c.declarations && y.name == x.name ensures Same(d.types, y.ty, c.types, x.ty) {
      DeclaredTarget(c, x);
      DeclaredTarget(d, y);
      assert Same(c.types, x.ty, d.types, y.ty);
    }
  }

  // ----- equivalent contracts have one quotient -----

  lemma SameClassCount(a: seq<nat>, b: seq<nat>)
    requires forall x :: x in a <==> x in b
    ensures ClassCount(a) == ClassCount(b)
  {
    if a != [] { assert ClassCount(a) - 1 in b; }
    if b != [] { assert ClassCount(b) - 1 in a; }
  }

  lemma ClassesWithin(a: Types, b: Types)
    requires ValidArena(a) && ValidArena(b) && Covered(a, b)
    requires Agree(a, SemanticClassesOf(a), b, SemanticClassesOf(b))
    ensures forall x :: x in SemanticClassesOf(a) ==> x in SemanticClassesOf(b)
  {
    hide SemanticClassesOf, Same;
    var ca, cb := SemanticClassesOf(a), SemanticClassesOf(b);
    forall x | x in ca ensures x in cb {
      var i :| 0 <= i < |ca| && ca[i] == x;
      assert HasTwin(a, i, b);
      var j: nat :| j < |b| && Same(a, i, b, j);
      assert ca[i] == cb[j];
    }
  }

  lemma RepresentativesSame(a: Types, b: Types, k: nat)
    requires ValidArena(a) && ValidArena(b) && Covered(a, b)
    requires Agree(a, SemanticClassesOf(a), b, SemanticClassesOf(b))
    requires k < |QTypes(a)| && k < |QTypes(b)|
    ensures FirstMembers(a)[k] < |a| && FirstMembers(b)[k] < |b|
    ensures Same(a, FirstMembers(a)[k], b, FirstMembers(b)[k])
  {
    hide SemanticClassesOf, Same, QTypes, ValidNode;
    var ca, cb := SemanticClassesOf(a), SemanticClassesOf(b);
    var i, l := FirstMembers(a)[k], FirstMembers(b)[k];
    assert ca[i] == k && cb[l] == k;
    assert HasTwin(a, i, b);
    var j: nat :| j < |b| && Same(a, i, b, j);
    assert ca[i] == cb[j];
    ClassesAreMeanings(b, j, l);
    SameTransitive(a, i, b, j, b, l);
  }

  lemma QuotientNodesEqual(a: Types, b: Types, k: nat)
    requires ValidArena(a) && ValidArena(b) && Covered(a, b)
    requires Agree(a, SemanticClassesOf(a), b, SemanticClassesOf(b))
    requires k < |QTypes(a)| && k < |QTypes(b)|
    ensures QTypes(a)[k] == QTypes(b)[k]
  {
    hide SemanticClassesOf, Same, QTypes, ValidNode, RemapNode, ShapeOf, SortedChildren, StoredRefs;
    var ca, cb := SemanticClassesOf(a), SemanticClassesOf(b);
    QuotientIsImage(a);
    QuotientIsImage(b);
    RepresentativesSame(a, b, k);
    var i, j := FirstMembers(a)[k], FirstMembers(b)[k];
    SameStep(a, i, b, j);
    StoredAndSorted(a[i]);
    StoredAndSorted(b[j]);
    assert RefsBelow(a[i], |ca|) && RefsBelow(b[j], |cb|);
    var ka, kb := SortedChildren(a[i]), SortedChildren(b[j]);
    forall m | 0 <= m < |ka| ensures MapRefs(ka, ca)[m] == MapRefs(kb, cb)[m] {
      assert Same(a, ka[m], b, kb[m]);
    }
    RemapDetermined(a[i], ca, b[j], cb);
  }

  lemma QuotientArenasEqual(a: Types, b: Types)
    requires ValidArena(a) && ValidArena(b) && Covered(a, b) && Covered(b, a)
    ensures Agree(a, SemanticClassesOf(a), b, SemanticClassesOf(b))
    ensures QTypes(a) == QTypes(b)
  {
    hide SemanticClassesOf, Covered, Agree, ValidArena;
    ClassesCarry(a, b);
    ClassesCarry(b, a);
    ClassesWithin(a, b);
    ClassesWithin(b, a);
    SameClassCount(SemanticClassesOf(a), SemanticClassesOf(b));
    forall k: nat | k < |QTypes(a)| ensures QTypes(a)[k] == QTypes(b)[k] {
      QuotientNodesEqual(a, b, k);
    }
  }

  lemma DeclarationWithin(c: Contract, ca: seq<nat>, d: Contract, cb: seq<nat>, x: Declaration, fs: seq<Declaration>)
    requires ValidContract(c) && ValidContract(d) && SameDeclared(c, d)
    requires ClassesFor(c.types, ca) && ClassesFor(d.types, cb) && Agree(c.types, ca, d.types, cb)
    requires DeclarationsImage(d.declarations, cb, fs) && x in c.declarations
    ensures x.ty < |ca| && Declaration(x.name, ca[x.ty]) in fs
  {
    hide Same, Reachable, ValidNode;
    assert DeclaredBy(x.name, d);
    var y :| y in d.declarations && y.name == x.name;
    assert Same(c.types, x.ty, d.types, y.ty);
    assert Declaration(y.name, cb[y.ty]) in fs;
  }

  lemma DeclarationsWithin(c: Contract, ca: seq<nat>, d: Contract, cb: seq<nat>, es: seq<Declaration>, fs: seq<Declaration>)
    requires ValidContract(c) && ValidContract(d) && SameDeclared(c, d)
    requires ClassesFor(c.types, ca) && ClassesFor(d.types, cb) && Agree(c.types, ca, d.types, cb)
    requires DeclarationsImage(c.declarations, ca, es) && DeclarationsImage(d.declarations, cb, fs)
    ensures forall e :: e in es ==> e in fs
  {
    forall e | e in es ensures e in fs {
      hide SameDeclared, Agree, ValidContract, ClassesFor;
      var x :| x in c.declarations && e == Declaration(x.name, ca[x.ty]);
      DeclarationWithin(c, ca, d, cb, x, fs);
    }
  }

  lemma QuotientDeclarationsWithin(c: Contract, d: Contract)
    requires ValidContract(c) && ValidContract(d) && SameDeclared(c, d)
    requires Agree(c.types, SemanticClassesOf(c.types), d.types, SemanticClassesOf(d.types))
    ensures forall e :: e in QuotientOf(c).declarations ==> e in QuotientOf(d).declarations
  {
    hide SemanticClassesOf, Reachable, ValidNode, Image, Minimal, QTypes, Agree, SameDeclared, DeclarationsImage, QuotientOf;
    QuotientContract(c);
    QuotientContract(d);
    DeclarationsWithin(c, SemanticClassesOf(c.types), d, SemanticClassesOf(d.types),
                       QuotientOf(c).declarations, QuotientOf(d).declarations);
  }

  lemma QuotientActorsEqual(c: Contract, d: Contract)
    requires ValidContract(c) && ValidContract(d) && SameActors(c, d)
    requires Agree(c.types, SemanticClassesOf(c.types), d.types, SemanticClassesOf(d.types))
    ensures QuotientOf(c).actor == QuotientOf(d).actor
  {
    hide SemanticClassesOf, Same, Reachable, QTypes, QuotientTypes, ValidNode, Closed, Dense;
    ContractTargets(c);
    ContractTargets(d);
  }

  // ----- equal quotients have one canonical form -----

  lemma TargetMembers(ds: seq<Declaration>, es: seq<Declaration>, x: TypeRef)
    requires forall e :: e in ds ==> e in es
    requires exists i :: 0 <= i < |ds| && ds[i].ty == x
    ensures exists i :: 0 <= i < |es| && es[i].ty == x
  {
    var i :| 0 <= i < |ds| && ds[i].ty == x;
    assert ds[i] in es;
  }

  lemma TargetsWithin(p: Contract, q: Contract)
    requires forall e :: e in p.declarations ==> e in q.declarations
    ensures forall x :: x in Targets(p) ==> x in Targets(q)
  {
    forall x | x in Targets(p) ensures x in Targets(q) {
      var i :| 0 <= i < |Targets(p)| && Targets(p)[i] == x;
      TargetMembers(p.declarations, q.declarations, x);
      var j :| 0 <= j < |q.declarations| && q.declarations[j].ty == x;
      assert Targets(q)[j] == x;
    }
  }

  lemma IndexedEqual(p: Contract, q: Contract)
    requires Indexable(p) && Indexable(q) && p.types == q.types && p.actor == q.actor
    requires DistinctDeclared(p.declarations) && DistinctDeclared(q.declarations)
    requires forall e :: e in p.declarations <==> e in q.declarations
    ensures IndexedOf(p) == IndexedOf(q)
  {
    hide CanonicalOrder, NewNumbers, Closed;
    TargetsWithin(p, q);
    TargetsWithin(q, p);
    RefOrder();
    KeysOfSameMembers(RefLe, Targets(p), Targets(q));
    OrdersEqual(p, q);
    var to := NewNumbers(p);
    assert NoDuplicates(p.declarations) && NoDuplicates(q.declarations);
    MappedMembersEqual(p.declarations, q.declarations, to);
    DeclarationOrder();
    SortOfPermutation(DeclarationLe, MapDeclarations(p.declarations, to), MapDeclarations(q.declarations, to));
  }

  lemma OrdersEqual(p: Contract, q: Contract)
    requires Indexable(p) && Indexable(q) && p.types == q.types && p.actor == q.actor
    requires DeclarationRoots(p) == DeclarationRoots(q)
    ensures NewNumbers(p) == NewNumbers(q) && CanonicalOrder(p) == CanonicalOrder(q)
  {
    assert RootSequence(p) == RootSequence(q);
  }

  lemma MappedMembersEqual(ds: seq<Declaration>, es: seq<Declaration>, to: seq<TypeRef>)
    requires DistinctDeclared(ds) && DistinctDeclared(es) && forall e :: e in ds <==> e in es
    requires forall i :: 0 <= i < |ds| ==> ds[i].ty < |to|
    requires forall i :: 0 <= i < |es| ==> es[i].ty < |to|
    ensures multiset(MapDeclarations(ds, to)) == multiset(MapDeclarations(es, to))
  {
    MappedWithin(ds, es, to);
    MappedWithin(es, ds, to);
    SameMembersSameMultiset(MapDeclarations(ds, to), MapDeclarations(es, to));
  }

  lemma MappedWithin(ds: seq<Declaration>, es: seq<Declaration>, to: seq<TypeRef>)
    requires forall e :: e in ds ==> e in es
    requires forall i :: 0 <= i < |ds| ==> ds[i].ty < |to|
    requires forall i :: 0 <= i < |es| ==> es[i].ty < |to|
    ensures forall x :: x in MapDeclarations(ds, to) ==> x in MapDeclarations(es, to)
  {
    forall x | x in MapDeclarations(ds, to) ensures x in MapDeclarations(es, to) {
      var i :| 0 <= i < |ds| && MapDeclarations(ds, to)[i] == x;
      assert ds[i] in ds;
      var j :| 0 <= j < |es| && es[j] == ds[i];
      assert MapDeclarations(es, to)[j] == x;
    }
  }

  // ----- the main theorem -----

  lemma EquivalentCanonicalEqual(c: Contract, d: Contract)
    requires ValidContract(c) && ValidContract(d) && SameDeclared(c, d) && SameActors(c, d)
    ensures CanonicalOf(c) == CanonicalOf(d)
  {
    hide SameDeclared, SameActors, Covered, Agree, SemanticClassesOf, QuotientOf, Image, Minimal, Reachable, ValidArena, IndexedOf;
    SwapEquivalent(c, d);
    EquivalentCover(c, d);
    EquivalentCover(d, c);
    QuotientArenasEqual(c.types, d.types);
    QuotientArenasEqual(d.types, c.types);
    QuotientDeclarationsWithin(c, d);
    QuotientDeclarationsWithin(d, c);
    QuotientActorsEqual(c, d);
    QuotientContract(c);
    QuotientContract(d);
    ValidIsIndexable(QuotientOf(c));
    ValidIsIndexable(QuotientOf(d));
    IndexedEqual(QuotientOf(c), QuotientOf(d));
  }

  ghost predicate SameContracts(c: Contract, d: Contract)
    requires ValidContract(c) && ValidContract(d)
  { SameDeclared(c, d) && SameActors(c, d) }

  lemma ImageDeclares(c: Contract, to: seq<TypeRef>, d: Contract)
    requires DeclarationsImage(c.declarations, to, d.declarations)
    ensures forall x :: x in c.declarations ==> DeclaredBy(x.name, d)
    ensures forall y :: y in d.declarations ==> DeclaredBy(y.name, c)
  {
    forall x | x in c.declarations ensures DeclaredBy(x.name, d) {
      assert Declaration(x.name, to[x.ty]) in d.declarations;
    }
    forall y | y in d.declarations ensures DeclaredBy(y.name, c) {
      var x :| x in c.declarations && y == Declaration(x.name, to[x.ty]);
    }
  }

  lemma ImageSame(c: Contract, to: seq<TypeRef>, d: Contract, rep: seq<TypeRef>)
    requires ValidContract(c) && ValidContract(d) && ContractImage(c, to, d, rep)
    ensures SameContracts(c, d)
  {
    hide Reachable, Image, ValidNode, Same, DeclaredBy;
    SameSymmetric(c.types, d.types);
    ImageDeclares(c, to, d);
    forall x, y | x in c.declarations && y in d.declarations && x.name == y.name ensures Same(c.types, x.ty, d.types, y.ty) {
      OneTarget(c, to, d, x, y);
      DeclaredTarget(c, x);
      ImageMeansSame(c.types, to, d.types, rep, x.ty);
    }
    if c.actor.Some? {
      ImageMeansSame(c.types, to, d.types, rep, c.actor.value.target);
    }
  }

  lemma OneTarget(c: Contract, to: seq<TypeRef>, d: Contract, x: Declaration, y: Declaration)
    requires DeclarationsImage(c.declarations, to, d.declarations)
    requires x in c.declarations && y in d.declarations && x.name == y.name
    ensures y == Declaration(x.name, to[x.ty])
  {
    var z := Declaration(x.name, to[x.ty]);
    assert z in d.declarations;
    var i :| 0 <= i < |d.declarations| && d.declarations[i] == y;
    var j :| 0 <= j < |d.declarations| && d.declarations[j] == z;
    assert i == j;
  }

  lemma TransitiveContracts(b: Contract, c: Contract, d: Contract)
    requires ValidContract(b) && ValidContract(c) && ValidContract(d)
    requires SameContracts(b, c) && SameContracts(c, d)
    ensures SameContracts(b, d)
  {
    hide Reachable, ValidNode, Same;
    forall x | x in b.declarations ensures DeclaredBy(x.name, d) {
      assert DeclaredBy(x.name, c);
      var y :| y in c.declarations && y.name == x.name;
    }
    forall y | y in d.declarations ensures DeclaredBy(y.name, b) {
      assert DeclaredBy(y.name, c);
      var x :| x in c.declarations && y.name == x.name;
    }
    forall x, z | x in b.declarations && z in d.declarations && x.name == z.name ensures Same(b.types, x.ty, d.types, z.ty) {
      assert DeclaredBy(x.name, c);
      var y :| y in c.declarations && y.name == x.name;
      DeclaredTarget(b, x);
      DeclaredTarget(c, y);
      DeclaredTarget(d, z);
      SameTransitive(b.types, x.ty, c.types, y.ty, d.types, z.ty);
    }
    if b.actor.Some? {
      SameTransitive(b.types, b.actor.value.target, c.types, c.actor.value.target, d.types, d.actor.value.target);
    }
  }

  /** A contract is equivalent to its canonical form. */
  lemma CanonicalIsSame(c: Contract)
    requires ValidContract(c)
    ensures ValidContract(CanonicalOf(c)) && SameContracts(c, CanonicalOf(c))
  {
    hide Reachable, ValidNode, SameContracts, QuotientOf, IndexedOf, Image, Minimal, SemanticClassesOf, NewNumbers, CanonicalOrder;
    var q := QuotientOf(c);
    QuotientContract(c);
    IndexedContract(q);
    ImageSame(c, SemanticClassesOf(c.types), q, FirstMembers(c.types));
    ImageSame(q, NewNumbers(q), IndexedOf(q), CanonicalOrder(q));
    TransitiveContracts(c, q, IndexedOf(q));
  }

  /** Two valid contracts have the same canonical form exactly when they declare
      the same names for bisimilar types and have bisimilar actors of one kind,
      whatever their numbering, duplication and listing order. */
  lemma CanonicalFormDecidesMeaning(c: Contract, d: Contract)
    requires ValidContract(c) && ValidContract(d)
    ensures CanonicalOf(c) == CanonicalOf(d) <==> Equivalent(c, d)
  {
    hide Reachable, ValidNode, CanonicalOf, Equivalent, SameDeclared, SameActors;
    EquivalentIs(c, d);
    if SameDeclared(c, d) && SameActors(c, d) { EquivalentCanonicalEqual(c, d); }
    if CanonicalOf(c) == CanonicalOf(d) {
      CanonicalIsSame(c);
      CanonicalIsSame(d);
      SwapEquivalent(d, CanonicalOf(d));
      TransitiveContracts(c, CanonicalOf(c), d);
    }
  }

  /** Canonicalizing a canonical contract returns it, node by node. */
  lemma CanonicalIsIdempotent(c: Contract)
    requires ValidContract(c)
    ensures ValidContract(CanonicalOf(c))
    ensures CanonicalOf(CanonicalOf(c)) == CanonicalOf(c)
    ensures OldToNew(CanonicalOf(c)) == UpTo(|CanonicalOf(c).types|)
  {
    hide Reachable, ValidNode, CanonicalOf, SameDeclared, SameActors, Minimal, OldToNew, Bisimilar;
    CanonicalIsSame(c);
    CanonicalMeansTheSame(c);
    var d := CanonicalOf(c);
    EquivalentCanonicalEqual(c, d);
    CanonicalMeansTheSame(d);
    forall i: nat | i < |d.types| ensures OldToNew(d)[i] == i {
      assert Bisimilar(d.types, i, d.types, OldToNew(d)[i]);
      BisimilarIsSame(d.types, i, d.types, OldToNew(d)[i]);
      MinimalApart(d.types, i, OldToNew(d)[i]);
    }
  }

  lemma MinimalApart(types: Types, i: nat, j: nat)
    requires Closed(types) && Minimal(types) && i < |types| && j < |types| && Same(types, i, types, j)
    ensures i == j
  {
  }
}
