/** The numbers of canonical nodes, stated on the canonical contract itself:
    depth first through arguments, fields and methods in listed order, from the
    actor and then from the declarations by class. */
module CanonicalNumbering {
  import opened Bytes
  import opened Sorting
  import opened Wrappers
  import opened TypeGraph
  import opened Remapping
  import opened Partition
  import opened Quotient
  import opened Images
  import opened Reindex
  import opened Canonical
  import opened CanonicalForm
  import opened CanonicalListing
  import opened Interface

  // ----- class numbers -----

  /** Classes are numbered in the order of their signature bytes. */
  lemma IdsFollowBytes(signatures: seq<seq<byte>>, i: nat, j: nat)
    requires i < |signatures| && j < |signatures|
    ensures AssignIds(signatures)[i] < AssignIds(signatures)[j] <==> Before(signatures[i], signatures[j])
  {
    LexOrder();
    KeysAreTheMembers(LexLe, signatures);
    LexIsBefore(signatures[i], signatures[j]);
    hide Keys, LexLe, Before;
    var keys, a, b := Keys(LexLe, signatures), AssignIds(signatures)[i], AssignIds(signatures)[j];
    assert keys[a] == signatures[i] && keys[b] == signatures[j];
    if a < b { assert LexLe(keys[a], keys[b]) && keys[a] != keys[b]; }
    if b < a { assert LexLe(keys[b], keys[a]) && keys[b] != keys[a]; }
  }

  /** Two nodes are in one class as they were before, and their classes follow
      the bytes of the signatures refined by the classes before. */
  ghost predicate RefinedFrom(types: Types, last: seq<nat>, final: seq<nat>)
    requires ValidArena(types) && ClassesFor(types, last) && |final| == |types|
  {
    forall i: nat, j: nat :: i < |types| && j < |types| ==>
      && (final[i] == final[j] <==> last[i] == last[j])
      && (final[i] < final[j] <==> Before(RefinedSignatures(types, last)[i], RefinedSignatures(types, last)[j]))
  }

  /** The class numbers refinement answers with are those of its last round:
      they divide the nodes as the round before did, and follow the bytes of the
      signatures refined by it. */
  lemma FinalNumbers(types: Types) returns (last: seq<nat>)
    requires ValidArena(types)
    ensures ClassesFor(types, last) && RefinedFrom(types, last, SemanticClassesOf(types))
  {
    hide *;
    last := Round(types, StableFrom(types, 0));
    FinalRounds(types);
    UnsplitRefines(types, StableFrom(types, 0));
  }

  lemma UnsplitRefines(types: Types, k: nat)
    requires ValidArena(types) && !SplitAfter(types, k)
    ensures |Round(types, k + 1)| == |types| && RefinedFrom(types, Round(types, k), Round(types, k + 1))
  {
    assert |Round(types, k)| == |Round(types, k + 1)| == |types|;
    hide Round, RefinedSignatures, ValidArena, Before, SplitAfter, ClassesFor;
    forall i: nat, j: nat | i < |types| && j < |types|
      ensures Round(types, k + 1)[i] == Round(types, k + 1)[j] <==> Round(types, k)[i] == Round(types, k)[j]
      ensures Round(types, k + 1)[i] < Round(types, k + 1)[j] <==>
              Before(RefinedSignatures(types, Round(types, k))[i], RefinedSignatures(types, Round(types, k))[j])
    {
      UnsplitNumbers(types, k, i, j);
    }
  }

  lemma UnsplitNumbers(types: Types, k: nat, i: nat, j: nat)
    requires ValidArena(types) && i < |types| && j < |types| && !SplitAfter(types, k)
    ensures Round(types, k + 1)[i] == Round(types, k + 1)[j] <==> Round(types, k)[i] == Round(types, k)[j]
    ensures var signatures := RefinedSignatures(types, Round(types, k));
            Round(types, k + 1)[i] < Round(types, k + 1)[j] <==> Before(signatures[i], signatures[j])
  {
    hide Round, RefinedSignatures, ValidArena, Before;
    RoundNext(types, k);
    if Round(types, k + 1)[i] == Round(types, k + 1)[j] { RoundsRefine(types, k, i, j); }
    hide SplitAfter, Split;
    IdsFollowBytes(RefinedSignatures(types, Round(types, k)), i, j);
  }

  // ----- what a node refers to, in listed order -----

  ghost predicate AllBelow(refs: seq<TypeRef>, k: nat) { forall i :: 0 <= i < |refs| ==> refs[i] < k }

  /** The first reference that is not below `k` is `k`. */
  ghost predicate FirstIs(refs: seq<TypeRef>, k: nat) {
    exists i :: 0 <= i < |refs| && refs[i] == k && forall h :: 0 <= h < i ==> refs[h] < k
  }

  ghost predicate RefersBelow(node: TypeNode, k: nat) {
    match node
    case Primitive(_) => true
    case Opt(inner) => inner < k
    case Vec(inner) => inner < k
    case Record(fields) => forall i :: 0 <= i < |fields| ==> fields[i].ty < k
    case Variant(fields) => forall i :: 0 <= i < |fields| ==> fields[i].ty < k
    case Func(args, results, _) => AllBelow(args, k) && AllBelow(results, k)
    case Service(methods) => forall i :: 0 <= i < |methods| ==> methods[i].function_ < k
    case Class(init, service) => AllBelow(init, k) && service < k
  }

  /** Reading the node's references as they are listed, arguments before results
      and initializers before the service, the first not below `k` is `k`. */
  ghost predicate NewIs(node: TypeNode, k: nat) {
    match node
    case Primitive(_) => false
    case Opt(inner) => inner == k
    case Vec(inner) => inner == k
    case Record(fields) => exists i :: 0 <= i < |fields| && fields[i].ty == k && forall h :: 0 <= h < i ==> fields[h].ty < k
    case Variant(fields) => exists i :: 0 <= i < |fields| && fields[i].ty == k && forall h :: 0 <= h < i ==> fields[h].ty < k
    case Func(args, results, _) => FirstIs(args, k) || (AllBelow(args, k) && FirstIs(results, k))
    case Service(methods) =>
      exists i :: 0 <= i < |methods| && methods[i].function_ == k && forall h :: 0 <= h < i ==> methods[h].function_ < k
    case Class(init, service) => FirstIs(init, k) || (AllBelow(init, k) && service == k)
  }

  lemma FirstOfBoth(a: seq<TypeRef>, b: seq<TypeRef>, k: nat)
    requires FirstIs(a + b, k)
    ensures FirstIs(a, k) || (AllBelow(a, k) && FirstIs(b, k))
  {
    var i :| 0 <= i < |a + b| && (a + b)[i] == k && forall h :: 0 <= h < i ==> (a + b)[h] < k;
    if i < |a| {
      assert a[i] == k && forall h :: 0 <= h < i ==> a[h] == (a + b)[h];
    } else {
      assert b[i - |a|] == k && forall h :: 0 <= h < i - |a| ==> b[h] == (a + b)[|a| + h];
      assert forall h :: 0 <= h < |a| ==> a[h] == (a + b)[h];
    }
  }

  lemma BelowBoth(a: seq<TypeRef>, b: seq<TypeRef>, k: nat)
    ensures AllBelow(a + b, k) <==> AllBelow(a, k) && AllBelow(b, k)
  {
    assert forall h :: 0 <= h < |a| ==> a[h] == (a + b)[h];
    assert forall h :: 0 <= h < |b| ==> b[h] == (a + b)[|a| + h];
  }

  lemma NewIsListed(node: TypeNode, k: nat)
    ensures FirstIs(StoredRefs(node), k) ==> NewIs(node, k)
    ensures AllBelow(StoredRefs(node), k) <==> RefersBelow(node, k)
  {
    match node
    case Record(fields) => assert forall i :: 0 <= i < |fields| ==> fields[i].ty == FieldTypes(fields)[i];
    case Variant(fields) => assert forall i :: 0 <= i < |fields| ==> fields[i].ty == FieldTypes(fields)[i];
    case Service(methods) => assert forall i :: 0 <= i < |methods| ==> methods[i].function_ == MethodFunctions(methods)[i];
    case Func(args, results, _) =>
      if FirstIs(args + results, k) { FirstOfBoth(args, results, k); }
      BelowBoth(args, results, k);
    case Class(init, service) =>
      if FirstIs(init + [service], k) { FirstOfBoth(init, [service], k); }
      BelowBoth(init, [service], k);
      assert [service][0] == service;
    case Opt(inner) => assert [inner][0] == inner;
    case Vec(inner) => assert [inner][0] == inner;
    case Primitive(_) =>
  }

  // ----- the canonical contract -----

  /** Node `k` is the first new reference of the last node before it that has a
      new one. */
  ghost predicate FollowsNode(d: Contract, k: nat) {
    exists j: nat :: FollowsAt(d, j, k)
  }

  ghost predicate FollowsAt(d: Contract, j: nat, k: nat) {
    j < k < |d.types| && NewIs(d.types[j], k) && forall h: nat :: j < h < k ==> RefersBelow(d.types[h], k)
  }

  /** No node before `k` refers to `k` or beyond. */
  ghost predicate StartsWalk(d: Contract, k: nat) {
    k <= |d.types| && forall h: nat :: h < k ==> RefersBelow(d.types[h], k)
  }

  ghost predicate DeclaredAt(d: Contract, k: nat) {
    exists x :: x in d.declarations && x.ty == k
  }

  /** New numbers below `k` are those of the first `k` nodes of the order. */
  lemma NumbersBelow(q: Contract, x: nat, k: nat)
    requires Indexable(q) && x < |q.types| && k <= |CanonicalOrder(q)|
    ensures |NewNumbers(q)| == |CanonicalOrder(q)| == |q.types|
    ensures NewNumbers(q)[x] < k <==> x in CanonicalOrder(q)[..k]
  {
    NumbersInvert(q);
    hide CanonicalOrder, NewNumbers, Closed;
    var order, to := CanonicalOrder(q), NewNumbers(q);
    if to[x] < k { assert order[..k][to[x]] == x; }
    if x in order[..k] {
      var i :| 0 <= i < k && order[..k][i] == x;
      assert order[i] == x && to[order[i]] == i;
    }
  }

  /** The references of a canonical node are its quotient node's children,
      renumbered. */
  lemma CanonicalRefs(c: Contract, h: nat, k: nat)
    requires ValidContract(c) && h < |CanonicalOf(c).types| && k < |CanonicalOf(c).types|
    ensures var q := QuotientOf(c);
            && Indexable(q) && |CanonicalOrder(q)| == |q.types| == |CanonicalOf(c).types|
            && CanonicalOrder(q)[h] < |q.types|
            && (FirstNew(SortedChildren(q.types[CanonicalOrder(q)[h]]), CanonicalOrder(q)[..k], CanonicalOrder(q)[k]) ==>
                  NewIs(CanonicalOf(c).types[h], k))
            && (NoneNew(q.types, CanonicalOrder(q)[h], CanonicalOrder(q)[..k]) <==> RefersBelow(CanonicalOf(c).types[h], k))
  {
    CanonicalNode(c, h);
    var q := QuotientOf(c);
    hide QuotientOf, Reachable, ValidNode, RemapNode, CanonicalOrder, NewNumbers, ValidLocally;
    var order, to := CanonicalOrder(q), NewNumbers(q);
    RemapKeepsShape(q.types[order[h]], to);
    NewIsListed(CanonicalOf(c).types[h], k);
    hide StoredRefs;
    RenumberedRefs(q, SortedChildren(q.types[order[h]]), k);
  }

  lemma RenumberedRefs(q: Contract, kids: seq<TypeRef>, k: nat)
    requires Indexable(q) && |NewNumbers(q)| == |CanonicalOrder(q)| == |q.types| && k < |q.types|
    requires forall x :: x in kids ==> x < |q.types|
    ensures FirstNew(kids, CanonicalOrder(q)[..k], CanonicalOrder(q)[k]) ==> FirstIs(MapRefs(kids, NewNumbers(q)), k)
    ensures (forall x :: x in kids ==> x in CanonicalOrder(q)[..k]) <==> AllBelow(MapRefs(kids, NewNumbers(q)), k)
  {
    NumbersInvert(q);
    forall x: nat | x < |q.types| ensures NewNumbers(q)[x] < k <==> x in CanonicalOrder(q)[..k] { NumbersBelow(q, x, k); }
    hide CanonicalOrder, NewNumbers, Closed;
    var order, to := CanonicalOrder(q), NewNumbers(q);
    var refs := MapRefs(kids, to);
    assert forall h :: 0 <= h < |kids| ==> kids[h] in kids;
    if FirstNew(kids, order[..k], order[k]) {
      var i: nat :| i < |kids| && kids[i] == order[k] && order[k] !in order[..k] && forall h :: 0 <= h < i ==> kids[h] in order[..k];
      assert refs[i] == k;
      forall h | 0 <= h < i ensures refs[h] < k { assert kids[h] in kids; }
    }
  }

  /** When no node before `k` refers to `k` or beyond, nothing but a declaration
      or the actor can lead to it. */
  lemma NewRootIsDeclared(q: Contract, k: nat)
    requires ValidContract(q) && Indexable(q) && k < |CanonicalOrder(q)| == |q.types|
    requires ClosedAfter(q.types, CanonicalOrder(q), 0, k)
    requires FirstNew(RootSequence(q), CanonicalOrder(q)[..k], CanonicalOrder(q)[k])
    ensures var x := CanonicalOrder(q)[k];
            x in ActorRoots(q) || (FirstNew(DeclarationRoots(q), CanonicalOrder(q)[..k], x) && x in Targets(q))
  {
    hide CanonicalOrder, Closed, ClosedAfter, ValidContract, Indexable, Targets, ActorRoots, FirstNew, DeclarationRoots, Keys;
    var seen, x := CanonicalOrder(q)[..k], CanonicalOrder(q)[k];
    FirstOfThree(ActorRoots(q), DeclarationRoots(q), UpTo(|q.types|), seen, x);
    if x !in ActorRoots(q) && !FirstNew(DeclarationRoots(q), seen, x) {
      RootsCover(q, k, |ActorRoots(q)| + |DeclarationRoots(q)|);
    } else if x !in ActorRoots(q) {
      DeclaredTarget(q, seen, x);
    }
  }

  lemma DeclaredTarget(q: Contract, seen: seq<TypeRef>, x: TypeRef)
    requires FirstNew(DeclarationRoots(q), seen, x)
    ensures x in Targets(q)
  {
    RefOrder();
    KeysAreTheMembers(RefLe, Targets(q));
    hide Keys, Targets;
    assert x in DeclarationRoots(q);
  }

  lemma FirstOfThree(a: seq<TypeRef>, b: seq<TypeRef>, c: seq<TypeRef>, seen: seq<TypeRef>, x: TypeRef)
    requires FirstNew(a + (b + c), seen, x)
    ensures || x in a || FirstNew(b, seen, x)
            || (x !in seen && forall h :: 0 <= h < |a| + |b| ==> (a + (b + c))[h] in seen)
  {
    var all := a + (b + c);
    var i: nat :| i < |all| && all[i] == x && x !in seen && forall h :: 0 <= h < i ==> all[h] in seen;
    if i < |a| {
      assert a[i] == x;
    } else if i < |a| + |b| {
      assert b[i - |a|] == x;
      forall h | 0 <= h < i - |a| ensures b[h] in seen { assert all[|a| + h] == b[h]; }
    }
  }

  /** Past the actor and the declarations nothing is left. */
  lemma RootsCover(q: Contract, k: nat, i: nat)
    requires ValidContract(q) && Indexable(q) && k < |CanonicalOrder(q)| == |q.types|
    requires ClosedAfter(q.types, CanonicalOrder(q), 0, k)
    requires |ActorRoots(q)| + |DeclarationRoots(q)| <= i <= |RootSequence(q)|
    requires forall h :: 0 <= h < i ==> RootSequence(q)[h] in CanonicalOrder(q)[..k]
    ensures CanonicalOrder(q)[k] in CanonicalOrder(q)[..k]
  {
    OrderInRange(q);
    var seen, x := CanonicalOrder(q)[..k], CanonicalOrder(q)[k];
    assert x < |q.types| && Reachable(q.types, Roots(q), x);
    hide CanonicalOrder, ValidContract, Indexable, RootSequence, DeclarationRoots, ActorRoots, Roots, Reachable, ClosedAfter;
    forall r | r in Roots(q) ensures r in seen { RootNumbered(q, r, i, seen); }
    SeenIsClosed(q, k);
    ReachedWithin(q.types, Roots(q), (set y | y in seen), x);
  }

  lemma ReachedWithin(types: Types, roots: seq<TypeRef>, s: set<TypeRef>, x: TypeRef)
    requires Reachable(types, roots, x) && ClosedSet(types, s) && forall r :: r in roots ==> r in s
    ensures x in s
  {
  }

  lemma RootNumbered(q: Contract, r: TypeRef, i: nat, seen: seq<TypeRef>)
    requires Indexable(q) && r in Roots(q)
    requires |ActorRoots(q)| + |DeclarationRoots(q)| <= i <= |RootSequence(q)|
    requires forall h :: 0 <= h < i ==> RootSequence(q)[h] in seen
    ensures r in seen
  {
    RefOrder();
    KeysAreTheMembers(RefLe, Targets(q));
    hide Keys, Closed;
    var n := |ActorRoots(q)|;
    if r in ActorRoots(q) {
      assert RootSequence(q)[0] == r;
    } else {
      var m :| 0 <= m < |Roots(q)| && Roots(q)[m] == r;
      assert r == Targets(q)[m - n] && r in Targets(q);
      var d :| 0 <= d < |DeclarationRoots(q)| && DeclarationRoots(q)[d] == r;
      assert RootSequence(q)[n + d] == r;
    }
  }

  lemma SeenIsClosed(q: Contract, k: nat)
    requires Indexable(q) && k <= |CanonicalOrder(q)| && ClosedAfter(q.types, CanonicalOrder(q), 0, k)
    ensures ClosedSet(q.types, (set y | y in CanonicalOrder(q)[..k]))
  {
    hide CanonicalOrder, Closed, StoredRefs, SortedChildren;
    var seen := CanonicalOrder(q)[..k];
    forall v, x | v in seen && 0 <= v < |q.types| && x in StoredRefs(q.types[v]) ensures x in seen {
      var h :| 0 <= h < |seen| && seen[h] == v;
      assert CanonicalOrder(q)[h] == v;
      StoredAndSorted(q.types[v]);
    }
  }

  /** Where the walk starts again: at the actor first, then at a declaration. */
  ghost predicate Starts(d: Contract, k: nat) {
    && StartsWalk(d, k)
    && if d.actor.Some? && k == 0 then d.actor.value.target == 0 else DeclaredAt(d, k)
  }

  lemma IndexedDepthFirst(q: Contract, k: nat)
    requires Indexable(q) && k < |CanonicalOrder(q)|
    ensures DepthFirst(q.types, RootSequence(q), CanonicalOrder(q), 0, k)
  {
    RootsInRange(q);
    hide Closed, VisitAll, RootSequence, DepthFirst;
    VisitAllDepthFirst(q.types, RootSequence(q), [], k);
  }

  /** The order of the quotient is depth first. */
  lemma OrderIsDepthFirst(c: Contract, k: nat)
    requires ValidContract(c) && k < |CanonicalOf(c).types|
    ensures var q := QuotientOf(c);
            && ValidContract(q) && Minimal(q.types) && Indexable(q)
            && |CanonicalOrder(q)| == |q.types| == |CanonicalOf(c).types|
            && DepthFirst(q.types, RootSequence(q), CanonicalOrder(q), 0, k)
  {
    hide QuotientOf, ValidContract, NewNumbers, DepthFirst, CanonicalOrder, Indexable, Minimal, RootSequence;
    QuotientContract(c);
    ValidIsIndexable(QuotientOf(c));
    OrderInRange(QuotientOf(c));
    IndexedDepthFirst(QuotientOf(c), k);
  }

  lemma DeeperFollows(c: Contract, j: nat, k: nat)
    requires ValidContract(c) && j < k < |CanonicalOf(c).types|
    requires Indexable(QuotientOf(c)) && |CanonicalOrder(QuotientOf(c))| == |CanonicalOf(c).types|
    requires DeepensAt(QuotientOf(c).types, CanonicalOrder(QuotientOf(c)), j, k)
    ensures FollowsAt(CanonicalOf(c), j, k)
  {
    hide QuotientOf, NewIs, RefersBelow, CanonicalOf, CanonicalOrder, FirstNew, NoneNew, ValidContract, Indexable;
    CanonicalRefs(c, j, k);
    forall h: nat | j < h < k ensures RefersBelow(CanonicalOf(c).types[h], k) { CanonicalRefs(c, h, k); }
  }

  lemma ClosedStarts(c: Contract, k: nat)
    requires ValidContract(c) && k < |CanonicalOf(c).types|
    requires Indexable(QuotientOf(c)) && |CanonicalOrder(QuotientOf(c))| == |CanonicalOf(c).types|
    ensures ClosedAfter(QuotientOf(c).types, CanonicalOrder(QuotientOf(c)), 0, k) <==> StartsWalk(CanonicalOf(c), k)
  {
    hide QuotientOf, NewIs, RefersBelow, CanonicalOf, CanonicalOrder, FirstNew, NoneNew, ValidContract, Indexable;
    forall h: nat | h < k
      ensures NoneNew(QuotientOf(c).types, CanonicalOrder(QuotientOf(c))[h], CanonicalOrder(QuotientOf(c))[..k])
              <==> RefersBelow(CanonicalOf(c).types[h], k)
    {
      CanonicalRefs(c, h, k);
    }
  }

  /** The canonical arena is numbered depth first: every node is the first new
      reference of the last node before it that has one; where no node has, the
      walk starts at the actor or at a declaration. */
  lemma CanonicalIsDepthFirst(c: Contract, k: nat)
    requires ValidContract(c) && k < |CanonicalOf(c).types|
    ensures FollowsNode(CanonicalOf(c), k) || Starts(CanonicalOf(c), k)
  {
    hide QuotientOf, ValidContract, CanonicalOf, CanonicalOrder, DeepensAt, ClosedAfter, FirstNew, RootSequence, Indexable, Closed;
    hide Minimal, StartsWalk, Targets, ActorRoots, DeclarationRoots, FollowsAt;
    var q := QuotientOf(c);
    OrderIsDepthFirst(c, k);
    ClosedStarts(c, k);
    if Deepens(q.types, CanonicalOrder(q), 0, k) {
      var j: nat :| 0 <= j < k && DeepensAt(q.types, CanonicalOrder(q), j, k);
      DeeperFollows(c, j, k);
    } else {
      NewRootIsDeclared(q, k);
      RootsKeepNumbers(c, CanonicalOrder(q)[k], k);
    }
  }

  /** The roots of the quotient are those of the canonical contract, renumbered. */
  lemma RootsKeepNumbers(c: Contract, x: TypeRef, k: nat)
    requires ValidContract(c) && k < |CanonicalOf(c).types|
    requires Indexable(QuotientOf(c)) && k < |CanonicalOrder(QuotientOf(c))| && CanonicalOrder(QuotientOf(c))[k] == x
    ensures x in ActorRoots(QuotientOf(c)) ==>
              CanonicalOf(c).actor.Some? && CanonicalOf(c).actor.value.target == 0 && k == 0
    ensures x in Targets(QuotientOf(c)) ==> DeclaredAt(CanonicalOf(c), k)
    ensures CanonicalOf(c).actor.Some? ==> CanonicalOf(c).actor.value.target == 0
  {
    var q, d := QuotientOf(c), CanonicalOf(c);
    QuotientContract(c);
    IndexedContract(q);
    NumbersInvert(q);
    assert NewNumbers(q)[x] == k;
    hide QuotientOf, Reachable, ValidArena, NewNumbers, CanonicalOrder, Minimal, Image, IndexedTypes;
    if q.actor.Some? { ActorNumber(q); }
    if x in Targets(q) {
      var i :| 0 <= i < |Targets(q)| && Targets(q)[i] == x;
      assert q.declarations[i] in q.declarations;
      assert Declaration(q.declarations[i].name, k) in d.declarations;
    }
  }

  /** The walk starts at the declarations in the order of their classes: of the
      declared types not yet numbered, the one of the least class comes next. */
  lemma DeclarationsByClass(c: Contract, x: Declaration, y: Declaration)
    requires ValidContract(c) && x in c.declarations && y in c.declarations
    requires x.ty < |c.types| && y.ty < |c.types|
    requires !(c.actor.Some? && OldToNew(c)[x.ty] == 0)
    requires StartsWalk(CanonicalOf(c), OldToNew(c)[x.ty]) && OldToNew(c)[x.ty] <= OldToNew(c)[y.ty]
    ensures SemanticClassesOf(c.types)[x.ty] <= SemanticClassesOf(c.types)[y.ty]
  {
    var k, r, t := OldToNew(c)[x.ty], SemanticClassesOf(c.types)[x.ty], SemanticClassesOf(c.types)[y.ty];
    NodeGoesTo(c, x.ty);
    NodeGoesTo(c, y.ty);
    ClassTargets(c, x);
    ClassTargets(c, y);
    hide QuotientOf, ValidContract, CanonicalOf, CanonicalOrder, ClosedAfter, FirstNew, RootSequence, Indexable, Closed, OldToNew;
    hide Minimal, StartsWalk, Targets, ActorRoots, Deepens, SemanticClassesOf, NewNumbers;
    var q := QuotientOf(c);
    OrderIsDepthFirst(c, k);
    ClosedStarts(c, k);
    NothingDeepens(q.types, CanonicalOrder(q), k);
    NewRootIsDeclared(q, k);
    RootsKeepNumbers(c, r, k);
    NumbersBelow(q, t, k);
    LeastComes(DeclarationRoots(q), CanonicalOrder(q)[..k], r, t, Targets(q));
  }

  /** Where canonicalization sends an input node: the number of its class. */
  lemma NodeGoesTo(c: Contract, i: nat)
    requires ValidContract(c) && i < |c.types|
    ensures var q, r := QuotientOf(c), SemanticClassesOf(c.types)[i];
            && Indexable(q) && |q.types| == |NewNumbers(q)| == |CanonicalOrder(q)| == |CanonicalOf(c).types|
            && r < |q.types| && OldToNew(c)[i] == NewNumbers(q)[r] < |q.types|
            && CanonicalOrder(q)[OldToNew(c)[i]] == r
  {
    hide Reachable, ValidNode, NewNumbers, CanonicalOrder, QuotientTypes, SemanticClassesOf, Closed;
    ClassesNumbered(c);
    NumbersInvert(QuotientOf(c));
  }

  lemma NothingDeepens(types: Types, order: seq<TypeRef>, k: nat)
    requires k < |order| && ClosedAfter(types, order, 0, k)
    ensures !Deepens(types, order, 0, k)
  {
  }

  /** A declared type's class is a target of the quotient. */
  lemma ClassTargets(c: Contract, x: Declaration)
    requires ValidContract(c) && x in c.declarations && x.ty < |c.types|
    ensures SemanticClassesOf(c.types)[x.ty] in Targets(QuotientOf(c))
  {
    hide SemanticClassesOf, Reachable, ValidArena, QuotientTypes;
    var i :| 0 <= i < |c.declarations| && c.declarations[i] == x;
    ContractTargets(c);
    FinalClassesDense(c.types);
    assert Targets(QuotientOf(c))[i] == SemanticClassesOf(c.types)[x.ty];
  }

  /** The first new key of a sorted list is the least new one. */
  lemma LeastComes(keys: seq<TypeRef>, seen: seq<TypeRef>, r: TypeRef, t: TypeRef, members: seq<TypeRef>)
    requires keys == Keys(RefLe, members) && FirstNew(keys, seen, r) && t in members && t !in seen
    ensures r <= t
  {
    RefOrder();
    KeysAreTheMembers(RefLe, members);
    hide Keys;
    assert t in keys;
    var i: nat :| i < |keys| && keys[i] == r && r !in seen && forall h :: 0 <= h < i ==> keys[h] in seen;
    var m :| 0 <= m < |keys| && keys[m] == t;
    assert i <= m;
    assert i == m || RefLe(keys[i], keys[m]);
  }
}
