/** How a canonical contract is laid out: its declarations, fields and methods
    ascend by name and identifier, and its nodes are numbered depth first. */
module CanonicalListing {
  import opened Bytes
  import opened Sorting
  import opened TypeGraph
  import opened Remapping
  import opened Meaning
  import opened Partition
  import opened Quotient
  import opened Images
  import opened Reindex
  import opened Canonical
  import opened CanonicalForm

  // ----- listed in order -----

  ghost predicate DeclarationsAscend(ds: seq<Declaration>) {
    forall i, j :: 0 <= i < j < |ds| ==> Before(ds[i].name, ds[j].name)
  }

  /** Fields ascend by identifier; methods by identifier, then by name. */
  ghost predicate PartsAscend(node: TypeNode) {
    match node
    case Record(fields) => forall i, j :: 0 <= i < j < |fields| ==> fields[i].id < fields[j].id
    case Variant(fields) => forall i, j :: 0 <= i < j < |fields| ==> fields[i].id < fields[j].id
    case Service(methods) =>
      forall i, j :: 0 <= i < j < |methods| ==>
        methods[i].id < methods[j].id
        || (methods[i].id == methods[j].id && Before(methods[i].name, methods[j].name))
    case _ => true
  }

  lemma SortedDeclarationsAscend(ds: seq<Declaration>)
    requires DistinctDeclared(ds)
    ensures DeclarationsAscend(Sort(DeclarationLe, ds))
  {
    DeclarationOrder();
    SortSorts(DeclarationLe, ds);
    var s := Sort(DeclarationLe, ds);
    assert NoDuplicates(ds);
    CountsKeepNoDuplicates(ds, s);
    forall i, j | 0 <= i < j < |s| ensures Before(s[i].name, s[j].name) {
      assert s[i] in multiset(ds) && s[j] in multiset(ds);
      var k :| 0 <= k < |ds| && ds[k] == s[i];
      var l :| 0 <= l < |ds| && ds[l] == s[j];
      assert DeclarationLe(s[i], s[j]);
      LexIsBefore(s[i].name, s[j].name);
    }
  }

  lemma RewrittenAscends(node: TypeNode, to: seq<TypeRef>)
    requires ValidLocally(node) && RefsBelow(node, |to|)
    ensures PartsAscend(RemapNode(node, to))
  {
    match node
    case Record(fields) => SortedFieldsIdOrdered(fields);
    case Variant(fields) => SortedFieldsIdOrdered(fields);
    case Service(methods) =>
      SortedMethodsNameOrdered(methods);
      var s := Sort(MethodLe, methods);
      forall i, j | 0 <= i < j < |s|
        ensures s[i].id < s[j].id || (s[i].id == s[j].id && Before(s[i].name, s[j].name))
      {
        LexIsBefore(s[i].name, s[j].name);
      }
    case _ =>
  }

  /** A canonical node is a rewritten node of the quotient. */
  lemma CanonicalNode(c: Contract, k: nat)
    requires ValidContract(c) && k < |CanonicalOf(c).types|
    ensures var q := QuotientOf(c);
            && ValidContract(q) && Indexable(q) && |CanonicalOrder(q)| == |q.types| == |NewNumbers(q)| == |CanonicalOf(c).types|
            && CanonicalOrder(q)[k] < |q.types|
            && ValidLocally(q.types[CanonicalOrder(q)[k]]) && RefsBelow(q.types[CanonicalOrder(q)[k]], |NewNumbers(q)|)
            && CanonicalOf(c).types[k] == RemapNode(q.types[CanonicalOrder(q)[k]], NewNumbers(q))
  {
    hide Reachable, Minimal, CanonicalOrder, NewNumbers, RemapNode, QuotientOf, Image, ValidLocally;
    QuotientContract(c);
    ValidIsIndexable(QuotientOf(c));
    OrderInRange(QuotientOf(c));
    NodeFacts(QuotientOf(c).types, CanonicalOrder(QuotientOf(c))[k]);
  }

  /** The canonical contract lists declarations by name, fields by identifier and
      methods by identifier and name, each ascending. */
  lemma CanonicalAscends(c: Contract)
    requires ValidContract(c)
    ensures DeclarationsAscend(CanonicalOf(c).declarations)
    ensures forall k :: 0 <= k < |CanonicalOf(c).types| ==> PartsAscend(CanonicalOf(c).types[k])
  {
    hide Reachable, Minimal, CanonicalOrder, NewNumbers, RemapNode, PartsAscend, ValidArena, QuotientOf, Image, DeclarationsAscend;
    QuotientContract(c);
    var q := QuotientOf(c);
    ClassesNumbered(c);
    var mapped := MapDeclarations(q.declarations, NewNumbers(q));
    assert DistinctDeclared(mapped);
    SortedDeclarationsAscend(mapped);
    forall k | 0 <= k < |CanonicalOf(c).types| ensures PartsAscend(CanonicalOf(c).types[k]) {
      CanonicalNode(c, k);
      RewrittenAscends(q.types[CanonicalOrder(q)[k]], NewNumbers(q));
    }
  }

  // ----- numbered depth first -----

  /** The first entry of the list that is not numbered yet. */
  ghost predicate FirstNew(list: seq<TypeRef>, seen: seq<TypeRef>, x: TypeRef) {
    exists i: nat :: i < |list| && list[i] == x && x !in seen && forall h :: 0 <= h < i ==> list[h] in seen
  }

  ghost predicate NoneNew(types: Types, v: TypeRef, seen: seq<TypeRef>) {
    v < |types| && forall x :: x in SortedChildren(types[v]) ==> x in seen
  }

  /** Of the nodes numbered from `start` on, those after `j` have no new child. */
  ghost predicate ClosedAfter(types: Types, order: seq<TypeRef>, j: nat, k: nat)
    requires k <= |order|
  {
    forall h: nat :: j <= h < k ==> NoneNew(types, order[h], order[..k])
  }

  /** The node at position `k` is the first new child of the last node that has
      one. */
  ghost predicate Deepens(types: Types, order: seq<TypeRef>, start: nat, k: nat)
    requires k < |order|
  {
    exists j: nat :: start <= j < k && DeepensAt(types, order, j, k)
  }

  ghost predicate DeepensAt(types: Types, order: seq<TypeRef>, j: nat, k: nat)
    requires j < k < |order|
  {
    && order[j] < |types| && FirstNew(SortedChildren(types[order[j]]), order[..k], order[k])
    && ClosedAfter(types, order, j + 1, k)
  }

  /** Depth first: a first new child of the last node that has one, or else the
      first new root. */
  ghost predicate DepthFirst(types: Types, roots: seq<TypeRef>, order: seq<TypeRef>, start: nat, k: nat)
    requires k < |order|
  {
    Deepens(types, order, start, k) || (ClosedAfter(types, order, start, k) && FirstNew(roots, order[..k], order[k]))
  }

  lemma {:induction false} VisitDeepens(types: Types, v: TypeRef, before: seq<TypeRef>, k: nat)
    requires Closed(types) && v < |types| && Numbering(before, |types|) && |before| <= k < |Visit(types, v, before)|
    ensures v !in before && Visit(types, v, before)[|before|] == v
    ensures k == |before| || Deepens(types, Visit(types, v, before), |before|, k)
    decreases Unvisited(|types|, before), 0
  {
    ChildrenInRange(types, v);
    assert v in Unvisited(|types|, before) && v !in Unvisited(|types|, before + [v]);
    var kids, order := SortedChildren(types[v]), Visit(types, v, before);
    assert order == VisitAll(types, kids, before + [v]);
    if k > |before| {
      VisitAllDepthFirst(types, kids, before + [v], k);
      hide Visit, VisitAll, FirstNew, SortedChildren, Closed;
      if !Deepens(types, order, |before| + 1, k) { assert DeepensAt(types, order, |before|, k); }
    }
  }

  lemma {:induction false} VisitAllDepthFirst(types: Types, roots: seq<TypeRef>, before: seq<TypeRef>, k: nat)
    requires Closed(types) && Numbering(before, |types|) && forall x :: x in roots ==> x < |types|
    requires |before| <= k < |VisitAll(types, roots, before)|
    ensures DepthFirst(types, roots, VisitAll(types, roots, before), |before|, k)
    decreases Unvisited(|types|, before), 1 + |roots|
  {
    assert roots != [];
    assert roots[0] in roots && forall x :: x in roots[1..] ==> x in roots;
    var first, order := Visit(types, roots[0], before), VisitAll(types, roots, before);
    hide Visit, DepthFirst, Deepens, SortedChildren;
    assert order == VisitAll(types, roots[1..], first);
    assert Unvisited(|types|, first) <= Unvisited(|types|, before);
    VisitNumbers(types, roots[0], before);
    hide VisitAll, Closed, Unvisited;
    if k < |first| {
      VisitDeepens(types, roots[0], before, k);
      FirstPart(types, roots, first, order, |before|, k);
    } else {
      VisitAllDepthFirst(types, roots[1..], first, k);
      VisitClosed(types, roots[0], before);
      LaterPart(types, roots, before, first, order, k);
    }
  }

  lemma FirstPart(types: Types, roots: seq<TypeRef>, first: seq<TypeRef>, order: seq<TypeRef>, start: nat, k: nat)
    requires roots != [] && first <= order && start <= k < |first|
    requires k == start ==> first[k] == roots[0] && roots[0] !in first[..k]
    requires k == start || Deepens(types, first, start, k)
    ensures DepthFirst(types, roots, order, start, k)
  {
    assert order[..k] == first[..k] && order[k] == first[k];
    if k > start {
      var j: nat :| start <= j < k && DeepensAt(types, first, j, k);
      assert DeepensAt(types, order, j, k);
    }
  }

  /** What a visit numbered has no new child later on. */
  lemma VisitedClosed(types: Types, before: seq<TypeRef>, first: seq<TypeRef>, order: seq<TypeRef>, h: nat, k: nat)
    requires Numbering(first, |types|) && before <= first <= order && ChildrenNumbered(types, before, first)
    requires |before| <= h < |first| <= k <= |order|
    ensures NoneNew(types, order[h], order[..k])
  {
    var v := first[h];
    assert order[h] == v && v in first;
    assert v !in before by {
      forall i | 0 <= i < |before| ensures before[i] != v { assert first[i] == before[i]; }
    }
    forall x | x in SortedChildren(types[v]) ensures x in order[..k] {
      assert x in first;
      var i :| 0 <= i < |first| && first[i] == x;
      assert order[..k][i] == x;
    }
  }

  lemma LaterPart(types: Types, roots: seq<TypeRef>, before: seq<TypeRef>, first: seq<TypeRef>, order: seq<TypeRef>, k: nat)
    requires Numbering(first, |types|) && ChildrenNumbered(types, before, first)
    requires roots != [] && before <= first <= order && roots[0] in first && |first| <= k < |order|
    requires DepthFirst(types, roots[1..], order, |first|, k)
    ensures DepthFirst(types, roots, order, |before|, k)
  {
    hide ChildrenNumbered, NoneNew;
    if Deepens(types, order, |first|, k) {
      var j: nat :| |first| <= j < k && DeepensAt(types, order, j, k);
      assert |before| <= j;
    } else {
      forall h: nat | |before| <= h < k ensures NoneNew(types, order[h], order[..k]) {
        if h < |first| { VisitedClosed(types, before, first, order, h, k); }
      }
      OneMoreRoot(roots, order[..k], first, order[k]);
    }
  }

  lemma OneMoreRoot(roots: seq<TypeRef>, seen: seq<TypeRef>, first: seq<TypeRef>, x: TypeRef)
    requires roots != [] && roots[0] in first && first <= seen && FirstNew(roots[1..], seen, x)
    ensures FirstNew(roots, seen, x)
  {
    var i: nat :| i < |roots[1..]| && roots[1..][i] == x && x !in seen && forall h :: 0 <= h < i ==> roots[1..][h] in seen;
    assert roots[i + 1] == x && roots[0] in seen;
    forall h | 0 <= h < i + 1 ensures roots[h] in seen { if h > 0 { assert roots[h] == roots[1..][h - 1]; } }
  }
}
