/** Renumbering an arena by depth-first discovery: the explicit stack refines
    the recursive preorder, and what one visit adds is exactly what its root
    reaches. */
module Reindex {
  import opened Sorting
  import opened Wrappers
  import opened TypeGraph
  import opened Remapping

  function Unvisited(n: nat, order: seq<TypeRef>): set<TypeRef> {
    set i: nat | i < n && i !in order
  }

  /** The recursive preorder walk: `order` lists what is already numbered. */
  ghost function Visit(types: Types, v: TypeRef, order: seq<TypeRef>): (r: seq<TypeRef>)
    requires Closed(types) && v < |types|
    ensures order <= r && v in r
    decreases Unvisited(|types|, order), 0
  {
    if v in order then order
    else
      ChildrenInRange(types, v);
      assert v in Unvisited(|types|, order) && v !in Unvisited(|types|, order + [v]);
      var r := VisitAll(types, SortedChildren(types[v]), order + [v]);
      assert r[|order|] == v;
      r
  }

  ghost function VisitAll(types: Types, roots: seq<TypeRef>, order: seq<TypeRef>): (r: seq<TypeRef>)
    requires Closed(types) && forall x :: x in roots ==> x < |types|
    ensures order <= r
    decreases Unvisited(|types|, order), 1 + |roots|
  {
    if roots == [] then order
    else
      assert roots[0] in roots && forall x :: x in roots[1..] ==> x in roots;
      var first := Visit(types, roots[0], order);
      assert Unvisited(|types|, first) <= Unvisited(|types|, order);
      VisitAll(types, roots[1..], first)
  }

  lemma {:induction false} VisitAllOfAll(types: Types, a: seq<TypeRef>, b: seq<TypeRef>, order: seq<TypeRef>)
    requires Closed(types)
    requires forall x :: x in a ==> x < |types|
    requires forall x :: x in b ==> x < |types|
    ensures forall x :: x in a + b ==> x < |types|
    ensures VisitAll(types, a + b, order) == VisitAll(types, b, VisitAll(types, a, order))
    decreases |a|
  {
    if a == [] {
      assert a + b == b;
    } else {
      assert a[0] in a && forall x :: x in a[1..] ==> x in a;
      var first := Visit(types, a[0], order);
      VisitAllOfAll(types, a[1..], b, first);
      assert (a + b)[1..] == a[1..] + b;
    }
  }

  ghost predicate Numbering(order: seq<TypeRef>, n: nat) {
    NoDuplicates(order) && forall x :: x in order ==> x < n
  }

  lemma {:induction false} VisitNumbers(types: Types, v: TypeRef, order: seq<TypeRef>)
    requires Closed(types) && v < |types| && Numbering(order, |types|)
    ensures Numbering(Visit(types, v, order), |types|)
    decreases Unvisited(|types|, order), 0
  {
    if v !in order {
      ChildrenInRange(types, v);
      assert v in Unvisited(|types|, order) && v !in Unvisited(|types|, order + [v]);
      VisitAllNumbers(types, SortedChildren(types[v]), order + [v]);
    }
  }

  lemma {:induction false} VisitAllNumbers(types: Types, roots: seq<TypeRef>, order: seq<TypeRef>)
    requires Closed(types) && Numbering(order, |types|)
    requires forall x :: x in roots ==> x < |types|
    ensures Numbering(VisitAll(types, roots, order), |types|)
    ensures forall x :: x in roots ==> x in VisitAll(types, roots, order)
    decreases Unvisited(|types|, order), 1 + |roots|
  {
    if roots != [] {
      assert roots[0] in roots && forall x :: x in roots[1..] ==> x in roots;
      var first := Visit(types, roots[0], order);
      assert Unvisited(|types|, first) <= Unvisited(|types|, order);
      VisitNumbers(types, roots[0], order);
      VisitAllNumbers(types, roots[1..], first);
      assert first <= VisitAll(types, roots, order);
      assert forall x :: x in roots ==> x == roots[0] || x in roots[1..];
    }
  }

  // ----- what a visit reaches -----

  /** Everything a visit numbers has all its children numbered. */
  ghost predicate ChildrenNumbered(types: Types, before: seq<TypeRef>, after: seq<TypeRef>) {
    forall x, y :: x in after && x !in before && x < |types| && y in SortedChildren(types[x]) ==> y in after
  }

  lemma {:induction false} VisitClosed(types: Types, v: TypeRef, order: seq<TypeRef>)
    requires Closed(types) && v < |types|
    ensures ChildrenNumbered(types, order, Visit(types, v, order))
    decreases Unvisited(|types|, order), 0
  {
    if v !in order {
      ChildrenInRange(types, v);
      assert v in Unvisited(|types|, order) && v !in Unvisited(|types|, order + [v]);
      VisitAllClosed(types, SortedChildren(types[v]), order + [v]);
    }
  }

  lemma {:induction false} VisitAllClosed(types: Types, roots: seq<TypeRef>, order: seq<TypeRef>)
    requires Closed(types) && forall x :: x in roots ==> x < |types|
    ensures ChildrenNumbered(types, order, VisitAll(types, roots, order))
    ensures forall x :: x in roots ==> x in VisitAll(types, roots, order)
    decreases Unvisited(|types|, order), 1 + |roots|
  {
    if roots != [] {
      assert roots[0] in roots && forall x :: x in roots[1..] ==> x in roots;
      var first := Visit(types, roots[0], order);
      assert Unvisited(|types|, first) <= Unvisited(|types|, order);
      VisitClosed(types, roots[0], order);
      VisitAllClosed(types, roots[1..], first);
      var r := VisitAll(types, roots, order);
      assert first <= r;
      assert forall x :: x in roots ==> x == roots[0] || x in roots[1..];
      forall x, y | x in r && x !in order && x < |types| && y in SortedChildren(types[x]) ensures y in r {
        if x in first { assert y in first; }
      }
    }
  }

  /** Everything a visit numbers is in every closed set that holds its root. */
  lemma {:induction false} VisitWithin(types: Types, v: TypeRef, order: seq<TypeRef>, s: set<TypeRef>)
    requires Closed(types) && v < |types| && ClosedSet(types, s) && v in s
    ensures forall x :: x in Visit(types, v, order) && x !in order ==> x in s
    decreases Unvisited(|types|, order), 0
  {
    if v !in order {
      ChildrenInRange(types, v);
      StoredAndSorted(types[v]);
      assert v in Unvisited(|types|, order) && v !in Unvisited(|types|, order + [v]);
      VisitAllWithin(types, SortedChildren(types[v]), order + [v], s);
    }
  }

  lemma {:induction false} VisitAllWithin(types: Types, roots: seq<TypeRef>, order: seq<TypeRef>, s: set<TypeRef>)
    requires Closed(types) && ClosedSet(types, s)
    requires forall x :: x in roots ==> x < |types| && x in s
    ensures forall x :: x in VisitAll(types, roots, order) && x !in order ==> x in s
    decreases Unvisited(|types|, order), 1 + |roots|
  {
    if roots != [] {
      assert roots[0] in roots && forall x :: x in roots[1..] ==> x in roots;
      var first := Visit(types, roots[0], order);
      assert Unvisited(|types|, first) <= Unvisited(|types|, order);
      VisitWithin(types, roots[0], order, s);
      VisitAllWithin(types, roots[1..], first, s);
    }
  }

  /** A walk from nothing numbers exactly what its roots reach. */
  lemma VisitReaches(types: Types, roots: seq<TypeRef>, v: TypeRef)
    requires Closed(types) && forall x :: x in roots ==> x < |types|
    ensures v in VisitAll(types, roots, []) <==> Reachable(types, roots, v)
  {
    var r := VisitAll(types, roots, []);
    VisitAllClosed(types, roots, []);
    VisitAllNumbers(types, roots, []);
    if Reachable(types, roots, v) {
      var s := set x | x in r;
      forall i, x | i in s && 0 <= i < |types| && x in StoredRefs(types[i]) ensures x in s {
        StoredAndSorted(types[i]);
        assert x in SortedChildren(types[i]);
      }
      assert ClosedSet(types, s);
    }
    if v in r {
      forall s: set<TypeRef> | (forall x :: x in roots ==> x in s) && ClosedSet(types, s) ensures v in s {
        VisitAllWithin(types, roots, [], s);
      }
    }
  }

  // ----- the explicit stack -----

  function Reverse(s: seq<TypeRef>): (r: seq<TypeRef>)
    ensures |r| == |s|
    ensures forall i :: 0 <= i < |s| ==> r[i] == s[|s| - 1 - i]
  {
    seq(|s|, i requires 0 <= i < |s| => s[|s| - 1 - i])
  }

  lemma ReverseMembers(s: seq<TypeRef>)
    ensures forall x :: x in Reverse(s) <==> x in s
  {
    forall x | x in s ensures x in Reverse(s) {
      var i :| 0 <= i < |s| && s[i] == x;
      assert Reverse(s)[|s| - 1 - i] == x;
    }
  }

  /** `to` numbers exactly the nodes in `order`, by their positions. */
  ghost predicate Inverse(to: seq<Option<TypeRef>>, order: seq<TypeRef>) {
    && Numbering(order, |to|)
    && (forall i :: 0 <= i < |to| ==> (to[i].Some? <==> i in order))
    && forall k :: 0 <= k < |order| ==> order[k] < |to| && to[order[k]] == Some(k)
  }

  /** `visit_iterative`: the explicit-stack walk, numbering in place. It is the
      recursive preorder visit. */
  method VisitIterative(root: TypeRef, types: Types, oldToNew: array<Option<TypeRef>>, newToOld: seq<TypeRef>)
    returns (order: seq<TypeRef>)
    requires Closed(types) && root < |types| && oldToNew.Length == |types|
    requires Inverse(oldToNew[..], newToOld)
    modifies oldToNew
    ensures order == Visit(types, root, newToOld)
    ensures Inverse(oldToNew[..], order)
  {
    hide Visit, VisitAll, Inverse, Unvisited, SortedChildren, Closed;
    order := newToOld;
    var stack: seq<TypeRef> := [root];
    assert Reverse(stack) == [root];
    ghost var goal := VisitAll(types, [root], newToOld);
    SingleVisit(types, root, newToOld);
    while stack != []
      invariant forall x: TypeRef :: x in stack ==> x < |types|
      invariant forall x :: x in Reverse(stack) ==> x < |types|
      invariant Inverse(oldToNew[..], order)
      invariant VisitAll(types, Reverse(stack), order) == goal
      decreases Unvisited(|types|, order), |stack|
    {
      var reference := stack[|stack| - 1];
      VisitTop(types, stack, order);
      NumberedIs(oldToNew[..], order, reference);
      stack := stack[..|stack| - 1];
      if oldToNew[reference].None? {
        ghost var was := oldToNew[..];
        NumberNext(was, order, reference);
        FewerUnvisited(|types|, order, reference);
        oldToNew[reference] := Some(|order|);
        assert oldToNew[..] == was[reference := Some(|order|)];
        order := order + [reference];
        stack := stack + Reverse(SortedChildren(types[reference]));
      }
    }
    NothingLeft(types, order);
  }

  lemma NumberedIs(to: seq<Option<TypeRef>>, order: seq<TypeRef>, x: TypeRef)
    requires Inverse(to, order) && x < |to|
    ensures to[x].Some? <==> x in order
  {
  }

  lemma FewerUnvisited(n: nat, order: seq<TypeRef>, x: TypeRef)
    requires x < n && x !in order
    ensures Unvisited(n, order + [x]) < Unvisited(n, order)
  {
    assert x in Unvisited(n, order) && x !in Unvisited(n, order + [x]);
  }

  lemma NothingLeft(types: Types, order: seq<TypeRef>)
    requires Closed(types)
    ensures VisitAll(types, [], order) == order
  {
  }

  lemma SingleVisit(types: Types, root: TypeRef, order: seq<TypeRef>)
    requires Closed(types) && root < |types|
    ensures VisitAll(types, [root], order) == Visit(types, root, order)
  {
  }

  lemma NumberNext(to: seq<Option<TypeRef>>, order: seq<TypeRef>, x: TypeRef)
    requires Inverse(to, order) && x < |to| && x !in order
    ensures Inverse(to[x := Some(|order|)], order + [x])
  {
  }

  /** Popping the top of the stack is taking the first root off the walk. */
  lemma VisitTop(types: Types, stack: seq<TypeRef>, order: seq<TypeRef>)
    requires Closed(types) && stack != [] && forall x :: x in stack ==> x < |types|
    ensures var v, rest := stack[|stack| - 1], stack[..|stack| - 1];
            && v < |types|
            && (forall x :: x in rest ==> x < |types|)
            && (forall x :: x in Reverse(stack) ==> x < |types|)
            && (forall x :: x in Reverse(rest) ==> x < |types|)
            && (forall x :: x in Reverse(rest + Reverse(SortedChildren(types[v]))) ==> x < |types|)
            && (forall x :: x in rest + Reverse(SortedChildren(types[v])) ==> x < |types|)
            && VisitAll(types, Reverse(stack), order)
               == if v in order then VisitAll(types, Reverse(rest), order)
                  else VisitAll(types, Reverse(rest + Reverse(SortedChildren(types[v]))), order + [v])
  {
    var v, rest := stack[|stack| - 1], stack[..|stack| - 1];
    assert v in stack && forall x :: x in rest ==> x in stack;
    var kids := SortedChildren(types[v]);
    ChildrenInRange(types, v);
    ReverseMembers(stack);
    ReverseMembers(rest);
    ReverseMembers(kids);
    ReverseMembers(rest + Reverse(kids));
    ReverseTop(stack);
    ReversePushed(rest, kids);
    hide Reverse, Visit, VisitAll, SortedChildren;
    VisitFront(types, v, Reverse(rest), order);
  }

  lemma ReverseTop(stack: seq<TypeRef>)
    requires stack != []
    ensures Reverse(stack) == [stack[|stack| - 1]] + Reverse(stack[..|stack| - 1])
  {
  }

  lemma ReversePushed(rest: seq<TypeRef>, kids: seq<TypeRef>)
    ensures Reverse(rest + Reverse(kids)) == kids + Reverse(rest)
  {
  }

  /** Visiting a node and then others: its children come first if it is new. */
  lemma VisitFront(types: Types, v: TypeRef, more: seq<TypeRef>, order: seq<TypeRef>)
    requires Closed(types) && v < |types| && (forall x :: x in more ==> x < |types|)
    requires forall x :: x in SortedChildren(types[v]) ==> x < |types|
    ensures forall x :: x in [v] + more ==> x < |types|
    ensures forall x :: x in SortedChildren(types[v]) + more ==> x < |types|
    ensures VisitAll(types, [v] + more, order)
            == if v in order then VisitAll(types, more, order)
               else VisitAll(types, SortedChildren(types[v]) + more, order + [v])
  {
    assert ([v] + more)[1..] == more;
    if v !in order { VisitAllOfAll(types, SortedChildren(types[v]), more, order + [v]); }
    hide SortedChildren;
  }
}
