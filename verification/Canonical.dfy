/** The canonical form of a contract: the quotient, renumbered from its actor
    and its declarations. Contracts that mean the same have the same canonical
    form and only they do. */
module Canonical {
  import opened Sorting
  import opened Wrappers
  import opened TypeGraph
  import opened Partition
  import opened Quotient
  import opened Reindex
  import opened Budgets

  // ----- renumbering -----

  function Targets(c: Contract): (r: seq<TypeRef>)
    ensures |r| == |c.declarations|
  { seq(|c.declarations|, i requires 0 <= i < |c.declarations| => c.declarations[i].ty) }

  /** Drops every element equal to its predecessor. */
  function Dedup(s: seq<TypeRef>): seq<TypeRef> {
    if |s| < 2 then s
    else if s[0] == s[1] then Dedup(s[1..])
    else [s[0]] + Dedup(s[1..])
  }

  lemma {:induction false} DedupSorted(s: seq<TypeRef>)
    requires Sorted(RefLe, s)
    ensures Sorted(RefLe, Dedup(s)) && NoDuplicates(Dedup(s))
    ensures forall x :: x in Dedup(s) <==> x in s
    ensures s != [] ==> Dedup(s) != [] && Dedup(s)[0] == s[0]
  {
    if |s| >= 2 {
      DedupSorted(s[1..]);
      assert s == [s[0]] + s[1..];
      assert s[0] <= s[1];
      forall i | 0 <= i < |Dedup(s[1..])| ensures s[1] <= Dedup(s[1..])[i] {
        assert i == 0 || RefLe(Dedup(s[1..])[0], Dedup(s[1..])[i]);
      }
    }
  }

  /** Sorting and deduplicating lists the distinct members in order. */
  lemma SortedDedupIsKeys(s: seq<TypeRef>)
    ensures Dedup(Sort(RefLe, s)) == Keys(RefLe, s)
  {
    RefOrder();
    SortSorts(RefLe, s);
    DedupSorted(Sort(RefLe, s));
    KeysAreTheMembers(RefLe, s);
    forall x ensures x in Sort(RefLe, s) <==> x in s {
      assert x in multiset(Sort(RefLe, s)) <==> x in multiset(s);
    }
    SameMembersSameMultiset(Dedup(Sort(RefLe, s)), Keys(RefLe, s));
    SortedUnique(RefLe, Dedup(Sort(RefLe, s)), Keys(RefLe, s));
  }

  /** The distinct declaration targets in reference order. */
  function DeclarationRoots(c: Contract): seq<TypeRef> { Keys(RefLe, Targets(c)) }

  function ActorRoots(c: Contract): seq<TypeRef> {
    if c.actor.Some? then [c.actor.value.target] else []
  }

  /** The roots of the walk: the actor, the distinct declaration targets in
      reference order, then whatever is left. */
  function RootSequence(c: Contract): seq<TypeRef> {
    ActorRoots(c) + (DeclarationRoots(c) + UpTo(|c.types|))
  }

  ghost predicate Indexable(c: Contract) {
    Closed(c.types) && TargetsBelow(c.declarations, c.actor, |c.types|)
  }

  lemma RootsInRange(c: Contract)
    requires Indexable(c)
    ensures forall x :: x in ActorRoots(c) ==> x < |c.types|
    ensures forall x :: x in Targets(c) ==> x < |c.types|
    ensures forall x :: x in DeclarationRoots(c) ==> x < |c.types|
    ensures forall x :: x in DeclarationRoots(c) + UpTo(|c.types|) ==> x < |c.types|
    ensures forall x :: x in RootSequence(c) ==> x < |c.types|
    ensures forall x: nat :: x < |c.types| ==> x in RootSequence(c)
  {
    RefOrder();
    KeysAreTheMembers(RefLe, Targets(c));
    forall x: nat | x < |c.types| ensures x in RootSequence(c) {
      assert RootSequence(c)[|ActorRoots(c)| + |DeclarationRoots(c)| + x] == x;
    }
  }

  ghost function CanonicalOrder(c: Contract): seq<TypeRef>
    requires Indexable(c)
  {
    RootsInRange(c);
    VisitAll(c.types, RootSequence(c), [])
  }

  /** The walk numbers every node exactly once. */
  lemma OrderIsPermutation(c: Contract)
    requires Indexable(c)
    ensures Numbering(CanonicalOrder(c), |c.types|) && |CanonicalOrder(c)| == |c.types|
    ensures forall x: nat :: x < |c.types| ==> x in CanonicalOrder(c)
  {
    RootsInRange(c);
    var order := CanonicalOrder(c);
    VisitAllNumbers(c.types, RootSequence(c), []);
    assert forall x :: x in order ==> x in UpTo(|c.types|) by {
      forall x | x in order ensures x in UpTo(|c.types|) { assert UpTo(|c.types|)[x] == x; }
    }
    PigeonHole(order, UpTo(|c.types|));
    assert NoDuplicates(UpTo(|c.types|)) && forall x :: x in UpTo(|c.types|) ==> x in order;
    PigeonHole(UpTo(|c.types|), order);
  }

  /** Positions in an order that lists every node. */
  ghost function Positions(order: seq<TypeRef>): (r: seq<TypeRef>)
    requires forall x: nat :: x < |order| ==> x in order
    ensures |r| == |order| && forall i: nat :: i < |r| ==> i in order && r[i] == IndexOf(order, i)
  { seq(|order|, (i: nat) requires i < |order| => IndexOf(order, i)) }

  ghost function NewNumbers(c: Contract): (to: seq<TypeRef>)
    requires Indexable(c)
    ensures |to| == |c.types|
  {
    OrderIsPermutation(c);
    Positions(CanonicalOrder(c))
  }

  lemma OrderInRange(c: Contract)
    requires Indexable(c)
    ensures |CanonicalOrder(c)| == |c.types| == |NewNumbers(c)|
    ensures forall k :: 0 <= k < |CanonicalOrder(c)| ==>
              CanonicalOrder(c)[k] < |c.types| && RefsBelow(c.types[CanonicalOrder(c)[k]], |NewNumbers(c)|)
  {
    OrderIsPermutation(c);
    forall k | 0 <= k < |CanonicalOrder(c)| ensures CanonicalOrder(c)[k] < |c.types| {
      assert CanonicalOrder(c)[k] in CanonicalOrder(c);
    }
  }

  ghost function IndexedTypes(c: Contract): (r: Types)
    requires Indexable(c)
    ensures |r| == |c.types|
  {
    OrderInRange(c);
    seq(|CanonicalOrder(c)|, k requires 0 <= k < |CanonicalOrder(c)| => RemapNode(c.types[CanonicalOrder(c)[k]], NewNumbers(c)))
  }

  ghost function IndexedOf(c: Contract): Contract
    requires Indexable(c)
  {
    Contract(IndexedTypes(c),
             Sort(DeclarationLe, MapDeclarations(c.declarations, NewNumbers(c))),
             MapActor(c.actor, NewNumbers(c)))
  }

  // ----- the renumbering method -----

  function DeclarationBytes(declarations: seq<Declaration>): nat {
    if declarations == [] then 0
    else DeclarationBytes(declarations[..|declarations| - 1]) + |declarations[|declarations| - 1].name| + 1
  }

  function ReindexWork(c: Contract): nat {
    SignatureRoundWork(c.types) * 2 + DeclarationBytes(c.declarations) + SortComparisonWork(|c.declarations|)
  }

  lemma InverseIsPositions(to: seq<Option<TypeRef>>, order: seq<TypeRef>)
    requires Inverse(to, order) && |order| == |to| && forall x: nat :: x < |order| ==> x in order
    ensures forall i: nat :: i < |to| ==> to[i] == Some(Positions(order)[i])
  {
    forall i: nat | i < |to| ensures to[i] == Some(Positions(order)[i]) {
      assert order[IndexOf(order, i)] == i;
    }
  }

  lemma OrderInStages(c: Contract)
    requires Indexable(c)
    ensures forall x :: x in ActorRoots(c) ==> x < |c.types|
    ensures forall x :: x in DeclarationRoots(c) ==> x < |c.types|
    ensures forall x :: x in UpTo(|c.types|) ==> x < |c.types|
    ensures CanonicalOrder(c)
            == VisitAll(c.types, UpTo(|c.types|),
                        VisitAll(c.types, DeclarationRoots(c), VisitAll(c.types, ActorRoots(c), [])))
  {
    RootsInRange(c);
    VisitAllOfAll(c.types, ActorRoots(c), DeclarationRoots(c) + UpTo(|c.types|), []);
    VisitAllOfAll(c.types, DeclarationRoots(c), UpTo(|c.types|), VisitAll(c.types, ActorRoots(c), []));
  }

  lemma TailWithin(roots: seq<TypeRef>, n: nat, bound: nat)
    requires n <= |roots| && forall x :: x in roots ==> x < bound
    ensures forall x :: x in roots[n..] ==> x < bound
  {
    forall x: TypeRef | x in roots[n..] ensures x in roots && x < bound {
      var i :| 0 <= i < |roots[n..]| && roots[n..][i] == x;
      assert roots[n + i] == x;
    }
  }

  /** Visiting a list of roots one after the other, skipping numbered ones when
      asked to; skipping changes nothing, as a numbered root adds nothing. */
  method VisitRoots(roots: seq<TypeRef>, skip: bool, types: Types, oldToNew: array<Option<TypeRef>>, newToOld: seq<TypeRef>)
    returns (order: seq<TypeRef>)
    requires Closed(types) && oldToNew.Length == |types| && forall x :: x in roots ==> x < |types|
    requires Inverse(oldToNew[..], newToOld)
    modifies oldToNew
    ensures order == VisitAll(types, roots, newToOld)
    ensures Inverse(oldToNew[..], order)
  {
    hide VisitAll, Visit;
    order := newToOld;
    ghost var goal := VisitAll(types, roots, newToOld);
    for n := 0 to |roots|
      invariant Inverse(oldToNew[..], order)
      invariant forall x :: x in roots[n..] ==> x < |types|
      invariant VisitAll(types, roots[n..], order) == goal
    {
      assert roots[n] in roots;
      TailWithin(roots, n + 1, |types|);
      FirstRoot(types, roots, n, n + 1, order);
      if !skip || oldToNew[roots[n]].None? {
        order := VisitIterative(roots[n], types, oldToNew, order);
      } else {
        SeenRoot(types, roots[n], order);
      }
    }
    NoMoreRoots(types, roots, order);
  }

  lemma FirstRoot(types: Types, roots: seq<TypeRef>, n: nat, next: nat, order: seq<TypeRef>)
    requires Closed(types) && n < |roots| && next == n + 1 && forall x :: x in roots ==> x < |types|
    requires forall x :: x in roots[n..] ==> x < |types|
    ensures roots[n] < |types| && forall x :: x in roots[next..] ==> x < |types|
    ensures VisitAll(types, roots[n..], order) == VisitAll(types, roots[next..], Visit(types, roots[n], order))
  {
    assert roots[n..][0] == roots[n] && roots[n..][1..] == roots[next..];
    TailWithin(roots, next, |types|);
    assert roots[n] in roots;
    hide Visit;
  }

  lemma SeenRoot(types: Types, root: TypeRef, order: seq<TypeRef>)
    requires Closed(types) && root < |types| && root in order
    ensures Visit(types, root, order) == order
  {
  }

  lemma NoMoreRoots(types: Types, roots: seq<TypeRef>, order: seq<TypeRef>)
    requires Closed(types)
    ensures roots[|roots|..] == [] && VisitAll(types, roots[|roots|..], order) == order
  {
  }

  /** The three root loops: the actor, the declarations, what is left. */
  method NumberNodes(c: Contract) returns (order: seq<TypeRef>, to: seq<TypeRef>)
    requires Indexable(c)
    ensures order == CanonicalOrder(c) && to == NewNumbers(c)
  {
    hide VisitAll, Closed;
    SortedDedupIsKeys(Targets(c));
    RootsInRange(c);
    OrderInStages(c);
    OrderIsPermutation(c);
    var oldToNew: array<Option<TypeRef>> := new Option<TypeRef>[|c.types|](_ => None);
    order := [];
    assert Inverse(oldToNew[..], order);
    if c.actor.Some? {
      SingleVisit(c.types, c.actor.value.target, order);
      order := VisitIterative(c.actor.value.target, c.types, oldToNew, order);
    } else {
      NoRoots(c.types, order);
    }
    order := VisitRoots(Dedup(Sort(RefLe, Targets(c))), false, c.types, oldToNew, order);
    order := VisitRoots(UpTo(|c.types|), true, c.types, oldToNew, order);
    InverseIsPositions(oldToNew[..], order);
    var numbers := oldToNew[..];
    ghost var all := NewNumbers(c);
    assert forall i: nat :: i < |c.types| ==> numbers[i] == Some(all[i]);
    to := seq(|numbers|, (i: nat) requires i < |numbers| && numbers[i].Some? => numbers[i].value);
  }

  /** `canonicalize_indexed`: every node numbered, every reference rewritten
      and the declarations sorted. */
  method CanonicalizeIndexed(c: Contract, budget: Budget, maxWork: nat)
    returns (r: Result<(Contract, seq<TypeRef>), BudgetError>)
    requires Indexable(c)
    modifies budget
    ensures r.Ok? ==> r.value == (IndexedOf(c), NewNumbers(c))
    ensures r.Ok? <==> old(budget.Consumed(WORK)) + ReindexWork(c) <= maxWork
  {
    hide ReindexWork, Closed, CanonicalOrder, NewNumbers, RemapNode;
    var charged := budget.Charge(WORK, maxWork, ReindexWork(c));
    if charged.Err? { return Err(charged.error); }
    OrderInRange(c);
    var order, to := NumberNodes(c);
    var types: Types := [];
    for k := 0 to |order|
      invariant |types| == k
      invariant forall i :: 0 <= i < k ==> types[i] == IndexedTypes(c)[i]
    {
      types := types + [RemapNode(c.types[order[k]], to)];
    }
    assert types == IndexedTypes(c);
    r := Ok((Contract(types, Sort(DeclarationLe, MapDeclarations(c.declarations, to)), MapActor(c.actor, to)), to));
  }

  lemma NoRoots(types: Types, order: seq<TypeRef>)
    requires Closed(types)
    ensures VisitAll(types, [], order) == order
  {
  }
}
