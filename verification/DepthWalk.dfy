/** The type-depth guard: a worklist that expands named types, memoizes its
    states, and tracks only the names that lie on a reference cycle. It refuses
    exactly what the expansion tracking every name would refuse. */
module DepthWalk {
  import opened Sorting
  import opened Walks
  import opened Wrappers
  import opened Kosaraju
  import opened Budgets
  import opened Counting

  /** A parsed type expression. Its parts are other expressions, addressed by
      index; a part always comes before the expression it is part of. */
  datatype Syntax =
    | PrimT
    | PrincipalT
    | VarT(name: string)
    | OptT(inner: nat)
    | VecT(inner: nat)
    | RecordT(fields: seq<nat>)
    | VariantT(fields: seq<nat>)
    | FuncT(args: seq<nat>, rets: seq<nat>)
    | ServT(methods: seq<nat>)
    | ClassT(init: seq<nat>, service: nat)

  /** The declarations of a bundle, by distinct names, and its actor types. */
  datatype Bundle = Bundle(nodes: seq<Syntax>, names: seq<string>, bodies: seq<nat>, actors: seq<nat>)

  function Parts(node: Syntax): seq<nat> {
    match node
    case PrimT => []
    case PrincipalT => []
    case VarT(_) => []
    case OptT(inner) => [inner]
    case VecT(inner) => [inner]
    case RecordT(fields) => fields
    case VariantT(fields) => fields
    case FuncT(args, rets) => args + rets
    case ServT(methods) => methods
    case ClassT(init, service) => [service] + init
  }

  ghost predicate WellFormed(b: Bundle) {
    && (forall x, m :: 0 <= x < |b.nodes| && 0 <= m < |Parts(b.nodes[x])| ==> Parts(b.nodes[x])[m] < x)
    && |b.bodies| == |b.names| && NoDuplicates(b.names)
    && (forall i :: 0 <= i < |b.bodies| ==> b.bodies[i] < |b.nodes|)
    && forall i :: 0 <= i < |b.actors| ==> b.actors[i] < |b.nodes|
  }

  /** The declaration a variable names, if any. */
  function Resolve(b: Bundle, name: string): Option<nat> {
    if name in b.names then Some(IndexOf(b.names, name)) else None
  }

  // ----- references between declarations -----

  /** An expression and everything it is made of. */
  ghost function Within(b: Bundle, x: nat): set<nat>
    requires WellFormed(b) && x < |b.nodes|
    decreases x
  {
    {x} + set m: nat, y: nat | m < |Parts(b.nodes[x])| && y in Within(b, Parts(b.nodes[x])[m]) :: y
  }

  /** Declaration `i` mentions declaration `j`. */
  ghost predicate Mentions(b: Bundle, i: nat, j: nat)
    requires WellFormed(b)
  {
    i < |b.names| && exists x :: x in Within(b, b.bodies[i]) && MentionsAt(b, x, j)
  }

  ghost predicate MentionsAt(b: Bundle, x: nat, j: nat) {
    x < |b.nodes| && b.nodes[x].VarT? && Resolve(b, b.nodes[x].name) == Some(j)
  }

  ghost function References(b: Bundle): Edges
    requires WellFormed(b)
  {
    set i: nat, j: nat | i < |b.names| && j < |b.names| && Mentions(b, i, j) :: (i, j)
  }

  /** The names that lie on a reference cycle. */
  ghost function Recursive(b: Bundle): set<nat>
    requires WellFormed(b)
  {
    set j: nat | j < |b.names| && OnCycle(References(b), j)
  }

  // ----- expansion -----

  /** One state of an expansion: an expression, its depth, and the tracked names
      entered on the way. */
  datatype State = State(node: nat, depth: nat, active: set<nat>)

  /** The states one step further, in the order they are pushed. Entering a
      tracked name that is already active is refused. */
  function Successors(b: Bundle, tracked: set<nat>, s: State): seq<State>
    requires |b.bodies| == |b.names| && s.node < |b.nodes|
  {
    match b.nodes[s.node]
    case VarT(name) =>
      (match Resolve(b, name)
       case None => []
       case Some(j) =>
         if j in tracked && j in s.active then []
         else [State(b.bodies[j], s.depth, if j in tracked then s.active + {j} else s.active)])
    case node => seq(|Parts(node)|, m requires 0 <= m < |Parts(node)| => State(Parts(node)[m], s.depth + 1, s.active))
  }

  function RootStates(b: Bundle): (r: seq<State>)
    ensures |r| == |b.bodies| + |b.actors|
  {
    seq(|b.bodies|, i requires 0 <= i < |b.bodies| => State(b.bodies[i], 0, {}))
    + seq(|b.actors|, i requires 0 <= i < |b.actors| => State(b.actors[i], 0, {}))
  }

  /** A path of the expansion that tracks `tracked`. */
  ghost predicate Expansion(b: Bundle, tracked: set<nat>, p: seq<State>)
    requires WellFormed(b)
  {
    && p != [] && p[0] in RootStates(b)
    && (forall i :: 0 <= i < |p| ==> p[i].node < |b.nodes|)
    && forall i :: 0 <= i < |p| - 1 && p[i].node < |b.nodes| ==> p[i + 1] in Successors(b, tracked, p[i])
  }

  /** Some expansion path goes deeper than the limit. */
  ghost predicate TooDeep(b: Bundle, tracked: set<nat>, limit: nat)
    requires WellFormed(b)
  {
    exists p: seq<State> :: Expansion(b, tracked, p) && p != [] && p[|p| - 1].depth > limit
  }

  predicate Declared(b: Bundle, j: nat) { j < |b.names| }

  ghost function AllNames(b: Bundle): set<nat> {
    set j: nat | j < |b.names| && Declared(b, j)
  }

  lemma SuccessorInRange(b: Bundle, tracked: set<nat>, s: State, t: State)
    requires WellFormed(b) && s.node < |b.nodes| && t in Successors(b, tracked, s)
    ensures t.node < |b.nodes|
    ensures t.depth <= s.depth + 1
    ensures t.active <= s.active + (tracked * AllNames(b))
  {
    if !b.nodes[s.node].VarT? {
      var m :| 0 <= m < |Successors(b, tracked, s)| && Successors(b, tracked, s)[m] == t;
      assert Parts(b.nodes[s.node])[m] < s.node;
    }
  }

  // ----- tracking less refuses no less -----

  ghost function Shrunk(p: seq<State>, tracked: set<nat>): (r: seq<State>)
    ensures |r| == |p|
    ensures forall i :: 0 <= i < |p| ==> r[i] == p[i].(active := p[i].active * tracked)
  {
    seq(|p|, i requires 0 <= i < |p| => p[i].(active := p[i].active * tracked))
  }

  lemma ShrunkSuccessor(b: Bundle, tracked: set<nat>, s: State, t: State)
    requires WellFormed(b) && s.node < |b.nodes| && t in Successors(b, AllNames(b), s) && tracked <= AllNames(b)
    ensures t.(active := t.active * tracked) in Successors(b, tracked, s.(active := s.active * tracked))
  {
    var u := s.(active := s.active * tracked);
    if b.nodes[s.node].VarT? {
      var j := Resolve(b, b.nodes[s.node].name).value;
      assert (s.active + {j}) * tracked == if j in tracked then s.active * tracked + {j} else s.active * tracked;
    } else {
      var m :| 0 <= m < |Successors(b, AllNames(b), s)| && Successors(b, AllNames(b), s)[m] == t;
      assert Successors(b, tracked, u)[m] == t.(active := t.active * tracked);
    }
  }

  lemma FullPathShrinks(b: Bundle, tracked: set<nat>, p: seq<State>)
    requires WellFormed(b) && tracked <= AllNames(b) && Expansion(b, AllNames(b), p)
    ensures Expansion(b, tracked, Shrunk(p, tracked))
  {
    hide Successors;
    var r := Shrunk(p, tracked);
    RootIsBare(b, p[0]);
    assert {} * tracked == {};
    assert r[0] == p[0];
    forall i | 0 <= i < |r| - 1 ensures r[i + 1] in Successors(b, tracked, r[i]) {
      ShrunkSuccessor(b, tracked, p[i], p[i + 1]);
    }
  }

  lemma RootIsBare(b: Bundle, s: State)
    requires WellFormed(b) && s in RootStates(b)
    ensures s.depth == 0 && s.active == {} && s.node < |b.nodes|
  {
  }

  // ----- tracking the recursive names refuses no more -----

  /** What an expansion path has entered: all its names, and the last one. */
  datatype Trail = Trail(entered: set<nat>, last: Option<nat>)

  ghost function TrailOf(b: Bundle, p: seq<State>, i: nat): Trail
    requires WellFormed(b) && i < |p| && forall k :: 0 <= k < |p| ==> p[k].node < |b.nodes|
  {
    if i == 0 then Trail({}, None)
    else
      var before := TrailOf(b, p, i - 1);
      match b.nodes[p[i - 1].node]
      case VarT(name) =>
        var j := Resolve(b, name);
        if j.Some? then Trail(before.entered + {j.value}, j) else before
      case _ => before
  }

  /** Along a path every entered name reaches the last one, the current
      expression belongs to the last one's body, and the tracked set is the
      entered names that are tracked. */
  ghost predicate TrailHolds(b: Bundle, tracked: set<nat>, s: State, trail: Trail)
    requires WellFormed(b)
  {
    && s.active == trail.entered * tracked
    && trail.entered <= AllNames(b)
    && (trail.last.None? ==> trail.entered == {})
    && (trail.last.Some? ==>
          && trail.last.value < |b.names|
          && s.node in Within(b, b.bodies[trail.last.value])
          && forall k :: k in trail.entered ==> Reach(References(b), k, trail.last.value))
  }

  lemma WithinSelf(b: Bundle, x: nat)
    requires WellFormed(b) && x < |b.nodes|
    ensures x in Within(b, x)
  {
  }

  lemma {:induction false} WithinPart(b: Bundle, root: nat, x: nat, m: nat)
    requires WellFormed(b) && root < |b.nodes| && x in Within(b, root) && x < |b.nodes| && m < |Parts(b.nodes[x])|
    ensures Parts(b.nodes[x])[m] in Within(b, root)
    decreases root
  {
    if x == root {
      WithinSelf(b, Parts(b.nodes[x])[m]);
    } else {
      var k: nat, y: nat :| k < |Parts(b.nodes[root])| && y in Within(b, Parts(b.nodes[root])[k]) && y == x;
      WithinPart(b, Parts(b.nodes[root])[k], x, m);
    }
  }

  /** Entering a name repeats no name that is off every reference cycle. */
  lemma EntersFresh(b: Bundle, s: State, trail: Trail, name: string, j: nat)
    requires WellFormed(b) && s.node < |b.nodes| && TrailHolds(b, Recursive(b), s, trail)
    requires b.nodes[s.node] == VarT(name) && Resolve(b, name) == Some(j)
    requires !(j in Recursive(b) && j in s.active)
    ensures j !in trail.entered
    ensures forall k :: k in trail.entered ==> Reach(References(b), k, j)
  {
    hide Reach, OnCycle;
    if trail.last.Some? {
      var o := trail.last.value;
      assert MentionsAt(b, s.node, j);
      assert Mentions(b, o, j);
      assert (o, j) in References(b);
      ReachEdge(References(b), o, j);
      forall k | k in trail.entered ensures Reach(References(b), k, j) {
        ReachTransitive(References(b), k, o, j);
      }
      if j in trail.entered {
        EdgeClosesCycle(References(b), j, o);
      }
    }
  }

  lemma EdgeClosesCycle(e: Edges, j: nat, o: nat)
    requires Reach(e, j, o) && (o, j) in e
    ensures OnCycle(e, j)
  {
    var p :| Walk(e, p) && p[0] == j && p[|p| - 1] == o;
    var r := p + [j];
    assert Walk(e, r) && |r| >= 2 && r[|r| - 1] == j;
  }

  lemma {:induction false} TrailFollows(b: Bundle, p: seq<State>, i: nat)
    requires WellFormed(b) && Expansion(b, Recursive(b), p) && i < |p|
    ensures TrailHolds(b, Recursive(b), p[i], TrailOf(b, p, i))
    ensures i > 0 ==>
              p[i].(active := TrailOf(b, p, i).entered)
              in Successors(b, AllNames(b), p[i - 1].(active := TrailOf(b, p, i - 1).entered))
  {
    if i == 0 {
      RootIsBare(b, p[0]);
    } else {
      TrailFollows(b, p, i - 1);
      TrailStep(b, p[i - 1], p[i], TrailOf(b, p, i - 1), TrailOf(b, p, i));
    }
  }

  ghost predicate TrailNext(b: Bundle, s: State, before: Trail, after: Trail)
    requires s.node < |b.nodes|
  {
    match b.nodes[s.node]
    case VarT(name) =>
      var j := Resolve(b, name);
      after == if j.Some? then Trail(before.entered + {j.value}, j) else before
    case _ => after == before
  }

  lemma TrailStep(b: Bundle, s: State, t: State, before: Trail, after: Trail)
    requires WellFormed(b) && s.node < |b.nodes| && TrailHolds(b, Recursive(b), s, before) && TrailNext(b, s, before, after)
    requires t in Successors(b, Recursive(b), s)
    ensures TrailHolds(b, Recursive(b), t, after)
    ensures t.(active := after.entered) in Successors(b, AllNames(b), s.(active := before.entered))
  {
    hide Recursive, References, Reach;
    var c := Recursive(b);
    if b.nodes[s.node].VarT? {
      var j := Resolve(b, b.nodes[s.node].name).value;
      EntersFresh(b, s, before, b.nodes[s.node].name, j);
      WithinSelf(b, b.bodies[j]);
      ReachSelf(References(b), j);
      assert (before.entered + {j}) * c == if j in c then s.active + {j} else s.active;
    } else {
      var m: nat :| m < |Successors(b, c, s)| && Successors(b, c, s)[m] == t;
      if before.last.Some? { WithinPart(b, b.bodies[before.last.value], s.node, m); }
      assert Successors(b, AllNames(b), s.(active := before.entered))[m] == t.(active := after.entered);
    }
  }

  ghost function Grown(b: Bundle, p: seq<State>): (r: seq<State>)
    requires WellFormed(b) && forall k :: 0 <= k < |p| ==> p[k].node < |b.nodes|
    ensures |r| == |p| && forall i :: 0 <= i < |p| ==> r[i] == p[i].(active := TrailOf(b, p, i).entered)
  {
    seq(|p|, i requires 0 <= i < |p| => p[i].(active := TrailOf(b, p, i).entered))
  }

  lemma RecursivePathGrows(b: Bundle, p: seq<State>)
    requires WellFormed(b) && Expansion(b, Recursive(b), p)
    ensures Expansion(b, AllNames(b), Grown(b, p))
  {
    hide Successors, Recursive, TrailOf;
    var r := Grown(b, p);
    RootIsBare(b, p[0]);
    TrailStarts(b, p);
    forall i | 0 <= i < |r| - 1 ensures r[i + 1] in Successors(b, AllNames(b), r[i]) {
      TrailFollows(b, p, i + 1);
    }
  }

  lemma TrailStarts(b: Bundle, p: seq<State>)
    requires WellFormed(b) && p != [] && forall k :: 0 <= k < |p| ==> p[k].node < |b.nodes|
    ensures TrailOf(b, p, 0).entered == {}
  {
  }

  lemma FullDepthShrinks(b: Bundle, limit: nat)
    requires WellFormed(b) && TooDeep(b, AllNames(b), limit)
    ensures TooDeep(b, Recursive(b), limit)
  {
    hide Recursive, Expansion, AllNames, WellFormed;
    RecursiveAreNames(b);
    var p: seq<State> :| Expansion(b, AllNames(b), p) && p != [] && p[|p| - 1].depth > limit;
    FullPathShrinks(b, Recursive(b), p);
    assert Shrunk(p, Recursive(b))[|p| - 1].depth > limit;
  }

  lemma RecursiveDepthGrows(b: Bundle, limit: nat)
    requires WellFormed(b) && TooDeep(b, Recursive(b), limit)
    ensures TooDeep(b, AllNames(b), limit)
  {
    hide Recursive, Expansion, AllNames, WellFormed;
    var p: seq<State> :| Expansion(b, Recursive(b), p) && p != [] && p[|p| - 1].depth > limit;
    ExpansionInRange(b, Recursive(b), p);
    RecursivePathGrows(b, p);
    assert Grown(b, p)[|p| - 1].depth > limit;
  }

  /** Tracking only the names on reference cycles refuses for depth exactly what
      tracking every name refuses. */
  lemma RecursiveNamesSuffice(b: Bundle, limit: nat)
    requires WellFormed(b)
    ensures TooDeep(b, Recursive(b), limit) <==> TooDeep(b, AllNames(b), limit)
  {
    hide TooDeep, Recursive, AllNames, WellFormed;
    if TooDeep(b, AllNames(b), limit) { FullDepthShrinks(b, limit); }
    if TooDeep(b, Recursive(b), limit) { RecursiveDepthGrows(b, limit); }
  }

  lemma RecursiveAreNames(b: Bundle)
    requires WellFormed(b)
    ensures Recursive(b) <= AllNames(b)
  {
  }

  lemma ExpansionInRange(b: Bundle, tracked: set<nat>, p: seq<State>)
    requires WellFormed(b) && Expansion(b, tracked, p)
    ensures p != [] && forall i :: 0 <= i < |p| ==> p[i].node < |b.nodes|
  {
  }

  // ----- collecting references -----

  /** How many expressions an expression is made of. */
  ghost function Size(b: Bundle, x: nat): nat
    requires WellFormed(b) && x < |b.nodes|
    decreases x, 1 + |Parts(b.nodes[x])|
  { 1 + SizeAll(b, x, Parts(b.nodes[x])) }

  ghost function SizeAll(b: Bundle, bound: nat, xs: seq<nat>): nat
    requires WellFormed(b) && bound <= |b.nodes| && forall i :: 0 <= i < |xs| ==> xs[i] < bound
    decreases bound, |xs|
  {
    if xs == [] then 0 else Size(b, xs[|xs| - 1]) + SizeAll(b, bound, xs[..|xs| - 1])
  }

  lemma {:induction false} SizeAllOfAll(b: Bundle, n: nat, m: nat, xs: seq<nat>, ys: seq<nat>)
    requires WellFormed(b) && n <= m <= |b.nodes|
    requires forall i :: 0 <= i < |xs| ==> xs[i] < m
    requires forall i :: 0 <= i < |ys| ==> ys[i] < n
    ensures SizeAll(b, m, xs + ys) == SizeAll(b, m, xs) + SizeAll(b, n, ys)
    decreases |ys|
  {
    if ys == [] {
      assert xs + ys == xs;
    } else {
      assert (xs + ys)[..|xs + ys| - 1] == xs + ys[..|ys| - 1];
      SizeAllOfAll(b, n, m, xs, ys[..|ys| - 1]);
    }
  }

  /** The expressions still to be looked at, with all their parts. */
  ghost function WithinAll(b: Bundle, stack: seq<nat>): set<nat>
    requires WellFormed(b) && forall i :: 0 <= i < |stack| ==> stack[i] < |b.nodes|
  {
    set i: nat, y: nat | i < |stack| && y in Within(b, stack[i]) :: y
  }

  lemma WithinTop(b: Bundle, rest: seq<nat>, x: nat)
    requires WellFormed(b) && x < |b.nodes| && forall i :: 0 <= i < |rest| ==> rest[i] < |b.nodes|
    ensures forall m :: 0 <= m < |Parts(b.nodes[x])| ==> Parts(b.nodes[x])[m] < |b.nodes|
    ensures WithinAll(b, rest + [x]) == {x} + WithinAll(b, rest + Parts(b.nodes[x]))
  {
    var kids := Parts(b.nodes[x]);
    var before, after := rest + [x], rest + kids;
    forall y: nat ensures y in WithinAll(b, before) <==> y == x || y in WithinAll(b, after) {
      if y in WithinAll(b, before) {
        var i: nat :| i < |before| && y in Within(b, before[i]);
        if i < |rest| {
          assert after[i] == before[i];
        } else if y != x {
          var m: nat :| m < |kids| && y in Within(b, kids[m]);
          assert after[|rest| + m] == kids[m];
        }
      }
      if y == x {
        assert before[|rest|] == x;
        WithinSelf(b, x);
      }
      if y in WithinAll(b, after) {
        var i: nat :| i < |after| && y in Within(b, after[i]);
        if i < |rest| {
          assert before[i] == after[i];
        } else {
          var m: nat := i - |rest|;
          assert after[i] == kids[m] && y in Within(b, Parts(b.nodes[x])[m]);
          assert y in Within(b, x);
          assert before[|rest|] == x;
        }
      }
    }
  }

  const PREFLIGHT := "type_preflight_work"

  /** The refusal of unit charges that start at `start`. */
  function OverWork(start: nat, maxWork: nat): BudgetError {
    ResourceLimit(PREFLIGHT, maxWork, (if start > maxWork then start else maxWork) + 1)
  }

  /** Adds the references of one declaration, charging one unit for every
      expression of its body; refused exactly when that does not fit. */
  method CollectReferences(b: Bundle, from: nat, earlier: seq<(nat, nat)>, budget: Budget, maxWork: nat)
    returns (r: Result<seq<(nat, nat)>, BudgetError>)
    requires WellFormed(b) && from < |b.names|
    modifies budget
    ensures r.Ok? ==> forall i: nat, j: nat :: (i, j) in r.value <==> (i, j) in earlier || (i == from && Mentions(b, from, j))
    ensures var start, work := old(budget.Consumed(PREFLIGHT)), Size(b, b.bodies[from]);
            if start + work <= maxWork
            then r.Ok? && budget.Consumed(PREFLIGHT) == start + work
            else r == Err(OverWork(start, maxWork))
  {
    hide Mentions, MentionsAt, Within, Size, SizeAll, WithinAll, Recorded;
    var edges := earlier;
    var stack: seq<nat> := [b.bodies[from]];
    ghost var seen: set<nat> := {};
    ghost var whole := WithinAll(b, stack);
    ghost var start := budget.Consumed(PREFLIGHT);
    OneSize(b, b.bodies[from]);
    NothingYet(b, edges, from);
    while stack != []
      invariant forall i :: 0 <= i < |stack| ==> stack[i] < |b.nodes|
      invariant budget.Consumed(PREFLIGHT) + SizeAll(b, |b.nodes|, stack) == start + Size(b, b.bodies[from])
      invariant start <= budget.Consumed(PREFLIGHT) <= maxWork || budget.Consumed(PREFLIGHT) == start
      invariant seen + WithinAll(b, stack) == whole
      invariant Recorded(b, edges, earlier, from, seen)
      decreases SizeAll(b, |b.nodes|, stack)
    {
      var x := stack[|stack| - 1];
      ghost var before := stack;
      stack := stack[..|stack| - 1];
      assert before == stack + [x];
      TopSize(b, stack, x);
      var charged := budget.Charge(PREFLIGHT, maxWork, 1);
      if charged.Err? { return Err(charged.error); }
      WithinTop(b, stack, x);
      SizeAllOfAll(b, x, |b.nodes|, stack, Parts(b.nodes[x]));
      RecordReference(b, edges, earlier, seen, from, x);
      if b.nodes[x].VarT? && Resolve(b, b.nodes[x].name).Some? {
        edges := edges + [(from, Resolve(b, b.nodes[x].name).value)];
      }
      seen := seen + {x};
      stack := stack + Parts(b.nodes[x]);
    }
    BodyMentions(b, from, seen);
    RecordedAll(b, edges, earlier, from, seen);
    r := Ok(edges);
  }

  lemma NothingYet(b: Bundle, edges: seq<(nat, nat)>, from: nat)
    requires WellFormed(b)
    ensures WithinAll(b, []) == {} && SizeAll(b, |b.nodes|, []) == 0 && Recorded(b, edges, edges, from, {})
  {
  }

  lemma OneSize(b: Bundle, x: nat)
    requires WellFormed(b) && x < |b.nodes|
    ensures SizeAll(b, |b.nodes|, [x]) == Size(b, x) > 0
  {
    assert [x][..0] == [];
  }

  lemma TopSize(b: Bundle, rest: seq<nat>, x: nat)
    requires WellFormed(b) && x < |b.nodes| && forall i :: 0 <= i < |rest| ==> rest[i] < |b.nodes|
    ensures SizeAll(b, |b.nodes|, rest + [x]) == 1 + SizeAll(b, |b.nodes|, rest) + SizeAll(b, x, Parts(b.nodes[x]))
  {
    assert (rest + [x])[..|rest + [x]| - 1] == rest;
  }

  /** The expressions of the first declarations' bodies, counted. */
  ghost function BodyWork(b: Bundle, k: nat): nat
    requires WellFormed(b) && k <= |b.names|
  { if k == 0 then 0 else BodyWork(b, k - 1) + Size(b, b.bodies[k - 1]) }

  lemma BodyWorkStep(b: Bundle, k: nat)
    requires WellFormed(b) && k < |b.names|
    ensures BodyWork(b, k) < BodyWork(b, k + 1)
  {
    hide SizeAll;
  }

  lemma {:induction false} BodyWorkGrows(b: Bundle, j: nat, k: nat)
    requires WellFormed(b) && j <= k <= |b.names|
    ensures BodyWork(b, j) <= BodyWork(b, k)
    ensures j < k ==> BodyWork(b, j) < BodyWork(b, k)
    decreases k
  {
    hide BodyWork, WellFormed;
    if j < k {
      BodyWorkGrows(b, j, k - 1);
      BodyWorkStep(b, k - 1);
    }
  }

  /** Marks exactly the names on reference cycles: the references of every
      declaration, then the cycles among them; refused exactly when the
      declarations hold more expressions than there is work for. */
  method RecursiveDeclarationNames(b: Bundle, budget: Budget, maxWork: nat) returns (r: Result<seq<bool>, BudgetError>)
    requires WellFormed(b)
    modifies budget
    ensures r.Ok? ==> |r.value| == |b.names| && forall j: nat :: j < |b.names| ==> (r.value[j] <==> j in Recursive(b))
    ensures var start, work := old(budget.Consumed(PREFLIGHT)), BodyWork(b, |b.names|);
            if start + work <= maxWork || |b.names| == 0
            then r.Ok? && budget.Consumed(PREFLIGHT) == start + work
            else r == Err(OverWork(start, maxWork))
  {
    hide References, OnCycle, Mentions, Size;
    var edges: seq<(nat, nat)> := [];
    ghost var start := budget.Consumed(PREFLIGHT);
    for from := 0 to |b.names|
      invariant budget.Consumed(PREFLIGHT) == start + BodyWork(b, from)
      invariant from == 0 || start + BodyWork(b, from) <= maxWork
      invariant forall i: nat, j: nat :: (i, j) in edges <==> i < from && Mentions(b, i, j)
    {
      BodyWorkGrows(b, from + 1, |b.names|);
      var more := CollectReferences(b, from, edges, budget, maxWork);
      if more.Err? { return Err(more.error); }
      edges := more.value;
    }
    EdgesAreReferences(b, edges);
    var cyclic := CyclicNodes(|b.names|, edges);
    r := Ok(cyclic);
  }

  ghost predicate Recorded(b: Bundle, edges: seq<(nat, nat)>, earlier: seq<(nat, nat)>, from: nat, seen: set<nat>) {
    forall i: nat, j: nat :: (i, j) in edges <==>
      (i, j) in earlier || (i == from && exists y :: y in seen && MentionsAt(b, y, j))
  }

  lemma RecordedAll(b: Bundle, edges: seq<(nat, nat)>, earlier: seq<(nat, nat)>, from: nat, seen: set<nat>)
    requires WellFormed(b) && Recorded(b, edges, earlier, from, seen)
    requires forall j: nat :: Mentions(b, from, j) <==> exists x :: x in seen && MentionsAt(b, x, j)
    ensures forall i: nat, j: nat :: (i, j) in edges <==> (i, j) in earlier || (i == from && Mentions(b, from, j))
  {
    hide Mentions, MentionsAt;
  }

  lemma RecordReference(b: Bundle, edges: seq<(nat, nat)>, earlier: seq<(nat, nat)>, seen: set<nat>, from: nat, x: nat)
    requires x < |b.nodes| && Recorded(b, edges, earlier, from, seen)
    ensures Recorded(b, if b.nodes[x].VarT? && Resolve(b, b.nodes[x].name).Some?
                        then edges + [(from, Resolve(b, b.nodes[x].name).value)] else edges,
                     earlier, from, seen + {x})
  {
    var after := if b.nodes[x].VarT? && Resolve(b, b.nodes[x].name).Some?
                 then edges + [(from, Resolve(b, b.nodes[x].name).value)] else edges;
    forall i: nat, j: nat
      ensures (i, j) in after <==> (i, j) in earlier || (i == from && exists y :: y in seen + {x} && MentionsAt(b, y, j))
    {
      if i == from && exists y :: y in seen + {x} && MentionsAt(b, y, j) {
        var y :| y in seen + {x} && MentionsAt(b, y, j);
        if y in seen { assert (i, j) in edges; }
      }
      if i == from && exists y :: y in seen && MentionsAt(b, y, j) {
        var y :| y in seen && MentionsAt(b, y, j);
        assert y in seen + {x};
      }
      if (i, j) in after && (i, j) !in edges {
        assert x in seen + {x} && MentionsAt(b, x, j);
      }
    }
  }

  lemma BodyMentions(b: Bundle, from: nat, seen: set<nat>)
    requires WellFormed(b) && from < |b.names| && seen == WithinAll(b, [b.bodies[from]])
    ensures forall j: nat :: Mentions(b, from, j) <==> exists x :: x in seen && MentionsAt(b, x, j)
  {
    assert [b.bodies[from]][0] == b.bodies[from];
    assert forall y :: y in seen <==> y in Within(b, b.bodies[from]);
  }

  lemma EdgesAreReferences(b: Bundle, edges: seq<(nat, nat)>)
    requires WellFormed(b) && forall i: nat, j: nat :: (i, j) in edges <==> i < |b.names| && Mentions(b, i, j)
    ensures EdgeSet(edges) == References(b)
    ensures forall x :: x in edges ==> x.0 < |b.names| && x.1 < |b.names|
  {
    forall x | x in edges ensures x.0 < |b.names| && x.1 < |b.names| && x in References(b) {
      assert (x.0, x.1) in edges;
      assert Mentions(b, x.0, x.1);
    }
    forall x | x in References(b) ensures x in edges {
      assert Mentions(b, x.0, x.1);
    }
  }

  // ----- the memoized walk -----

  datatype Verdict = Shallow | Deep(observed: nat) | OutOfWork(error: BudgetError)

  /** Some expansion path ends in the state. */
  ghost predicate Reached(b: Bundle, tracked: set<nat>, s: State)
    requires WellFormed(b)
  {
    exists p: seq<State> :: Expansion(b, tracked, p) && p != [] && p[|p| - 1] == s
  }

  lemma RootReached(b: Bundle, tracked: set<nat>, s: State)
    requires WellFormed(b) && s in RootStates(b)
    ensures Reached(b, tracked, s)
  {
    RootIsBare(b, s);
    assert Expansion(b, tracked, [s]) && [s][|[s]| - 1] == s;
  }

  lemma SuccessorReached(b: Bundle, tracked: set<nat>, s: State, t: State)
    requires WellFormed(b) && Reached(b, tracked, s) && s.node < |b.nodes| && t in Successors(b, tracked, s)
    ensures Reached(b, tracked, t)
  {
    hide Successors;
    var p: seq<State> :| Expansion(b, tracked, p) && p != [] && p[|p| - 1] == s;
    SuccessorInRange(b, tracked, s, t);
    var q := p + [t];
    assert q[0] == p[0];
    forall i | 0 <= i < |q| - 1 && q[i].node < |b.nodes| ensures q[i + 1] in Successors(b, tracked, q[i]) {
      if i == |p| - 1 { assert q[i] == s && q[i + 1] == t; }
    }
    assert Expansion(b, tracked, q) && q[|q| - 1] == t;
  }

  ghost predicate VisitedOk(b: Bundle, tracked: set<nat>, limit: nat, visited: set<State>) {
    forall s :: s in visited ==> s.node < |b.nodes| && s.depth <= limit && s.active <= tracked
  }

  ghost predicate PendingOk(b: Bundle, tracked: set<nat>, limit: nat, pending: seq<State>)
    requires WellFormed(b)
  {
    forall s :: s in pending ==>
      s.node < |b.nodes| && s.depth <= limit + 1 && s.active <= tracked && Reached(b, tracked, s)
  }

  ghost predicate SuccessorsMet(b: Bundle, tracked: set<nat>, visited: set<State>, pending: seq<State>)
    requires WellFormed(b)
  {
    forall s, t :: s in visited && s.node < |b.nodes| && t in Successors(b, tracked, s) ==> t in visited || t in pending
  }

  /** The walk's invariant: everything met is reached and at most one level too
      deep, and the successors of a memoized state are memoized or pending. */
  ghost predicate Walking(b: Bundle, tracked: set<nat>, limit: nat, visited: set<State>, pending: seq<State>)
    requires WellFormed(b)
  {
    && VisitedOk(b, tracked, limit, visited)
    && PendingOk(b, tracked, limit, pending)
    && (forall s :: s in RootStates(b) ==> s in visited || s in pending)
    && SuccessorsMet(b, tracked, visited, pending)
  }

  lemma WalkStarts(b: Bundle, tracked: set<nat>, limit: nat)
    requires WellFormed(b)
    ensures Walking(b, tracked, limit, {}, RootStates(b))
  {
    forall s | s in RootStates(b) ensures s.node < |b.nodes| && s.depth == 0 && s.active == {} && Reached(b, tracked, s) {
      RootIsBare(b, s);
      RootReached(b, tracked, s);
    }
  }

  lemma WalkSkips(b: Bundle, tracked: set<nat>, limit: nat, visited: set<State>, rest: seq<State>, s: State)
    requires WellFormed(b) && Walking(b, tracked, limit, visited, rest + [s]) && s in visited
    ensures Walking(b, tracked, limit, visited, rest)
  {
    hide Reached, Successors;
    assert forall t :: t in rest + [s] <==> t in rest || t == s;
  }

  lemma ExpandedPending(b: Bundle, tracked: set<nat>, limit: nat, rest: seq<State>, s: State)
    requires WellFormed(b) && PendingOk(b, tracked, limit, rest + [s]) && s.depth <= limit
    ensures s.node < |b.nodes| && PendingOk(b, tracked, limit, rest + Successors(b, tracked, s))
  {
    hide Successors, Reached;
    assert s in rest + [s];
    assert forall t :: t in rest ==> t in rest + [s];
    forall t | t in Successors(b, tracked, s)
      ensures t.node < |b.nodes| && t.depth <= limit + 1 && t.active <= tracked && Reached(b, tracked, t)
    {
      SuccessorInRange(b, tracked, s, t);
      SuccessorReached(b, tracked, s, t);
    }
  }

  lemma ExpandedMet(b: Bundle, tracked: set<nat>, visited: set<State>, rest: seq<State>, s: State)
    requires WellFormed(b) && SuccessorsMet(b, tracked, visited, rest + [s]) && s.node < |b.nodes|
    ensures SuccessorsMet(b, tracked, visited + {s}, rest + Successors(b, tracked, s))
  {
    hide Successors, WellFormed;
    assert forall t :: t in rest + [s] <==> t in rest || t == s;
  }

  lemma ExpandedVisited(b: Bundle, tracked: set<nat>, limit: nat, visited: set<State>, rest: seq<State>, s: State)
    requires WellFormed(b) && VisitedOk(b, tracked, limit, visited) && PendingOk(b, tracked, limit, rest + [s])
    requires s.depth <= limit
    ensures VisitedOk(b, tracked, limit, visited + {s})
  {
    hide WellFormed, Reached;
    assert s in rest + [s];
  }

  lemma ExpandedRoots(roots: seq<State>, visited: set<State>, rest: seq<State>, s: State, more: seq<State>)
    requires forall r :: r in roots ==> r in visited || r in rest + [s]
    ensures forall r :: r in roots ==> r in visited + {s} || r in rest + more
  {
    assert forall t :: t in rest + [s] <==> t in rest || t == s;
  }

  lemma WalkExpands(b: Bundle, tracked: set<nat>, limit: nat, visited: set<State>, rest: seq<State>, s: State)
    requires WellFormed(b) && Walking(b, tracked, limit, visited, rest + [s]) && s.depth <= limit
    ensures s.node < |b.nodes|
    ensures Walking(b, tracked, limit, visited + {s}, rest + Successors(b, tracked, s))
  {
    assert |b.bodies| == |b.names|;
    hide Successors, SuccessorsMet, RootStates, WellFormed, PendingOk, VisitedOk;
    ExpandedPending(b, tracked, limit, rest, s);
    ExpandedMet(b, tracked, visited, rest, s);
    ExpandedVisited(b, tracked, limit, visited, rest, s);
    ExpandedRoots(RootStates(b), visited, rest, s, Successors(b, tracked, s));
  }

  lemma {:induction false} PathMemoized(b: Bundle, tracked: set<nat>, limit: nat, visited: set<State>, p: seq<State>, i: nat)
    requires WellFormed(b) && Walking(b, tracked, limit, visited, []) && Expansion(b, tracked, p) && i < |p|
    ensures p[i] in visited
  {
    hide Successors, Reached;
    if i > 0 {
      PathMemoized(b, tracked, limit, visited, p, i - 1);
      assert p[i - 1 + 1] in Successors(b, tracked, p[i - 1]);
    }
  }

  lemma WalkEnds(b: Bundle, tracked: set<nat>, limit: nat, visited: set<State>)
    requires WellFormed(b) && Walking(b, tracked, limit, visited, [])
    ensures !TooDeep(b, tracked, limit)
  {
    hide Successors, Reached;
    forall p: seq<State> | Expansion(b, tracked, p) && p != [] ensures p[|p| - 1].depth <= limit {
      PathMemoized(b, tracked, limit, visited, p, |p| - 1);
    }
  }

  // ----- how much the walk can cost -----

  /** The states a memo can hold. */
  ghost function Universe(b: Bundle, tracked: set<nat>, limit: nat): set<State> {
    set x: nat, d: nat, a: set<nat> | x < |b.nodes| && d <= limit && a <= tracked :: State(x, d, a)
  }

  /** The same states, listed by node and depth. */
  ghost function StatesAt(x: nat, d: nat, tracked: set<nat>): set<State> {
    Image(Subsets(tracked), (a: set<nat>) => State(x, d, a))
  }

  ghost function StatesOf(x: nat, depths: nat, tracked: set<nat>): set<State> {
    if depths == 0 then {} else StatesOf(x, depths - 1, tracked) + StatesAt(x, depths - 1, tracked)
  }

  ghost function StatesBelow(n: nat, depths: nat, tracked: set<nat>): set<State> {
    if n == 0 then {} else StatesBelow(n - 1, depths, tracked) + StatesOf(n - 1, depths, tracked)
  }

  lemma StatesAtSize(x: nat, d: nat, tracked: set<nat>)
    ensures |StatesAt(x, d, tracked)| <= TwoTo(|tracked|)
  {
    ImageSize(Subsets(tracked), (a: set<nat>) => State(x, d, a));
    SubsetsCount(tracked);
  }

  lemma {:induction false} StatesOfSize(x: nat, depths: nat, tracked: set<nat>)
    ensures |StatesOf(x, depths, tracked)| <= Times(depths, TwoTo(|tracked|))
  {
    hide TwoTo, StatesAt, Times;
    if depths > 0 {
      OneMore(depths - 1, TwoTo(|tracked|));
      StatesOfSize(x, depths - 1, tracked);
      StatesAtSize(x, depths - 1, tracked);
    }
  }

  lemma {:induction false} StatesBelowSize(n: nat, depths: nat, tracked: set<nat>)
    ensures |StatesBelow(n, depths, tracked)| <= Times(n, Times(depths, TwoTo(|tracked|)))
  {
    hide TwoTo, StatesOf, Times;
    if n > 0 {
      OneMore(n - 1, Times(depths, TwoTo(|tracked|)));
      StatesBelowSize(n - 1, depths, tracked);
      StatesOfSize(n - 1, depths, tracked);
    }
  }

  lemma {:induction false} InStatesOf(x: nat, depths: nat, tracked: set<nat>, d: nat, a: set<nat>)
    requires d < depths && a <= tracked
    ensures State(x, d, a) in StatesOf(x, depths, tracked)
  {
    if d < depths - 1 { InStatesOf(x, depths - 1, tracked, d, a); } else { assert a in Subsets(tracked); }
  }

  lemma {:induction false} InStatesBelow(n: nat, depths: nat, tracked: set<nat>, s: State)
    requires s.node < n && s.depth < depths && s.active <= tracked
    ensures s in StatesBelow(n, depths, tracked)
  {
    if s.node < n - 1 {
      InStatesBelow(n - 1, depths, tracked, s);
    } else {
      InStatesOf(s.node, depths, tracked, s.depth, s.active);
    }
  }

  ghost function MemoBound(b: Bundle, tracked: set<nat>, limit: nat): nat {
    Times(|b.nodes|, Times(limit + 1, TwoTo(|tracked|)))
  }

  /** A memo holds at most one state for every expression, depth and set of
      tracked names. */
  lemma MemoSize(b: Bundle, tracked: set<nat>, limit: nat, visited: set<State>)
    requires VisitedOk(b, tracked, limit, visited)
    ensures |visited| <= MemoBound(b, tracked, limit)
  {
    hide Times, TwoTo;
    forall s | s in visited ensures s in StatesBelow(|b.nodes|, limit + 1, tracked) {
      InStatesBelow(|b.nodes|, limit + 1, tracked, s);
    }
    SubsetSize(visited, StatesBelow(|b.nodes|, limit + 1, tracked));
    StatesBelowSize(|b.nodes|, limit + 1, tracked);
  }

  /** The most parts any of the first expressions has, a variable's target
      counted as one. */
  function WidestOf(nodes: seq<Syntax>, k: nat): (w: nat)
    requires k <= |nodes|
    ensures w >= 1 && forall x :: 0 <= x < k ==> |Parts(nodes[x])| <= w
  {
    if k == 0 then 1
    else
      var w, last := WidestOf(nodes, k - 1), |Parts(nodes[k - 1])|;
      if last > w then last else w
  }

  function Widest(nodes: seq<Syntax>): (w: nat)
    ensures w >= 1 && forall x :: 0 <= x < |nodes| ==> |Parts(nodes[x])| <= w
  { WidestOf(nodes, |nodes|) }

  lemma SuccessorsCount(b: Bundle, tracked: set<nat>, s: State)
    requires WellFormed(b) && s.node < |b.nodes|
    ensures |Successors(b, tracked, s)| <= Widest(b.nodes)
  {
  }

  /** How often the walk can take a state up: once for every root, and once for
      every successor of a memoized state. */
  ghost function TurnBound(b: Bundle, tracked: set<nat>, limit: nat): nat {
    |b.bodies| + |b.actors| + Times(MemoBound(b, tracked, limit), Widest(b.nodes))
  }

  /** More than all the work of a bundle: its bodies once, then every turn with
      the names it tracks. Without recursive names this is linear in the
      expressions and the limit. */
  ghost function WalkBound(b: Bundle, limit: nat): nat
    requires WellFormed(b)
  {
    BodyWork(b, |b.names|) + Times(TurnBound(b, Recursive(b), limit), 1 + |Recursive(b)|)
  }

  /** The work so far is that of the turns so far, and the turns so far and
      those to come are bounded by what the memo holds. */
  ghost predicate Paid(b: Bundle, tracked: set<nat>, visited: set<State>, pending: nat, turns: nat, work: nat) {
    && work <= Times(turns, 1 + |tracked|)
    && turns + pending <= |b.bodies| + |b.actors| + Times(|visited|, Widest(b.nodes))
  }

  lemma PaidWithin(b: Bundle, tracked: set<nat>, limit: nat, visited: set<State>, pending: nat, turns: nat, work: nat)
    requires VisitedOk(b, tracked, limit, visited) && Paid(b, tracked, visited, pending, turns, work)
    ensures work <= Times(TurnBound(b, tracked, limit), 1 + |tracked|)
  {
    hide Widest, MemoBound, Times;
    MemoSize(b, tracked, limit, visited);
    TimesGrows(|visited|, MemoBound(b, tracked, limit), Widest(b.nodes));
    TimesGrows(turns, TurnBound(b, tracked, limit), 1 + |tracked|);
  }

  lemma PaidStarts(b: Bundle, tracked: set<nat>)
    ensures Paid(b, tracked, {}, |RootStates(b)|, 0, 0)
  {
    OneMore(0, 1 + |tracked|);
    OneMore(0, Widest(b.nodes));
  }

  lemma PaidTurn(b: Bundle, tracked: set<nat>, visited: set<State>, pending: nat, turns: nat, work: nat, active: set<nat>)
    requires Paid(b, tracked, visited, pending, turns, work) && pending > 0 && active <= tracked
    ensures Paid(b, tracked, visited, pending - 1, turns + 1, work + 1 + |active|)
  {
    hide Times, Widest;
    SubsetSize(active, tracked);
    OneMore(turns, 1 + |tracked|);
  }

  lemma PaidExpands(b: Bundle, tracked: set<nat>, visited: set<State>, pending: nat, turns: nat, work: nat, s: State)
    requires WellFormed(b) && Paid(b, tracked, visited, pending, turns, work) && s !in visited && s.node < |b.nodes|
    ensures Paid(b, tracked, visited + {s}, pending + |Successors(b, tracked, s)|, turns, work)
  {
    SuccessorsCount(b, tracked, s);
    OneMore(|visited|, Widest(b.nodes));
    hide Successors, Widest, Times;
    assert |visited + {s}| == |visited| + 1;
  }

  /** `check_programs_type_depth`. It accepts only when no path of the expansion
      that tracks every name goes too deep, and refuses for depth only when one
      does, then observing one more than the limit. It gives up only when the
      work runs out, so with work for the bound it always decides. */
  method CheckProgramsTypeDepth(b: Bundle, limit: nat, budget: Budget, maxWork: nat) returns (verdict: Verdict)
    requires WellFormed(b)
    modifies budget
    ensures verdict.Shallow? ==> !TooDeep(b, AllNames(b), limit)
    ensures verdict.Deep? ==> TooDeep(b, AllNames(b), limit) && verdict.observed == limit + 1
    ensures verdict.OutOfWork? ==>
              exists observed: nat :: verdict.error == ResourceLimit(PREFLIGHT, maxWork, observed)
                && maxWork < observed <= old(budget.Consumed(PREFLIGHT)) + WalkBound(b, limit)
    ensures old(budget.Consumed(PREFLIGHT)) + WalkBound(b, limit) <= maxWork ==>
              verdict == if TooDeep(b, AllNames(b), limit) then Deep(limit + 1) else Shallow
  {
    hide TooDeep, Walking, Recursive, Successors, Reached, Paid, TurnBound, BodyWork, Times;
    ghost var start := budget.Consumed(PREFLIGHT);
    var marked := RecursiveDeclarationNames(b, budget, maxWork);
    if marked.Err? {
      BodyWorkGrows(b, 0, |b.names|);
      return OutOfWork(marked.error);
    }
    var tracked := set j: nat | j < |b.names| && marked.value[j];
    assert tracked == Recursive(b) by { RecursiveAreNames(b); }
    RecursiveNamesSuffice(b, limit);
    var pending := RootStates(b);
    var visited: set<State> := {};
    ghost var turns: nat, work: nat := 0, 0;
    WalkStarts(b, tracked, limit);
    assert Paid(b, tracked, visited, |pending|, turns, work) by { PaidStarts(b, tracked); }
    while pending != []
      invariant Walking(b, tracked, limit, visited, pending)
      invariant Paid(b, tracked, visited, |pending|, turns, work)
      invariant budget.Consumed(PREFLIGHT) == start + BodyWork(b, |b.names|) + work
      decreases Universe(b, tracked, limit) - visited, |pending|
    {
      var s, rest := pending[|pending| - 1], pending[..|pending| - 1];
      assert pending == rest + [s];
      PendingInRange(b, tracked, limit, visited, rest, s);
      PaidTurn(b, tracked, visited, |pending|, turns, work, s.active);
      turns, work := turns + 1, work + 1 + |s.active|;
      PaidWithin(b, tracked, limit, visited, |rest|, turns, work);
      var charged := budget.Charge(PREFLIGHT, maxWork, 1 + |s.active|);
      if charged.Err? { return OutOfWork(charged.error); }
      if s.depth > limit {
        DeepStateRefuses(b, tracked, limit, visited, rest, s);
        return Deep(s.depth);
      }
      pending := rest;
      if s in visited {
        WalkSkips(b, tracked, limit, visited, rest, s);
      } else {
        StateInUniverse(b, tracked, limit, visited, rest, s);
        WalkExpands(b, tracked, limit, visited, rest, s);
        PaidExpands(b, tracked, visited, |rest|, turns, work, s);
        visited := visited + {s};
        pending := rest + Successors(b, tracked, s);
      }
    }
    WalkEnds(b, tracked, limit, visited);
    return Shallow;
  }

  lemma PendingInRange(b: Bundle, tracked: set<nat>, limit: nat, visited: set<State>, rest: seq<State>, s: State)
    requires WellFormed(b) && Walking(b, tracked, limit, visited, rest + [s])
    ensures s.active <= tracked && VisitedOk(b, tracked, limit, visited)
  {
    hide Successors, Reached;
    assert s in rest + [s];
  }

  lemma DeepStateRefuses(b: Bundle, tracked: set<nat>, limit: nat, visited: set<State>, rest: seq<State>, s: State)
    requires WellFormed(b) && Walking(b, tracked, limit, visited, rest + [s]) && s.depth > limit
    ensures s.depth == limit + 1 && TooDeep(b, tracked, limit)
  {
    hide Successors;
    assert s in rest + [s];
  }

  lemma StateInUniverse(b: Bundle, tracked: set<nat>, limit: nat, visited: set<State>, rest: seq<State>, s: State)
    requires WellFormed(b) && Walking(b, tracked, limit, visited, rest + [s]) && s.depth <= limit
    ensures s.node < |b.nodes| && s in Universe(b, tracked, limit)
  {
    hide Successors, Reached;
    assert s in rest + [s];
  }
}
