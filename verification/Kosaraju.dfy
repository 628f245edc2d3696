/** The cycle members of a directed graph, by two depth-first passes with
    explicit stacks. */
module Kosaraju {
  import opened Sorting
  import opened Walks
  import opened Wrappers

  // ----- the first pass: finishing order -----

  /** The adjacency lists hold exactly the edges. */
  ghost predicate Lists(e: Edges, forward: seq<seq<nat>>) {
    && (forall u: nat, w: nat :: (u, w) in e <==> u < |forward| && w in forward[u])
    && forall u: nat, w: nat :: u < |forward| && w in forward[u] ==> w < |forward|
  }

  type Frame = (nat, nat)

  ghost predicate OnStack(stack: seq<Frame>, v: nat) {
    exists i :: 0 <= i < |stack| && stack[i].0 == v
  }

  /** Finished and open nodes are the visited ones, each once. */
  ghost predicate Partitioned(n: nat, visited: set<nat>, order: seq<nat>, stack: seq<Frame>) {
    && NoDuplicates(order)
    && (forall i, j :: 0 <= i < j < |stack| ==> stack[i].0 != stack[j].0)
    && (forall v :: v in order ==> v < n && !OnStack(stack, v))
    && (forall i :: 0 <= i < |stack| ==> stack[i].0 < n)
    && forall v: nat :: v in visited <==> v in order || OnStack(stack, v)
  }

  /** The open nodes form a walk, and the first `next` edges of each lead to
      visited nodes. */
  ghost predicate Explored(forward: seq<seq<nat>>, visited: set<nat>, stack: seq<Frame>) {
    && (forall i :: 0 <= i < |stack| ==> stack[i].0 < |forward| && stack[i].1 <= |forward[stack[i].0]|)
    && (forall i, m :: 0 <= i < |stack| && 0 <= m < stack[i].1 && stack[i].0 < |forward| && m < |forward[stack[i].0]| ==>
          forward[stack[i].0][m] in visited)
    && forall i :: 0 <= i < |stack| - 1 && stack[i].0 < |forward| ==> stack[i + 1].0 in forward[stack[i].0]
  }

  /** Every edge out of a finished node leads to a visited node. */
  ghost predicate FinishedClosed(e: Edges, visited: set<nat>, order: seq<nat>) {
    forall u, w: nat :: u in order && (u, w) in e ==> w in visited
  }

  /** An edge that leaves the first `p + 1` finished nodes leads to a node that
      reaches the `p`-th of them. */
  ghost predicate Escapes(e: Edges, order: seq<nat>) {
    forall a, p, b :: 0 <= a <= p < b < |order| && (order[a], order[b]) in e ==> Reach(e, order[b], order[p])
  }

  ghost predicate EscapesToStack(e: Edges, order: seq<nat>, stack: seq<Frame>) {
    forall a, p, i :: 0 <= a <= p < |order| && 0 <= i < |stack| && (order[a], stack[i].0) in e ==>
      Reach(e, stack[i].0, order[p])
  }

  ghost predicate Searching(e: Edges, forward: seq<seq<nat>>, visited: set<nat>, order: seq<nat>, stack: seq<Frame>) {
    && Lists(e, forward)
    && Partitioned(|forward|, visited, order, stack)
    && Explored(forward, visited, stack)
    && FinishedClosed(e, visited, order)
    && Escapes(e, order)
    && EscapesToStack(e, order, stack)
  }

  lemma StackReaches(e: Edges, forward: seq<seq<nat>>, visited: set<nat>, stack: seq<Frame>, i: nat)
    requires Lists(e, forward) && Explored(forward, visited, stack) && i < |stack|
    ensures Reach(e, stack[i].0, stack[|stack| - 1].0)
    decreases |stack| - i
  {
    if i == |stack| - 1 {
      ReachSelf(e, stack[i].0);
    } else {
      StackReaches(e, forward, visited, stack, i + 1);
      assert stack[i + 1].0 in forward[stack[i].0];
      ReachEdge(e, stack[i].0, stack[i + 1].0);
      ReachTransitive(e, stack[i].0, stack[i + 1].0, stack[|stack| - 1].0);
    }
  }

  function Advanced(stack: seq<Frame>): seq<Frame>
    requires stack != []
  { stack[|stack| - 1 := (stack[|stack| - 1].0, stack[|stack| - 1].1 + 1)] }

  lemma SameNodesOnStack(s: seq<Frame>, t: seq<Frame>)
    requires |s| == |t| && forall i :: 0 <= i < |s| ==> s[i].0 == t[i].0
    ensures forall v :: OnStack(s, v) <==> OnStack(t, v)
  {
    forall v ensures OnStack(s, v) <==> OnStack(t, v) {
      if OnStack(s, v) { var i :| 0 <= i < |s| && s[i].0 == v; assert t[i].0 == v; }
      if OnStack(t, v) { var i :| 0 <= i < |t| && t[i].0 == v; assert s[i].0 == v; }
    }
  }

  lemma StackPlus(stack: seq<Frame>, f: Frame)
    ensures forall v :: OnStack(stack + [f], v) <==> OnStack(stack, v) || v == f.0
  {
    forall v ensures OnStack(stack + [f], v) <==> OnStack(stack, v) || v == f.0 {
      if OnStack(stack, v) { var i :| 0 <= i < |stack| && stack[i].0 == v; assert (stack + [f])[i].0 == v; }
      if v == f.0 { assert (stack + [f])[|stack|].0 == v; }
    }
  }

  lemma AdvancedPartitions(n: nat, visited: set<nat>, order: seq<nat>, stack: seq<Frame>)
    requires Partitioned(n, visited, order, stack) && stack != []
    ensures Partitioned(n, visited, order, Advanced(stack))
  {
    SameNodesOnStack(stack, Advanced(stack));
    hide OnStack;
  }

  lemma AdvancedExplores(forward: seq<seq<nat>>, visited: set<nat>, stack: seq<Frame>)
    requires Explored(forward, visited, stack) && stack != []
    requires var top := stack[|stack| - 1]; top.0 < |forward| && top.1 < |forward[top.0]| && forward[top.0][top.1] in visited
    ensures Explored(forward, visited, Advanced(stack))
  {
  }

  lemma AdvancedEscapes(e: Edges, order: seq<nat>, stack: seq<Frame>)
    requires EscapesToStack(e, order, stack) && stack != []
    ensures EscapesToStack(e, order, Advanced(stack))
  {
    hide Reach;
    forall a, p, i | 0 <= a <= p < |order| && 0 <= i < |stack| && (order[a], Advanced(stack)[i].0) in e
      ensures Reach(e, Advanced(stack)[i].0, order[p])
    {
      assert (order[a], stack[i].0) in e;
    }
  }

  /** Looking at an edge to a visited node. */
  lemma StepOver(e: Edges, forward: seq<seq<nat>>, visited: set<nat>, order: seq<nat>, stack: seq<Frame>)
    requires Searching(e, forward, visited, order, stack) && stack != []
    requires var top := stack[|stack| - 1]; top.0 < |forward| && top.1 < |forward[top.0]| && forward[top.0][top.1] in visited
    ensures Searching(e, forward, visited, order, Advanced(stack))
  {
    hide Lists, Partitioned, Explored, FinishedClosed, Escapes, EscapesToStack;
    AdvancedPartitions(|forward|, visited, order, stack);
    AdvancedExplores(forward, visited, stack);
    AdvancedEscapes(e, order, stack);
  }

  lemma PushPartitions(n: nat, visited: set<nat>, order: seq<nat>, stack: seq<Frame>, child: nat)
    requires Partitioned(n, visited, order, stack) && child !in visited && child < n
    ensures Partitioned(n, visited + {child}, order, stack + [(child, 0)])
  {
    StackPlus(stack, (child, 0));
    assert !OnStack(stack, child);
    forall i | 0 <= i < |stack| ensures stack[i].0 != child {
      assert OnStack(stack, stack[i].0);
    }
  }

  lemma PushExplores(forward: seq<seq<nat>>, visited: set<nat>, stack: seq<Frame>, child: nat)
    requires Explored(forward, visited, stack) && stack != [] && child < |forward|
    requires var top := stack[|stack| - 1]; top.0 < |forward| && top.1 < |forward[top.0]| && forward[top.0][top.1] == child
    ensures Explored(forward, visited + {child}, Advanced(stack) + [(child, 0)])
  {
    assert child in forward[stack[|stack| - 1].0];
  }

  lemma PushEscapes(e: Edges, visited: set<nat>, order: seq<nat>, stack: seq<Frame>, child: nat)
    requires EscapesToStack(e, order, stack) && stack != [] && FinishedClosed(e, visited, order) && child !in visited
    ensures EscapesToStack(e, order, Advanced(stack) + [(child, 0)])
  {
    hide Reach;
    var next := Advanced(stack) + [(child, 0)];
    forall a, p, i | 0 <= a <= p < |order| && 0 <= i < |next| && (order[a], next[i].0) in e
      ensures Reach(e, next[i].0, order[p])
    {
      assert order[a] in order;
      if i < |stack| { assert (order[a], stack[i].0) in e; }
    }
  }

  lemma TopChildInRange(e: Edges, forward: seq<seq<nat>>, u: nat, m: nat)
    requires Lists(e, forward) && u < |forward| && m < |forward[u]|
    ensures forward[u][m] < |forward|
  {
    assert forward[u][m] in forward[u];
  }

  /** Following an edge to a new node. */
  lemma StepInto(e: Edges, forward: seq<seq<nat>>, visited: set<nat>, order: seq<nat>, stack: seq<Frame>, child: nat)
    requires Searching(e, forward, visited, order, stack) && stack != []
    requires var top := stack[|stack| - 1]; top.0 < |forward| && top.1 < |forward[top.0]| && forward[top.0][top.1] == child
    requires child !in visited
    ensures Searching(e, forward, visited + {child}, order, Advanced(stack) + [(child, 0)])
  {
    hide Lists, Partitioned, Explored, Escapes, EscapesToStack;
    TopChildInRange(e, forward, stack[|stack| - 1].0, stack[|stack| - 1].1);
    AdvancedPartitions(|forward|, visited, order, stack);
    PushPartitions(|forward|, visited, order, Advanced(stack), child);
    PushExplores(forward, visited, stack, child);
    PushEscapes(e, visited, order, stack, child);
  }

  lemma PopPartitions(n: nat, visited: set<nat>, order: seq<nat>, rest: seq<Frame>, top: Frame)
    requires Partitioned(n, visited, order, rest + [top])
    ensures Partitioned(n, visited, order + [top.0], rest)
  {
    var stack := rest + [top];
    StackPlus(rest, top);
    assert stack[|rest|] == top && OnStack(stack, top.0);
    forall i | 0 <= i < |rest| ensures rest[i].0 != top.0 {
      assert stack[i].0 != stack[|rest|].0;
    }
    assert forall i :: 0 <= i < |rest| ==> rest[i] == stack[i];
  }

  lemma PopExplores(forward: seq<seq<nat>>, visited: set<nat>, rest: seq<Frame>, top: Frame)
    requires Explored(forward, visited, rest + [top])
    ensures Explored(forward, visited, rest)
  {
    assert forall i :: 0 <= i < |rest| ==> (rest + [top])[i] == rest[i];
  }

  lemma PopCloses(e: Edges, forward: seq<seq<nat>>, visited: set<nat>, order: seq<nat>, stack: seq<Frame>)
    requires Lists(e, forward) && Explored(forward, visited, stack) && FinishedClosed(e, visited, order) && stack != []
    requires var top := stack[|stack| - 1]; top.0 < |forward| && top.1 >= |forward[top.0]|
    ensures FinishedClosed(e, visited, order + [stack[|stack| - 1].0])
  {
    var x := stack[|stack| - 1].0;
    forall u, w: nat | u in order + [x] && (u, w) in e ensures w in visited {
      if u == x {
        var m :| 0 <= m < |forward[x]| && forward[x][m] == w;
      }
    }
  }

  lemma PopEscapes(e: Edges, order: seq<nat>, stack: seq<Frame>)
    requires Escapes(e, order) && EscapesToStack(e, order, stack) && stack != []
    ensures Escapes(e, order + [stack[|stack| - 1].0])
  {
    hide Reach;
    var x := stack[|stack| - 1].0;
    var next := order + [x];
    forall a, p, b | 0 <= a <= p < b < |next| && (next[a], next[b]) in e ensures Reach(e, next[b], next[p]) {
      if b == |order| { assert (order[a], stack[|stack| - 1].0) in e; }
    }
  }

  lemma PopEscapesToStack(e: Edges, forward: seq<seq<nat>>, visited: set<nat>, order: seq<nat>, stack: seq<Frame>)
    requires Lists(e, forward) && Explored(forward, visited, stack) && EscapesToStack(e, order, stack) && stack != []
    ensures EscapesToStack(e, order + [stack[|stack| - 1].0], stack[..|stack| - 1])
  {
    hide Reach, Lists, Explored;
    var x, rest := stack[|stack| - 1].0, stack[..|stack| - 1];
    var next := order + [x];
    forall a, p, i | 0 <= a <= p < |next| && 0 <= i < |rest| && (next[a], rest[i].0) in e
      ensures Reach(e, rest[i].0, next[p])
    {
      if p == |order| {
        StackReaches(e, forward, visited, stack, i);
      } else {
        assert (order[a], stack[i].0) in e;
      }
    }
  }

  /** Finishing the open node whose edges have all been looked at. */
  lemma StepOut(e: Edges, forward: seq<seq<nat>>, visited: set<nat>, order: seq<nat>, stack: seq<Frame>)
    requires Searching(e, forward, visited, order, stack) && stack != []
    requires var top := stack[|stack| - 1]; top.0 < |forward| && top.1 >= |forward[top.0]|
    ensures Searching(e, forward, visited, order + [stack[|stack| - 1].0], stack[..|stack| - 1])
  {
    hide Lists, Partitioned, Explored, FinishedClosed, Escapes, EscapesToStack;
    var rest, top := stack[..|stack| - 1], stack[|stack| - 1];
    assert stack == rest + [top];
    PopPartitions(|forward|, visited, order, rest, top);
    PopExplores(forward, visited, rest, top);
    PopCloses(e, forward, visited, order, stack);
    PopEscapes(e, order, stack);
    PopEscapesToStack(e, forward, visited, order, stack);
  }

  ghost predicate Marked(visited: seq<bool>, seen: set<nat>) {
    forall v: nat :: v in seen <==> v < |visited| && visited[v]
  }

  ghost function Unseen(n: nat, seen: set<nat>): set<nat> {
    set v: nat | v < n && v !in seen
  }

  lemma StartSearch(e: Edges, forward: seq<seq<nat>>, visited: set<nat>, order: seq<nat>, root: nat)
    requires Searching(e, forward, visited, order, []) && root < |forward| && root !in visited
    ensures Searching(e, forward, visited + {root}, order, [(root, 0)])
  {
    hide Reach, Escapes, Lists, Partitioned;
    PushPartitions(|forward|, visited, order, [], root);
    assert [] + [(root, 0)] == [(root, 0)];
    forall a | 0 <= a < |order| ensures (order[a], root) !in e {
      assert order[a] in order;
    }
    assert Explored(forward, visited + {root}, [(root, 0)]);
    assert EscapesToStack(e, order, [(root, 0)]);
  }

  /** The first pass: every node once, in an order that each edge escapes only
      upwards of. */
  method FinishOrder(forward: seq<seq<nat>>, ghost e: Edges) returns (order: seq<nat>)
    requires Lists(e, forward)
    ensures NoDuplicates(order) && forall v: nat :: v in order <==> v < |forward|
    ensures Escapes(e, order)
  {
    hide Searching, Lists;
    var visited := new bool[|forward|](_ => false);
    ghost var seen: set<nat> := {};
    order := [];
    NothingSearched(e, forward);
    for root := 0 to |forward|
      invariant Marked(visited[..], seen) && Searching(e, forward, seen, order, [])
      invariant forall v: nat :: v < root ==> v in seen
    {
      if visited[root] { continue; }
      StartSearch(e, forward, seen, order, root);
      visited[root] := true;
      seen := seen + {root};
      var stack: seq<Frame> := [(root, 0)];
      while stack != []
        invariant Marked(visited[..], seen) && Searching(e, forward, seen, order, stack)
        invariant forall v: nat :: v <= root ==> v in seen
        decreases Unseen(|forward|, seen), |stack|,
                  if stack == [] || stack[|stack| - 1].0 >= |forward| then 0
                  else |forward[stack[|stack| - 1].0]| - stack[|stack| - 1].1
      {
        TopInRange(e, forward, seen, order, stack);
        var (node, next) := stack[|stack| - 1];
        if next < |forward[node]| {
          var child := forward[node][next];
          ghost var before := stack;
          stack := stack[|stack| - 1 := (node, next + 1)];
          if !visited[child] {
            StepInto(e, forward, seen, order, before, child);
            assert child in Unseen(|forward|, seen) && child !in Unseen(|forward|, seen + {child});
            visited[child] := true;
            seen := seen + {child};
            stack := stack + [(child, 0)];
          } else {
            StepOver(e, forward, seen, order, before);
          }
        } else {
          StepOut(e, forward, seen, order, stack);
          order := order + [node];
          stack := stack[..|stack| - 1];
        }
      }
    }
    SearchDone(e, forward, seen, order);
  }

  lemma NothingSearched(e: Edges, forward: seq<seq<nat>>)
    requires Lists(e, forward)
    ensures Searching(e, forward, {}, [], [])
  {
  }

  lemma TopInRange(e: Edges, forward: seq<seq<nat>>, visited: set<nat>, order: seq<nat>, stack: seq<Frame>)
    requires Searching(e, forward, visited, order, stack) && stack != []
    ensures var top := stack[|stack| - 1];
            && top.0 < |forward|
            && top.1 <= |forward[top.0]|
            && forall m :: 0 <= m < |forward[top.0]| ==> forward[top.0][m] < |forward|
  {
    var top := stack[|stack| - 1];
    forall m | 0 <= m < |forward[top.0]| ensures forward[top.0][m] < |forward| {
      assert forward[top.0][m] in forward[top.0];
    }
  }

  lemma SearchDone(e: Edges, forward: seq<seq<nat>>, visited: set<nat>, order: seq<nat>)
    requires Searching(e, forward, visited, order, []) && forall v: nat :: v < |forward| ==> v in visited
    ensures NoDuplicates(order) && (forall v: nat :: v in order <==> v < |forward|) && Escapes(e, order)
  {
    forall v: nat | v < |forward| ensures v in order {
      assert v in visited;
    }
  }

  // ----- the second pass: components -----

  /** A walk to `order[k]` through nodes finished no later than it. */
  ghost predicate LowWalk(e: Edges, order: seq<nat>, k: nat, p: seq<nat>)
    requires k < |order|
  {
    Walk(e, p) && p[|p| - 1] == order[k] && forall i :: 0 <= i < |p| ==> p[i] in order[..k + 1]
  }

  ghost predicate LowReach(e: Edges, order: seq<nat>, k: nat, x: nat)
    requires k < |order|
  {
    exists p :: LowWalk(e, order, k, p) && p[0] == x
  }

  /** The first point of a walk finished after position `q`. */
  lemma FirstLater(order: seq<nat>, k: nat, q: nat, p: seq<nat>) returns (m: nat)
    requires NoDuplicates(order) && q < k < |order| && p != [] && p[0] == order[q] && p[|p| - 1] == order[k]
    requires forall i :: 0 <= i < |p| ==> p[i] in order[..k + 1]
    ensures 0 < m < |p| && p[m - 1] in order[..q + 1] && p[m] !in order[..q + 1]
  {
    assert order[..q + 1][q] == p[0];
    assert forall i :: 0 <= i < q + 1 ==> order[i] != order[k];
    assert order[k] !in order[..q + 1];
    m := 0;
    while p[m] in order[..q + 1]
      invariant m < |p| && forall i :: 0 <= i <= m - 1 ==> p[i] in order[..q + 1]
      decreases |p| - m
    {
      m := m + 1;
    }
  }

  /** Whatever reaches a node through nodes finished no later than it is
      reached from it. */
  lemma {:induction false} LowWalkReturns(e: Edges, order: seq<nat>, k: nat, p: seq<nat>)
    requires NoDuplicates(order) && Escapes(e, order) && k < |order| && LowWalk(e, order, k, p)
    ensures Reach(e, order[k], p[0])
    decreases |p|
  {
    assert p[0] in order[..k + 1];
    var q :| 0 <= q < k + 1 && order[q] == p[0];
    if q == k {
      ReachSelf(e, order[k]);
    } else {
      var m := FirstLater(order, k, q, p);
      LeavesBack(e, order, k, q, m, p);
      LowWalkDrop(e, order, k, p, m);
      LowWalkReturns(e, order, k, p[m..]);
      ReachTransitive(e, order[k], p[m], p[0]);
    }
  }

  lemma LowWalkDrop(e: Edges, order: seq<nat>, k: nat, p: seq<nat>, m: nat)
    requires k < |order| && LowWalk(e, order, k, p) && m < |p|
    ensures LowWalk(e, order, k, p[m..])
  {
    var rest := p[m..];
    forall i | 0 <= i < |rest| - 1 ensures (rest[i], rest[i + 1]) in e {
      assert (p[m + i], p[m + i + 1]) in e;
    }
  }

  /** Where the walk first leaves the nodes finished up to `order[q]`, it meets
      a node that reaches `order[q]`. */
  lemma LeavesBack(e: Edges, order: seq<nat>, k: nat, q: nat, m: nat, p: seq<nat>)
    requires Escapes(e, order) && q < k < |order| && LowWalk(e, order, k, p) && 0 < m < |p|
    requires p[m - 1] in order[..q + 1] && p[m] !in order[..q + 1]
    ensures Reach(e, p[m], order[q])
  {
    hide Reach;
    assert p[m] in order[..k + 1];
    var a :| 0 <= a < q + 1 && order[a] == p[m - 1];
    var b :| 0 <= b < k + 1 && order[b] == p[m];
    assert forall i :: 0 <= i < q + 1 ==> order[i] == order[..q + 1][i];
    assert (p[m - 1], p[m - 1 + 1]) in e;
    assert Reach(e, order[b], order[q]);
  }

  lemma LowReachIsMutual(e: Edges, order: seq<nat>, k: nat, x: nat)
    requires NoDuplicates(order) && Escapes(e, order) && k < |order| && LowReach(e, order, k, x)
    ensures Mutual(e, x, order[k])
  {
    var p :| LowWalk(e, order, k, p) && p[0] == x;
    LowWalkReturns(e, order, k, p);
  }

  lemma LowReachBack(e: Edges, order: seq<nat>, k: nat, u: nat, x: nat)
    requires k < |order| && (u, x) in e && LowReach(e, order, k, x) && u in order[..k + 1]
    ensures LowReach(e, order, k, u)
  {
    var p :| LowWalk(e, order, k, p) && p[0] == x;
    assert LowWalk(e, order, k, [u] + p);
  }

  type Components = seq<Option<nat>>

  /** Every assigned node shares its component with exactly the nodes mutually
      reachable with it. */
  ghost predicate Settled(e: Edges, component: Components) {
    forall u: nat, v: nat :: u < |component| && v < |component| && component[u].Some? ==>
      (Mutual(e, u, v) <==> component[v] == component[u])
  }

  /** Component `id` is listed once by `members[id]`. */
  ghost predicate Grouped(component: Components, members: seq<seq<nat>>) {
    && (forall id :: 0 <= id < |members| ==> NoDuplicates(members[id]))
    && (forall id: nat, v: nat :: id < |members| ==> (v in members[id] <==> v < |component| && component[v] == Some(id)))
    && forall v: nat :: v < |component| && component[v].Some? ==> component[v].value < |members|
  }

  /** The state of the search for the component of `order[k]`, numbered `id`:
      `found` has been popped and `stack` waits. */
  ghost predicate Collecting(e: Edges, order: seq<nat>, k: nat, id: nat, start: Components, component: Components,
                             found: seq<nat>, stack: seq<nat>)
  {
    && k < |order| && |component| == |start|
    && (forall v: nat :: v < |start| && start[v].Some? ==> component[v] == start[v])
    && (forall v: nat :: v < |start| && start[v].None? && component[v].Some? ==>
          component[v] == Some(id) && LowReach(e, order, k, v))
    && NoDuplicates(found + stack)
    && (forall v: nat :: v in found || v in stack <==> v < |start| && start[v].None? && component[v].Some?)
    && forall u: nat, x: nat :: x in found && (u, x) in e ==> u < |component| && component[u].Some?
  }

  /** What holds when the search starts: later finished nodes are assigned. */
  ghost predicate Ready(e: Edges, order: seq<nat>, k: nat, id: nat, start: Components) {
    && NoDuplicates(order) && Escapes(e, order)
    && (forall v: nat :: v in order <==> v < |start|)
    && (forall u: nat, v: nat :: (u, v) in e ==> u < |start| && v < |start|)
    && k < |order| && order[k] < |start| && start[order[k]].None?
    && (forall j :: k < j < |order| ==> order[j] < |start| && start[order[j]].Some?)
    && Settled(e, start)
    && forall v: nat :: v < |start| && start[v].Some? ==> start[v].value < id
  }

  lemma UnassignedIsLow(e: Edges, order: seq<nat>, k: nat, id: nat, start: Components, u: nat)
    requires Ready(e, order, k, id, start) && u < |start| && start[u].None?
    ensures u in order[..k + 1]
  {
    assert u in order;
    var j :| 0 <= j < |order| && order[j] == u;
    assert order[..k + 1][j] == u;
  }

  /** A node mutually reachable with the root is collected. */
  lemma {:induction false} CollectsBack(e: Edges, order: seq<nat>, k: nat, id: nat, start: Components, component: Components,
                                        found: seq<nat>, p: seq<nat>, i: nat)
    requires Ready(e, order, k, id, start) && Collecting(e, order, k, id, start, component, found, [])
    requires component[order[k]].Some?
    requires Walk(e, p) && p[|p| - 1] == order[k] && Reach(e, order[k], p[0]) && i < |p|
    ensures p[i] < |component| && component[p[i]] == Some(id)
    decreases |p| - i
  {
    if i < |p| - 1 {
      CollectsBack(e, order, k, id, start, component, found, p, i + 1);
      assert start[p[i + 1]].None?;
      assert p[i + 1] in found;
      assert (p[i], p[i + 1]) in e;
      WithinWalk(e, p, i, |p| - 1);
      WithinWalk(e, p, 0, i);
      ReachTransitive(e, order[k], p[0], p[i]);
      assert Mutual(e, p[i], order[k]);
    }
  }

  lemma CollectedSettles(e: Edges, order: seq<nat>, k: nat, id: nat, start: Components, component: Components, found: seq<nat>)
    requires Ready(e, order, k, id, start) && Collecting(e, order, k, id, start, component, found, [])
    requires component[order[k]].Some?
    ensures Settled(e, component)
  {
    forall u: nat, v: nat | u < |component| && v < |component| && component[u].Some?
      ensures Mutual(e, u, v) <==> component[v] == component[u]
    {
      if start[u].Some? {
        assert Mutual(e, u, v) <==> start[v] == start[u];
      } else {
        CollectedMutual(e, order, k, id, start, component, found, u, v);
      }
    }
  }

  lemma CollectedMutual(e: Edges, order: seq<nat>, k: nat, id: nat, start: Components, component: Components,
                        found: seq<nat>, u: nat, v: nat)
    requires Ready(e, order, k, id, start) && Collecting(e, order, k, id, start, component, found, [])
    requires component[order[k]].Some?
    requires u < |component| && v < |component| && start[u].None? && component[u].Some?
    ensures Mutual(e, u, v) <==> component[v] == component[u]
  {
    var r := order[k];
    LowReachIsMutual(e, order, k, u);
    if Mutual(e, u, v) {
      MutualTransitive(e, v, u, r);
      var p :| Walk(e, p) && p[0] == v && p[|p| - 1] == r;
      CollectsBack(e, order, k, id, start, component, found, p, 0);
    }
    if component[v] == component[u] {
      assert start[v].None?;
      LowReachIsMutual(e, order, k, v);
      MutualTransitive(e, u, r, v);
    }
  }

  // ----- collecting one component -----

  lemma CollectStarts(e: Edges, order: seq<nat>, k: nat, id: nat, start: Components)
    requires Ready(e, order, k, id, start)
    ensures Collecting(e, order, k, id, start, start[order[k] := Some(id)], [], [order[k]])
  {
    var r := order[k];
    assert order[..k + 1][k] == r;
    assert LowWalk(e, order, k, [r]);
    assert [] + [r] == [r];
  }

  lemma CollectTakes(e: Edges, order: seq<nat>, k: nat, id: nat, start: Components, component: Components,
                     found: seq<nat>, rest: seq<nat>, node: nat)
    requires Collecting(e, order, k, id, start, component, found, rest + [node])
    ensures Collecting(e, order, k, id, start, component, found, [node] + rest)
    ensures node < |component|
  {
    hide LowReach;
    assert node in rest + [node];
    var a, b := found + (rest + [node]), found + ([node] + rest);
    assert multiset(a) == multiset(b);
    CountsKeepNoDuplicates(a, b);
    assert forall v :: v in rest + [node] <==> v in [node] + rest;
  }

  lemma CollectPushes(e: Edges, order: seq<nat>, k: nat, id: nat, start: Components, component: Components,
                      found: seq<nat>, waiting: seq<nat>, node: nat, previous: nat)
    requires Ready(e, order, k, id, start) && Collecting(e, order, k, id, start, component, found, waiting)
    requires node in waiting && (previous, node) in e && previous < |component| && component[previous].None?
    ensures Collecting(e, order, k, id, start, component[previous := Some(id)], found, waiting + [previous])
  {
    UnassignedIsLow(e, order, k, id, start, previous);
    LowReachBack(e, order, k, previous, node);
    hide LowReach, Ready;
    assert previous !in found && previous !in waiting;
    assert found + (waiting + [previous]) == (found + waiting) + [previous];
    var next, more := component[previous := Some(id)], waiting + [previous];
    forall v: nat
      ensures v in found || v in more <==> v < |start| && start[v].None? && next[v].Some?
    {
      assert v in more <==> v in waiting || v == previous;
    }
    assert NoDuplicates(found + more);
    forall u: nat, x: nat | x in found && (u, x) in e ensures u < |next| && next[u].Some? { }
  }

  lemma CollectPops(e: Edges, order: seq<nat>, k: nat, id: nat, start: Components, component: Components,
                    found: seq<nat>, stack: seq<nat>, node: nat)
    requires Collecting(e, order, k, id, start, component, found, [node] + stack)
    requires forall u: nat :: (u, node) in e ==> u < |component| && component[u].Some?
    ensures Collecting(e, order, k, id, start, component, found + [node], stack)
  {
    hide LowReach;
    assert found + ([node] + stack) == (found + [node]) + stack;
    var done := found + [node];
    forall v: nat
      ensures v in done || v in stack <==> v < |start| && start[v].None? && component[v].Some?
    {
      assert v in [node] + stack <==> v == node || v in stack;
      assert v in done <==> v in found || v == node;
    }
    assert NoDuplicates(done + stack);
    forall u: nat, x: nat | x in done && (u, x) in e ensures u < |component| && component[u].Some? {
      assert x in found || x == node;
    }
  }

  ghost function Unassigned(component: Components): set<nat> {
    set v: nat | v < |component| && component[v].None?
  }

  /** Everything that reaches the root backwards through unassigned nodes. */
  method CollectComponent(reverse: seq<seq<nat>>, order: seq<nat>, k: nat, id: nat, component: array<Option<nat>>, ghost e: Edges)
    returns (size: nat, ghost found: seq<nat>)
    requires ReverseLists(e, reverse) && |reverse| == component.Length
    requires Ready(e, order, k, id, component[..])
    modifies component
    ensures Collecting(e, order, k, id, old(component[..]), component[..], found, []) && component[order[k]].Some?
    ensures size == |found|
  {
    hide Ready, Collecting;
    ghost var start := component[..];
    RootUnassigned(e, order, k, id, start);
    component[order[k]] := Some(id);
    CollectStarts(e, order, k, id, start);
    assert component[..] == start[order[k] := Some(id)];
    var stack: seq<nat> := [order[k]];
    size := 0;
    found := [];
    while stack != []
      invariant Collecting(e, order, k, id, start, component[..], found, stack)
      invariant component[order[k]].Some? && size == |found|
      decreases Unassigned(component[..]), |stack|
    {
      var node := stack[|stack| - 1];
      ghost var before := Unassigned(component[..]);
      assert stack == stack[..|stack| - 1] + [node];
      CollectTakes(e, order, k, id, start, component[..], found, stack[..|stack| - 1], node);
      stack := stack[..|stack| - 1];
      size := size + 1;
      ghost var unpushed := stack;
      for m := 0 to |reverse[node]|
        invariant Collecting(e, order, k, id, start, component[..], found, [node] + stack)
        invariant component[order[k]].Some?
        invariant forall j :: 0 <= j < m ==> reverse[node][j] < component.Length && component[reverse[node][j]].Some?
        invariant Unassigned(component[..]) <= before
        invariant Unassigned(component[..]) == before ==> stack == unpushed
      {
        var previous := reverse[node][m];
        assert previous in reverse[node];
        if component[previous].None? {
          CollectPushes(e, order, k, id, start, component[..], found, [node] + stack, node, previous);
          ghost var was := component[..];
          component[previous] := Some(id);
          assert component[..] == was[previous := Some(id)];
          assert previous in Unassigned(was) && previous !in Unassigned(component[..]);
          assert ([node] + stack) + [previous] == [node] + (stack + [previous]);
          stack := stack + [previous];
        }
      }
      forall u: nat | (u, node) in e ensures u < component.Length && component[u].Some? {
        var j :| 0 <= j < |reverse[node]| && reverse[node][j] == u;
      }
      CollectPops(e, order, k, id, start, component[..], found, stack, node);
      found := found + [node];
    }
  }

  lemma RootUnassigned(e: Edges, order: seq<nat>, k: nat, id: nat, start: Components)
    requires Ready(e, order, k, id, start)
    ensures k < |order| && order[k] < |start|
  {
  }

  /** The reversed adjacency lists hold exactly the edges. */
  ghost predicate ReverseLists(e: Edges, reverse: seq<seq<nat>>) {
    && (forall u: nat, w: nat :: (u, w) in e <==> w < |reverse| && u in reverse[w])
    && forall u: nat, w: nat :: w < |reverse| && u in reverse[w] ==> u < |reverse|
  }

  /** The nodes newly assigned are those of the new component. */
  ghost predicate Assigns(start: Components, component: Components, found: seq<nat>, id: nat) {
    && |component| == |start| && NoDuplicates(found)
    && (forall v: nat :: v < |start| && start[v].Some? ==> component[v] == start[v])
    && forall v: nat :: v in found <==> v < |start| && start[v].None? && component[v] == Some(id)
  }

  lemma CollectedAssigns(e: Edges, order: seq<nat>, k: nat, id: nat, start: Components, component: Components, found: seq<nat>)
    requires Ready(e, order, k, id, start) && Collecting(e, order, k, id, start, component, found, [])
    ensures Assigns(start, component, found, id)
    ensures forall v: nat :: v < |component| && component[v].Some? ==> start[v].Some? || component[v] == Some(id)
    ensures forall v: nat :: v < |start| && start[v].Some? ==> start[v].value < id
  {
    hide LowReach, Settled, Escapes;
    assert found + [] == found;
    forall v: nat ensures v in found <==> v < |start| && start[v].None? && component[v] == Some(id) {
      assert v in found || v in [] <==> v < |start| && start[v].None? && component[v].Some?;
    }
  }

  lemma GroupedAt(component: Components, members: seq<seq<nat>>, id: nat, v: nat)
    requires Grouped(component, members) && id < |members|
    ensures v in members[id] <==> v < |component| && component[v] == Some(id)
  {
  }

  lemma CollectedGroups(e: Edges, order: seq<nat>, k: nat, start: Components, component: Components,
                        found: seq<nat>, members: seq<seq<nat>>)
    requires Ready(e, order, k, |members|, start) && Grouped(start, members)
    requires Collecting(e, order, k, |members|, start, component, found, [])
    ensures Grouped(component, members + [found])
  {
    CollectedAssigns(e, order, k, |members|, start, component, found);
    hide Ready, Collecting;
    var next := members + [found];
    forall id: nat, v: nat | id < |next| ensures v in next[id] <==> v < |component| && component[v] == Some(id) {
      if id < |members| {
        assert next[id] == members[id];
        GroupedAt(start, members, id, v);
      } else {
        assert next[id] == found;
      }
    }
    forall id | 0 <= id < |next| ensures NoDuplicates(next[id]) {
      assert next[id] == if id < |members| then members[id] else found;
    }
    forall v: nat | v < |component| && component[v].Some? ensures component[v].value < |next| {
      if start[v].Some? { assert component[v] == start[v]; }
    }
    hide NoDuplicates;
    assert forall id :: 0 <= id < |next| ==> NoDuplicates(next[id]);
    assert forall id: nat, v: nat :: id < |next| ==> (v in next[id] <==> v < |component| && component[v] == Some(id));
    assert forall v: nat :: v < |component| && component[v].Some? ==> component[v].value < |next|;
  }

  /** The second pass: nodes share a component exactly when each reaches the
      other. */
  method MarkComponents(reverse: seq<seq<nat>>, order: seq<nat>, ghost e: Edges)
    returns (component: Components, sizes: seq<nat>, ghost members: seq<seq<nat>>)
    requires ReverseLists(e, reverse) && Escapes(e, order)
    requires NoDuplicates(order) && forall v: nat :: v in order <==> v < |reverse|
    ensures |component| == |reverse| && forall v: nat :: v < |reverse| ==> component[v].Some? && component[v].value < |sizes|
    ensures Settled(e, component) && Grouped(component, members)
    ensures |sizes| == |members| && forall id :: 0 <= id < |sizes| ==> sizes[id] == |members[id]|
  {
    hide Escapes, Collecting, Mutual;
    var marks: array<Option<nat>> := new Option<nat>[|reverse|](_ => None);
    sizes := [];
    members := [];
    for k := |order| downto 0
      invariant Settled(e, marks[..]) && Grouped(marks[..], members)
      invariant |sizes| == |members| && forall id :: 0 <= id < |sizes| ==> sizes[id] == |members[id]|
      invariant forall j :: k <= j < |order| ==> order[j] < marks.Length && marks[order[j]].Some?
    {
      assert order[k] in order;
      if marks[order[k]].Some? { continue; }
      ghost var start := marks[..];
      assert Ready(e, order, k, |sizes|, start);
      var size; ghost var found;
      size, found := CollectComponent(reverse, order, k, |sizes|, marks, e);
      CollectedSettles(e, order, k, |sizes|, start, marks[..], found);
      CollectedGroups(e, order, k, start, marks[..], found, members);
      StillAssigned(e, order, k, |sizes|, start, marks[..], found);
      sizes := sizes + [size];
      members := members + [found];
    }
    component := marks[..];
    forall v: nat | v < |reverse| ensures component[v].Some? && component[v].value < |sizes| {
      assert v in order;
      var j :| 0 <= j < |order| && order[j] == v;
    }
  }

  lemma StillAssigned(e: Edges, order: seq<nat>, k: nat, id: nat, start: Components, component: Components, found: seq<nat>)
    requires Ready(e, order, k, id, start) && Collecting(e, order, k, id, start, component, found, [])
    requires component[order[k]].Some?
    ensures forall j :: k <= j < |order| ==> order[j] < |component| && component[order[j]].Some?
  {
    hide LowReach, Settled, Escapes;
    forall j | k <= j < |order| ensures order[j] < |component| && component[order[j]].Some? {
      assert j == k || start[order[j]].Some?;
    }
  }

  // ----- cycle members -----

  ghost function EdgeSet(edges: seq<(nat, nat)>): Edges {
    set x | x in edges
  }

  /** The adjacency lists of the edges that are not self-loops, and which nodes
      have a self-loop. */
  method SplitEdges(nodeCount: nat, edges: seq<(nat, nat)>)
    returns (forward: seq<seq<nat>>, reverse: seq<seq<nat>>, looped: seq<bool>)
    requires forall x :: x in edges ==> x.0 < nodeCount && x.1 < nodeCount
    ensures |forward| == |reverse| == |looped| == nodeCount
    ensures Lists(Loopless(EdgeSet(edges)), forward) && ReverseLists(Loopless(EdgeSet(edges)), reverse)
    ensures forall v: nat :: v < nodeCount ==> (looped[v] <==> (v, v) in edges)
  {
    forward := seq(nodeCount, _ => []);
    reverse := seq(nodeCount, _ => []);
    looped := seq(nodeCount, _ => false);
    for n := 0 to |edges|
      invariant |forward| == |reverse| == |looped| == nodeCount
      invariant forall u: nat, w: nat :: u < nodeCount ==> (w in forward[u] <==> u != w && (u, w) in edges[..n])
      invariant forall u: nat, w: nat :: w < nodeCount ==> (u in reverse[w] <==> u != w && (u, w) in edges[..n])
      invariant forall v: nat :: v < nodeCount ==> (looped[v] <==> (v, v) in edges[..n])
    {
      var (from, to) := edges[n];
      assert edges[n] in edges;
      assert edges[..n + 1] == edges[..n] + [edges[n]];
      if from == to {
        looped := looped[from := true];
      } else {
        forward := forward[from := forward[from] + [to]];
        reverse := reverse[to := reverse[to] + [from]];
      }
    }
    assert edges[..|edges|] == edges;
  }

  lemma {:induction false} LongListHasOther(s: seq<nat>, v: nat) returns (u: nat)
    requires NoDuplicates(s) && v in s && |s| >= 2
    ensures u in s && u != v
  {
    u := if s[0] == v then s[1] else s[0];
  }

  lemma OtherMeansLong(s: seq<nat>, v: nat, u: nat)
    requires v in s && u in s && u != v
    ensures |s| >= 2
  {
    var i :| 0 <= i < |s| && s[i] == v;
    var j :| 0 <= j < |s| && s[j] == u;
  }

  lemma SizeMeansMutual(e: Edges, component: Components, members: seq<seq<nat>>, v: nat)
    requires Settled(e, component) && Grouped(component, members)
    requires forall u: nat, w: nat :: (u, w) in e ==> u < |component| && w < |component|
    requires v < |component| && component[v].Some?
    ensures component[v].value < |members|
    ensures |members[component[v].value]| >= 2 <==> exists u: nat :: u != v && Mutual(e, v, u)
  {
    var id: nat := component[v].value;
    assert forall w: nat :: w in members[id] <==> w < |component| && component[w] == Some(id);
    assert v in members[id];
    if |members[id]| >= 2 {
      var u := LongListHasOther(members[id], v);
      assert component[u] == component[v];
      assert Mutual(e, v, u);
    }
    if exists u: nat :: u != v && Mutual(e, v, u) {
      var u: nat :| u != v && Mutual(e, v, u);
      ReachedInRange(e, |component|, v, u);
      assert component[u] == component[v];
      assert u in members[id];
      OtherMeansLong(members[id], v, u);
    }
  }

  lemma ReachedInRange(e: Edges, n: nat, v: nat, u: nat)
    requires forall x: nat, y: nat :: (x, y) in e ==> x < n && y < n
    requires v < n && Reach(e, v, u)
    ensures u < n
  {
    var p :| Walk(e, p) && p[0] == v && p[|p| - 1] == u;
    if |p| > 1 { assert (p[|p| - 2], p[|p| - 2 + 1]) in e; }
  }

  /** `cyclic_nodes`: marks exactly the nodes that a non-empty walk leads back
      to. */
  method CyclicNodes(nodeCount: nat, edges: seq<(nat, nat)>) returns (cyclic: seq<bool>)
    requires forall x :: x in edges ==> x.0 < nodeCount && x.1 < nodeCount
    ensures |cyclic| == nodeCount
    ensures forall v: nat :: v < nodeCount ==> (cyclic[v] <==> OnCycle(EdgeSet(edges), v))
  {
    hide OnCycle, Mutual, Settled, Grouped, Escapes;
    ghost var all := EdgeSet(edges);
    ghost var e := Loopless(all);
    var forward, reverse, looped := SplitEdges(nodeCount, edges);
    var order := FinishOrder(forward, e);
    var component, sizes;
    ghost var members;
    component, sizes, members := MarkComponents(reverse, order, e);
    cyclic := looped;
    for node := 0 to nodeCount
      invariant |cyclic| == nodeCount
      invariant forall v: nat :: v < node ==> (cyclic[v] <==> OnCycle(all, v))
      invariant forall v: nat :: node <= v < nodeCount ==> cyclic[v] == looped[v]
    {
      SizeMeansMutual(e, component, members, node);
      CycleIsLoopOrMutual(all, node);
      if sizes[component[node].value] >= 2 {
        cyclic := cyclic[node := true];
      }
    }
  }
}
