/** The generator's cycle rule: a colour-marking search, sharing its marks over
    all roots, that refuses exactly the arenas whose rendering would expand some
    undeclared node forever. */
module CycleRule {
  import opened Sorting
  import opened Wrappers
  import opened Walks
  import opened TypeGraph

  datatype Mark = New | Open | Done

  /** Where the renderer starts a walk. */
  datatype Root = ByName(target: TypeRef) | Structure(target: TypeRef)

  datatype UndeclaredCycle = UndeclaredCycle(reference: TypeRef)

  /** The references the renderer follows from a node. */
  function Children(node: TypeNode): seq<TypeRef> {
    match node
    case Class(_, _) => []
    case _ => StoredRefs(node)
  }

  ghost predicate InRange(edges: seq<seq<nat>>) {
    forall u, m :: 0 <= u < |edges| && 0 <= m < |edges[u]| ==> edges[u][m] < |edges|
  }

  /** The edges the renderer expands in place: between undeclared nodes. */
  ghost function Expanded(edges: seq<seq<nat>>, declared: set<nat>): Edges {
    set u: nat, m: nat | u < |edges| && m < |edges[u]| && u !in declared && edges[u][m] !in declared :: (u, edges[u][m])
  }

  lemma ExpandedEdge(edges: seq<seq<nat>>, declared: set<nat>, u: nat, w: nat)
    ensures (u, w) in Expanded(edges, declared) <==>
            u < |edges| && w in edges[u] && u !in declared && w !in declared
  {
    if u < |edges| && w in edges[u] && u !in declared && w !in declared {
      var m: nat :| m < |edges[u]| && edges[u][m] == w;
      assert (u, edges[u][m]) in Expanded(edges, declared);
    }
  }

  // ----- the search -----

  type Frame = (nat, nat)

  ghost predicate OnPath(path: seq<Frame>, v: nat) {
    exists i :: 0 <= i < |path| && path[i].0 == v
  }

  /** Every expanded edge out of a finished node leads to one finished before
      it. */
  ghost predicate Descends(e: Edges, finished: seq<nat>) {
    forall a, w: nat :: 0 <= a < |finished| && (finished[a], w) in e ==> w in finished[..a]
  }

  /** The marks are the finished nodes and the nodes on the path, each once. */
  ghost predicate Coloured(marks: seq<Mark>, finished: seq<nat>, path: seq<Frame>) {
    && NoDuplicates(finished)
    && (forall i, j :: 0 <= i < j < |path| ==> path[i].0 != path[j].0)
    && (forall v: nat :: v in finished <==> v < |marks| && marks[v] == Done)
    && forall v: nat :: OnPath(path, v) <==> v < |marks| && marks[v] == Open
  }

  /** The path follows expanded edges, and what its nodes have already looked
      at is declared, finished, or next on the path. */
  ghost predicate Followed(edges: seq<seq<nat>>, declared: set<nat>, finished: seq<nat>, path: seq<Frame>) {
    && (forall i :: 0 <= i < |path| ==>
          path[i].0 < |edges| && path[i].0 !in declared && path[i].1 <= |edges[path[i].0]|)
    && (forall i :: 0 <= i < |path| - 1 ==> (path[i].0, path[i + 1].0) in Expanded(edges, declared))
    && forall i, m :: 0 <= i < |path| && path[i].0 < |edges| && 0 <= m < path[i].1 && m < |edges[path[i].0]| ==>
         var c := edges[path[i].0][m];
         c in declared || c in finished || (i < |path| - 1 && c == path[i + 1].0)
  }

  ghost predicate Searching(edges: seq<seq<nat>>, declared: set<nat>, marks: seq<Mark>, finished: seq<nat>, path: seq<Frame>) {
    && InRange(edges) && |marks| == |edges|
    && Coloured(marks, finished, path)
    && Followed(edges, declared, finished, path)
    && Descends(Expanded(edges, declared), finished)
    && forall v :: v in finished ==> v !in declared
  }

  function Advanced(path: seq<Frame>): seq<Frame>
    requires path != []
  { path[|path| - 1 := (path[|path| - 1].0, path[|path| - 1].1 + 1)] }

  lemma SameNodesOnPath(s: seq<Frame>, t: seq<Frame>)
    requires |s| == |t| && forall i :: 0 <= i < |s| ==> s[i].0 == t[i].0
    ensures forall v: nat :: OnPath(s, v) <==> OnPath(t, v)
  {
    forall v: nat ensures OnPath(s, v) <==> OnPath(t, v) {
      if OnPath(s, v) { var i :| 0 <= i < |s| && s[i].0 == v; assert t[i].0 == v; }
      if OnPath(t, v) { var i :| 0 <= i < |t| && t[i].0 == v; assert s[i].0 == v; }
    }
  }

  lemma PathPlus(path: seq<Frame>, f: Frame)
    ensures forall v: nat :: OnPath(path + [f], v) <==> OnPath(path, v) || v == f.0
  {
    forall v: nat ensures OnPath(path + [f], v) <==> OnPath(path, v) || v == f.0 {
      if OnPath(path, v) { var i :| 0 <= i < |path| && path[i].0 == v; assert (path + [f])[i].0 == v; }
      if v == f.0 { assert (path + [f])[|path|].0 == v; }
    }
  }

  ghost predicate Looking(edges: seq<seq<nat>>, path: seq<Frame>, child: nat) {
    path != [] && var top := path[|path| - 1]; top.0 < |edges| && top.1 < |edges[top.0]| && edges[top.0][top.1] == child
  }

  /** Passing a child that is declared or finished. */
  lemma StepOver(edges: seq<seq<nat>>, declared: set<nat>, marks: seq<Mark>, finished: seq<nat>, path: seq<Frame>, child: nat)
    requires Searching(edges, declared, marks, finished, path) && Looking(edges, path, child)
    requires child in declared || child in finished
    ensures Searching(edges, declared, marks, finished, Advanced(path))
  {
    hide Expanded;
    SameNodesOnPath(path, Advanced(path));
  }

  /** Opening a new undeclared child. */
  lemma StepInto(edges: seq<seq<nat>>, declared: set<nat>, marks: seq<Mark>, finished: seq<nat>, path: seq<Frame>, child: nat)
    requires Searching(edges, declared, marks, finished, path) && Looking(edges, path, child)
    requires child !in declared && child < |marks| && marks[child] == New
    ensures Searching(edges, declared, marks[child := Open], finished, Advanced(path) + [(child, 0)])
  {
    var node := path[|path| - 1].0;
    ExpandedEdge(edges, declared, node, child);
    hide Expanded;
    SameNodesOnPath(path, Advanced(path));
    PathPlus(Advanced(path), (child, 0));
    assert !OnPath(path, child);
    forall i | 0 <= i < |path| ensures path[i].0 != child { assert OnPath(path, path[i].0); }
  }

  lemma Opening(edges: seq<seq<nat>>, declared: set<nat>, marks: seq<Mark>, finished: seq<nat>, start: nat)
    requires Searching(edges, declared, marks, finished, []) && start < |marks| && marks[start] == New && start !in declared
    ensures Searching(edges, declared, marks[start := Open], finished, [(start, 0)])
  {
    hide Expanded;
    PathPlus([], (start, 0));
    assert [] + [(start, 0)] == [(start, 0)];
    assert !OnPath([], start);
  }

  /** Closing a node all of whose children have been looked at. */
  lemma StepOut(edges: seq<seq<nat>>, declared: set<nat>, marks: seq<Mark>, finished: seq<nat>, path: seq<Frame>)
    requires Searching(edges, declared, marks, finished, path) && path != []
    requires var top := path[|path| - 1]; top.0 < |edges| && top.1 >= |edges[top.0]|
    ensures path[|path| - 1].0 < |marks|
    ensures Searching(edges, declared, marks[path[|path| - 1].0 := Done], finished + [path[|path| - 1].0], path[..|path| - 1])
  {
    var x, rest := path[|path| - 1].0, path[..|path| - 1];
    var next := finished + [x];
    assert path == rest + [path[|path| - 1]];
    PathPlus(rest, path[|path| - 1]);
    assert OnPath(path, x) && forall i :: 0 <= i < |rest| ==> rest[i] == path[i];
    assert !OnPath(rest, x);
    forall a, w: nat | 0 <= a < |next| && (next[a], w) in Expanded(edges, declared) ensures w in next[..a] {
      ExpandedEdge(edges, declared, next[a], w);
      if a == |finished| {
        var m :| 0 <= m < |edges[x]| && edges[x][m] == w;
        assert next[..a] == finished;
      } else {
        assert next[..a] == finished[..a];
      }
    }
    hide Expanded;
    assert Followed(edges, declared, next, rest) by {
      forall i, m | 0 <= i < |rest| && rest[i].0 < |edges| && 0 <= m < rest[i].1 && m < |edges[rest[i].0]|
        ensures var c := edges[rest[i].0][m]; c in declared || c in next || (i < |rest| - 1 && c == rest[i + 1].0)
      {
        assert rest[i] == path[i];
        assert x in next;
        if i < |rest| - 1 { assert rest[i + 1] == path[i + 1]; }
      }
    }
  }

  lemma {:induction false} PathReaches(edges: seq<seq<nat>>, declared: set<nat>, finished: seq<nat>, path: seq<Frame>, i: nat, j: nat)
    requires Followed(edges, declared, finished, path) && i <= j < |path|
    ensures Reach(Expanded(edges, declared), path[i].0, path[j].0)
    decreases j - i
  {
    hide Expanded;
    var e := Expanded(edges, declared);
    if i == j {
      ReachSelf(e, path[i].0);
    } else {
      PathReaches(edges, declared, finished, path, i + 1, j);
      ReachEdge(e, path[i].0, path[i + 1].0);
      ReachTransitive(e, path[i].0, path[i + 1].0, path[j].0);
    }
  }

  /** Meeting an open child closes a cycle. */
  lemma ClosesCycle(edges: seq<seq<nat>>, declared: set<nat>, marks: seq<Mark>, finished: seq<nat>, path: seq<Frame>, child: nat)
    requires Searching(edges, declared, marks, finished, path) && Looking(edges, path, child)
    requires child !in declared && child < |marks| && marks[child] == Open
    ensures Reach(Expanded(edges, declared), path[0].0, child) && OnCycle(Expanded(edges, declared), child)
  {
    hide Reach, OnCycle, Expanded, Descends;
    var e := Expanded(edges, declared);
    assert OnPath(path, child);
    var i :| 0 <= i < |path| && path[i].0 == child;
    PathReaches(edges, declared, finished, path, 0, i);
    PathReaches(edges, declared, finished, path, i, |path| - 1);
    ExpandedEdge(edges, declared, path[|path| - 1].0, child);
    CloseWalk(e, child, path[|path| - 1].0);
  }

  lemma CloseWalk(e: Edges, v: nat, u: nat)
    requires Reach(e, v, u) && (u, v) in e
    ensures OnCycle(e, v)
  {
    var p :| Walk(e, p) && p[0] == v && p[|p| - 1] == u;
    var r := p + [v];
    assert Walk(e, r) && |r| >= 2 && r[|r| - 1] == v;
  }

  class Search {
    const edges: seq<seq<nat>>
    const declared: set<nat>
    const marks: array<Mark>
    ghost var finished: seq<nat>

    ghost predicate Valid()
      reads this, marks
    {
      Searching(edges, declared, marks[..], finished, [])
    }

    constructor (types: Types, declared: set<nat>)
      requires Closed(types)
      ensures Valid() && fresh(marks) && finished == []
      ensures this.declared == declared && |edges| == |types|
      ensures forall i :: 0 <= i < |types| ==> edges[i] == Children(types[i])
    {
      this.edges := seq(|types|, i requires 0 <= i < |types| => Children(types[i]));
      this.declared := declared;
      this.marks := new Mark[|types|](_ => New);
      this.finished := [];
      new;
      forall u, m | 0 <= u < |edges| && 0 <= m < |edges[u]| ensures edges[u][m] < |edges| {
        assert edges[u][m] in StoredRefs(types[u]);
      }
      assert forall v: nat :: !OnPath([], v);
    }

    /** `Search::from`: finishes everything the start expands to, or refuses
        with a node on a cycle it expands to. */
    method From(start: TypeRef) returns (r: Result<(), UndeclaredCycle>)
      requires Valid() && start < |edges|
      modifies this, marks
      ensures r.Ok? ==> Valid() && old(finished) <= finished && (start in declared || start in finished)
      ensures r.Ok? ==> forall v :: v in old(finished) ==> v in finished
      ensures r.Ok? && start in declared ==> finished == old(finished)
      ensures r.Ok? ==> forall v :: v in finished && v !in old(finished) ==> Reach(Expanded(edges, declared), start, v)
      ensures r.Err? ==> start !in declared
                         && Reach(Expanded(edges, declared), start, r.error.reference)
                         && OnCycle(Expanded(edges, declared), r.error.reference)
    {
      hide Searching, Expanded, Looking, Reach, OnCycle;
      NewOrFinished(edges, declared, marks[..], finished, start);
      if marks[start] != New || start in declared { return Ok(()); }
      Opening(edges, declared, marks[..], finished, start);
      ghost var was := marks[..];
      marks[start] := Open;
      assert marks[..] == was[start := Open];
      var path: seq<Frame> := [(start, 0)];
      while path != []
        invariant Searching(edges, declared, marks[..], finished, path)
        invariant old(finished) <= finished
        invariant forall v :: v in old(finished) ==> v in finished
        invariant path != [] ==> path[0].0 == start
        invariant path == [] ==> start in finished
        invariant forall v :: v in finished && v !in old(finished) ==> Reach(Expanded(edges, declared), start, v)
        decreases NewNodes(marks[..]), |path|,
                  if path == [] || path[|path| - 1].0 >= |edges| then 0 else |edges[path[|path| - 1].0]| - path[|path| - 1].1
      {
        TopInRange(edges, declared, marks[..], finished, path);
        var (node, next) := path[|path| - 1];
        if next >= |edges[node]| {
          PathTopReached(edges, declared, marks[..], finished, path);
          StepOut(edges, declared, marks[..], finished, path);
          was := marks[..];
          marks[node] := Done;
          assert marks[..] == was[node := Done];
          FewerNew(was, node, Done);
          finished := finished + [node];
          path := path[..|path| - 1];
          continue;
        }
        var child := edges[node][next];
        ghost var before := path;
        Looks(edges, path, child);
        path := path[|path| - 1 := (node, next + 1)];
        if child in declared {
          StepOver(edges, declared, marks[..], finished, before, child);
          continue;
        }
        match marks[child]
        case Open =>
          ClosesCycle(edges, declared, marks[..], finished, before, child);
          return Err(UndeclaredCycle(child));
        case Done =>
          NewOrFinished(edges, declared, marks[..], finished, child);
          StepOver(edges, declared, marks[..], finished, before, child);
        case New =>
          StepInto(edges, declared, marks[..], finished, before, child);
          was := marks[..];
          marks[child] := Open;
          assert marks[..] == was[child := Open];
          FewerNew(was, child, Open);
          path := path + [(child, 0)];
      }
      return Ok(());
    }
  }

  ghost function NewNodes(marks: seq<Mark>): set<nat> {
    set v: nat | v < |marks| && marks[v] == New
  }

  lemma FewerNew(marks: seq<Mark>, v: nat, m: Mark)
    requires v < |marks| && m != New
    ensures NewNodes(marks[v := m]) <= NewNodes(marks)
    ensures marks[v] == New ==> NewNodes(marks[v := m]) < NewNodes(marks)
  {
    if marks[v] == New { assert v in NewNodes(marks) && v !in NewNodes(marks[v := m]); }
  }

  lemma Looks(edges: seq<seq<nat>>, path: seq<Frame>, child: nat)
    requires path != [] && path[|path| - 1].0 < |edges| && path[|path| - 1].1 < |edges[path[|path| - 1].0]|
    requires edges[path[|path| - 1].0][path[|path| - 1].1] == child
    ensures Looking(edges, path, child)
  {
  }

  lemma NewOrFinished(edges: seq<seq<nat>>, declared: set<nat>, marks: seq<Mark>, finished: seq<nat>, v: nat)
    requires exists path :: Searching(edges, declared, marks, finished, path)
    requires v < |edges|
    ensures v < |marks| && (marks[v] == Done <==> v in finished)
    ensures Searching(edges, declared, marks, finished, []) ==> marks[v] != Open
  {
    var path :| Searching(edges, declared, marks, finished, path);
    hide Expanded;
    assert !OnPath([], v);
  }

  lemma TopInRange(edges: seq<seq<nat>>, declared: set<nat>, marks: seq<Mark>, finished: seq<nat>, path: seq<Frame>)
    requires Searching(edges, declared, marks, finished, path) && path != []
    ensures var top := path[|path| - 1];
            top.0 < |edges| == |marks| && top.1 <= |edges[top.0]| && marks[top.0] == Open
            && forall m :: 0 <= m < |edges[top.0]| ==> edges[top.0][m] < |edges|
  {
    hide Expanded;
    assert OnPath(path, path[|path| - 1].0);
  }

  lemma PathTopReached(edges: seq<seq<nat>>, declared: set<nat>, marks: seq<Mark>, finished: seq<nat>, path: seq<Frame>)
    requires Searching(edges, declared, marks, finished, path) && path != []
    ensures Reach(Expanded(edges, declared), path[0].0, path[|path| - 1].0)
  {
    PathReaches(edges, declared, finished, path, 0, |path| - 1);
  }

  // ----- the check over all roots -----

  /** The undeclared nodes whose expansion a root starts. */
  ghost predicate StartsAt(edges: seq<seq<nat>>, declared: set<nat>, root: Root, s: nat) {
    s !in declared
    && match root
       case ByName(t) => s == t
       case Structure(t) => if t !in declared then s == t else t < |edges| && s in edges[t]
  }

  /** Some undeclared cycle is expanded from the roots. */
  ghost predicate ExpandsForever(edges: seq<seq<nat>>, declared: set<nat>, roots: seq<Root>) {
    exists i, s: nat, v: nat ::
      0 <= i < |roots| && StartsAt(edges, declared, roots[i], s)
      && Reach(Expanded(edges, declared), s, v) && OnCycle(Expanded(edges, declared), v)
  }

  function ChildLists(types: Types): (r: seq<seq<TypeRef>>)
    ensures |r| == |types| && forall i :: 0 <= i < |types| ==> r[i] == Children(types[i])
  { seq(|types|, i requires 0 <= i < |types| => Children(types[i])) }

  /** `check`: succeeds exactly when no expansion from the roots runs into a
      cycle, and then finishes the expanded nodes so that every expanded edge
      descends. */
  method Check(types: Types, declared: set<nat>, roots: seq<Root>)
    returns (r: Result<(), UndeclaredCycle>, ghost finished: seq<nat>)
    requires Closed(types) && forall i :: 0 <= i < |roots| ==> roots[i].target < |types|
    ensures r.Ok? <==> !ExpandsForever(ChildLists(types), declared, roots)
    ensures r.Err? ==> OnCycle(Expanded(ChildLists(types), declared), r.error.reference)
    ensures r.Err? ==> exists i, s: nat :: 0 <= i < |roots| && StartsAt(ChildLists(types), declared, roots[i], s)
                                           && Reach(Expanded(ChildLists(types), declared), s, r.error.reference)
    ensures r.Ok? ==> NoDuplicates(finished) && Descends(Expanded(ChildLists(types), declared), finished)
    ensures r.Ok? ==> forall i, s: nat ::
              0 <= i < |roots| && StartsAt(ChildLists(types), declared, roots[i], s) ==> s in finished
  {
    hide Searching, Expanded, Reach, OnCycle, Descends;
    ghost var all := ChildLists(types);
    finished := [];
    var search := new Search(types, declared);
    assert search.edges == all;
    for n := 0 to |roots|
      invariant search.Valid() && search.edges == all && search.declared == declared
      invariant fresh(search) && fresh(search.marks)
      invariant forall i, s: nat :: 0 <= i < n && StartsAt(all, declared, roots[i], s) ==> s in search.finished
    {
      var target := roots[n].target;
      if roots[n].ByName? || target !in declared {
        var step := search.From(target);
        if step.Err? {
          assert StartsAt(all, declared, roots[n], target);
          return Err(step.error), [];
        }
      } else {
        for index := 0 to |search.edges[target]|
          invariant search.Valid() && search.edges == all && search.declared == declared
          invariant fresh(search) && fresh(search.marks)
          invariant forall i, s: nat :: 0 <= i < n && StartsAt(all, declared, roots[i], s) ==> s in search.finished
          invariant forall m :: 0 <= m < index ==> all[target][m] in declared || all[target][m] in search.finished
        {
          ChildInRange(search.edges, declared, search.marks[..], search.finished, target, index);
          var step := search.From(search.edges[target][index]);
          if step.Err? {
            assert StartsAt(all, declared, roots[n], search.edges[target][index]);
            return Err(step.error), [];
          }
        }
      }
    }
    finished := search.finished;
    SearchedAll(all, declared, search.marks[..], finished, roots);
    r := Ok(());
  }

  lemma ChildInRange(edges: seq<seq<nat>>, declared: set<nat>, marks: seq<Mark>, finished: seq<nat>, u: nat, m: nat)
    requires Searching(edges, declared, marks, finished, []) && u < |edges| && m < |edges[u]|
    ensures edges[u][m] < |edges|
  {
  }

  lemma {:induction false} FinishedReach(e: Edges, finished: seq<nat>, p: seq<nat>, a: nat)
    requires Descends(e, finished) && Walk(e, p) && a < |finished| && p[0] == finished[a]
    ensures |p| <= a + 1
    ensures forall i :: 0 < i < |p| ==> p[i] in finished[..a]
    decreases |p|
  {
    if |p| > 1 {
      assert (p[0], p[0 + 1]) in e;
      assert p[1] in finished[..a];
      var b :| 0 <= b < a && finished[b] == p[1];
      var q := p[1..];
      forall i | 0 <= i < |q| - 1 ensures (q[i], q[i + 1]) in e { assert (p[i + 1], p[i + 1 + 1]) in e; }
      FinishedReach(e, finished, q, b);
      forall i | 0 < i < |p| ensures p[i] in finished[..a] {
        if i > 1 {
          assert q[i - 1] in finished[..b];
          var c :| 0 <= c < b && finished[c] == p[i];
          assert finished[..a][c] == p[i];
        }
      }
    }
  }

  /** Where every expanded edge descends, an expansion from a finished node is
      no longer than its position, and no finished node expands to a cycle. */
  lemma DescentBounds(e: Edges, finished: seq<nat>, s: nat)
    requires NoDuplicates(finished) && Descends(e, finished) && s in finished
    ensures forall p :: Walk(e, p) && p[0] == s ==> |p| <= |finished|
    ensures forall v: nat :: Reach(e, s, v) ==> v in finished && !OnCycle(e, v)
  {
    var a :| 0 <= a < |finished| && finished[a] == s;
    forall p | Walk(e, p) && p[0] == s ensures |p| <= |finished| { FinishedReach(e, finished, p, a); }
    forall v: nat | Reach(e, s, v) ensures v in finished && !OnCycle(e, v) {
      var p :| Walk(e, p) && p[0] == s && p[|p| - 1] == v;
      FinishedReach(e, finished, p, a);
      assert |p| == 1 || p[|p| - 1] in finished[..a];
      FinishedOffCycle(e, finished, v);
    }
  }

  lemma FinishedOffCycle(e: Edges, finished: seq<nat>, v: nat)
    requires NoDuplicates(finished) && Descends(e, finished) && v in finished
    ensures !OnCycle(e, v)
  {
    var b :| 0 <= b < |finished| && finished[b] == v;
    assert v !in finished[..b];
    forall q | Walk(e, q) && |q| >= 2 && q[0] == v ensures q[|q| - 1] != v {
      FinishedReach(e, finished, q, b);
      assert q[|q| - 1] in finished[..b];
    }
  }

  lemma SearchedAll(edges: seq<seq<nat>>, declared: set<nat>, marks: seq<Mark>, finished: seq<nat>, roots: seq<Root>)
    requires Searching(edges, declared, marks, finished, [])
    requires forall i, s: nat :: 0 <= i < |roots| && StartsAt(edges, declared, roots[i], s) ==> s in finished
    ensures NoDuplicates(finished) && Descends(Expanded(edges, declared), finished)
    ensures !ExpandsForever(edges, declared, roots)
  {
    hide Expanded;
    var e := Expanded(edges, declared);
    forall i, s: nat, v: nat | 0 <= i < |roots| && StartsAt(edges, declared, roots[i], s) && Reach(e, s, v)
      ensures !OnCycle(e, v)
    {
      DescentBounds(e, finished, s);
    }
  }
}
