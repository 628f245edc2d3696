/** The refusal of types that lie on a cycle passing only through `opt`: it
    accepts exactly the arenas where unwrapping `opt` always ends. */
module OptCycles {
  import opened Bytes
  import opened Wrappers
  import opened TypeGraph
  import opened Sorting
  import opened Walks
  import opened Kosaraju
  import opened CandidTypes

  type Nodes = seq<Option<TypeNode>>

  /** Where unwrapping an `opt` node leads. */
  function OptTarget(nodes: Nodes, r: TypeRef): Option<TypeRef> {
    if r < |nodes| && nodes[r].Some? && nodes[r].value.Opt? && nodes[r].value.inner < |nodes|
    then Some(nodes[r].value.inner) else None
  }

  ghost function OptGraph(nodes: Nodes): Edges {
    set r: nat | r < |nodes| && OptTarget(nodes, r).Some? :: (r, OptTarget(nodes, r).value)
  }

  /** The node after unwrapping up to `k` times. */
  function Unwrap(nodes: Nodes, r: TypeRef, k: nat): TypeRef {
    if k == 0 then r
    else
      var last := Unwrap(nodes, r, k - 1);
      var next := OptTarget(nodes, last);
      if next.Some? then next.value else last
  }

  /** Unwrapping from any node ends within the size of the arena. */
  ghost predicate Productive(nodes: Nodes) {
    forall r: nat :: r < |nodes| ==> OptTarget(nodes, Unwrap(nodes, r, |nodes|)).None?
  }

  ghost predicate NoOptCycle(nodes: Nodes) {
    forall v: nat :: v < |nodes| ==> !OnCycle(OptGraph(nodes), v)
  }

  lemma CycleMoves(nodes: Nodes, v: nat)
    requires OnCycle(OptGraph(nodes), v)
    ensures OptTarget(nodes, v).Some? && OnCycle(OptGraph(nodes), OptTarget(nodes, v).value)
  {
    var e := OptGraph(nodes);
    var p :| Walk(e, p) && |p| >= 2 && p[0] == v && p[|p| - 1] == v;
    assert (p[0], p[0 + 1]) in e;
    var q := p[1..] + [p[1]];
    forall i | 0 <= i < |q| - 1 ensures (q[i], q[i + 1]) in e {
      if i < |q| - 2 { assert (p[i + 1], p[i + 1 + 1]) in e; }
    }
    assert Walk(e, q);
  }

  lemma {:induction false} CycleNeverEnds(nodes: Nodes, v: nat, k: nat)
    requires OnCycle(OptGraph(nodes), v)
    ensures OnCycle(OptGraph(nodes), Unwrap(nodes, v, k)) && OptTarget(nodes, Unwrap(nodes, v, k)).Some?
  {
    if k > 0 {
      CycleNeverEnds(nodes, v, k - 1);
      CycleMoves(nodes, Unwrap(nodes, v, k - 1));
    }
    CycleMoves(nodes, Unwrap(nodes, v, k));
  }

  lemma {:induction false} StuckStays(nodes: Nodes, r: nat, k: nat, n: nat)
    requires k <= n && OptTarget(nodes, Unwrap(nodes, r, n)).Some?
    ensures OptTarget(nodes, Unwrap(nodes, r, k)).Some?
    decreases n - k
  {
    if k < n { StuckStays(nodes, r, k + 1, n); }
  }

  lemma {:induction false} UnwrapInRange(nodes: Nodes, r: nat, k: nat)
    requires r < |nodes|
    ensures Unwrap(nodes, r, k) < |nodes|
  {
    if k > 0 { UnwrapInRange(nodes, r, k - 1); }
  }

  lemma EndlessHasCycle(nodes: Nodes, r: nat)
    requires r < |nodes| && OptTarget(nodes, Unwrap(nodes, r, |nodes|)).Some?
    ensures exists v: nat :: v < |nodes| && OnCycle(OptGraph(nodes), v)
  {
    var n, e := |nodes|, OptGraph(nodes);
    var s: seq<nat> := seq(n + 1, i requires 0 <= i < n + 1 => Unwrap(nodes, r, i));
    forall i: nat | i <= n ensures s[i] < n && s[i] in UpTo(n) && OptTarget(nodes, s[i]).Some? {
      UnwrapInRange(nodes, r, i);
      StuckStays(nodes, r, i, n);
      assert UpTo(n)[s[i]] == s[i];
    }
    forall i: nat | i < n ensures (s[i], s[i + 1]) in e {
      assert s[i + 1] == OptTarget(nodes, s[i]).value;
    }
    hide OptGraph, OptTarget, Unwrap;
    if NoDuplicates(s) {
      PigeonHole(s, UpTo(n));
      assert false;
    }
    var i, j :| 0 <= i < j < |s| && s[i] == s[j];
    WalkRepeats(e, s, i, j);
  }

  lemma WalkRepeats(e: Edges, s: seq<nat>, i: nat, j: nat)
    requires i < j < |s| && s[i] == s[j] && forall k: nat :: k < |s| - 1 ==> (s[k], s[k + 1]) in e
    ensures OnCycle(e, s[i])
  {
    var p := s[i..j + 1];
    forall k | 0 <= k < |p| - 1 ensures (p[k], p[k + 1]) in e { assert (s[i + k], s[i + k + 1]) in e; }
    assert Walk(e, p) && |p| >= 2 && p[0] == s[i] && p[|p| - 1] == s[i];
  }

  /** No node lies on a cycle of `opt` edges exactly when unwrapping from every
      node reaches something else than an `opt` within the arena size. */
  lemma NoOptCycleIsProductive(nodes: Nodes)
    ensures NoOptCycle(nodes) <==> Productive(nodes)
  {
    forall r: nat | r < |nodes| && OptTarget(nodes, Unwrap(nodes, r, |nodes|)).Some? ensures !NoOptCycle(nodes) {
      EndlessHasCycle(nodes, r);
    }
    forall v: nat | v < |nodes| && OnCycle(OptGraph(nodes), v) ensures !Productive(nodes) {
      CycleNeverEnds(nodes, v, |nodes|);
    }
  }

  // ----- the check -----

  method OptEdges(nodes: Nodes) returns (edges: seq<(nat, nat)>)
    ensures forall x :: x in edges ==> x.0 < |nodes| && x.1 < |nodes|
    ensures EdgeSet(edges) == OptGraph(nodes)
  {
    edges := [];
    for r := 0 to |nodes|
      invariant forall x :: x in edges <==> x.0 < r && OptTarget(nodes, x.0) == Some(x.1)
    {
      if nodes[r].Some? && nodes[r].value.Opt? && nodes[r].value.inner < |nodes| {
        edges := edges + [(r, nodes[r].value.inner)];
      }
    }
  }

  /** Whether a name's node lies on a cycle of `opt` edges. */
  ghost predicate NameOnCycle(nodes: Nodes, named: map<Bytes.Text, TypeRef>, name: Bytes.Text) {
    name in named && OnCycle(OptGraph(nodes), named[name])
  }

  /** `refuse_opt_only_cycles`: `names` lists the names in order. */
  method RefuseOptOnlyCycles(nodes: Nodes, named: map<Bytes.Text, TypeRef>, names: seq<Bytes.Text>)
    returns (r: Result<(), LowerError>)
    requires forall n :: n in names <==> n in named
    requires forall n :: n in named ==> named[n] < |nodes|
    ensures r.Ok? <==> Productive(nodes)
    ensures match r
            case Ok(_) => true
            case Err(OptOnlyCycle(name)) =>
              exists i :: 0 <= i < |names| && names[i] == name && NameOnCycle(nodes, named, name)
                && forall j :: 0 <= j < i ==> !NameOnCycle(nodes, named, names[j])
            case Err(UnnamedOptCycle) => forall name :: !NameOnCycle(nodes, named, name)
            case _ => false
  {
    hide OnCycle, Productive, OptGraph;
    NoOptCycleIsProductive(nodes);
    var edges := OptEdges(nodes);
    var cyclic := CyclicNodes(|nodes|, edges);
    if forall v :: 0 <= v < |cyclic| ==> !cyclic[v] { return Ok(()); }
    for i := 0 to |names|
      invariant forall j :: 0 <= j < i ==> !NameOnCycle(nodes, named, names[j])
    {
      assert names[i] in names;
      if cyclic[named[names[i]]] { return Err(OptOnlyCycle(names[i])); }
    }
    r := Err(UnnamedOptCycle);
  }
}
