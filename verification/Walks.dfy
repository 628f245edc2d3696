/** Walks along the edges of a finite directed graph. */
module Walks {
  type Edges = set<(nat, nat)>

  ghost predicate Walk(e: Edges, p: seq<nat>) {
    |p| >= 1 && forall i :: 0 <= i < |p| - 1 ==> (p[i], p[i + 1]) in e
  }

  /** A walk, possibly of no edges, leads from `u` to `v`. */
  ghost predicate Reach(e: Edges, u: nat, v: nat) {
    exists p :: Walk(e, p) && p[0] == u && p[|p| - 1] == v
  }

  /** A walk of at least one edge leads from `v` back to `v`. */
  ghost predicate OnCycle(e: Edges, v: nat) {
    exists p :: Walk(e, p) && |p| >= 2 && p[0] == v && p[|p| - 1] == v
  }

  ghost predicate Mutual(e: Edges, u: nat, v: nat) {
    Reach(e, u, v) && Reach(e, v, u)
  }

  lemma ReachSelf(e: Edges, u: nat)
    ensures Reach(e, u, u)
  {
    assert Walk(e, [u]);
  }

  lemma ReachTransitive(e: Edges, u: nat, v: nat, w: nat)
    requires Reach(e, u, v) && Reach(e, v, w)
    ensures Reach(e, u, w)
  {
    var p :| Walk(e, p) && p[0] == u && p[|p| - 1] == v;
    var q :| Walk(e, q) && q[0] == v && q[|q| - 1] == w;
    var r := p + q[1..];
    forall i | 0 <= i < |r| - 1 ensures (r[i], r[i + 1]) in e {
      if i >= |p| - 1 { assert r[i] == q[i - |p| + 1] && r[i + 1] == q[i - |p| + 2]; }
    }
    assert r[|r| - 1] == q[|q| - 1];
  }

  lemma ReachEdge(e: Edges, u: nat, v: nat)
    requires (u, v) in e
    ensures Reach(e, u, v)
  {
    assert Walk(e, [u, v]);
  }

  lemma MutualTransitive(e: Edges, u: nat, v: nat, w: nat)
    requires Mutual(e, u, v) && Mutual(e, v, w)
    ensures Mutual(e, u, w)
  {
    ReachTransitive(e, u, v, w);
    ReachTransitive(e, w, v, u);
  }

  /** Any two points of a walk, in order, are connected. */
  lemma WithinWalk(e: Edges, p: seq<nat>, i: nat, j: nat)
    requires Walk(e, p) && i <= j < |p|
    ensures Reach(e, p[i], p[j])
  {
    assert Walk(e, p[i..j + 1]);
  }

  // ----- self-loops -----

  ghost function Loopless(e: Edges): Edges {
    set x | x in e && x.0 != x.1
  }

  lemma {:induction false} WalkWithoutLoops(e: Edges, p: seq<nat>)
    requires Walk(e, p)
    ensures Reach(Loopless(e), p[0], p[|p| - 1])
  {
    if |p| == 1 {
      ReachSelf(Loopless(e), p[0]);
    } else {
      assert Walk(e, p[1..]) by {
        forall i | 0 <= i < |p[1..]| - 1 ensures (p[1..][i], p[1..][i + 1]) in e {
          assert (p[i + 1], p[i + 1 + 1]) in e;
        }
      }
      WalkWithoutLoops(e, p[1..]);
      assert (p[0], p[0 + 1]) in e;
      if p[0] != p[1] {
        ReachEdge(Loopless(e), p[0], p[1]);
        ReachTransitive(Loopless(e), p[0], p[1], p[|p| - 1]);
      }
    }
  }

  lemma LooplessWithin(e: Edges, u: nat, v: nat)
    requires Reach(Loopless(e), u, v)
    ensures Reach(e, u, v)
  {
    var p :| Walk(Loopless(e), p) && p[0] == u && p[|p| - 1] == v;
    assert Walk(e, p);
  }

  /** A node lies on a cycle exactly when it has a self-loop or, without
      self-loops, reaches some other node and back. */
  lemma CycleIsLoopOrMutual(e: Edges, v: nat)
    ensures OnCycle(e, v) <==> (v, v) in e || exists u: nat :: u != v && Mutual(Loopless(e), v, u)
  {
    if OnCycle(e, v) && (v, v) !in e {
      var p :| Walk(e, p) && |p| >= 2 && p[0] == v && p[|p| - 1] == v;
      assert (p[0], p[0 + 1]) in e;
      var u := p[1];
      WithinWalk(e, p, 0, 1);
      WithinWalk(e, p, 1, |p| - 1);
      ReachLoopless(e, v, u);
      ReachLoopless(e, u, v);
      assert u != v && Mutual(Loopless(e), v, u);
    }
    if (v, v) in e { assert Walk(e, [v, v]); }
    if exists u: nat :: u != v && Mutual(Loopless(e), v, u) {
      var u: nat :| u != v && Mutual(Loopless(e), v, u);
      LooplessWithin(e, v, u);
      LooplessWithin(e, u, v);
      CycleThrough(e, v, u);
    }
  }

  lemma ReachLoopless(e: Edges, u: nat, v: nat)
    requires Reach(e, u, v)
    ensures Reach(Loopless(e), u, v)
  {
    var p :| Walk(e, p) && p[0] == u && p[|p| - 1] == v;
    WalkWithoutLoops(e, p);
  }

  lemma CycleThrough(e: Edges, v: nat, u: nat)
    requires u != v && Mutual(e, v, u)
    ensures OnCycle(e, v)
  {
    var p :| Walk(e, p) && p[0] == v && p[|p| - 1] == u;
    var q :| Walk(e, q) && q[0] == u && q[|q| - 1] == v;
    var r := p + q[1..];
    forall i | 0 <= i < |r| - 1 ensures (r[i], r[i + 1]) in e {
      if i >= |p| - 1 { assert r[i] == q[i - |p| + 1] && r[i + 1] == q[i - |p| + 2]; }
    }
    assert r[|r| - 1] == q[|q| - 1];
    assert Walk(e, r);
  }
}
