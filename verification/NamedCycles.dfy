/** Only a name lets a type refer back to itself: every cycle of the lowered
    arena passes through the node of a name. */
module NamedCycles {
  import opened Sorting
  import opened TypeGraph
  import opened Walks
  import opened CandidTypes
  import opened ArenaSteps
  import opened OptCycles

  ghost function RefGraph(nodes: Nodes): Edges {
    set x: nat, y: nat | x < |nodes| && y < |nodes| && nodes[x].Some? && y in StoredRefs(nodes[x].value) :: (x, y)
  }

  ghost predicate IsNamed(a: Arena, r: TypeRef) {
    exists n :: n in a.named && a.named[n] == r
  }

  lemma FieldTypesWithin(fields: seq<Field>, x: TypeRef)
    requires x in FieldTypes(fields)
    ensures exists f :: f in fields && f.ty == x
  {
    var i :| 0 <= i < |fields| && FieldTypes(fields)[i] == x;
    assert fields[i] in fields;
  }

  lemma MethodFunctionsWithin(methods: seq<ServiceMethod>, x: TypeRef)
    requires x in MethodFunctions(methods)
    ensures exists m :: m in methods && m.function_ == x
  {
    var i :| 0 <= i < |methods| && MethodFunctions(methods)[i] == x;
    assert methods[i] in methods;
  }

  /** The references of a lowered node are the nodes of its parts. */
  lemma AssembledRefs(t: Type, refs: seq<TypeRef>, x: TypeRef)
    requires Supported(t).Ok? && |refs| == |Parts(t)| && x in StoredRefs(Assemble(t, refs))
    ensures x in refs
  {
    hide Sort, FieldTypes, MethodFunctions;
    match t
    case RecordT(fields) =>
      SortedFieldMembers(LoweredFields(fields, refs));
      FieldTypesWithin(Sort(FieldLe, LoweredFields(fields, refs)), x);
    case VariantT(fields) =>
      SortedFieldMembers(LoweredFields(fields, refs));
      FieldTypesWithin(Sort(FieldLe, LoweredFields(fields, refs)), x);
    case ServiceT(methods) =>
      SortedMethodMembers(LoweredMethods(methods, refs));
      MethodFunctionsWithin(Sort(MethodLe, LoweredMethods(methods, refs)), x);
    case _ =>
  }

  /** A reference leads to the node of a name or to a strictly smaller type. */
  lemma StepShrinks(env: Environment, a: Arena, x: nat, y: nat)
    requires Consistent(env, a) && (x, y) in RefGraph(a.nodes)
    ensures x < |a.owner| && y < |a.owner|
    ensures IsNamed(a, y) || TypeSize(a.owner[y]) < TypeSize(a.owner[x])
  {
    assert FilledAt(env, a, x);
    var t := a.owner[x];
    AssembledRefs(t, a.refs[x], y);
    var i: nat :| i < |a.refs[x]| && a.refs[x][i] == y;
    assert PartOk(env, a, Parts(t)[i], a.refs[x][i]);
    if Parts(t)[i].VarT? {
      assert a.named[Parts(t)[i].name] == y;
    } else {
      PartIsShorter(t, i);
    }
  }

  lemma {:induction false} WalkShrinks(env: Environment, a: Arena, p: seq<nat>)
    requires Consistent(env, a) && Walk(RefGraph(a.nodes), p) && p[0] < |a.owner|
    requires forall i :: 0 < i < |p| ==> !IsNamed(a, p[i])
    ensures forall i :: 0 <= i < |p| ==> p[i] < |a.owner|
    ensures TypeSize(a.owner[p[|p| - 1]]) + |p| - 1 <= TypeSize(a.owner[p[0]])
  {
    hide Consistent, TypeSize;
    if |p| > 1 {
      var q := p[..|p| - 1];
      WalkShrinks(env, a, q);
      assert (p[|p| - 2], p[|p| - 2 + 1]) in RefGraph(a.nodes);
      StepShrinks(env, a, p[|p| - 2], p[|p| - 1]);
      forall i | 0 <= i < |p| ensures p[i] < |a.owner| { if i < |q| { assert q[i] == p[i]; } }
    }
  }

  /** Every cycle of references has a node that is the node of some name. */
  lemma EveryCycleIsNamed(env: Environment, a: Arena, p: seq<nat>)
    requires Consistent(env, a) && Walk(RefGraph(a.nodes), p) && |p| >= 2 && p[0] == p[|p| - 1]
    ensures exists i :: 0 <= i < |p| && IsNamed(a, p[i])
  {
    hide Consistent, TypeSize, IsNamed;
    assert (p[0], p[0 + 1]) in RefGraph(a.nodes);
    StepShrinks(env, a, p[0], p[1]);
    if forall i :: 0 <= i < |p| ==> !IsNamed(a, p[i]) {
      WalkShrinks(env, a, p);
    }
  }

  lemma Rotate(e: Edges, p: seq<nat>, i: nat)
    requires Walk(e, p) && |p| >= 2 && p[0] == p[|p| - 1] && i < |p|
    ensures OnCycle(e, p[i])
  {
    if i == |p| - 1 {
      assert Walk(e, p);
    } else {
      var q := p[i..] + p[1..i + 1];
      forall k | 0 <= k < |q| - 1 ensures (q[k], q[k + 1]) in e {
        if k < |p| - i - 1 {
          assert (p[i + k], p[i + k + 1]) in e;
        } else {
          var m := k - (|p| - i - 1);
          assert q[k] == p[m] && q[k + 1] == p[m + 1];
        }
      }
      assert |q| == |p| && q[0] == p[i];
      assert q[|q| - 1] == p[i] by {
        if i > 0 { assert q[|q| - 1] == p[1..i + 1][i - 1]; }
      }
      assert Walk(e, q) && |q| >= 2;
    }
  }

  /** A cycle of `opt` edges passes through a name. */
  lemma OptCycleIsNamed(env: Environment, a: Arena, v: nat)
    requires Consistent(env, a) && OnCycle(OptGraph(a.nodes), v)
    ensures exists n :: NameOnCycle(a.nodes, a.named, n)
  {
    var e := OptGraph(a.nodes);
    var p :| Walk(e, p) && |p| >= 2 && p[0] == v && p[|p| - 1] == v;
    forall x | x in e ensures x in RefGraph(a.nodes) {
      assert x.1 in StoredRefs(a.nodes[x.0].value);
    }
    assert Walk(RefGraph(a.nodes), p);
    EveryCycleIsNamed(env, a, p);
    var i :| 0 <= i < |p| && IsNamed(a, p[i]);
    Rotate(e, p, i);
    var n :| n in a.named && a.named[n] == p[i];
    assert NameOnCycle(a.nodes, a.named, n);
  }
}
