/** The lowerer: a worklist that turns checked types into an arena, one node
    per distinct type, with every alias resolved to the node of its terminal. */
module Lowering {
  import opened Bytes
  import opened Wrappers
  import opened TypeGraph
  import opened AliasWalks
  import opened CandidTypes
  import opened ArenaSteps

  /** Why lowering a list of types can fail: the arena is full, or one of them
      names nothing or an alias cycle. */
  ghost predicate Unresolved(env: Environment, a: Arena, universe: set<Type>, types: seq<Type>, e: LowerError) {
    (e == ArenaFull && Full(a, universe)) || exists i :: 0 <= i < |types| && Denotation(env, types[i]) == Err(e)
  }

  /** Why draining can fail: the above for the parts of some node's type, or a
      composite type that has no node. */
  ghost predicate Unlowerable(env: Environment, a: Arena, universe: set<Type>, e: LowerError) {
    exists r: nat :: r < |a.owner| && Composite(a.owner[r])
      && (Unresolved(env, a, universe, Parts(a.owner[r]), e) || Supported(a.owner[r]) == Err(e))
  }

  /** How far the recursion between names and types can go. */
  ghost function NameRank(env: Environment, name: Bytes.Text): nat {
    if name in env && !env[name].VarT? then 1 else 2
  }

  class Lowerer {
    const environment: Environment
    var nodes: seq<Option<TypeNode>>
    var namedRefs: map<Bytes.Text, TypeRef>
    var primitiveRefs: map<PrimitiveType, TypeRef>
    var compositeRefs: map<Type, TypeRef>
    ghost var owner: seq<Type>
    ghost var refs: seq<seq<TypeRef>>

    ghost function State(): Arena
      reads this
    {
      Arena(nodes, owner, refs, namedRefs, primitiveRefs, compositeRefs)
    }

    constructor (env: Environment)
      ensures environment == env
      ensures Consistent(env, State()) && Covers(State(), [], {}) && State().owner == [] && State().named == map[]
    {
      environment := env;
      nodes, namedRefs, primitiveRefs, compositeRefs := [], map[], map[], map[];
      owner, refs := [], [];
    }

    method Reserve(ghost ty: Type) returns (r: Result<TypeRef, LowerError>)
      modifies this
      ensures if |old(nodes)| < U32_LIMIT
              then r == Ok(|old(nodes)|)
                   && State() == old(State()).(nodes := old(nodes) + [None], owner := old(owner) + [ty], refs := old(refs) + [[]])
              else r == Err(ArenaFull) && State() == old(State())
    {
      if |nodes| >= U32_LIMIT { return Err(ArenaFull); }
      r := Ok(|nodes|);
      nodes, owner, refs := nodes + [None], owner + [ty], refs + [[]];
    }

    /** The terminal name of an alias chain. */
    method TerminalName(name: Bytes.Text) returns (r: Result<Bytes.Text, LowerError>)
      ensures r == Terminal(environment, name, {})
      ensures forall n :: r == Ok(n) <==> LeadsTo(environment, name, n)
      ensures forall n :: r == Err(UnboundName(n)) <==> LeadsNowhere(environment, name, n)
      ensures forall n :: r == Err(AliasCycle(n)) <==> RunsInCircle(environment, name, n)
    {
      hide LeadsTo, LeadsNowhere, RunsInCircle;
      forall n
        ensures Terminal(environment, name, {}) == Ok(n) <==> LeadsTo(environment, name, n)
        ensures Terminal(environment, name, {}) == Err(UnboundName(n)) <==> LeadsNowhere(environment, name, n)
        ensures Terminal(environment, name, {}) == Err(AliasCycle(n)) <==> RunsInCircle(environment, name, n)
      {
        AliasesResolve(environment, name, n);
      }
      var seen: set<Bytes.Text> := {};
      var current := name;
      while true
        invariant Terminal(environment, name, {}) == Terminal(environment, current, seen)
        decreases environment.Keys - seen
      {
        if current in seen { return Err(AliasCycle(current)); }
        if current !in environment { return Err(UnboundName(current)); }
        ghost var before := environment.Keys - seen;
        seen := seen + {current};
        assert current in before && current !in environment.Keys - seen;
        if environment[current].VarT? {
          current := environment[current].name;
        } else {
          return Ok(current);
        }
      }
    }

    method EnsureNamed(name: Bytes.Text, pending: Pending, ghost filling: set<TypeRef>, ghost universe: set<Type>)
      returns (r: Result<TypeRef, LowerError>, more: Pending)
      requires Consistent(environment, State()) && Covers(State(), pending, filling)
      requires ClosedTypes(environment, universe) && Inside(State(), universe)
      modifies this
      ensures Asked(environment, old(State()), pending, State(), more, filling, universe)
      ensures r.Ok? ==> PartOk(environment, State(), VarT(name), r.value)
      ensures r.Err? ==>
                || (r.error == ArenaFull && Full(State(), universe))
                || Denotation(environment, VarT(name)) == Err(r.error)
      decreases NameRank(environment, name)
    {
      hide Covers, Inside, Unowned, Terminal, Asked, Grows, Filled, Full;
      more := pending;
      ghost var a := State();
      AskedNothing(environment, a, pending, filling, universe);
      ConsistentShaped(environment, a);
      if name in namedRefs {
        r := Ok(namedRefs[name]);
        return;
      }
      var terminal := TerminalName(name);
      if terminal.Err? {
        r := Err(terminal.error);
        return;
      }
      var target := terminal.value;
      TerminalOfTerminal(environment, name, {});
      assert Denotation(environment, VarT(name)) == Denotation(environment, VarT(target)) == Ok(environment[target]);
      if target != name {
        TerminalMoves(environment, name);
        r, more := EnsureNamed(target, pending, filling, universe);
        if r.Ok? { RecordName(name, r.value, a, pending, more, filling, universe); }
        return;
      }
      var ty := environment[target];
      if ty.PrimT? {
        r, more := EnsureType(ty, pending, filling, universe);
        if r.Ok? { RecordName(name, r.value, a, pending, more, filling, universe); }
        return;
      }
      if ty in compositeRefs {
        r := Ok(compositeRefs[ty]);
        RecordName(name, r.value, a, pending, more, filling, universe);
        return;
      }
      r := Reserve(ty);
      if r.Err? {
        ComposedUnowned(a, ty, universe);
        return;
      }
      compositeRefs := compositeRefs[ty := r.value];
      more := pending + [(r.value, ty)];
      assert State() == WithComposite(a, ty);
      AskedComposite(environment, a, ty, pending, filling, universe);
      assert State().owner[r.value] == ty;
      RecordName(name, r.value, a, pending, more, filling, universe);
    }

    /** Record the node of a name. */
    method RecordName(name: Bytes.Text, reference: TypeRef, ghost a: Arena, ghost pending: Pending, ghost more: Pending,
                      ghost filling: set<TypeRef>, ghost universe: set<Type>)
      requires Asked(environment, a, pending, State(), more, filling, universe)
      requires reference < |owner| && Denotation(environment, VarT(name)) == Ok(owner[reference])
      modifies this
      ensures State() == WithName(old(State()), name, reference)
      ensures Asked(environment, a, pending, State(), more, filling, universe)
      ensures PartOk(environment, State(), VarT(name), reference)
    {
      ghost var b := State();
      namedRefs := namedRefs[name := reference];
      hide Consistent, Covers, Inside, Unowned, Grows, Denotation;
      AskedName(environment, b, name, reference, more, filling, universe);
      AskedTwice(environment, a, pending, b, more, State(), more, filling, universe);
    }

    method EnsureType(ty: Type, pending: Pending, ghost filling: set<TypeRef>, ghost universe: set<Type>)
      returns (r: Result<TypeRef, LowerError>, more: Pending)
      requires Consistent(environment, State()) && Covers(State(), pending, filling)
      requires ClosedTypes(environment, universe) && Inside(State(), universe) && (ty.VarT? || ty in universe)
      modifies this
      ensures Asked(environment, old(State()), pending, State(), more, filling, universe)
      ensures r.Ok? ==> PartOk(environment, State(), ty, r.value)
      ensures r.Err? ==>
                || (r.error == ArenaFull && Full(State(), universe))
                || Denotation(environment, ty) == Err(r.error)
      decreases if ty.VarT? then 3 else 0
    {
      hide Covers, Inside, Unowned, Terminal, Asked, Grows, Filled, Full, ClosedTypes;
      more := pending;
      ghost var a := State();
      AskedNothing(environment, a, pending, filling, universe);
      if ty.VarT? {
        r, more := EnsureNamed(ty.name, pending, filling, universe);
        return;
      }
      if ty.PrimT? {
        if ty.primitive in primitiveRefs {
          r := Ok(primitiveRefs[ty.primitive]);
          return;
        }
        r := Reserve(ty);
        if r.Err? {
          PrimUnowned(a, ty, universe);
          return;
        }
        primitiveRefs := primitiveRefs[ty.primitive := r.value];
        nodes := nodes[r.value := Some(Primitive(ty.primitive))];
        assert State() == WithPrim(a, ty.primitive);
        AskedPrim(environment, a, ty.primitive, pending, filling, universe);
        return;
      }
      if ty in compositeRefs {
        r := Ok(compositeRefs[ty]);
        return;
      }
      r := Reserve(ty);
      if r.Err? {
        ComposedUnowned(a, ty, universe);
        return;
      }
      compositeRefs := compositeRefs[ty := r.value];
      more := pending + [(r.value, ty)];
      assert State() == WithComposite(a, ty);
      AskedComposite(environment, a, ty, pending, filling, universe);
    }

    /** The nodes of several types, in order, stopping at the first refusal. */
    method EnsureAll(types: seq<Type>, pending: Pending, ghost filling: set<TypeRef>, ghost universe: set<Type>)
      returns (r: Result<seq<TypeRef>, LowerError>, more: Pending)
      requires Consistent(environment, State()) && Covers(State(), pending, filling)
      requires ClosedTypes(environment, universe) && Inside(State(), universe)
      requires forall t :: t in types ==> t in universe
      modifies this
      ensures Asked(environment, old(State()), pending, State(), more, filling, universe)
      ensures r.Ok? ==> PartsOk(environment, State(), types, r.value)
      ensures r.Err? ==> Unresolved(environment, State(), universe, types, r.error)
    {
      hide Consistent, Covers, Inside, Unowned, Terminal, Grows, ClosedTypes, Denotation, Extends;
      ghost var a := State();
      AskedNothing(environment, a, pending, filling, universe);
      more := pending;
      var found: seq<TypeRef> := [];
      for i := 0 to |types|
        invariant Asked(environment, a, pending, State(), more, filling, universe)
        invariant |found| == i && PartsOk(environment, State(), types[..i], found)
      {
        ghost var b, q := State(), more;
        var next: Result<TypeRef, LowerError>;
        assert types[i] in types;
        next, more := EnsureType(types[i], more, filling, universe);
        AskedTwice(environment, a, pending, b, q, State(), more, filling, universe);
        if next.Err? {
          r := Err(next.error);
          return;
        }
        PartsExtendGrown(environment, b, State(), types[..i], found);
        found := found + [next.value];
      }
      assert types[..|types|] == types;
      r := Ok(found);
    }

    /** Give a reserved node its content. */
    method FillOne(reference: TypeRef, ty: Type, pending: Pending, ghost universe: set<Type>)
      returns (r: Result<(), LowerError>, more: Pending)
      requires Consistent(environment, State()) && Covers(State(), pending, {reference})
      requires ClosedTypes(environment, universe) && Inside(State(), universe)
      requires reference < |owner| && owner[reference] == ty && nodes[reference].None? && !ty.PrimT?
      modifies this
      ensures Extends(old(State()), State()) && Inside(State(), universe) && Consistent(environment, State())
      ensures Unowned(State(), universe) <= Unowned(old(State()), universe)
      ensures more == pending || Unowned(State(), universe) < Unowned(old(State()), universe)
      ensures r.Ok? ==> Covers(State(), more, {})
      ensures r.Err? ==> Unlowerable(environment, State(), universe, r.error)
    {
      hide Consistent, Covers, Unowned, Terminal, PartsOk, Unresolved;
      PartsInside(environment, State(), universe, reference);
      ghost var a := State();
      ConsistentShaped(environment, a);
      var parts: Result<seq<TypeRef>, LowerError>;
      parts, more := EnsureAll(Parts(ty), pending, {reference}, universe);
      ghost var b := State();
      assert b.owner[reference] == ty && b.nodes[reference].None?;
      OwnerComposite(environment, b, reference);
      if parts.Err? { return Err(parts.error), more; }
      var supported := Supported(ty);
      if supported.Err? { return supported, more; }
      PartsCounted(environment, b, Parts(ty), parts.value);
      ConsistentShaped(environment, b);
      nodes := nodes[reference := Some(Assemble(ty, parts.value))];
      refs := refs[reference := parts.value];
      assert State() == WithNode(b, reference, parts.value);
      FillNode(environment, b, reference, parts.value, more);
      r := Ok(());
      ExtendsTransitive(a, b, State());
      SameOwners(b, State(), universe);
    }

    method DrainPending(pending: Pending, ghost universe: set<Type>) returns (r: Result<(), LowerError>)
      requires Consistent(environment, State()) && Covers(State(), pending, {})
      requires ClosedTypes(environment, universe) && Inside(State(), universe)
      modifies this
      ensures Extends(old(State()), State()) && Inside(State(), universe) && Consistent(environment, State())
      ensures r.Ok? ==> Covers(State(), [], {})
      ensures r.Err? ==> Unlowerable(environment, State(), universe, r.error)
    {
      hide Consistent, Unowned, Terminal, ClosedTypes, Inside, Unlowerable, Extends;
      var stack := pending;
      ghost var a := State();
      ExtendsItself(a);
      while stack != []
        invariant Consistent(environment, State()) && Covers(State(), stack, {}) && Inside(State(), universe)
        invariant Extends(a, State())
        decreases Unowned(State(), universe), |stack|
      {
        var (reference, ty) := stack[|stack| - 1];
        var rest := stack[..|stack| - 1];
        PopCovers(environment, State(), stack);
        ghost var b := State();
        if nodes[reference].None? {
          var filled;
          filled, rest := FillOne(reference, ty, rest, universe);
          ExtendsTransitive(a, b, State());
          if filled.Err? { return filled; }
        }
        stack := rest;
      }
      r := Ok(());
    }

    /** The node of a type, with every node it needs filled in. */
    method LowerType(ty: Type, ghost universe: set<Type>) returns (r: Result<TypeRef, LowerError>)
      requires Consistent(environment, State()) && Covers(State(), [], {})
      requires ClosedTypes(environment, universe) && Inside(State(), universe) && (ty.VarT? || ty in universe)
      modifies this
      ensures Extends(old(State()), State()) && Inside(State(), universe) && Consistent(environment, State())
      ensures r.Ok? ==> Covers(State(), [], {}) && PartOk(environment, State(), ty, r.value)
      ensures r.Err? ==>
                || Unresolved(environment, State(), universe, [ty], r.error)
                || Unlowerable(environment, State(), universe, r.error)
    {
      hide Consistent, Covers, Inside, Unowned, Terminal, ClosedTypes, Denotation, Extends, Unlowerable, PartOk;
      ghost var a := State();
      var pending;
      r, pending := EnsureType(ty, [], {}, universe);
      if r.Err? {
        assert [ty][0] == ty;
        return;
      }
      ghost var b := State();
      var drained := DrainPending(pending, universe);
      ExtendsTransitive(a, b, State());
      if drained.Err? { return Err(drained.error); }
      PartExtends(environment, b, State(), ty, r.value);
    }

    /** The node of a declared name. */
    method LowerNamed(name: Bytes.Text, ghost universe: set<Type>) returns (r: Result<TypeRef, LowerError>)
      requires Consistent(environment, State()) && Covers(State(), [], {})
      requires ClosedTypes(environment, universe) && Inside(State(), universe)
      modifies this
      ensures Extends(old(State()), State()) && Inside(State(), universe) && Consistent(environment, State())
      ensures r.Ok? ==> Covers(State(), [], {}) && PartOk(environment, State(), VarT(name), r.value)
      ensures r.Err? ==>
                || Unresolved(environment, State(), universe, [VarT(name)], r.error)
                || Unlowerable(environment, State(), universe, r.error)
    {
      hide Consistent, Covers, Inside, Unowned, Terminal, ClosedTypes, Denotation, Extends, Unlowerable, PartOk;
      ghost var a := State();
      var pending;
      r, pending := EnsureNamed(name, [], {}, universe);
      if r.Err? {
        assert [VarT(name)][0] == VarT(name);
        return;
      }
      ghost var b := State();
      var drained := DrainPending(pending, universe);
      ExtendsTransitive(a, b, State());
      if drained.Err? { return Err(drained.error); }
      PartExtends(environment, b, State(), VarT(name), r.value);
    }
  }

  lemma OwnerComposite(env: Environment, a: Arena, r: nat)
    requires Consistent(env, a) && r < |a.owner| && !a.owner[r].PrimT?
    ensures Composite(a.owner[r])
  {
  }

  lemma ComposedUnowned(a: Arena, t: Type, universe: set<Type>)
    requires Shaped(a) && Owned(a) && |a.nodes| >= U32_LIMIT && Composite(t) && t !in a.comps && t in universe
    ensures Full(a, universe)
  {
    assert t !in a.owner;
  }

  lemma PrimUnowned(a: Arena, t: Type, universe: set<Type>)
    requires Shaped(a) && Owned(a) && |a.nodes| >= U32_LIMIT && t.PrimT? && t.primitive !in a.prims && t in universe
    ensures Full(a, universe)
  {
    assert t !in a.owner;
  }

  lemma ConsistentShaped(env: Environment, a: Arena)
    requires Consistent(env, a)
    ensures Shaped(a)
  {
  }

  lemma TerminalMoves(env: Environment, name: Bytes.Text)
    requires Terminal(env, name, {}).Ok? && Terminal(env, name, {}).value != name
    ensures name in env && env[name].VarT?
  {
  }

  lemma ExtendsItself(a: Arena)
    ensures Extends(a, a)
  {
  }

  lemma SameOwners(a: Arena, b: Arena, universe: set<Type>)
    requires a.owner == b.owner
    ensures Unowned(a, universe) == Unowned(b, universe)
  {
  }

  lemma PartsCounted(env: Environment, a: Arena, types: seq<Type>, refs: seq<TypeRef>)
    requires PartsOk(env, a, types, refs)
    ensures |refs| == |types|
  {
  }

  lemma PartsExtendGrown(env: Environment, a: Arena, b: Arena, types: seq<Type>, refs: seq<TypeRef>)
    requires PartsOk(env, a, types, refs) && Grows(a, b)
    ensures PartsOk(env, b, types, refs)
  {
    PartsExtend(env, a, b, types, refs);
  }

  lemma PartsInside(env: Environment, a: Arena, universe: set<Type>, r: nat)
    requires ClosedTypes(env, universe) && Inside(a, universe) && r < |a.owner|
    ensures forall t :: t in Parts(a.owner[r]) ==> t in universe
  {
  }

  /** Popping the last entry: it is a reserved composite node, and the rest
      covers everything else. */
  lemma PopCovers(env: Environment, a: Arena, stack: Pending)
    requires Consistent(env, a) && Covers(a, stack, {}) && stack != []
    ensures var (r, t) := stack[|stack| - 1];
            && r < |a.owner| == |a.nodes| && a.owner[r] == t && Composite(t)
            && Covers(a, stack[..|stack| - 1], {r})
            && (a.nodes[r].Some? ==> Covers(a, stack[..|stack| - 1], {}))
  {
    var last, rest := stack[|stack| - 1], stack[..|stack| - 1];
    assert last in stack;
    assert forall x :: x in stack <==> x == last || x in rest;
  }
}
