/** Lowering a checked environment to a Contract: every declaration in name
    order, then the actor, then the refusal of `opt`-only cycles. It succeeds
    exactly on the environments without a defect. */
module Compiling {
  import opened Bytes
  import opened Wrappers
  import opened TypeGraph
  import opened CandidTypes
  import opened ArenaSteps
  import opened Lowering
  import opened OptCycles
  import opened NamedCycles
  import opened Defects

  /** Every node of the arena is filled, and the contract holds them. */
  ghost predicate Finished(env: Environment, a: Arena, types: Types) {
    && Consistent(env, a) && |types| == |a.nodes|
    && forall r: nat :: r < |types| ==> a.nodes[r] == Some(types[r])
  }

  /** The contract lists the node of every declared name, in name order. */
  ghost predicate DeclaresAll(a: Arena, names: seq<Bytes.Text>, declarations: seq<Declaration>) {
    && |declarations| == |names|
    && forall i :: 0 <= i < |names| ==>
         names[i] in a.named && declarations[i] == Declaration(names[i], a.named[names[i]])
  }

  function DeclarationsOf(names: seq<Bytes.Text>, named: map<Bytes.Text, TypeRef>): (r: seq<Declaration>)
    requires forall n :: n in names ==> n in named
    ensures |r| == |names|
    ensures forall i :: 0 <= i < |names| ==> names[i] in named && r[i] == Declaration(names[i], named[names[i]])
  {
    seq(|names|, i requires 0 <= i < |names| => assert names[i] in names; Declaration(names[i], named[names[i]]))
  }

  ghost predicate ActorOf(env: Environment, a: Arena, types: Types, ty: Option<Type>, actor: Option<Actor>) {
    match actor
    case None => ty.None?
    case Some(ServiceActor(r)) => ty.Some? && PartOk(env, a, ty.value, r) && r < |types| && types[r].Service?
    case Some(ClassActor(r)) => ty.Some? && PartOk(env, a, ty.value, r) && r < |types| && types[r].Class?
  }

  ghost predicate LoweredFrom(env: Environment, names: seq<Bytes.Text>, ty: Option<Type>, a: Arena, c: Contract) {
    && Finished(env, a, c.types)
    && DeclaresAll(a, names, c.declarations)
    && ActorOf(env, a, c.types, ty, c.actor)
  }

  ghost predicate ListsNames(env: Environment, names: seq<Bytes.Text>) {
    forall n :: n in names <==> n in env
  }

  lemma NamedAreDeclared(env: Environment, a: Arena, names: seq<Bytes.Text>)
    requires Consistent(env, a) && ListsNames(env, names)
    requires forall n :: n in names ==> n in a.named
    ensures forall n :: n in names <==> n in a.named
    ensures forall n :: n in a.named ==> a.named[n] < |a.nodes|
  {
    forall n | n in a.named ensures n in env {
      assert Denotation(env, VarT(n)).Ok?;
    }
  }

  lemma OccurringClosed(env: Environment, actor: Option<Type>)
    ensures ClosedTypes(env, Occurring(env, actor))
    ensures actor.Some? ==> actor.value in Occurring(env, actor)
  {
    var all := Occurring(env, actor);
    forall n | n in env ensures env[n] in all { assert env[n] in Subterms(env[n]); }
    forall t, i | t in all && 0 <= i < |Parts(t)| ensures Parts(t)[i] in all {
      if actor.Some? && t in Subterms(actor.value) {
        SubtermParts(actor.value, t, i);
      } else {
        var n :| n in env && t in Subterms(env[n]);
        SubtermParts(env[n], t, i);
      }
    }
  }

  lemma EmptyInside(a: Arena, universe: set<Type>)
    requires a.owner == []
    ensures Inside(a, universe)
  {
  }

  lemma ExtendsNames(a: Arena, b: Arena)
    requires Extends(a, b)
    ensures forall n :: n in a.named ==> n in b.named
  {
  }

  lemma PartNamed(env: Environment, a: Arena, name: Bytes.Text, r: TypeRef)
    requires PartOk(env, a, VarT(name), r)
    ensures name in a.named && a.named[name] == r
  {
  }

  lemma AllFilled(env: Environment, a: Arena)
    requires Consistent(env, a) && Covers(a, [], {})
    ensures |a.nodes| == |a.owner| && forall r :: 0 <= r < |a.nodes| ==> a.nodes[r].Some?
  {
  }

  /** The actor's node shows what kind of type the actor is. */
  lemma ActorKind(env: Environment, a: Arena, ty: Type, r: TypeRef)
    requires Consistent(env, a) && PartOk(env, a, ty, r) && r < |a.nodes| && a.nodes[r].Some?
    ensures r < |a.nodes| && Denotation(env, ty).Ok?
    ensures a.nodes[r].value.Service? <==> Denotation(env, ty).value.ServiceT?
    ensures a.nodes[r].value.Class? <==> Denotation(env, ty).value.ClassT?
  {
    assert FilledAt(env, a, r);
  }

  lemma NeverUnnamed(env: Environment, a: Arena)
    requires Consistent(env, a) && forall name :: !NameOnCycle(a.nodes, a.named, name)
    ensures Productive(a.nodes)
  {
    NoOptCycleIsProductive(a.nodes);
    forall v: nat | v < |a.nodes| ensures !Walks.OnCycle(OptGraph(a.nodes), v) {
      if Walks.OnCycle(OptGraph(a.nodes), v) { OptCycleIsNamed(env, a, v); }
    }
  }

  /** The nodes of a drained arena. */
  function Contents(nodes: Nodes): (types: Types)
    requires forall r :: 0 <= r < |nodes| ==> nodes[r].Some?
    ensures |types| == |nodes| && forall r :: 0 <= r < |nodes| ==> nodes[r] == Some(types[r])
  { seq(|nodes|, r requires 0 <= r < |nodes| => nodes[r].value) }

  /** The contract is the finished arena of the declared types: no node stands
      for a type that does not occur, and unwrapping `opt` always ends. */
  ghost predicate Lowered(env: Environment, names: seq<Bytes.Text>, ty: Option<Type>, c: Contract) {
    exists a :: LoweredFrom(env, names, ty, a, c) && Inside(a, Occurring(env, ty)) && Productive(a.nodes)
  }

  /** What was lowered so far, once every name and the actor has been. */
  lemma FinishedArena(env: Environment, names: seq<Bytes.Text>, ty: Option<Type>, a: Arena)
    requires Consistent(env, a) && Covers(a, [], {}) && ListsNames(env, names)
    requires forall n :: n in names ==> n in a.named
    requires ty.Some? ==> exists r: TypeRef :: PartOk(env, a, ty.value, r)
    ensures AllLowered(env, names, ty, a)
  {
    AllFilled(env, a);
  }

  lemma ActorResolves(env: Environment, a: Arena, types: Types, ty: Option<Type>, actor: Option<Actor>)
    requires Finished(env, a, types) && ActorOf(env, a, types, ty, actor) && ty.Some?
    ensures exists r: TypeRef :: PartOk(env, a, ty.value, r)
    ensures Denotation(env, ty.value).Ok?
            && (Denotation(env, ty.value).value.ServiceT? || Denotation(env, ty.value).value.ClassT?)
  {
    hide Consistent, Denotation;
    ActorKind(env, a, ty.value, actor.value.target);
  }

  /** The finished contract, and what it shows of the input. */
  lemma Delivered(env: Environment, names: seq<Bytes.Text>, ty: Option<Type>, a: Arena, c: Contract)
    requires LoweredFrom(env, names, ty, a, c) && Covers(a, [], {}) && ListsNames(env, names)
    requires Inside(a, Occurring(env, ty)) && Productive(a.nodes) && forall n :: n in names ==> n in a.named
    ensures Lowered(env, names, ty, c) && |c.types| == |NodeTypes(env, ty)| && Sound(env, names, ty)
  {
    hide Consistent, Covers, Inside, Occurring, Productive, Denotation, DeclaresAll, AllLowered, NodeTypes, Sound, PartOk, ActorOf;
    if ty.Some? { ActorResolves(env, a, c.types, ty, c.actor); }
    FinishedArena(env, names, ty, a);
    NodesAreNodeTypes(env, names, ty, a);
    LoweredIsSound(env, names, ty, a);
  }

  lemma NamesMentioned(env: Environment, names: seq<Bytes.Text>, ty: Option<Type>)
    ensures forall n :: n in names ==> Mentioned(env, names, ty, VarT(n))
    ensures ty.Some? ==> Mentioned(env, names, ty, ty.value)
  {
    OccurringClosed(env, ty);
  }

  /** Lowering one listed type failed because of a defect. */
  lemma FailedIsDefect(env: Environment, names: seq<Bytes.Text>, ty: Option<Type>, a: Arena, t: Type, e: LowerError)
    requires Consistent(env, a) && Inside(a, Occurring(env, ty)) && Mentioned(env, names, ty, t)
    requires Unresolved(env, a, Occurring(env, ty), [t], e) || Unlowerable(env, a, Occurring(env, ty), e)
    ensures Defect(env, names, ty, e) && !Sound(env, names, ty)
  {
    hide Inside, Occurring, Mentioned, Defect, Unlowerable, Unresolved;
    OccurringClosed(env, ty);
    if Unlowerable(env, a, Occurring(env, ty), e) {
      UnlowerableIsDefect(env, names, ty, a, e);
    } else {
      UnresolvedIsDefect(env, names, ty, a, [t], e);
    }
  }

  /** The actor's type, which must be a service or a class. */
  method LowerActor(lowerer: Lowerer, ghost names: seq<Bytes.Text>, t: Type) returns (r: Result<Actor, LowerError>)
    requires Consistent(lowerer.environment, lowerer.State()) && Covers(lowerer.State(), [], {})
    requires Inside(lowerer.State(), Occurring(lowerer.environment, Some(t)))
    modifies lowerer
    ensures Extends(old(lowerer.State()), lowerer.State())
    ensures Inside(lowerer.State(), Occurring(lowerer.environment, Some(t)))
    ensures r.Ok? ==>
              && Consistent(lowerer.environment, lowerer.State()) && Covers(lowerer.State(), [], {})
              && PartOk(lowerer.environment, lowerer.State(), t, r.value.target)
              && IsActorNode(lowerer.nodes, r.value)
    ensures r.Err? ==>
              Defect(lowerer.environment, names, Some(t), r.error) && !Sound(lowerer.environment, names, Some(t))
  {
    hide Consistent, Covers, Inside, ClosedTypes, Denotation, Extends, Unlowerable, Unresolved, Occurring, Mentioned, Sound,
         Defect, PartOk;
    ghost var env := lowerer.environment;
    OccurringClosed(env, Some(t));
    NamesMentioned(env, names, Some(t));
    var reference := lowerer.LowerType(t, Occurring(env, Some(t)));
    if reference.Err? {
      FailedIsDefect(env, names, Some(t), lowerer.State(), t, reference.error);
      return Err(reference.error);
    }
    AllFilled(env, lowerer.State());
    PartInRange(env, lowerer.State(), t, reference.value);
    ActorKind(env, lowerer.State(), t, reference.value);
    match lowerer.nodes[reference.value].value {
      case Service(_) => r := Ok(ServiceActor(reference.value));
      case Class(_, _) => r := Ok(ClassActor(reference.value));
      case _ =>
        NoActor(env, names, Some(t));
        r := Err(NotAnActor);
    }
  }

  predicate IsActorNode(nodes: Nodes, actor: Actor) {
    && actor.target < |nodes| && nodes[actor.target].Some?
    && (actor.ServiceActor? ==> nodes[actor.target].value.Service?)
    && (actor.ClassActor? ==> nodes[actor.target].value.Class?)
  }

  lemma PartInRange(env: Environment, a: Arena, t: Type, r: TypeRef)
    requires PartOk(env, a, t, r)
    ensures r < |a.owner|
  {
  }

  /** `lower_checked` up to validation: `names` are the declared names in order.
      An error names a defect of the input, and an input without one is lowered,
      to one node for every type that needs one. */
  method LowerChecked(env: Environment, names: seq<Bytes.Text>, ty: Option<Type>)
    returns (r: Result<Contract, LowerError>)
    requires ListsNames(env, names)
    ensures r.Ok? ==> Lowered(env, names, ty, r.value) && |r.value.types| == |NodeTypes(env, ty)|
    ensures r.Err? ==> Defect(env, names, ty, r.error)
    ensures r.Ok? <==> Sound(env, names, ty)
  {
    hide Consistent, Covers, Inside, ClosedTypes, Denotation, Extends, Unlowerable, Unresolved, Occurring, Productive;
    hide Mentioned, Sound, NodeTypes, Defect, AllLowered, Lowered;
    ghost var a: Arena;
    ghost var universe := Occurring(env, ty);
    OccurringClosed(env, ty);
    NamesMentioned(env, names, ty);
    var lowerer := new Lowerer(env);
    EmptyInside(lowerer.State(), universe);
    for i := 0 to |names|
      invariant lowerer.environment == env
      invariant Consistent(env, lowerer.State()) && Covers(lowerer.State(), [], {}) && Inside(lowerer.State(), universe)
      invariant forall j :: 0 <= j < i ==> names[j] in lowerer.State().named
    {
      ghost var before := lowerer.State();
      var reference := lowerer.LowerNamed(names[i], universe);
      a := lowerer.State();
      if reference.Err? {
        assert names[i] in names;
        FailedIsDefect(env, names, ty, a, VarT(names[i]), reference.error);
        return Err(reference.error);
      }
      ExtendsNames(before, a);
      PartNamed(env, a, names[i], reference.value);
    }
    var actor: Option<Actor> := None;
    if ty.Some? {
      ghost var before := lowerer.State();
      var lowered := LowerActor(lowerer, names, ty.value);
      if lowered.Err? { return Err(lowered.error); }
      ExtendsNames(before, lowerer.State());
      actor := Some(lowered.value);
    }
    a := lowerer.State();
    AllFilled(env, a);
    NamedAreDeclared(env, a, names);
    var productive := RefuseOptOnlyCycles(lowerer.nodes, lowerer.namedRefs, names);
    if productive.Err? {
      if productive.error.UnnamedOptCycle? { NeverUnnamed(env, a); }
      Endless(env, names, ty, a, productive.error.name);
      return Err(productive.error);
    }
    var types := Contents(lowerer.nodes);
    r := Ok(Contract(types, DeclarationsOf(names, lowerer.namedRefs), actor));
    Delivered(env, names, ty, a, r.value);
  }

  lemma NoActor(env: Environment, names: seq<Bytes.Text>, ty: Option<Type>)
    requires ty.Some? && Denotation(env, ty.value).Ok?
    requires !Denotation(env, ty.value).value.ServiceT? && !Denotation(env, ty.value).value.ClassT?
    ensures Defect(env, names, ty, NotAnActor) && !Sound(env, names, ty)
  {
    hide Denotation;
  }

  lemma Endless(env: Environment, names: seq<Bytes.Text>, ty: Option<Type>, a: Arena, name: Bytes.Text)
    requires Consistent(env, a) && name in names && NameOnCycle(a.nodes, a.named, name)
    ensures Defect(env, names, ty, OptOnlyCycle(name)) && !Sound(env, names, ty)
  {
    CycleIsDefect(env, names, ty, a, name);
    hide Defect;
  }
}
