/** What can be wrong with a checked environment, stated on its types alone, and
    how it shows in the arena: every refusal of lowering comes from a defect,
    and an arena that was finished has none. */
module Defects {
  import opened Bytes
  import opened Counting
  import opened Sorting
  import opened Wrappers
  import opened TypeGraph
  import opened Walks
  import opened CandidTypes
  import opened AliasWalks
  import opened ArenaSteps
  import opened Lowering
  import opened OptCycles

  // ----- defects -----

  /** The types that need a node: those that occur, names apart. */
  ghost function NodeTypes(env: Environment, ty: Option<Type>): set<Type> {
    set t | t in Occurring(env, ty) && !t.VarT?
  }

  /** The types that are looked up: those that occur, and every declared name. */
  ghost predicate Mentioned(env: Environment, names: seq<Bytes.Text>, ty: Option<Type>, t: Type) {
    t in Occurring(env, ty) || (t.VarT? && t.name in names)
  }

  ghost predicate OptStep(env: Environment, t: Type, u: Type) { t.OptT? && Denotation(env, t.inner) == Ok(u) }

  /** Unwrapping `opt` leads from the first type back to it. */
  ghost predicate OptLoop(env: Environment, p: seq<Type>) {
    |p| >= 2 && p[0] == p[|p| - 1] && forall i :: 0 <= i < |p| - 1 ==> OptStep(env, p[i], p[i + 1])
  }

  ghost predicate LoopsFrom(env: Environment, t: Type) {
    exists p :: OptLoop(env, p) && Denotation(env, t) == Ok(p[0])
  }

  /** The input has the defect an error names. */
  ghost predicate Defect(env: Environment, names: seq<Bytes.Text>, ty: Option<Type>, e: LowerError) {
    match e
    case UnboundName(n) => exists t :: Mentioned(env, names, ty, t) && Unnamed(env, t, n)
    case AliasCycle(n) => exists t :: Mentioned(env, names, ty, t) && Circular(env, t, n)
    case TooManyModes => exists t :: t in NodeTypes(env, ty) && t.FuncT? && |t.modes| > 1
    case UnsupportedType => OtherT in NodeTypes(env, ty)
    case ArenaFull => |NodeTypes(env, ty)| > U32_LIMIT
    case NotAnActor =>
      ty.Some? && Denotation(env, ty.value).Ok?
      && !Denotation(env, ty.value).value.ServiceT? && !Denotation(env, ty.value).value.ClassT?
    case OptOnlyCycle(name) => name in names && LoopsFrom(env, VarT(name))
    case UnnamedOptCycle => false
  }

  ghost predicate Sound(env: Environment, names: seq<Bytes.Text>, ty: Option<Type>) {
    forall e :: !Defect(env, names, ty, e)
  }

  // ----- a refusal comes from a defect -----

  lemma OwnersDiffer(a: Arena)
    requires Owned(a)
    ensures NoDuplicates(a.owner)
  {
  }

  lemma OwnersNeedNodes(env: Environment, ty: Option<Type>, a: Arena)
    requires Owned(a) && Inside(a, Occurring(env, ty))
    ensures forall t :: t in a.owner ==> t in NodeTypes(env, ty)
  {
  }

  lemma FullIsDefect(env: Environment, names: seq<Bytes.Text>, ty: Option<Type>, a: Arena)
    requires Owned(a) && Inside(a, Occurring(env, ty)) && Full(a, Occurring(env, ty))
    ensures Defect(env, names, ty, ArenaFull)
  {
    var t :| t in Occurring(env, ty) && !t.VarT? && t !in a.owner;
    OwnersDiffer(a);
    OwnersNeedNodes(env, ty, a);
    hide Owned, Inside, Occurring;
    assert t in NodeTypes(env, ty);
    DistinctWithin(a.owner, NodeTypes(env, ty) - {t});
  }

  lemma UnresolvedIsDefect(env: Environment, names: seq<Bytes.Text>, ty: Option<Type>, a: Arena, types: seq<Type>, e: LowerError)
    requires Owned(a) && Inside(a, Occurring(env, ty)) && Unresolved(env, a, Occurring(env, ty), types, e)
    requires forall t :: t in types ==> Mentioned(env, names, ty, t)
    ensures Defect(env, names, ty, e)
  {
    hide Owned, Inside, Occurring, Full, Denotation, Mentioned;
    if e == ArenaFull && Full(a, Occurring(env, ty)) {
      FullIsDefect(env, names, ty, a);
    } else {
      var i :| 0 <= i < |types| && Denotation(env, types[i]) == Err(e);
      assert types[i] in types;
      NoDenotation(env, types[i], e);
      hide Unnamed, Circular;
    }
  }

  lemma NoDenotation(env: Environment, t: Type, e: LowerError)
    requires Denotation(env, t) == Err(e)
    ensures match e
            case UnboundName(n) => Unnamed(env, t, n)
            case AliasCycle(n) => Circular(env, t, n)
            case _ => false
  {
    match e
    case UnboundName(n) => TypeResolves(env, t, OtherT, n);
    case AliasCycle(n) => TypeResolves(env, t, OtherT, n);
    case _ =>
  }

  /** Which composite types have no node. */
  lemma SupportedIs(t: Type)
    requires Composite(t)
    ensures Supported(t) == Err(TooManyModes) <==> t.FuncT? && |t.modes| > 1
    ensures Supported(t) == Err(UnsupportedType) <==> t == OtherT
    ensures Supported(t).Ok? || Supported(t) == Err(TooManyModes) || Supported(t) == Err(UnsupportedType)
  {
  }

  lemma UnlowerableIsDefect(env: Environment, names: seq<Bytes.Text>, ty: Option<Type>, a: Arena, e: LowerError)
    requires Owned(a) && Inside(a, Occurring(env, ty)) && Unlowerable(env, a, Occurring(env, ty), e)
    requires ClosedTypes(env, Occurring(env, ty))
    ensures Defect(env, names, ty, e)
  {
    hide Owned, Unresolved, Denotation, Occurring;
    var r: nat :| r < |a.owner| && Composite(a.owner[r])
      && (Unresolved(env, a, Occurring(env, ty), Parts(a.owner[r]), e) || Supported(a.owner[r]) == Err(e));
    if Supported(a.owner[r]) == Err(e) {
      SupportedIs(a.owner[r]);
      assert a.owner[r] in NodeTypes(env, ty);
    } else {
      UnresolvedIsDefect(env, names, ty, a, Parts(a.owner[r]), e);
    }
  }

  /** An `opt` edge of the arena is an `opt` step of the types. */
  lemma EdgeIsStep(env: Environment, a: Arena, x: nat, y: nat)
    requires Consistent(env, a) && (x, y) in OptGraph(a.nodes)
    ensures x < |a.owner| && y < |a.owner| && OptStep(env, a.owner[x], a.owner[y])
  {
    assert FilledAt(env, a, x);
    assert PartOk(env, a, Parts(a.owner[x])[0], a.refs[x][0]);
  }

  /** A walk of `opt` edges, read as types. */
  lemma WalkIsLoop(env: Environment, a: Arena, w: seq<nat>) returns (p: seq<Type>)
    requires Consistent(env, a) && Walk(OptGraph(a.nodes), w) && |w| >= 2 && w[0] == w[|w| - 1]
    ensures OptLoop(env, p) && w[0] < |a.owner| && p[0] == a.owner[w[0]]
  {
    hide Consistent, OptStep, OptGraph;
    forall i | 0 <= i < |w| ensures w[i] < |a.owner| {
      if i < |w| - 1 { EdgeIsStep(env, a, w[i], w[i + 1]); } else { EdgeIsStep(env, a, w[i - 1], w[i - 1 + 1]); }
    }
    p := seq(|w|, i requires 0 <= i < |w| => a.owner[w[i]]);
    forall i | 0 <= i < |p| - 1 ensures OptStep(env, p[i], p[i + 1]) { EdgeIsStep(env, a, w[i], w[i + 1]); }
  }

  lemma CycleIsDefect(env: Environment, names: seq<Bytes.Text>, ty: Option<Type>, a: Arena, name: Bytes.Text)
    requires Consistent(env, a) && name in names && NameOnCycle(a.nodes, a.named, name)
    ensures Defect(env, names, ty, OptOnlyCycle(name))
  {
    assert Denotation(env, VarT(name)) == Ok(a.owner[a.named[name]]);
    hide Consistent, Denotation, OptLoop, OptGraph;
    var w :| Walk(OptGraph(a.nodes), w) && |w| >= 2 && w[0] == a.named[name] && w[|w| - 1] == a.named[name];
    var p := WalkIsLoop(env, a, w);
    assert LoopsFrom(env, VarT(name));
  }

  // ----- a finished arena has no defect -----

  /** Everything declared, and the actor, has been lowered. */
  ghost predicate AllLowered(env: Environment, names: seq<Bytes.Text>, ty: Option<Type>, a: Arena) {
    && Consistent(env, a)
    && (forall r :: 0 <= r < |a.nodes| ==> a.nodes[r].Some?)
    && (forall n :: n in env || n in names ==> n in a.named)
    && (ty.Some? ==> exists r: TypeRef :: PartOk(env, a, ty.value, r))
  }

  /** The type has been looked up, and has its node unless it is a name. */
  ghost predicate Met(env: Environment, a: Arena, t: Type) {
    Denotation(env, t).Ok? && (!t.VarT? ==> t in a.owner)
  }

  lemma PartMet(env: Environment, a: Arena, t: Type, r: TypeRef)
    requires PartOk(env, a, t, r)
    ensures Met(env, a, t)
  {
  }

  lemma PartsMet(env: Environment, a: Arena, t: Type, i: nat)
    requires Consistent(env, a) && forall r :: 0 <= r < |a.nodes| ==> a.nodes[r].Some?
    requires Met(env, a, t) && i < |Parts(t)|
    ensures Met(env, a, Parts(t)[i])
  {
    var r: nat :| r < |a.owner| && a.owner[r] == t;
    assert FilledAt(env, a, r);
    hide Consistent, Met;
    PartMet(env, a, Parts(t)[i], a.refs[r][i]);
  }

  lemma {:induction false} SubtermsMet(env: Environment, a: Arena, u: Type, t: Type)
    requires Consistent(env, a) && forall r :: 0 <= r < |a.nodes| ==> a.nodes[r].Some?
    requires Met(env, a, u) && t in Subterms(u)
    ensures Met(env, a, t)
    decreases u
  {
    hide Consistent, Met;
    if t != u {
      var i: nat :| i < |Parts(u)| && t in Subterms(Parts(u)[i]);
      PartIsSmaller(u, i);
      PartsMet(env, a, u, i);
      SubtermsMet(env, a, Parts(u)[i], t);
    }
  }

  lemma NameMet(env: Environment, a: Arena, n: Bytes.Text)
    requires Consistent(env, a) && n in env && forall m :: m in env ==> m in a.named
    ensures Denotation(env, VarT(n)).Ok? && Met(env, a, env[n])
  {
    assert Denotation(env, VarT(n)) == Ok(a.owner[a.named[n]]);
    if env[n].VarT? {
      var m := env[n].name;
      assert Terminal(env, n, {}) == Terminal(env, m, {} + {n});
      assert m in env;
      assert Denotation(env, VarT(m)) == Ok(a.owner[a.named[m]]);
    }
  }

  lemma MentionedMet(env: Environment, names: seq<Bytes.Text>, ty: Option<Type>, a: Arena, t: Type)
    requires AllLowered(env, names, ty, a) && Mentioned(env, names, ty, t)
    ensures Met(env, a, t)
  {
    hide Subterms, Met;
    if t.VarT? && t.name in names {
      PartMet(env, a, t, a.named[t.name]);
    } else if ty.Some? && t in Subterms(ty.value) {
      var r: TypeRef :| PartOk(env, a, ty.value, r);
      PartMet(env, a, ty.value, r);
      SubtermsMet(env, a, ty.value, t);
    } else {
      var n :| n in env && t in Subterms(env[n]);
      NameMet(env, a, n);
      SubtermsMet(env, a, env[n], t);
    }
  }

  /** The arena holds exactly the types that need a node. */
  lemma NodesAreNodeTypes(env: Environment, names: seq<Bytes.Text>, ty: Option<Type>, a: Arena)
    requires AllLowered(env, names, ty, a) && Inside(a, Occurring(env, ty))
    ensures |a.nodes| == |a.owner| == |NodeTypes(env, ty)|
  {
    OwnersDiffer(a);
    OwnersNeedNodes(env, ty, a);
    assert Shaped(a);
    forall t | t in NodeTypes(env, ty) ensures t in MembersOf(a.owner) { MentionedMet(env, names, ty, a, t); }
    hide AllLowered, Inside, NodeTypes;
    DistinctWithin(a.owner, NodeTypes(env, ty));
    SubsetSize(NodeTypes(env, ty), MembersOf(a.owner));
    MembersCount(a.owner);
  }

  /** An `opt` step of the types is an edge of the arena. */
  lemma StepIsEdge(env: Environment, a: Arena, t: Type, u: Type)
    requires Consistent(env, a) && forall r :: 0 <= r < |a.nodes| ==> a.nodes[r].Some?
    requires t in a.owner && OptStep(env, t, u)
    ensures u in a.owner && (IndexOf(a.owner, t), IndexOf(a.owner, u)) in OptGraph(a.nodes)
  {
    var x := IndexOf(a.owner, t);
    assert FilledAt(env, a, x);
    assert PartOk(env, a, Parts(t)[0], a.refs[x][0]);
    OwnersDiffer(a);
    var y := a.refs[x][0];
    IndexOfUnique(a.owner, y);
    hide Consistent, Denotation, PartsOk, PartOk;
    assert a.nodes[x] == Some(Opt(y)) && y < |a.nodes|;
    assert OptTarget(a.nodes, x) == Some(y);
  }

  lemma {:induction false} LoopOwned(env: Environment, a: Arena, p: seq<Type>, i: nat)
    requires Consistent(env, a) && forall r :: 0 <= r < |a.nodes| ==> a.nodes[r].Some?
    requires OptLoop(env, p) && p[0] in a.owner && i < |p|
    ensures p[i] in a.owner
  {
    hide Consistent, OptStep;
    if i > 0 {
      LoopOwned(env, a, p, i - 1);
      assert OptStep(env, p[i - 1], p[i - 1 + 1]);
      StepIsEdge(env, a, p[i - 1], p[i]);
    }
  }

  lemma LoopIsCycle(env: Environment, a: Arena, p: seq<Type>)
    requires Consistent(env, a) && forall r :: 0 <= r < |a.nodes| ==> a.nodes[r].Some?
    requires OptLoop(env, p) && p[0] in a.owner
    ensures IndexOf(a.owner, p[0]) < |a.nodes| && OnCycle(OptGraph(a.nodes), IndexOf(a.owner, p[0]))
  {
    assert Shaped(a);
    hide Consistent, OptStep;
    forall i: nat | i < |p| ensures p[i] in a.owner { LoopOwned(env, a, p, i); }
    var w: seq<nat> := seq(|p|, i requires 0 <= i < |p| => IndexOf(a.owner, p[i]));
    forall i | 0 <= i < |w| - 1 ensures (w[i], w[i + 1]) in OptGraph(a.nodes) {
      assert OptStep(env, p[i], p[i + 1]);
      StepIsEdge(env, a, p[i], p[i + 1]);
    }
    assert Walk(OptGraph(a.nodes), w);
  }

  lemma NeverLoops(env: Environment, names: seq<Bytes.Text>, ty: Option<Type>, a: Arena, name: Bytes.Text)
    requires AllLowered(env, names, ty, a) && Productive(a.nodes) && name in names
    ensures !LoopsFrom(env, VarT(name))
  {
    assert Denotation(env, VarT(name)) == Ok(a.owner[a.named[name]]);
    hide Consistent, Denotation, OptLoop, Productive, OnCycle, OptGraph;
    NoOptCycleIsProductive(a.nodes);
    if LoopsFrom(env, VarT(name)) {
      var p :| OptLoop(env, p) && Denotation(env, VarT(name)) == Ok(p[0]);
      LoopIsCycle(env, a, p);
    }
  }

  /** An arena that was finished, and whose `opt` chains end, shows that the
      input has no defect. */
  lemma LoweredIsSound(env: Environment, names: seq<Bytes.Text>, ty: Option<Type>, a: Arena)
    requires AllLowered(env, names, ty, a) && Inside(a, Occurring(env, ty)) && Productive(a.nodes)
    requires ty.Some? ==> Denotation(env, ty.value).Ok?
                          && (Denotation(env, ty.value).value.ServiceT? || Denotation(env, ty.value).value.ClassT?)
    ensures Sound(env, names, ty)
  {
    hide AllLowered, Denotation, Mentioned, NodeTypes, LoopsFrom, Productive, Inside, Unnamed, Circular, Sound;
    LoweredIsShaped(env, names, ty, a);
    NodesAreNodeTypes(env, names, ty, a);
    NothingUnmet(env, names, ty, a);
    NothingUnsupported(env, names, ty, a);
    NothingLoops(env, names, ty, a);
    NoDefectLeft(env, names, ty);
  }

  lemma NoDefectLeft(env: Environment, names: seq<Bytes.Text>, ty: Option<Type>)
    requires forall t, n :: Mentioned(env, names, ty, t) ==> !Unnamed(env, t, n) && !Circular(env, t, n)
    requires forall t :: t in NodeTypes(env, ty) ==> t != OtherT && !(t.FuncT? && |t.modes| > 1)
    requires |NodeTypes(env, ty)| <= U32_LIMIT
    requires forall name :: name in names ==> !LoopsFrom(env, VarT(name))
    requires ty.Some? ==> Denotation(env, ty.value).Ok?
                          && (Denotation(env, ty.value).value.ServiceT? || Denotation(env, ty.value).value.ClassT?)
    ensures Sound(env, names, ty)
  {
    hide Denotation, Mentioned, NodeTypes, LoopsFrom, Unnamed, Circular, Defect;
    forall e ensures !Defect(env, names, ty, e) { NotADefect(env, names, ty, e); }
  }

  lemma NotADefect(env: Environment, names: seq<Bytes.Text>, ty: Option<Type>, e: LowerError)
    requires forall t, n :: Mentioned(env, names, ty, t) ==> !Unnamed(env, t, n) && !Circular(env, t, n)
    requires forall t :: t in NodeTypes(env, ty) ==> t != OtherT && !(t.FuncT? && |t.modes| > 1)
    requires |NodeTypes(env, ty)| <= U32_LIMIT
    requires forall name :: name in names ==> !LoopsFrom(env, VarT(name))
    requires ty.Some? ==> Denotation(env, ty.value).Ok?
                          && (Denotation(env, ty.value).value.ServiceT? || Denotation(env, ty.value).value.ClassT?)
    ensures !Defect(env, names, ty, e)
  {
    hide Denotation, Mentioned, NodeTypes, LoopsFrom, Unnamed, Circular;
  }

  lemma LoweredIsShaped(env: Environment, names: seq<Bytes.Text>, ty: Option<Type>, a: Arena)
    requires AllLowered(env, names, ty, a)
    ensures |a.nodes| == |a.owner| <= U32_LIMIT
  {
    assert Shaped(a);
  }

  lemma NothingLoops(env: Environment, names: seq<Bytes.Text>, ty: Option<Type>, a: Arena)
    requires AllLowered(env, names, ty, a) && Productive(a.nodes)
    ensures forall name :: name in names ==> !LoopsFrom(env, VarT(name))
  {
    hide AllLowered, Productive, LoopsFrom;
    forall name | name in names ensures !LoopsFrom(env, VarT(name)) { NeverLoops(env, names, ty, a, name); }
  }

  lemma NothingUnmet(env: Environment, names: seq<Bytes.Text>, ty: Option<Type>, a: Arena)
    requires AllLowered(env, names, ty, a)
    ensures forall t, n :: Mentioned(env, names, ty, t) ==> !Unnamed(env, t, n) && !Circular(env, t, n)
  {
    forall t, n | Mentioned(env, names, ty, t) ensures !Unnamed(env, t, n) && !Circular(env, t, n) {
      MentionedMet(env, names, ty, a, t);
      TypeResolves(env, t, OtherT, n);
    }
  }

  lemma NothingUnsupported(env: Environment, names: seq<Bytes.Text>, ty: Option<Type>, a: Arena)
    requires AllLowered(env, names, ty, a)
    ensures forall t :: t in NodeTypes(env, ty) ==> t != OtherT && !(t.FuncT? && |t.modes| > 1)
  {
    forall t | t in NodeTypes(env, ty) && Composite(t) ensures t != OtherT && !(t.FuncT? && |t.modes| > 1) {
      SupportedIs(t);
      MentionedMet(env, names, ty, a, t);
      var r: nat :| r < |a.owner| && a.owner[r] == t;
      assert FilledAt(env, a, r);
    }
  }
}
