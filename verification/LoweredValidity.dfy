/** When the lowered contract is structurally valid: exactly when the checked
    types keep the rules of Contracts, stated on the types. Validation after
    lowering then never fails, and identity follows from the source alone. */
module LoweredValidity {
  import opened Bytes
  import opened Sorting
  import opened Wrappers
  import opened TypeGraph
  import opened CandidTypes
  import opened ArenaSteps
  import opened Compiling
  import opened Defects
  import opened NamedCycles
  import opened LoweredMeaning
  import opened CanonicalForm
  import OptCycles

  // ----- the rules, on types -----

  ghost predicate DistinctFields(fields: seq<TypeField>) {
    forall i, j :: 0 <= i < j < |fields| ==> fields[i].id != fields[j].id
  }

  ghost predicate DistinctMethods(methods: seq<TypeMethod>) {
    forall i, j :: 0 <= i < j < |methods| ==> methods[i].name != methods[j].name
  }

  /** What a type must meet on its own. */
  ghost predicate TypeRules(t: Type) {
    match t
    case RecordT(fields) => DistinctFields(fields) && |fields| < U32_LIMIT
    case VariantT(fields) => DistinctFields(fields) && |fields| < U32_LIMIT
    case FuncT(args, rets, modes) => |args| < U32_LIMIT && |rets| < U32_LIMIT && (modes == [Oneway] ==> rets == [])
    case ServiceT(methods) =>
      && DistinctMethods(methods) && |methods| < U32_LIMIT
      && forall i :: 0 <= i < |methods| ==> methods[i].name != [] && |methods[i].name| < U32_LIMIT
    case ClassT(init, _) => |init| < U32_LIMIT
    case _ => true
  }

  ghost predicate StandsForClass(env: Environment, t: Type) {
    Denotation(env, t).Ok? && Denotation(env, t).value.ClassT?
  }

  /** No part is a class, methods are functions, and a class makes a service. */
  ghost predicate PartRules(env: Environment, t: Type) {
    && (forall i :: 0 <= i < |Parts(t)| ==> !StandsForClass(env, Parts(t)[i]))
    && (t.ServiceT? ==>
          forall i :: 0 <= i < |Parts(t)| ==>
            Denotation(env, Parts(t)[i]).Ok? ==> Denotation(env, Parts(t)[i]).value.FuncT?)
    && (t.ClassT? && Denotation(env, t.service).Ok? ==> Denotation(env, t.service).value.ServiceT?)
  }

  ghost predicate NameRules(env: Environment, names: seq<Bytes.Text>) {
    NoDuplicates(names) && forall n :: n in names ==> n != [] && !StandsForClass(env, VarT(n))
  }

  /** The rules a checked environment keeps: classes only as the actor. */
  ghost predicate WellChecked(env: Environment, names: seq<Bytes.Text>, ty: Option<Type>) {
    && NameRules(env, names)
    && forall t :: t in NodeTypes(env, ty) ==>
         TypeRules(t) && PartRules(env, t) && (t.ClassT? ==> IsActorType(env, ty, t))
  }

  ghost predicate IsActorType(env: Environment, ty: Option<Type>, t: Type) {
    ty.Some? && Denotation(env, ty.value) == Ok(t)
  }

  // ----- one node -----

  lemma FieldsPermute(a: seq<Field>, b: seq<Field>)
    requires multiset(a) == multiset(b) && DistinctIds(a)
    ensures DistinctIds(b)
  {
    assert NoDuplicates(a);
    CountsKeepNoDuplicates(a, b);
    forall i, j | 0 <= i < j < |b| ensures b[i].id != b[j].id {
      assert b[i] in multiset(a) && b[j] in multiset(a);
      var k :| 0 <= k < |a| && a[k] == b[i];
      var l :| 0 <= l < |a| && a[l] == b[j];
    }
  }

  lemma MethodsPermute(a: seq<ServiceMethod>, b: seq<ServiceMethod>)
    requires multiset(a) == multiset(b) && DistinctNames(a)
    ensures DistinctNames(b)
  {
    assert NoDuplicates(a);
    CountsKeepNoDuplicates(a, b);
    forall i, j | 0 <= i < j < |b| ensures b[i].name != b[j].name {
      assert b[i] in multiset(a) && b[j] in multiset(a);
      var k :| 0 <= k < |a| && a[k] == b[i];
      var l :| 0 <= l < |a| && a[l] == b[j];
    }
  }

  lemma FieldRules(fields: seq<TypeField>, refs: seq<TypeRef>)
    requires |refs| == |fields|
    ensures var sorted := Sort(FieldLe, LoweredFields(fields, refs));
            |sorted| == |fields| && (DistinctIds(sorted) <==> DistinctFields(fields))
  {
    var listed := LoweredFields(fields, refs);
    FieldOrder();
    SortSorts(FieldLe, listed);
    if DistinctIds(listed) { FieldsPermute(listed, Sort(FieldLe, listed)); }
    if DistinctIds(Sort(FieldLe, listed)) { FieldsPermute(Sort(FieldLe, listed), listed); }
    assert DistinctIds(listed) <==> DistinctFields(fields);
  }

  lemma MethodRules(methods: seq<TypeMethod>, refs: seq<TypeRef>)
    requires |refs| == |methods|
    ensures var sorted := Sort(MethodLe, LoweredMethods(methods, refs));
            && |sorted| == |methods| && (DistinctNames(sorted) <==> DistinctMethods(methods))
            && ((forall m :: m in sorted ==> m.name != [] && |m.name| < U32_LIMIT && m.id == NameHash(m.name))
                <==> forall i :: 0 <= i < |methods| ==> methods[i].name != [] && |methods[i].name| < U32_LIMIT)
  {
    var listed := LoweredMethods(methods, refs);
    var sorted := Sort(MethodLe, listed);
    MethodOrder();
    SortSorts(MethodLe, listed);
    SortedMethodMembers(listed);
    if DistinctNames(listed) { MethodsPermute(listed, sorted); }
    if DistinctNames(sorted) { MethodsPermute(sorted, listed); }
    assert DistinctNames(listed) <==> DistinctMethods(methods);
    forall i | 0 <= i < |methods| ensures listed[i] in sorted { assert listed[i] in listed; }
  }

  /** A node keeps the local rules exactly when its type does. */
  lemma AssembledRules(t: Type, refs: seq<TypeRef>)
    requires Supported(t).Ok? && |refs| == |Parts(t)|
    ensures ValidLocally(Assemble(t, refs)) <==> TypeRules(t)
  {
    hide Sort, DistinctIds, DistinctNames, DistinctFields, DistinctMethods;
    match t
    case RecordT(fields) => FieldRules(fields, refs);
    case VariantT(fields) => FieldRules(fields, refs);
    case ServiceT(methods) => MethodRules(methods, refs);
    case _ =>
  }

  /** Every part's node is a reference of the node. */
  lemma RefsAssembled(t: Type, refs: seq<TypeRef>, i: nat)
    requires Supported(t).Ok? && |refs| == |Parts(t)| && i < |refs|
    ensures refs[i] in StoredRefs(Assemble(t, refs))
  {
    hide Sort, FieldTypes, MethodFunctions;
    match t
    case RecordT(fields) => FieldListed(LoweredFields(fields, refs), i);
    case VariantT(fields) => FieldListed(LoweredFields(fields, refs), i);
    case ServiceT(methods) => MethodListed(LoweredMethods(methods, refs), i);
    case FuncT(args, _, _) => assert refs == refs[..|args|] + refs[|args|..];
    case ClassT(init, _) => assert refs == refs[..|init|] + [refs[|init|]];
    case _ =>
  }

  lemma FieldListed(listed: seq<Field>, i: nat)
    requires i < |listed|
    ensures listed[i].ty in FieldTypes(Sort(FieldLe, listed))
  {
    SortedFieldMembers(listed);
    assert listed[i] in listed;
    var j :| 0 <= j < |Sort(FieldLe, listed)| && Sort(FieldLe, listed)[j] == listed[i];
    assert FieldTypes(Sort(FieldLe, listed))[j] == listed[i].ty;
  }

  lemma MethodListed(listed: seq<ServiceMethod>, i: nat)
    requires i < |listed|
    ensures listed[i].function_ in MethodFunctions(Sort(MethodLe, listed))
  {
    SortedMethodMembers(listed);
    assert listed[i] in listed;
    var j :| 0 <= j < |Sort(MethodLe, listed)| && Sort(MethodLe, listed)[j] == listed[i];
    assert MethodFunctions(Sort(MethodLe, listed))[j] == listed[i].function_;
  }

  lemma ExactRefs(t: Type, refs: seq<TypeRef>)
    requires Supported(t).Ok? && |refs| == |Parts(t)|
    ensures forall x :: x in StoredRefs(Assemble(t, refs)) <==> x in refs
  {
    hide StoredRefs, Assemble, Supported, Parts;
    forall x ensures x in StoredRefs(Assemble(t, refs)) <==> x in refs {
      if x in StoredRefs(Assemble(t, refs)) { AssembledRefs(t, refs, x); }
      if x in refs {
        var i :| 0 <= i < |refs| && refs[i] == x;
        RefsAssembled(t, refs, i);
      }
    }
  }

  // ----- a node among the others -----

  /** The references of a node are the nodes of its type's parts. */
  ghost predicate HoldsParts(env: Environment, a: Arena, t: Type, refs: seq<TypeRef>, node: TypeNode) {
    && PartsOk(env, a, Parts(t), refs)
    && (forall x :: x in StoredRefs(node) <==> x in refs)
    && (t.ClassT? ==> node.Class? && refs != [] && node.service == refs[|refs| - 1])
    && (ValidLocally(node) <==> TypeRules(t))
  }

  lemma NodeHoldsParts(env: Environment, a: Arena, types: Types, r: nat) returns (refs: seq<TypeRef>)
    requires Finished(env, a, types) && r < |types|
    ensures r < |a.owner| && HoldsParts(env, a, a.owner[r], refs, types[r])
  {
    assert a.nodes[r] == Some(types[r]) && FilledAt(env, a, r);
    var t := a.owner[r];
    hide Consistent, Finished, PartOk, Denotation, TypeRules, ValidLocally;
    if t.PrimT? {
      refs := [];
      PlainRules(t, types[r]);
    } else {
      refs := a.refs[r];
      AssembledRules(t, refs);
      ExactRefs(t, refs);
    }
  }

  lemma PlainRules(t: Type, node: TypeNode)
    requires t.PrimT? && node.Primitive?
    ensures ValidLocally(node) && TypeRules(t) && StoredRefs(node) == []
  {
  }

  /** The node has the kind of what the part stands for. */
  ghost predicate Stands(env: Environment, types: Types, part: Type, x: TypeRef) {
    && x < |types| && Denotation(env, part).Ok?
    && (types[x].Class? <==> Denotation(env, part).value.ClassT?)
    && (types[x].Func? <==> Denotation(env, part).value.FuncT?)
    && (types[x].Service? <==> Denotation(env, part).value.ServiceT?)
  }

  lemma PartStands(env: Environment, a: Arena, types: Types, part: Type, x: TypeRef)
    requires Finished(env, a, types) && PartOk(env, a, part, x)
    ensures Stands(env, types, part, x)
  {
    SameCounts(env, a, types);
    SameKind(env, a, types, x);
    hide Finished;
  }

  /** What a node says of its references is what its type says of its parts. */
  lemma KindRules(env: Environment, types: Types, t: Type, refs: seq<TypeRef>, node: TypeNode)
    requires |refs| == |Parts(t)| && (forall x :: x in StoredRefs(node) <==> x in refs)
    requires forall i :: 0 <= i < |refs| ==> Stands(env, types, Parts(t)[i], refs[i])
    requires node.Service? <==> t.ServiceT?
    requires node.Class? <==> t.ClassT?
    requires t.ClassT? ==> refs != [] && node.service == refs[|refs| - 1]
    ensures RefsBelow(node, |types|)
    ensures PartRules(env, t) <==>
              && (forall x :: x in StoredRefs(node) && x < |types| ==> !types[x].Class?)
              && (node.Service? ==> forall x :: x in StoredRefs(node) && x < |types| ==> types[x].Func?)
              && (node.Class? ==> node.service < |types| && types[node.service].Service?)
  {
    hide Denotation, StoredRefs, Parts;
    assert forall i :: 0 <= i < |refs| ==> refs[i] in refs;
    if t.ClassT? { LastPart(t); }
  }

  lemma LastPart(t: Type)
    requires t.ClassT?
    ensures Parts(t) != [] && Parts(t)[|Parts(t)| - 1] == t.service
  {
  }

  lemma NodeRules(env: Environment, a: Arena, types: Types, r: nat)
    requires Finished(env, a, types) && r < |types|
    ensures r < |a.owner| && (ValidNode(types, r) <==> TypeRules(a.owner[r]) && PartRules(env, a.owner[r]))
    ensures RefsBelow(types[r], |types|)
  {
    var refs := NodeHoldsParts(env, a, types, r);
    SameKind(env, a, types, r);
    var t := a.owner[r];
    hide Finished, PartOk, Denotation, TypeRules, ValidLocally, StoredRefs, PartRules, RefsBelow, Stands, Parts;
    forall i | 0 <= i < |refs| ensures Stands(env, types, Parts(t)[i], refs[i]) {
      PartStands(env, a, types, Parts(t)[i], refs[i]);
    }
    KindRules(env, types, t, refs, types[r]);
  }

  // ----- everything is reachable -----

  /** The type's node is in the set, if it has one. */
  ghost predicate InSet(a: Arena, s: set<TypeRef>, t: Type) {
    t.VarT? || (t in a.owner && IndexOf(a.owner, t) in s)
  }

  lemma OwnerAt(env: Environment, a: Arena, x: nat)
    requires Consistent(env, a) && x < |a.owner|
    ensures IndexOf(a.owner, a.owner[x]) == x
  {
    OwnersDiffer(a);
    IndexOfUnique(a.owner, x);
  }

  lemma PartsInSet(env: Environment, a: Arena, types: Types, s: set<TypeRef>, t: Type, i: nat)
    requires Finished(env, a, types) && ClosedSet(types, s) && InSet(a, s, t) && i < |Parts(t)|
    ensures InSet(a, s, Parts(t)[i])
  {
    SameCounts(env, a, types);
    var r := IndexOf(a.owner, t);
    var refs := NodeHoldsParts(env, a, types, r);
    assert PartOk(env, a, Parts(t)[i], refs[i]);
    OwnerAt(env, a, refs[i]);
    hide Finished, Consistent;
  }

  lemma {:induction false} SubtermsInSet(env: Environment, a: Arena, types: Types, s: set<TypeRef>, u: Type, t: Type)
    requires Finished(env, a, types) && ClosedSet(types, s) && InSet(a, s, u) && t in Subterms(u)
    ensures InSet(a, s, t)
    decreases u
  {
    hide Finished, InSet, ClosedSet;
    if t != u {
      var i: nat :| i < |Parts(u)| && t in Subterms(Parts(u)[i]);
      PartIsSmaller(u, i);
      PartsInSet(env, a, types, s, u, i);
      SubtermsInSet(env, a, types, s, Parts(u)[i], t);
    }
  }

  lemma RootInSet(env: Environment, a: Arena, s: set<TypeRef>, t: Type, u: Type, r: TypeRef)
    requires Consistent(env, a) && PartOk(env, a, t, r) && r in s && (u == t || (t.VarT? && t.name in env && u == env[t.name]))
    ensures InSet(a, s, u)
  {
    if !u.VarT? {
      assert t.VarT? ==> Terminal(env, t.name, {}) == Ok(t.name);
      OwnerAt(env, a, r);
    }
  }

  lemma DeclaredRoot(names: seq<Bytes.Text>, a: Arena, c: Contract, n: Bytes.Text)
    requires DeclaresAll(a, names, c.declarations) && n in names
    ensures n in a.named && a.named[n] in Roots(c)
  {
    var i :| 0 <= i < |names| && names[i] == n;
    var k := if c.actor.Some? then 1 else 0;
    assert Roots(c)[k + i] == c.declarations[i].ty;
  }

  lemma NamedPart(env: Environment, a: Arena, n: Bytes.Text)
    requires Consistent(env, a) && n in a.named
    ensures PartOk(env, a, VarT(n), a.named[n])
  {
  }

  lemma EveryNodeReachable(env: Environment, names: seq<Bytes.Text>, ty: Option<Type>, a: Arena, c: Contract, r: nat)
    requires LoweredFrom(env, names, ty, a, c) && ListsNames(env, names) && Inside(a, Occurring(env, ty)) && r < |c.types|
    ensures Reachable(c.types, Roots(c), r)
  {
    SameCounts(env, a, c.types);
    hide Subterms;
    var t := a.owner[r];
    OwnerAt(env, a, r);
    forall s: set<TypeRef> | (forall x :: x in Roots(c) ==> x in s) && ClosedSet(c.types, s) ensures r in s {
      if ty.Some? && t in Subterms(ty.value) {
        ActorRoot(env, a, c, ty, s);
        SubtermsInSet(env, a, c.types, s, ty.value, t);
      } else {
        var n :| n in env && t in Subterms(env[n]);
        DeclaredRoot(names, a, c, n);
        NamedPart(env, a, n);
        RootInSet(env, a, s, VarT(n), env[n], a.named[n]);
        SubtermsInSet(env, a, c.types, s, env[n], t);
      }
      OwnerHasNode(env, a, r);
    }
  }

  lemma OwnerHasNode(env: Environment, a: Arena, r: nat)
    requires Consistent(env, a) && r < |a.owner|
    ensures !a.owner[r].VarT?
  {
  }

  lemma ActorRoot(env: Environment, a: Arena, c: Contract, ty: Option<Type>, s: set<TypeRef>)
    requires Finished(env, a, c.types) && ActorOf(env, a, c.types, ty, c.actor) && ty.Some?
    requires forall x :: x in Roots(c) ==> x in s
    ensures InSet(a, s, ty.value)
  {
    var target := c.actor.value.target;
    assert Roots(c)[0] == target;
    RootInSet(env, a, s, ty.value, ty.value, target);
  }

  // ----- the contract -----

  lemma ArenaRules(env: Environment, names: seq<Bytes.Text>, ty: Option<Type>, a: Arena, types: Types)
    requires Finished(env, a, types) && AllLowered(env, names, ty, a) && Inside(a, Occurring(env, ty))
    ensures ValidArena(types) <==> forall t :: t in NodeTypes(env, ty) ==> TypeRules(t) && PartRules(env, t)
  {
    SameCounts(env, a, types);
    OwnersAreNodeTypes(env, names, ty, a);
    hide Finished, AllLowered, Inside, Occurring, NodeTypes, TypeRules, PartRules, ValidNode, RefsBelow;
    forall r: nat | r < |types|
      ensures ValidNode(types, r) <==> TypeRules(a.owner[r]) && PartRules(env, a.owner[r])
      ensures RefsBelow(types[r], |types|)
    {
      NodeRules(env, a, types, r);
    }
    if ValidArena(types) {
      forall t | t in NodeTypes(env, ty) ensures TypeRules(t) && PartRules(env, t) {
        var r: nat :| r < |a.owner| && a.owner[r] == t;
        assert ValidNode(types, r);
      }
    }
    if forall t :: t in NodeTypes(env, ty) ==> TypeRules(t) && PartRules(env, t) {
      forall r: nat | r < |types| ensures ValidNode(types, r) { assert a.owner[r] in a.owner; }
    }
  }

  lemma OwnersAreNodeTypes(env: Environment, names: seq<Bytes.Text>, ty: Option<Type>, a: Arena)
    requires AllLowered(env, names, ty, a) && Inside(a, Occurring(env, ty))
    ensures forall t :: t in a.owner <==> t in NodeTypes(env, ty)
    ensures |a.nodes| == |a.owner| <= U32_LIMIT
  {
    OwnersNeedNodes(env, ty, a);
    forall t | t in NodeTypes(env, ty) ensures t in a.owner { MentionedMet(env, names, ty, a, t); }
  }

  /** What one declaration must meet. */
  lemma DeclarationNode(env: Environment, names: seq<Bytes.Text>, ty: Option<Type>, a: Arena, c: Contract, i: nat)
    requires LoweredFrom(env, names, ty, a, c) && i < |names|
    ensures |c.declarations| == |names| && c.declarations[i].name == names[i] && c.declarations[i].ty < |c.types|
    ensures c.types[c.declarations[i].ty].Class? <==> StandsForClass(env, VarT(names[i]))
  {
    NamedPart(env, a, names[i]);
    PartStands(env, a, c.types, VarT(names[i]), a.named[names[i]]);
  }

  ghost predicate DeclaredAs(env: Environment, types: Types, d: Declaration, n: Bytes.Text) {
    d.name == n && d.ty < |types| && (types[d.ty].Class? <==> StandsForClass(env, VarT(n)))
  }

  lemma DeclaredRules(env: Environment, names: seq<Bytes.Text>, c: Contract)
    requires |c.declarations| == |names|
    requires forall i :: 0 <= i < |names| ==> DeclaredAs(env, c.types, c.declarations[i], names[i])
    ensures ValidDeclarations(c) <==> NameRules(env, names)
  {
    hide StandsForClass;
    var ds := c.declarations;
    if ValidDeclarations(c) {
      forall n | n in names ensures n != [] && !StandsForClass(env, VarT(n)) {
        var i: nat :| i < |names| && names[i] == n;
        assert DeclaredAs(env, c.types, ds[i], names[i]) && ds[i] in ds;
      }
      forall i, j | 0 <= i < j < |names| ensures names[i] != names[j] {
        assert DeclaredAs(env, c.types, ds[i], names[i]) && DeclaredAs(env, c.types, ds[j], names[j]);
      }
    }
    if NameRules(env, names) {
      forall d | d in ds ensures d.name != [] && d.ty < |c.types| && !c.types[d.ty].Class? {
        var i: nat :| i < |ds| && ds[i] == d;
        assert DeclaredAs(env, c.types, ds[i], names[i]) && names[i] in names;
      }
      forall i, j | 0 <= i < j < |ds| ensures ds[i].name != ds[j].name {
        assert DeclaredAs(env, c.types, ds[i], names[i]) && DeclaredAs(env, c.types, ds[j], names[j]);
      }
    }
  }

  lemma DeclarationRules(env: Environment, names: seq<Bytes.Text>, ty: Option<Type>, a: Arena, c: Contract)
    requires LoweredFrom(env, names, ty, a, c)
    ensures ValidDeclarations(c) <==> NameRules(env, names)
  {
    forall i: nat | i < |names| ensures DeclaredAs(env, c.types, c.declarations[i], names[i]) {
      DeclarationNode(env, names, ty, a, c, i);
    }
    hide Finished, DeclaredAs, ActorOf;
    DeclaredRules(env, names, c);
  }

  /** A node is a class exactly when its type is, and then it is the actor
      exactly when its type is the actor's. */
  lemma ClassNode(env: Environment, names: seq<Bytes.Text>, ty: Option<Type>, a: Arena, c: Contract, r: nat)
    requires LoweredFrom(env, names, ty, a, c) && r < |c.types|
    ensures r < |a.owner| && (c.types[r].Class? <==> a.owner[r].ClassT?)
    ensures c.types[r].Class? ==> (c.actor == Some(ClassActor(r)) <==> IsActorType(env, ty, a.owner[r]))
  {
    SameCounts(env, a, c.types);
    SameKind(env, a, c.types, r);
    if ty.Some? && c.types[r].Class? {
      var target := c.actor.value.target;
      if Denotation(env, ty.value) == Ok(a.owner[r]) { SameOwnerSameNode(a, target, r); }
    }
  }

  lemma ClassRules(env: Environment, names: seq<Bytes.Text>, ty: Option<Type>, a: Arena, c: Contract)
    requires LoweredFrom(env, names, ty, a, c) && AllLowered(env, names, ty, a) && Inside(a, Occurring(env, ty))
    ensures (forall i :: 0 <= i < |c.types| && c.types[i].Class? ==> c.actor == Some(ClassActor(i))) <==>
              forall t :: t in NodeTypes(env, ty) && t.ClassT? ==> IsActorType(env, ty, t)
  {
    LoweredFinished(env, names, ty, a, c);
    SameCounts(env, a, c.types);
    OwnersAreNodeTypes(env, names, ty, a);
    hide LoweredFrom, Finished, AllLowered, Inside, Occurring, NodeTypes, IsActorType;
    forall r: nat | r < |c.types|
      ensures c.types[r].Class? <==> a.owner[r].ClassT?
      ensures c.types[r].Class? ==> (c.actor == Some(ClassActor(r)) <==> IsActorType(env, ty, a.owner[r]))
    {
      ClassNode(env, names, ty, a, c, r);
    }
    if forall i :: 0 <= i < |c.types| && c.types[i].Class? ==> c.actor == Some(ClassActor(i)) {
      forall t | t in NodeTypes(env, ty) && t.ClassT? ensures IsActorType(env, ty, t) {
        var r: nat :| r < |a.owner| && a.owner[r] == t;
      }
    }
    if forall t :: t in NodeTypes(env, ty) && t.ClassT? ==> IsActorType(env, ty, t) {
      forall i | 0 <= i < |c.types| && c.types[i].Class? ensures c.actor == Some(ClassActor(i)) {
        assert a.owner[i] in a.owner;
      }
    }
  }

  lemma LoweredNames(env: Environment, names: seq<Bytes.Text>, ty: Option<Type>, a: Arena, c: Contract)
    requires LoweredFrom(env, names, ty, a, c) && ListsNames(env, names)
    ensures AllLowered(env, names, ty, a)
  {
    forall n | n in names ensures n in a.named {
      var i :| 0 <= i < |names| && names[i] == n;
    }
    if ty.Some? { assert PartOk(env, a, ty.value, c.actor.value.target); }
  }

  lemma ActorRules(env: Environment, names: seq<Bytes.Text>, ty: Option<Type>, a: Arena, c: Contract)
    requires LoweredFrom(env, names, ty, a, c)
    ensures ValidActor(c)
  {
  }

  /** The lowered contract is valid exactly when the checked types keep the
      rules; that every node is reachable and every reference in range is never
      in question. */
  lemma LoweredIsValid(env: Environment, names: seq<Bytes.Text>, ty: Option<Type>, c: Contract)
    requires Lowered(env, names, ty, c) && ListsNames(env, names)
    ensures ValidContract(c) <==> WellChecked(env, names, ty)
  {
    hide LoweredFrom, Inside, Occurring, OptCycles.Productive, AllLowered, ValidArena, ValidDeclarations, ValidActor, Reachable,
         NodeTypes, TypeRules, PartRules, NameRules, Denotation;
    var a :| LoweredFrom(env, names, ty, a, c) && Inside(a, Occurring(env, ty)) && OptCycles.Productive(a.nodes);
    LoweredNames(env, names, ty, a, c);
    LoweredFinished(env, names, ty, a, c);
    ArenaRules(env, names, ty, a, c.types);
    DeclarationRules(env, names, ty, a, c);
    ClassRules(env, names, ty, a, c);
    ActorRules(env, names, ty, a, c);
    forall r: nat | r < |c.types| ensures Reachable(c.types, Roots(c), r) {
      EveryNodeReachable(env, names, ty, a, c, r);
    }
  }

  lemma LoweredFinished(env: Environment, names: seq<Bytes.Text>, ty: Option<Type>, a: Arena, c: Contract)
    requires LoweredFrom(env, names, ty, a, c)
    ensures Finished(env, a, c.types)
  {
  }

  /** From source to identity, with nothing assumed of the contracts: the
      canonical Contracts of two well-checked sources are equal exactly when the
      sources declare the same Candid types and actor. */
  lemma IdentityIsSource(env: Environment, names: seq<Bytes.Text>, ty: Option<Type>, c: Contract,
                         env2: Environment, others: seq<Bytes.Text>, uy: Option<Type>, d: Contract)
    requires Lowered(env, names, ty, c) && ListsNames(env, names) && WellChecked(env, names, ty)
    requires Lowered(env2, others, uy, d) && ListsNames(env2, others) && WellChecked(env2, others, uy)
    ensures ValidContract(c) && ValidContract(d)
    ensures CanonicalOf(c) == CanonicalOf(d) <==> SameSource(env, names, ty, env2, others, uy)
  {
    hide Lowered, WellChecked, ValidContract, CanonicalOf, SameSource;
    LoweredIsValid(env, names, ty, c);
    LoweredIsValid(env2, others, uy, d);
    CanonicalDecidesSource(env, names, ty, c, env2, others, uy, d);
  }
}
