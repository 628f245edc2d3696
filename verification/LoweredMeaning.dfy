/** Lowering keeps the meaning of types: nodes of two lowered arenas are
    bisimilar exactly when the types they were made for are the same Candid
    type, so canonical Contracts are equal exactly when the sources declare the
    same types. */
module LoweredMeaning {
  import opened Bytes
  import opened Wrappers
  import opened TypeGraph
  import opened Meaning
  import opened Images
  import opened CandidTypes
  import opened ArenaSteps
  import opened Compiling
  import OptCycles
  import NamedCycles
  import opened Walks
  import opened CanonicalForm
  import opened Invariance

  // ----- one node -----

  /** The node a part of a type was given. */
  ghost predicate Denotes(env: Environment, a: Arena, part: Type, y: TypeRef) {
    y < |a.owner| && Denotation(env, part) == Ok(a.owner[y])
  }

  /** Every edge of the node is an edge of the type, to a part that denotes its
      target. */
  ghost predicate EdgesComeFromType(env: Environment, a: Arena, t: Type, node: TypeNode) {
    forall l, y: TypeRef :: Edge(node, l, y) ==> FromPart(env, a, t, l, y)
  }

  ghost predicate FromPart(env: Environment, a: Arena, t: Type, l: Label, y: TypeRef) {
    exists part :: TypeEdge(t, l, part) && Denotes(env, a, part, y)
  }

  /** Every edge of the type is an edge of the node. */
  ghost predicate TypeEdgesAreEdges(env: Environment, a: Arena, t: Type, node: TypeNode) {
    forall l, part :: TypeEdge(t, l, part) ==> ToNode(env, a, node, l, part)
  }

  ghost predicate ToNode(env: Environment, a: Arena, node: TypeNode, l: Label, part: Type) {
    exists y: TypeRef :: Edge(node, l, y) && Denotes(env, a, part, y)
  }

  lemma PartDenotes(env: Environment, a: Arena, t: Type, refs: seq<TypeRef>, i: nat)
    requires PartsOk(env, a, Parts(t), refs) && i < |refs|
    ensures i < |Parts(t)| && Denotes(env, a, Parts(t)[i], refs[i])
  {
    assert PartOk(env, a, Parts(t)[i], refs[i]);
  }

  lemma FieldEdges(env: Environment, a: Arena, t: Type, refs: seq<TypeRef>)
    requires (t.RecordT? || t.VariantT?) && PartsOk(env, a, Parts(t), refs)
    ensures EdgesComeFromType(env, a, t, Assemble(t, refs)) && TypeEdgesAreEdges(env, a, t, Assemble(t, refs))
  {
    hide PartsOk, Denotes;
    PartsCount(env, a, Parts(t), refs);
    var node := Assemble(t, refs);
    var listed := LoweredFields(t.fields, refs);
    SortedFieldMembers(listed);
    forall l, y: TypeRef | Edge(node, l, y) ensures FromPart(env, a, t, l, y) {
      var i: nat :| i < |listed| && listed[i] == Field(l.id, y);
      PartDenotes(env, a, t, refs, i);
      assert t.fields[i] in t.fields && TypeField(l.id, Parts(t)[i]) == t.fields[i];
    }
    forall l, part | TypeEdge(t, l, part) ensures ToNode(env, a, node, l, part) {
      var i: nat :| i < |t.fields| && t.fields[i] == TypeField(l.id, part);
      PartDenotes(env, a, t, refs, i);
      assert listed[i] in listed;
      assert Edge(node, l, refs[i]);
    }
  }

  lemma PartsCount(env: Environment, a: Arena, types: seq<Type>, refs: seq<TypeRef>)
    requires PartsOk(env, a, types, refs)
    ensures |refs| == |types|
  {
  }

  lemma MethodEdges(env: Environment, a: Arena, t: Type, refs: seq<TypeRef>)
    requires t.ServiceT? && PartsOk(env, a, Parts(t), refs)
    ensures EdgesComeFromType(env, a, t, Assemble(t, refs)) && TypeEdgesAreEdges(env, a, t, Assemble(t, refs))
  {
    hide PartsOk, Denotes;
    PartsCount(env, a, Parts(t), refs);
    var node := Assemble(t, refs);
    var listed := LoweredMethods(t.methods, refs);
    SortedMethodMembers(listed);
    forall l, y: TypeRef | Edge(node, l, y) ensures FromPart(env, a, t, l, y) {
      var i: nat :| i < |listed| && listed[i] == ServiceMethod(l.name, NameHash(l.name), y);
      PartDenotes(env, a, t, refs, i);
      assert t.methods[i] in t.methods && TypeMethod(l.name, Parts(t)[i]) == t.methods[i];
    }
    forall l, part | TypeEdge(t, l, part) ensures ToNode(env, a, node, l, part) {
      var i: nat :| i < |t.methods| && t.methods[i] == TypeMethod(l.name, part);
      PartDenotes(env, a, t, refs, i);
      assert listed[i] in listed;
      assert Edge(node, l, refs[i]);
    }
  }

  /** Which part an argument, result, initializer, service or inner label is. */
  ghost function PositionOf(t: Type, l: Label): nat {
    match l
    case ArgumentLabel(i) => i
    case ResultLabel(i) => if t.FuncT? then |t.args| + i else i
    case InitLabel(i) => i
    case ServiceLabel => if t.ClassT? then |t.init| else 0
    case _ => 0
  }

  lemma PositionedEdges(env: Environment, a: Arena, t: Type, refs: seq<TypeRef>)
    requires (t.OptT? || t.VecT? || t.FuncT? || t.ClassT?) && Supported(t).Ok? && PartsOk(env, a, Parts(t), refs)
    ensures EdgesComeFromType(env, a, t, Assemble(t, refs)) && TypeEdgesAreEdges(env, a, t, Assemble(t, refs))
  {
    hide PartsOk, Denotes;
    PartsCount(env, a, Parts(t), refs);
    var node := Assemble(t, refs);
    forall l, y: TypeRef | Edge(node, l, y) ensures FromPart(env, a, t, l, y) {
      var i := PositionOf(t, l);
      assert i < |refs| && refs[i] == y;
      PartDenotes(env, a, t, refs, i);
      assert TypeEdge(t, l, Parts(t)[i]);
    }
    forall l, part | TypeEdge(t, l, part) ensures ToNode(env, a, node, l, part) {
      var i := PositionOf(t, l);
      assert i < |refs| && Parts(t)[i] == part;
      PartDenotes(env, a, t, refs, i);
      assert Edge(node, l, refs[i]);
    }
  }

  /** A lowered node has the kind of its type, and the two have the same edges. */
  lemma NodeIsItsType(env: Environment, a: Arena, types: Types, r: nat)
    requires Finished(env, a, types) && r < |types|
    ensures r < |a.owner| && KindOfType(a.owner[r]) == Some(KindOf(types[r]))
    ensures EdgesComeFromType(env, a, a.owner[r], types[r]) && TypeEdgesAreEdges(env, a, a.owner[r], types[r])
    ensures forall m :: types[r].Service? && m in types[r].methods ==> m.id == NameHash(m.name)
  {
    assert a.nodes[r] == Some(types[r]);
    assert FilledAt(env, a, r);
    var t, refs := a.owner[r], a.refs[r];
    hide Consistent, Filled, Denotation, Finished, FilledAt, PartsOk, EdgesComeFromType, TypeEdgesAreEdges;
    if t.PrimT? {
      PrimitiveHasNoEdges(env, a, t, types[r]);
    } else if t.RecordT? || t.VariantT? {
      FieldEdges(env, a, t, refs);
    } else if t.ServiceT? {
      MethodEdges(env, a, t, refs);
      PartsCount(env, a, Parts(t), refs);
      SortedMethodMembers(LoweredMethods(t.methods, refs));
    } else {
      PositionedEdges(env, a, t, refs);
      PartsCount(env, a, Parts(t), refs);
    }
  }

  lemma PrimitiveHasNoEdges(env: Environment, a: Arena, t: Type, node: TypeNode)
    requires t.PrimT? && node.Primitive?
    ensures EdgesComeFromType(env, a, t, node) && TypeEdgesAreEdges(env, a, t, node)
  {
  }

  lemma LabelHasEdge(node: TypeNode, l: Label)
    requires forall m :: node.Service? && m in node.methods ==> m.id == NameHash(m.name)
    ensures HasLabel(node, l) <==> exists y: TypeRef :: Edge(node, l, y)
  {
    match l
    case FieldLabel(id) =>
      if HasLabel(node, l) {
        var i :| 0 <= i < |node.fields| && FieldIds(node.fields)[i] == id;
        assert node.fields[i] in node.fields;
        assert Edge(node, l, node.fields[i].ty);
      }
      if y: TypeRef :| Edge(node, l, y) {
        var i: nat :| i < |node.fields| && node.fields[i] == Field(id, y);
        FieldIdMember(node.fields, i);
      }
    case MethodLabel(text) =>
      if HasLabel(node, l) {
        var i :| 0 <= i < |node.methods| && MethodNames(node.methods)[i] == text;
        assert node.methods[i] in node.methods;
        assert Edge(node, l, node.methods[i].function_);
      }
      if y: TypeRef :| Edge(node, l, y) {
        var i: nat :| i < |node.methods| && node.methods[i] == ServiceMethod(text, NameHash(text), y);
        MethodNameMember(node.methods, i);
      }
    case InnerLabel => if HasLabel(node, l) { assert Edge(node, l, node.inner); }
    case ArgumentLabel(i) => if HasLabel(node, l) { assert Edge(node, l, node.args[i]); }
    case ResultLabel(i) => if HasLabel(node, l) { assert Edge(node, l, node.results[i]); }
    case InitLabel(i) => if HasLabel(node, l) { assert Edge(node, l, node.init[i]); }
    case ServiceLabel => if HasLabel(node, l) { assert Edge(node, l, node.service); }
  }

  lemma LabelsAgree(env: Environment, a: Arena, t: Type, node: TypeNode, l: Label)
    requires EdgesComeFromType(env, a, t, node) && TypeEdgesAreEdges(env, a, t, node)
    ensures (exists y: TypeRef :: Edge(node, l, y)) <==> TypeHasLabel(t, l)
  {
    hide EdgesComeFromType, TypeEdgesAreEdges, TypeEdge, Edge;
    if y: TypeRef :| Edge(node, l, y) { EdgeGivesLabel(env, a, t, node, l, y); }
    if part :| TypeEdge(t, l, part) { var y := LabelGivesEdge(env, a, t, node, l, part); }
  }

  lemma EdgeGivesLabel(env: Environment, a: Arena, t: Type, node: TypeNode, l: Label, y: TypeRef)
    requires EdgesComeFromType(env, a, t, node) && Edge(node, l, y)
    ensures TypeHasLabel(t, l)
  {
    hide Denotes, TypeEdge, Edge;
    assert FromPart(env, a, t, l, y);
  }

  lemma LabelGivesEdge(env: Environment, a: Arena, t: Type, node: TypeNode, l: Label, part: Type) returns (y: TypeRef)
    requires TypeEdgesAreEdges(env, a, t, node) && TypeEdge(t, l, part)
    ensures Edge(node, l, y)
  {
    hide Denotes, TypeEdge, Edge;
    assert ToNode(env, a, node, l, part);
    y :| Edge(node, l, y) && Denotes(env, a, part, y);
  }

  lemma SameLabels(env: Environment, a: Arena, types: Types, r: nat, l: Label)
    requires Finished(env, a, types) && r < |types|
    ensures r < |a.owner| && (HasLabel(types[r], l) <==> TypeHasLabel(a.owner[r], l))
  {
    NodeIsItsType(env, a, types, r);
    LabelHasEdge(types[r], l);
    LabelsAgree(env, a, a.owner[r], types[r], l);
    hide Finished, Denotation, TypeEdge, Edge, HasLabel, TypeHasLabel, EdgesComeFromType, TypeEdgesAreEdges, KindOf, KindOfType;
  }

  // ----- bisimulations of nodes and of types -----

  ghost function OwnersOf(a: Arena, b: Arena, related: set<(TypeRef, TypeRef)>): set<(Type, Type)> {
    set x | x in related && x.0 < |a.owner| && x.1 < |b.owner| :: (a.owner[x.0], b.owner[x.1])
  }

  ghost function NodesOf(a: Arena, b: Arena, related: set<(Type, Type)>): set<(TypeRef, TypeRef)> {
    set x: nat, y: nat | x < |a.owner| && y < |b.owner| && (a.owner[x], b.owner[y]) in related :: (x, y)
  }

  /** The target of the edge that a part of the type stands for. */
  lemma PartToEdge(env: Environment, a: Arena, s: Types, x: nat, l: Label, p: Type) returns (i: TypeRef)
    requires Finished(env, a, s) && x < |s| && x < |a.owner| && TypeEdge(a.owner[x], l, p)
    ensures Edge(s[x], l, i) && Denotes(env, a, p, i)
  {
    NodeIsItsType(env, a, s, x);
    hide Finished, Denotation, TypeEdge, Edge;
    assert ToNode(env, a, s[x], l, p);
    i :| Edge(s[x], l, i) && Denotes(env, a, p, i);
  }

  /** The part of the type that an edge stands for. */
  lemma EdgeToPart(env: Environment, a: Arena, s: Types, x: nat, l: Label, i: TypeRef) returns (p: Type)
    requires Finished(env, a, s) && x < |s| && Edge(s[x], l, i)
    ensures x < |a.owner| && TypeEdge(a.owner[x], l, p) && Denotes(env, a, p, i)
  {
    NodeIsItsType(env, a, s, x);
    hide Finished, Denotation, TypeEdge, Edge;
    assert FromPart(env, a, a.owner[x], l, i);
    p :| TypeEdge(a.owner[x], l, p) && Denotes(env, a, p, i);
  }

  lemma LinkedParts(env: Environment, a: Arena, s: Types, x: nat, env2: Environment, b: Arena, t: Types, y: nat,
                    related: set<(TypeRef, TypeRef)>, l: Label, p: Type, q: Type)
    requires Finished(env, a, s) && Finished(env2, b, t) && x < |s| && y < |t| && Matches(s[x], t[y], related)
    requires x < |a.owner| && y < |b.owner| && TypeEdge(a.owner[x], l, p) && TypeEdge(b.owner[y], l, q)
    ensures StandFor(env, p, env2, q, OwnersOf(a, b, related))
  {
    hide Finished, Denotation, TypeEdge, Edge, HasLabel, KindOf;
    var i := PartToEdge(env, a, s, x, l, p);
    var j := PartToEdge(env2, b, t, y, l, q);
    assert (i, j) in related;
    assert (a.owner[(i, j).0], b.owner[(i, j).1]) in OwnersOf(a, b, related);
  }

  lemma MatchingTypes(env: Environment, a: Arena, s: Types, x: nat, env2: Environment, b: Arena, t: Types, y: nat,
                      related: set<(TypeRef, TypeRef)>)
    requires Finished(env, a, s) && Finished(env2, b, t) && x < |s| && y < |t| && Matches(s[x], t[y], related)
    ensures x < |a.owner| && y < |b.owner|
    ensures TypesMatch(env, a.owner[x], env2, b.owner[y], OwnersOf(a, b, related))
  {
    SameKind(env, a, s, x);
    SameKind(env2, b, t, y);
    hide Finished, Denotation, TypeEdge, Edge, HasLabel, TypeHasLabel, KindOf, KindOfType, OwnersOf, StandFor;
    var u, v := a.owner[x], b.owner[y];
    forall l ensures TypeHasLabel(u, l) <==> TypeHasLabel(v, l) {
      SameLabels(env, a, s, x, l);
      SameLabels(env2, b, t, y, l);
    }
    forall l, p, q | TypeEdge(u, l, p) && TypeEdge(v, l, q) ensures StandFor(env, p, env2, q, OwnersOf(a, b, related)) {
      LinkedParts(env, a, s, x, env2, b, t, y, related, l, p, q);
    }
  }

  lemma SameKind(env: Environment, a: Arena, s: Types, x: nat)
    requires Finished(env, a, s) && x < |s|
    ensures x < |a.owner| && KindOfType(a.owner[x]) == Some(KindOf(s[x]))
  {
    NodeIsItsType(env, a, s, x);
  }

  lemma NodesToTypes(env: Environment, a: Arena, s: Types, env2: Environment, b: Arena, t: Types, related: set<(TypeRef, TypeRef)>)
    requires Finished(env, a, s) && Finished(env2, b, t) && Bisimulation(s, t, related)
    ensures TypeBisimulation(env, env2, OwnersOf(a, b, related))
  {
    hide Finished, Matches, TypesMatch;
    forall z | z in OwnersOf(a, b, related) ensures TypesMatch(env, z.0, env2, z.1, OwnersOf(a, b, related)) {
      var x :| x in related && x.0 < |a.owner| && x.1 < |b.owner| && z == (a.owner[x.0], b.owner[x.1]);
      MatchingTypes(env, a, s, x.0, env2, b, t, x.1, related);
    }
  }

  lemma LinkedNodes(env: Environment, a: Arena, s: Types, x: nat, env2: Environment, b: Arena, t: Types, y: nat,
                    related: set<(Type, Type)>, l: Label, i: TypeRef, j: TypeRef)
    requires Finished(env, a, s) && Finished(env2, b, t) && x < |s| && y < |t|
    requires x < |a.owner| && y < |b.owner| && TypesMatch(env, a.owner[x], env2, b.owner[y], related)
    requires Edge(s[x], l, i) && Edge(t[y], l, j)
    ensures (i, j) in NodesOf(a, b, related)
  {
    hide Finished, Denotation, TypeEdge, Edge, TypeHasLabel, KindOfType;
    var p := EdgeToPart(env, a, s, x, l, i);
    var q := EdgeToPart(env2, b, t, y, l, j);
    assert StandFor(env, p, env2, q, related);
  }

  lemma MatchingNodes(env: Environment, a: Arena, s: Types, x: nat, env2: Environment, b: Arena, t: Types, y: nat,
                      related: set<(Type, Type)>)
    requires Finished(env, a, s) && Finished(env2, b, t) && x < |s| && y < |t|
    requires x < |a.owner| && y < |b.owner| && TypesMatch(env, a.owner[x], env2, b.owner[y], related)
    ensures Matches(s[x], t[y], NodesOf(a, b, related))
  {
    SameKind(env, a, s, x);
    SameKind(env2, b, t, y);
    hide Finished, Denotation, TypeEdge, Edge, HasLabel, TypeHasLabel, KindOf, KindOfType, NodesOf;
    forall l ensures HasLabel(s[x], l) <==> HasLabel(t[y], l) {
      SameLabels(env, a, s, x, l);
      SameLabels(env2, b, t, y, l);
    }
    forall l, i: TypeRef, j: TypeRef | Edge(s[x], l, i) && Edge(t[y], l, j) ensures (i, j) in NodesOf(a, b, related) {
      LinkedNodes(env, a, s, x, env2, b, t, y, related, l, i, j);
    }
  }

  lemma TypesToNodes(env: Environment, a: Arena, s: Types, env2: Environment, b: Arena, t: Types, related: set<(Type, Type)>)
    requires Finished(env, a, s) && Finished(env2, b, t) && TypeBisimulation(env, env2, related)
    ensures Bisimulation(s, t, NodesOf(a, b, related))
  {
    SameCounts(env, a, s);
    SameCounts(env2, b, t);
    hide Finished, Matches, TypesMatch;
    forall x | x in NodesOf(a, b, related)
      ensures x.0 < |s| && x.1 < |t| && Matches(s[x.0], t[x.1], NodesOf(a, b, related))
    {
      var z := (a.owner[x.0], b.owner[x.1]);
      assert TypesMatch(env, z.0, env2, z.1, related);
      MatchingNodes(env, a, s, x.0, env2, b, t, x.1, related);
    }
  }

  lemma SameCounts(env: Environment, a: Arena, s: Types)
    requires Finished(env, a, s)
    ensures |s| == |a.owner|
  {
  }

  lemma OwnersStand(env: Environment, a: Arena, p: Type, i: TypeRef, env2: Environment, b: Arena, q: Type, j: TypeRef,
                    related: set<(TypeRef, TypeRef)>)
    requires Denotes(env, a, p, i) && Denotes(env2, b, q, j) && (i, j) in related
    ensures StandFor(env, p, env2, q, OwnersOf(a, b, related))
  {
    hide Denotation;
    assert (a.owner[(i, j).0], b.owner[(i, j).1]) in OwnersOf(a, b, related);
  }

  lemma NodesStand(env: Environment, a: Arena, p: Type, i: TypeRef, env2: Environment, b: Arena, q: Type, j: TypeRef,
                   related: set<(Type, Type)>)
    requires Denotes(env, a, p, i) && Denotes(env2, b, q, j) && StandFor(env, p, env2, q, related)
    ensures (i, j) in NodesOf(a, b, related)
  {
    hide Denotation;
  }

  lemma BisimilarMeansSame(env: Environment, a: Arena, s: Types, p: Type, i: TypeRef,
                           env2: Environment, b: Arena, t: Types, q: Type, j: TypeRef)
    requires Finished(env, a, s) && Finished(env2, b, t)
    requires Denotes(env, a, p, i) && Denotes(env2, b, q, j) && Bisimilar(s, i, t, j)
    ensures SameCandidType(env, p, env2, q)
  {
    hide Finished, Denotes, StandFor, Bisimulation, TypeBisimulation, OwnersOf;
    var related :| Bisimulation(s, t, related) && (i, j) in related;
    NodesToTypes(env, a, s, env2, b, t, related);
    OwnersStand(env, a, p, i, env2, b, q, j, related);
  }

  lemma SameMeansBisimilar(env: Environment, a: Arena, s: Types, p: Type, i: TypeRef,
                           env2: Environment, b: Arena, t: Types, q: Type, j: TypeRef)
    requires Finished(env, a, s) && Finished(env2, b, t)
    requires Denotes(env, a, p, i) && Denotes(env2, b, q, j) && SameCandidType(env, p, env2, q)
    ensures Bisimilar(s, i, t, j)
  {
    hide Finished, Denotes, StandFor, Bisimulation, TypeBisimulation, NodesOf;
    var related :| TypeBisimulation(env, env2, related) && StandFor(env, p, env2, q, related);
    TypesToNodes(env, a, s, env2, b, t, related);
    NodesStand(env, a, p, i, env2, b, q, j, related);
  }

  /** Two nodes are bisimilar exactly when the types they stand for are the
      same Candid type. */
  lemma BisimilarIsSameType(env: Environment, a: Arena, s: Types, p: Type, i: TypeRef,
                            env2: Environment, b: Arena, t: Types, q: Type, j: TypeRef)
    requires Finished(env, a, s) && Finished(env2, b, t)
    requires Denotes(env, a, p, i) && Denotes(env2, b, q, j)
    ensures Bisimilar(s, i, t, j) <==> SameCandidType(env, p, env2, q)
  {
    hide Finished, Denotes, Bisimilar, SameCandidType;
    if Bisimilar(s, i, t, j) { BisimilarMeansSame(env, a, s, p, i, env2, b, t, q, j); }
    if SameCandidType(env, p, env2, q) { SameMeansBisimilar(env, a, s, p, i, env2, b, t, q, j); }
  }

  // ----- whole contracts -----

  /** Two sources declare the same names for the same Candid types and have
      actors of the same Candid type. */
  ghost predicate SameSource(env: Environment, names: seq<Bytes.Text>, ty: Option<Type>,
                             env2: Environment, others: seq<Bytes.Text>, uy: Option<Type>) {
    && (forall n :: n in names <==> n in others)
    && (forall n :: n in names ==> SameCandidType(env, VarT(n), env2, VarT(n)))
    && SameActorTypes(env, ty, env2, uy)
  }

  ghost predicate SameActorTypes(env: Environment, ty: Option<Type>, env2: Environment, uy: Option<Type>) {
    match (ty, uy)
    case (None, None) => true
    case (Some(t), Some(u)) => SameCandidType(env, t, env2, u)
    case _ => false
  }

  lemma DeclaredNode(env: Environment, names: seq<Bytes.Text>, ty: Option<Type>, a: Arena, c: Contract, x: Declaration)
    requires LoweredFrom(env, names, ty, a, c) && x in c.declarations
    ensures x.name in names && Denotes(env, a, VarT(x.name), x.ty)
  {
    hide Denotation;
    var i :| 0 <= i < |c.declarations| && c.declarations[i] == x;
    assert names[i] in names && NamedOk(env, a);
  }

  lemma NameIsDeclared(env: Environment, names: seq<Bytes.Text>, ty: Option<Type>, a: Arena, c: Contract, n: Bytes.Text)
    requires LoweredFrom(env, names, ty, a, c) && n in names
    ensures DeclaredBy(n, c)
  {
    hide Finished;
    var i :| 0 <= i < |names| && names[i] == n;
    assert c.declarations[i] in c.declarations && c.declarations[i].name == n;
  }

  lemma SameActors(env: Environment, names: seq<Bytes.Text>, ty: Option<Type>, a: Arena, c: Contract,
                   env2: Environment, others: seq<Bytes.Text>, uy: Option<Type>, b: Arena, d: Contract)
    requires LoweredFrom(env, names, ty, a, c) && LoweredFrom(env2, others, uy, b, d)
    ensures SameActor(c, d) <==> SameActorTypes(env, ty, env2, uy)
  {
    hide Finished, Denotation, Bisimilar, SameCandidType;
    if c.actor.Some? && d.actor.Some? {
      var i, j := c.actor.value.target, d.actor.value.target;
      BisimilarIsSameType(env, a, c.types, ty.value, i, env2, b, d.types, uy.value, j);
      if Bisimilar(c.types, i, d.types, j) { BisimilarKind(c.types, i, d.types, j); }
    }
  }

  lemma BisimilarKind(s: Types, i: TypeRef, t: Types, j: TypeRef)
    requires Bisimilar(s, i, t, j) && i < |s| && j < |t|
    ensures KindOf(s[i]) == KindOf(t[j])
  {
    hide KindOf;
    var related :| Bisimulation(s, t, related) && (i, j) in related;
    assert Matches(s[(i, j).0], t[(i, j).1], related);
  }

  /** Two lowered contracts are equivalent exactly when their sources declare
      the same types under the same names and have the same actor. */
  lemma LoweringKeepsMeaning(env: Environment, names: seq<Bytes.Text>, ty: Option<Type>, a: Arena, c: Contract,
                             env2: Environment, others: seq<Bytes.Text>, uy: Option<Type>, b: Arena, d: Contract)
    requires LoweredFrom(env, names, ty, a, c) && LoweredFrom(env2, others, uy, b, d)
    ensures Equivalent(c, d) <==> SameSource(env, names, ty, env2, others, uy)
  {
    hide LoweredFrom, SameActor, Denotes, Bisimilar, SameCandidType, SameActorTypes;
    SameActors(env, names, ty, a, c, env2, others, uy, b, d);
    forall x | x in c.declarations ensures x.name in names { DeclaredNode(env, names, ty, a, c, x); }
    forall y | y in d.declarations ensures y.name in others { DeclaredNode(env2, others, uy, b, d, y); }
    forall n | n in names ensures DeclaredBy(n, c) { NameIsDeclared(env, names, ty, a, c, n); }
    forall n | n in others ensures DeclaredBy(n, d) { NameIsDeclared(env2, others, uy, b, d, n); }
    forall x, y | x in c.declarations && y in d.declarations && x.name == y.name
      ensures Bisimilar(c.types, x.ty, d.types, y.ty) <==> SameCandidType(env, VarT(x.name), env2, VarT(x.name))
    {
      SameDeclaredType(env, names, ty, a, c, x, env2, others, uy, b, d, y);
    }
  }

  lemma SameDeclaredType(env: Environment, names: seq<Bytes.Text>, ty: Option<Type>, a: Arena, c: Contract, x: Declaration,
                         env2: Environment, others: seq<Bytes.Text>, uy: Option<Type>, b: Arena, d: Contract, y: Declaration)
    requires LoweredFrom(env, names, ty, a, c) && LoweredFrom(env2, others, uy, b, d)
    requires x in c.declarations && y in d.declarations && x.name == y.name
    ensures Bisimilar(c.types, x.ty, d.types, y.ty) <==> SameCandidType(env, VarT(x.name), env2, VarT(x.name))
  {
    DeclaredNode(env, names, ty, a, c, x);
    DeclaredNode(env2, others, uy, b, d, y);
    hide Finished, DeclaresAll, ActorOf, Denotes, Bisimilar, SameCandidType;
    BisimilarIsSameType(env, a, c.types, VarT(x.name), x.ty, env2, b, d.types, VarT(x.name), y.ty);
  }

  /** From source to identity: the canonical Contracts of two sources are equal
      exactly when the sources declare the same Candid types and actor. */
  lemma CanonicalDecidesSource(env: Environment, names: seq<Bytes.Text>, ty: Option<Type>, c: Contract,
                               env2: Environment, others: seq<Bytes.Text>, uy: Option<Type>, d: Contract)
    requires Lowered(env, names, ty, c) && Lowered(env2, others, uy, d)
    requires ValidContract(c) && ValidContract(d)
    ensures CanonicalOf(c) == CanonicalOf(d) <==> SameSource(env, names, ty, env2, others, uy)
  {
    hide LoweredFrom, ValidContract, CanonicalOf, Equivalent, SameSource, Occurring, Inside, OptCycles.Productive;
    var a :| LoweredFrom(env, names, ty, a, c) && Inside(a, Occurring(env, ty)) && OptCycles.Productive(a.nodes);
    var b :| LoweredFrom(env2, others, uy, b, d) && Inside(b, Occurring(env2, uy)) && OptCycles.Productive(b.nodes);
    LoweringKeepsMeaning(env, names, ty, a, c, env2, others, uy, b, d);
    CanonicalFormDecidesMeaning(c, d);
  }

  // ----- cycles -----

  ghost function TypeEdges(types: Types): Edges {
    set x: nat, y: nat | x < |types| && y < |types| && y in StoredRefs(types[x]) :: (x, y)
  }

  /** Every cycle of a lowered contract passes through a declared node. */
  lemma EveryCycleIsDeclared(env: Environment, names: seq<Bytes.Text>, ty: Option<Type>, c: Contract, p: seq<nat>)
    requires Lowered(env, names, ty, c) && ListsNames(env, names)
    requires Walk(TypeEdges(c.types), p) && |p| >= 2 && p[0] == p[|p| - 1]
    ensures exists d :: d in c.declarations && d.ty in p
  {
    hide OptCycles.Productive, Inside, Occurring, ActorOf;
    var a :| LoweredFrom(env, names, ty, a, c) && Inside(a, Occurring(env, ty)) && OptCycles.Productive(a.nodes);
    hide Consistent, NamedCycles.IsNamed;
    SameEdges(env, a, c.types);
    NamedCycles.EveryCycleIsNamed(env, a, p);
    var i :| 0 <= i < |p| && NamedCycles.IsNamed(a, p[i]);
    NamedIsDeclared(env, names, a, c.declarations, p[i]);
  }

  lemma SameEdges(env: Environment, a: Arena, types: Types)
    requires Finished(env, a, types)
    ensures NamedCycles.RefGraph(a.nodes) == TypeEdges(types)
  {
    hide Consistent, StoredRefs;
    forall x: nat, y: nat ensures (x, y) in NamedCycles.RefGraph(a.nodes) <==> (x, y) in TypeEdges(types) {
      if x < |types| { assert a.nodes[x] == Some(types[x]); }
    }
  }

  lemma NamedIsDeclared(env: Environment, names: seq<Bytes.Text>, a: Arena, declarations: seq<Declaration>, r: TypeRef)
    requires Consistent(env, a) && ListsNames(env, names) && DeclaresAll(a, names, declarations) && NamedCycles.IsNamed(a, r)
    ensures exists d :: d in declarations && d.ty == r
  {
    NamedAreDeclared(env, a, names);
    hide Consistent;
    var n :| n in a.named && a.named[n] == r;
    var i :| 0 <= i < |names| && names[i] == n;
    assert declarations[i] in declarations;
  }
}
