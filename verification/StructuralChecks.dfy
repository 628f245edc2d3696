/** Structural validation of a contract: every broken rule is noted in a
    collector that shows no more than its limit, and none is noted exactly for
    the contracts canonicalization is defined on. */
module StructuralChecks {
  import opened Bytes
  import opened Wrappers
  import opened Walks
  import opened TypeGraph

  /** What is wrong and where: with a declaration, a node, one of a node's
      references, fields or methods, the actor, or the arena. */
  datatype Violation =
    | EmptyDeclarationName(at: nat)
    | DuplicateDeclarationName(at: nat)
    | DanglingDeclaration(at: nat)
    | DanglingRef(at: nat, part: nat)
    | DuplicateFieldId(at: nat, part: nat)
    | OnewayHasResults(at: nat)
    | EmptyMethodName(at: nat, part: nat)
    | DuplicateMethodName(at: nat, part: nat)
    | MethodIdMismatch(at: nat, part: nat)
    | MethodNotFunction(at: nat, part: nat)
    | ClassServiceNotService(at: nat)
    | DanglingActor
    | ActorServiceNotService
    | ActorClassNotClass
    | ClassNotActorRoot(at: nat)
    | DeclaredClass(at: nat)
    | ClassThroughEdge(at: nat, part: nat)
    | RootlessArena
    | OrphanNode(at: nat)

  // ----- the collector -----

  datatype Item = Shown(violation: Violation) | Sentinel(limit: nat, observed: nat)

  function Show(s: seq<Violation>): (r: seq<Item>)
    ensures |r| == |s| && forall i :: 0 <= i < |r| ==> r[i] == Shown(s[i])
  { seq(|s|, i requires 0 <= i < |s| => Shown(s[i])) }

  /** What a limit leaves of some violations: all of them, or the first ones and
      how many there were. */
  function Display(limit: nat, s: seq<Violation>): (r: seq<Item>)
    ensures r == [] <==> s == []
  {
    if |s| <= limit then Show(s)
    else Show(s[..if limit == 0 then 0 else limit - 1]) + [Sentinel(limit, |s|)]
  }

  class ViolationCollector {
    const limit: nat
    var violations: seq<Item>
    var observed: nat
    ghost var noted: seq<Violation>

    ghost predicate Valid()
      reads this
    {
      observed == |noted| && violations == Display(limit, noted)
    }

    constructor (limit: nat)
      ensures Valid() && noted == [] && this.limit == limit
    {
      this.limit, violations, observed, noted := limit, [], 0, [];
    }

    method Push(v: Violation)
      requires Valid()
      modifies this
      ensures Valid() && noted == old(noted) + [v]
    {
      observed := observed + 1;
      noted := noted + [v];
      if |violations| < limit {
        violations := violations + [Shown(v)];
        return;
      }
      var sentinel := Sentinel(limit, observed);
      if violations != [] {
        violations := violations[..|violations| - 1] + [sentinel];
      } else {
        violations := [sentinel];
      }
    }
  }

  // ----- the rules -----

  ghost predicate RepeatedName(names: seq<Bytes.Text>, i: nat) {
    i < |names| && exists j :: 0 <= j < i && names[j] == names[i]
  }

  function DeclaredNames(c: Contract): (r: seq<Bytes.Text>)
    ensures |r| == |c.declarations| && forall i :: 0 <= i < |r| ==> r[i] == c.declarations[i].name
  { seq(|c.declarations|, i requires 0 <= i < |c.declarations| => c.declarations[i].name) }

  function NamesOf(methods: seq<ServiceMethod>): (r: seq<Bytes.Text>)
    ensures |r| == |methods| && forall i :: 0 <= i < |r| ==> r[i] == methods[i].name
  { seq(|methods|, i requires 0 <= i < |methods| => methods[i].name) }

  predicate IsClass(c: Contract, r: TypeRef) { r < |c.types| && c.types[r].Class? }

  ghost predicate HasPart(c: Contract, i: nat, k: nat) { i < |c.types| && k < |StoredRefs(c.types[i])| }

  ghost predicate HasMethod(c: Contract, i: nat, k: nat) {
    i < |c.types| && c.types[i].Service? && k < |c.types[i].methods|
  }

  /** The edges between nodes of the arena. */
  ghost function InnerEdges(types: Types): Edges {
    set u: nat, w: nat | u < |types| && w < |types| && w in StoredRefs(types[u]) :: (u, w)
  }

  ghost predicate Reached(c: Contract, i: nat) {
    exists r :: r in Roots(c) && r < |c.types| && Reach(InnerEdges(c.types), r, i)
  }

  ghost predicate Violates(c: Contract, v: Violation) {
    match v
    case EmptyDeclarationName(i) => i < |c.declarations| && c.declarations[i].name == []
    case DuplicateDeclarationName(i) => RepeatedName(DeclaredNames(c), i)
    case DanglingDeclaration(i) => i < |c.declarations| && c.declarations[i].ty >= |c.types|
    case DanglingRef(i, k) => HasPart(c, i, k) && StoredRefs(c.types[i])[k] >= |c.types|
    case DuplicateFieldId(i, k) =>
      i < |c.types| && (c.types[i].Record? || c.types[i].Variant?) && k < |c.types[i].fields|
      && exists j :: 0 <= j < k && c.types[i].fields[j].id == c.types[i].fields[k].id
    case OnewayHasResults(i) =>
      i < |c.types| && c.types[i].Func? && c.types[i].mode == Oneway && c.types[i].results != []
    case EmptyMethodName(i, k) => HasMethod(c, i, k) && c.types[i].methods[k].name == []
    case DuplicateMethodName(i, k) => HasMethod(c, i, k) && RepeatedName(NamesOf(c.types[i].methods), k)
    case MethodIdMismatch(i, k) => HasMethod(c, i, k) && c.types[i].methods[k].id != NameHash(c.types[i].methods[k].name)
    case MethodNotFunction(i, k) =>
      HasMethod(c, i, k) && c.types[i].methods[k].function_ < |c.types| && !c.types[c.types[i].methods[k].function_].Func?
    case ClassServiceNotService(i) =>
      i < |c.types| && c.types[i].Class? && c.types[i].service < |c.types| && !c.types[c.types[i].service].Service?
    case DanglingActor => c.actor.Some? && c.actor.value.target >= |c.types|
    case ActorServiceNotService =>
      c.actor.Some? && c.actor.value.ServiceActor? && c.actor.value.target < |c.types| && !c.types[c.actor.value.target].Service?
    case ActorClassNotClass =>
      c.actor.Some? && c.actor.value.ClassActor? && c.actor.value.target < |c.types| && !c.types[c.actor.value.target].Class?
    case ClassNotActorRoot(i) => IsClass(c, i) && c.actor != Some(ClassActor(i))
    case DeclaredClass(i) => i < |c.declarations| && IsClass(c, c.declarations[i].ty)
    case ClassThroughEdge(i, k) => HasPart(c, i, k) && IsClass(c, StoredRefs(c.types[i])[k])
    case RootlessArena => c.types != [] && Roots(c) == []
    case OrphanNode(i) => i < |c.types| && Roots(c) != [] && !Reached(c, i)
  }

  /** Which part of the validation notes a violation. */
  function Phase(v: Violation): nat {
    match v
    case EmptyDeclarationName(_) => 0
    case DuplicateDeclarationName(_) => 0
    case DanglingDeclaration(_) => 0
    case DanglingActor => 2
    case ActorServiceNotService => 2
    case ActorClassNotClass => 2
    case ClassNotActorRoot(_) => 3
    case DeclaredClass(_) => 4
    case ClassThroughEdge(_, _) => 5
    case RootlessArena => 6
    case OrphanNode(_) => 6
    case _ => 1
  }

  function Place(v: Violation): nat {
    if v.DanglingActor? || v.ActorServiceNotService? || v.ActorClassNotClass? || v.RootlessArena? then 0 else v.at
  }

  function Part(v: Violation): nat {
    match v
    case DanglingRef(_, k) => k
    case DuplicateFieldId(_, k) => k
    case EmptyMethodName(_, k) => k
    case DuplicateMethodName(_, k) => k
    case MethodIdMismatch(_, k) => k
    case MethodNotFunction(_, k) => k
    case ClassThroughEdge(_, k) => k
    case _ => 0
  }

  /** The violations of a phase at places before a bound. */
  ghost predicate AtPlaces(c: Contract, v: Violation, phase: nat, bound: nat) {
    Violates(c, v) && Phase(v) == phase && Place(v) < bound
  }

  /** The violations of the first phases. */
  ghost predicate Earlier(c: Contract, v: Violation, phase: nat) { Violates(c, v) && Phase(v) < phase }

  /** Exactly the violations of earlier phases, and of this one at places before
      the bound, are noted. */
  ghost predicate NotedTo(c: Contract, noted: seq<Violation>, phase: nat, bound: nat) {
    forall v :: v in noted <==> Earlier(c, v, phase) || AtPlaces(c, v, phase, bound)
  }

  /** A phase that is through. */
  lemma NextPhase(c: Contract, noted: seq<Violation>, phase: nat, bound: nat)
    requires NotedTo(c, noted, phase, bound)
    requires forall v :: Violates(c, v) && Phase(v) == phase ==> Place(v) < bound
    ensures NotedTo(c, noted, phase + 1, 0)
  {
    hide Violates, Phase, Place;
  }

  // ----- declarations -----

  lemma RepeatsSeen(names: seq<Bytes.Text>, i: nat, seen: set<Bytes.Text>)
    requires i < |names| && forall n :: n in seen <==> n in names[..i]
    ensures names[i] in seen <==> RepeatedName(names, i)
    ensures forall n :: n in seen + {names[i]} <==> n in names[..i + 1]
  {
    assert names[..i + 1] == names[..i] + [names[i]];
    if names[i] in names[..i] {
      var j :| 0 <= j < i && names[..i][j] == names[i];
    }
    if RepeatedName(names, i) {
      var j :| 0 <= j < i && names[j] == names[i];
      assert names[..i][j] == names[i];
    }
  }

  function DeclarationViolations(c: Contract, i: nat, d: Declaration, repeated: bool): seq<Violation> {
    (if d.name == [] then [EmptyDeclarationName(i)] else [])
    + (if repeated then [DuplicateDeclarationName(i)] else [])
    + (if d.ty >= |c.types| then [DanglingDeclaration(i)] else [])
  }

  method CheckDeclaration(c: Contract, i: nat, d: Declaration, repeated: bool, notes: ViolationCollector)
    requires notes.Valid()
    modifies notes
    ensures notes.Valid() && notes.noted == old(notes.noted) + DeclarationViolations(c, i, d, repeated)
  {
    hide Display;
    if d.name == [] { notes.Push(EmptyDeclarationName(i)); }
    if repeated { notes.Push(DuplicateDeclarationName(i)); }
    if d.ty >= |c.types| { notes.Push(DanglingDeclaration(i)); }
  }

  lemma DeclarationNoted(c: Contract, before: seq<Violation>, after: seq<Violation>, i: nat, repeated: bool)
    requires i < |c.declarations| && NotedTo(c, before, 0, i)
    requires repeated <==> RepeatedName(DeclaredNames(c), i)
    requires after == before + DeclarationViolations(c, i, c.declarations[i], repeated)
    ensures NotedTo(c, after, 0, i + 1)
  {
    var new_ := DeclarationViolations(c, i, c.declarations[i], repeated);
    DeclarationMembers(c, i, repeated);
    hide Violates, Phase, Place, DeclarationViolations, RepeatedName;
    forall v ensures v in after <==> Earlier(c, v, 0) || AtPlaces(c, v, 0, i + 1) {
      assert v in before <==> Earlier(c, v, 0) || AtPlaces(c, v, 0, i);
      assert v in new_ <==> Violates(c, v) && Phase(v) == 0 && Place(v) == i;
    }
  }

  lemma DeclarationMembers(c: Contract, i: nat, repeated: bool)
    requires i < |c.declarations| && (repeated <==> RepeatedName(DeclaredNames(c), i))
    ensures forall v :: v in DeclarationViolations(c, i, c.declarations[i], repeated) <==> Violates(c, v) && Phase(v) == 0 && Place(v) == i
  {
    hide RepeatedName, DeclaredNames;
  }

  method CheckDeclarations(c: Contract, notes: ViolationCollector)
    requires notes.Valid() && notes.noted == []
    modifies notes
    ensures notes.Valid() && NotedTo(c, notes.noted, 1, 0)
  {
    hide Violates, RepeatedName, DeclaredNames, Display, DeclarationViolations, NotedTo;
    NothingNoted(c);
    ghost var names := DeclaredNames(c);
    var seen: set<Bytes.Text> := {};
    for i := 0 to |c.declarations|
      invariant notes.Valid() && NotedTo(c, notes.noted, 0, i)
      invariant forall n :: n in seen <==> n in names[..i]
    {
      ghost var before := notes.noted;
      var d := c.declarations[i];
      NameAt(c, i);
      RepeatsSeen(names, i, seen);
      var repeated := d.name in seen;
      seen := seen + {d.name};
      CheckDeclaration(c, i, d, repeated, notes);
      DeclarationNoted(c, before, notes.noted, i, repeated);
    }
    DeclarationsEnd(c);
    NextPhase(c, notes.noted, 0, |c.declarations|);
  }

  lemma NothingNoted(c: Contract)
    ensures NotedTo(c, [], 0, 0)
  {
  }

  lemma NameAt(c: Contract, i: nat)
    requires i < |c.declarations|
    ensures i < |DeclaredNames(c)| && DeclaredNames(c)[i] == c.declarations[i].name
  {
  }

  lemma DeclarationsEnd(c: Contract)
    ensures forall v :: Violates(c, v) && Phase(v) == 0 ==> Place(v) < |c.declarations|
  {
  }

  // ----- one node -----

  /** The violations noted part by part. */
  predicate ByPart(v: Violation) { !v.OnewayHasResults? && !v.ClassServiceNotService? }

  ghost predicate InNode(c: Contract, v: Violation, i: nat, k: nat) {
    Violates(c, v) && Phase(v) == 1 && Place(v) == i && ByPart(v) && Part(v) < k
  }

  /** Up to a part of a node. */
  ghost predicate NotedIn(c: Contract, noted: seq<Violation>, i: nat, k: nat) {
    forall v :: v in noted <==> Earlier(c, v, 1) || AtPlaces(c, v, 1, i) || InNode(c, v, i, k)
  }

  lemma NodeStarts(c: Contract, noted: seq<Violation>, i: nat)
    requires NotedTo(c, noted, 1, i)
    ensures NotedIn(c, noted, i, 0)
  {
    hide Violates, Phase, Place, Part;
    forall v ensures v in noted <==> Earlier(c, v, 1) || AtPlaces(c, v, 1, i) || InNode(c, v, i, 0) {
      assert v in noted <==> Earlier(c, v, 1) || AtPlaces(c, v, 1, i);
    }
  }

  /** The last part, and what is noted of the node as a whole. */
  lemma NodeEnds(c: Contract, before: seq<Violation>, after: seq<Violation>, i: nat, k: nat)
    requires i < |c.types| && NotedIn(c, before, i, k)
    requires forall v :: Violates(c, v) && Phase(v) == 1 && Place(v) == i && ByPart(v) ==> Part(v) < k
    requires after == before + (if Violates(c, OnewayHasResults(i)) then [OnewayHasResults(i)] else [])
                      + (if Violates(c, ClassServiceNotService(i)) then [ClassServiceNotService(i)] else [])
    ensures NotedTo(c, after, 1, i + 1)
  {
    hide Violates;
    forall v ensures v in after <==> Earlier(c, v, 1) || AtPlaces(c, v, 1, i + 1) {
      assert v in before <==> Earlier(c, v, 1) || AtPlaces(c, v, 1, i) || InNode(c, v, i, k);
    }
  }

  /** Noting exactly the violations of the next part. */
  lemma PartNoted(c: Contract, before: seq<Violation>, after: seq<Violation>, i: nat, k: nat, new_: seq<Violation>)
    requires NotedIn(c, before, i, k) && after == before + new_
    requires forall v :: v in new_ <==> Violates(c, v) && Phase(v) == 1 && Place(v) == i && ByPart(v) && Part(v) == k
    ensures NotedIn(c, after, i, k + 1)
  {
    hide Violates, Phase, Place, Part, ByPart;
    forall v ensures v in after <==> Earlier(c, v, 1) || AtPlaces(c, v, 1, i) || InNode(c, v, i, k + 1) {
      assert v in before <==> Earlier(c, v, 1) || AtPlaces(c, v, 1, i) || InNode(c, v, i, k);
    }
  }

  /** The node's references in the order they are checked. */
  method CheckRefs(c: Contract, i: nat, notes: ViolationCollector)
    requires notes.Valid() && i < |c.types| && NotedIn(c, notes.noted, i, 0)
    requires !c.types[i].Record? && !c.types[i].Variant? && !c.types[i].Service?
    modifies notes
    ensures notes.Valid() && NotedIn(c, notes.noted, i, |StoredRefs(c.types[i])|)
  {
    hide NotedIn, StoredRefs;
    var refs := StoredRefs(c.types[i]);
    for k := 0 to |refs|
      invariant notes.Valid() && NotedIn(c, notes.noted, i, k)
    {
      ghost var before := notes.noted;
      if refs[k] >= |c.types| { notes.Push(DanglingRef(i, k)); }
      RefViolations(c, i, k);
      PartNoted(c, before, notes.noted, i, k, if refs[k] >= |c.types| then [DanglingRef(i, k)] else []);
    }
  }

  lemma RefViolations(c: Contract, i: nat, k: nat)
    requires i < |c.types| && k < |StoredRefs(c.types[i])|
    requires !c.types[i].Record? && !c.types[i].Variant? && !c.types[i].Service?
    ensures forall v :: v in (if StoredRefs(c.types[i])[k] >= |c.types| then [DanglingRef(i, k)] else [])
                        <==> Violates(c, v) && Phase(v) == 1 && Place(v) == i && ByPart(v) && Part(v) == k
  {
    hide StoredRefs;
  }

  function FieldViolations(i: nat, k: nat, repeated: bool, dangling: bool): seq<Violation> {
    (if repeated then [DuplicateFieldId(i, k)] else []) + (if dangling then [DanglingRef(i, k)] else [])
  }

  lemma FieldViolationsAre(c: Contract, i: nat, k: nat, repeated: bool)
    requires i < |c.types| && (c.types[i].Record? || c.types[i].Variant?) && k < |c.types[i].fields|
    requires repeated <==> RepeatedId(c.types[i].fields, k)
    ensures forall v :: v in FieldViolations(i, k, repeated, c.types[i].fields[k].ty >= |c.types|)
                        <==> Violates(c, v) && Phase(v) == 1 && Place(v) == i && ByPart(v) && Part(v) == k
  {
    FieldRules(c, i, k);
    hide Violates, StoredRefs, RepeatedId, Phase, Place, Part, ByPart;
    forall v
      ensures v in FieldViolations(i, k, repeated, c.types[i].fields[k].ty >= |c.types|)
              <==> Violates(c, v) && Phase(v) == 1 && Place(v) == i && ByPart(v) && Part(v) == k
    {
      NotOfMethods(c, i, v);
      PartForms(v, i, k);
    }
  }

  lemma FieldRules(c: Contract, i: nat, k: nat)
    requires i < |c.types| && (c.types[i].Record? || c.types[i].Variant?) && k < |c.types[i].fields|
    ensures Violates(c, DuplicateFieldId(i, k)) <==> RepeatedId(c.types[i].fields, k)
    ensures Violates(c, DanglingRef(i, k)) <==> c.types[i].fields[k].ty >= |c.types|
  {
    assert StoredRefs(c.types[i])[k] == c.types[i].fields[k].ty;
  }

  lemma NotOfMethods(c: Contract, i: nat, v: Violation)
    requires i < |c.types| && !c.types[i].Service?
    ensures Violates(c, v) && Phase(v) == 1 && Place(v) == i ==>
              !v.EmptyMethodName? && !v.DuplicateMethodName? && !v.MethodIdMismatch? && !v.MethodNotFunction?
  {
  }

  method CheckField(c: Contract, i: nat, k: nat, f: Field, repeated: bool, notes: ViolationCollector)
    requires notes.Valid()
    modifies notes
    ensures notes.Valid() && notes.noted == old(notes.noted) + FieldViolations(i, k, repeated, f.ty >= |c.types|)
  {
    hide Display;
    if repeated { notes.Push(DuplicateFieldId(i, k)); }
    if f.ty >= |c.types| { notes.Push(DanglingRef(i, k)); }
  }

  /** The identifiers before a position are seen. */
  ghost predicate IdsSeen(fields: seq<Field>, k: nat, seen: set<u32>) {
    forall id :: id in seen <==> exists j :: 0 <= j < k && j < |fields| && fields[j].id == id
  }

  ghost predicate RepeatedId(fields: seq<Field>, k: nat) {
    k < |fields| && exists j :: 0 <= j < k && fields[j].id == fields[k].id
  }

  lemma IdSeen(fields: seq<Field>, k: nat, seen: set<u32>)
    requires k < |fields| && IdsSeen(fields, k, seen)
    ensures fields[k].id in seen <==> RepeatedId(fields, k)
    ensures IdsSeen(fields, k + 1, seen + {fields[k].id})
  {
  }

  lemma NoIdSeen(fields: seq<Field>)
    ensures IdsSeen(fields, 0, {})
  {
  }

  method CheckFields(c: Contract, i: nat, fields: seq<Field>, notes: ViolationCollector)
    requires notes.Valid() && i < |c.types| && NotedIn(c, notes.noted, i, 0)
    requires (c.types[i].Record? || c.types[i].Variant?) && fields == c.types[i].fields
    modifies notes
    ensures notes.Valid() && NotedIn(c, notes.noted, i, |fields|)
  {
    hide NotedIn, Violates, Phase, Place, Part, ByPart, StoredRefs, Display, FieldViolations, IdsSeen, RepeatedId;
    var seen: set<u32> := {};
    NoIdSeen(fields);
    for k := 0 to |fields|
      invariant notes.Valid() && NotedIn(c, notes.noted, i, k) && IdsSeen(fields, k, seen)
    {
      ghost var before := notes.noted;
      IdSeen(fields, k, seen);
      var repeated := fields[k].id in seen;
      seen := seen + {fields[k].id};
      CheckField(c, i, k, fields[k], repeated, notes);
      FieldViolationsAre(c, i, k, repeated);
      PartNoted(c, before, notes.noted, i, k, FieldViolations(i, k, repeated, fields[k].ty >= |c.types|));
    }
  }

  function MethodViolations(c: Contract, i: nat, k: nat, m: ServiceMethod, repeated: bool): seq<Violation> {
    (if m.name == [] then [EmptyMethodName(i, k)] else [])
    + (if repeated then [DuplicateMethodName(i, k)] else [])
    + (if m.id != NameHash(m.name) then [MethodIdMismatch(i, k)] else [])
    + FunctionViolations(c, i, k, m)
  }

  lemma MethodViolationsAre(c: Contract, i: nat, k: nat, repeated: bool)
    requires HasMethod(c, i, k) && (repeated <==> RepeatedName(NamesOf(c.types[i].methods), k))
    ensures forall v :: v in MethodViolations(c, i, k, c.types[i].methods[k], repeated)
                        <==> Violates(c, v) && Phase(v) == 1 && Place(v) == i && ByPart(v) && Part(v) == k
  {
    var m := c.types[i].methods[k];
    MethodRules(c, i, k);
    MethodMembers(c, i, k, m, repeated);
    hide Violates, RepeatedName, NamesOf, NameHash, StoredRefs, MethodViolations, Phase, Place, Part, ByPart;
    forall v
      ensures v in MethodViolations(c, i, k, m, repeated)
              <==> Violates(c, v) && Phase(v) == 1 && Place(v) == i && ByPart(v) && Part(v) == k
    {
      NotOfFields(c, i, v);
      PartForms(v, i, k);
    }
  }

  /** What is noted of a method. */
  lemma MethodMembers(c: Contract, i: nat, k: nat, m: ServiceMethod, repeated: bool)
    ensures forall v :: v in MethodViolations(c, i, k, m, repeated) <==>
              || (v == EmptyMethodName(i, k) && m.name == [])
              || (v == DuplicateMethodName(i, k) && repeated)
              || (v == MethodIdMismatch(i, k) && m.id != NameHash(m.name))
              || (v == DanglingRef(i, k) && m.function_ >= |c.types|)
              || (v == MethodNotFunction(i, k) && m.function_ < |c.types| && !c.types[m.function_].Func?)
  {
    hide NameHash;
  }

  lemma PartForms(v: Violation, i: nat, k: nat)
    ensures Phase(v) == 1 && Place(v) == i && ByPart(v) && Part(v) == k <==>
            || v == EmptyMethodName(i, k) || v == DuplicateMethodName(i, k) || v == MethodIdMismatch(i, k)
            || v == DanglingRef(i, k) || v == MethodNotFunction(i, k) || v == DuplicateFieldId(i, k)
  {
  }

  lemma MethodRules(c: Contract, i: nat, k: nat)
    requires HasMethod(c, i, k)
    ensures var m := c.types[i].methods[k];
            && (Violates(c, EmptyMethodName(i, k)) <==> m.name == [])
            && (Violates(c, DuplicateMethodName(i, k)) <==> RepeatedName(NamesOf(c.types[i].methods), k))
            && (Violates(c, MethodIdMismatch(i, k)) <==> m.id != NameHash(m.name))
            && (Violates(c, DanglingRef(i, k)) <==> m.function_ >= |c.types|)
            && (Violates(c, MethodNotFunction(i, k)) <==> m.function_ < |c.types| && !c.types[m.function_].Func?)
  {
    hide RepeatedName, NamesOf, NameHash;
    assert StoredRefs(c.types[i])[k] == c.types[i].methods[k].function_;
  }

  lemma NotOfFields(c: Contract, i: nat, v: Violation)
    requires i < |c.types| && c.types[i].Service?
    ensures v.DuplicateFieldId? && v.at == i ==> !Violates(c, v)
  {
  }

  method CheckMethod(c: Contract, i: nat, k: nat, m: ServiceMethod, repeated: bool, notes: ViolationCollector)
    requires notes.Valid()
    modifies notes
    ensures notes.Valid() && notes.noted == old(notes.noted) + MethodViolations(c, i, k, m, repeated)
  {
    hide Display, NameHash;
    if m.name == [] { notes.Push(EmptyMethodName(i, k)); }
    if repeated { notes.Push(DuplicateMethodName(i, k)); }
    if m.id != NameHash(m.name) { notes.Push(MethodIdMismatch(i, k)); }
    CheckFunction(c, i, k, m, notes);
  }

  function FunctionViolations(c: Contract, i: nat, k: nat, m: ServiceMethod): seq<Violation> {
    if m.function_ >= |c.types| then [DanglingRef(i, k)]
    else if !c.types[m.function_].Func? then [MethodNotFunction(i, k)]
    else []
  }

  method CheckFunction(c: Contract, i: nat, k: nat, m: ServiceMethod, notes: ViolationCollector)
    requires notes.Valid()
    modifies notes
    ensures notes.Valid() && notes.noted == old(notes.noted) + FunctionViolations(c, i, k, m)
  {
    hide Display;
    if m.function_ >= |c.types| {
      notes.Push(DanglingRef(i, k));
    } else if !c.types[m.function_].Func? {
      notes.Push(MethodNotFunction(i, k));
    }
  }

  method CheckMethods(c: Contract, i: nat, methods: seq<ServiceMethod>, notes: ViolationCollector)
    requires notes.Valid() && i < |c.types| && NotedIn(c, notes.noted, i, 0)
    requires c.types[i] == Service(methods)
    modifies notes
    ensures notes.Valid() && NotedIn(c, notes.noted, i, |methods|)
  {
    hide NotedIn, Violates, Phase, Place, Part, ByPart, StoredRefs, RepeatedName, NameHash, Display, MethodViolations;
    ghost var names := NamesOf(methods);
    var seen: set<Bytes.Text> := {};
    for k := 0 to |methods|
      invariant notes.Valid() && NotedIn(c, notes.noted, i, k)
      invariant forall n :: n in seen <==> n in names[..k]
    {
      ghost var before := notes.noted;
      var m := methods[k];
      RepeatsSeen(names, k, seen);
      var repeated := m.name in seen;
      seen := seen + {m.name};
      CheckMethod(c, i, k, m, repeated, notes);
      MethodViolationsAre(c, i, k, repeated);
      PartNoted(c, before, notes.noted, i, k, MethodViolations(c, i, k, m, repeated));
    }
  }

  function PartsOf(node: TypeNode): nat { |StoredRefs(node)| }

  lemma PartsEnd(c: Contract, i: nat)
    requires i < |c.types|
    ensures forall v :: Violates(c, v) && Phase(v) == 1 && Place(v) == i && ByPart(v) ==> Part(v) < PartsOf(c.types[i])
    ensures c.types[i].Record? || c.types[i].Variant? ==> PartsOf(c.types[i]) == |c.types[i].fields|
    ensures c.types[i].Service? ==> PartsOf(c.types[i]) == |c.types[i].methods|
  {
    hide RepeatedName, NameHash;
  }

  /** `validate_node`. */
  method CheckNode(c: Contract, i: nat, notes: ViolationCollector)
    requires notes.Valid() && i < |c.types| && NotedTo(c, notes.noted, 1, i)
    modifies notes
    ensures notes.Valid() && NotedTo(c, notes.noted, 1, i + 1)
  {
    hide NotedTo, NotedIn, Phase, Place, Part, ByPart, StoredRefs, RepeatedName, NameHash, PartsOf;
    NodeStarts(c, notes.noted, i);
    PartsEnd(c, i);
    var node := c.types[i];
    if node.Record? || node.Variant? {
      CheckFields(c, i, node.fields, notes);
    } else if node.Service? {
      CheckMethods(c, i, node.methods, notes);
    } else {
      CheckRefs(c, i, notes);
      PartsAre(node);
    }
    ghost var before := notes.noted;
    if node.Func? && node.mode == Oneway && node.results != [] { notes.Push(OnewayHasResults(i)); }
    if node.Class? && node.service < |c.types| && !c.types[node.service].Service? { notes.Push(ClassServiceNotService(i)); }
    NodeEnds(c, before, notes.noted, i, PartsOf(node));
  }

  lemma PartsAre(node: TypeNode)
    ensures PartsOf(node) == |StoredRefs(node)|
  {
  }

  method CheckNodes(c: Contract, notes: ViolationCollector)
    requires notes.Valid() && NotedTo(c, notes.noted, 1, 0)
    modifies notes
    ensures notes.Valid() && NotedTo(c, notes.noted, 2, 0)
  {
    hide NotedTo;
    for i := 0 to |c.types|
      invariant notes.Valid() && NotedTo(c, notes.noted, 1, i)
    {
      CheckNode(c, i, notes);
    }
    NodesEnd(c);
    NextPhase(c, notes.noted, 1, |c.types|);
  }

  lemma NodesEnd(c: Contract)
    ensures forall v :: Violates(c, v) && Phase(v) == 1 ==> Place(v) < |c.types|
  {
    hide RepeatedName, NameHash, StoredRefs;
  }

  // ----- the actor and classes -----

  lemma WholePhase(c: Contract, before: seq<Violation>, after: seq<Violation>, phase: nat, new_: seq<Violation>)
    requires NotedTo(c, before, phase, 0) && after == before + new_
    requires forall v :: v in new_ <==> Violates(c, v) && Phase(v) == phase
    ensures NotedTo(c, after, phase + 1, 0)
  {
    hide Violates, Phase, Place;
    forall v ensures v in after <==> Earlier(c, v, phase + 1) || AtPlaces(c, v, phase + 1, 0) {
      assert v in before <==> Earlier(c, v, phase) || AtPlaces(c, v, phase, 0);
    }
  }

  /** One more place of a phase. */
  lemma PlaceNoted(c: Contract, before: seq<Violation>, after: seq<Violation>, phase: nat, i: nat, new_: seq<Violation>)
    requires NotedTo(c, before, phase, i) && after == before + new_
    requires forall v :: v in new_ <==> Violates(c, v) && Phase(v) == phase && Place(v) == i
    ensures NotedTo(c, after, phase, i + 1)
  {
    hide Violates, Phase, Place;
    forall v ensures v in after <==> Earlier(c, v, phase) || AtPlaces(c, v, phase, i + 1) {
      assert v in before <==> Earlier(c, v, phase) || AtPlaces(c, v, phase, i);
    }
  }

  function ActorViolations(c: Contract): seq<Violation> {
    match c.actor
    case None => []
    case Some(actor) =>
      if actor.target >= |c.types| then [DanglingActor]
      else if actor.ServiceActor? && !c.types[actor.target].Service? then [ActorServiceNotService]
      else if actor.ClassActor? && !c.types[actor.target].Class? then [ActorClassNotClass]
      else []
  }

  lemma ActorViolationsAre(c: Contract)
    ensures forall v :: v in ActorViolations(c) <==> Violates(c, v) && Phase(v) == 2
  {
  }

  /** `validate_actor`. */
  method CheckActor(c: Contract, notes: ViolationCollector)
    requires notes.Valid() && NotedTo(c, notes.noted, 2, 0)
    modifies notes
    ensures notes.Valid() && NotedTo(c, notes.noted, 3, 0)
  {
    hide NotedTo, Violates, Phase, Display;
    ghost var before := notes.noted;
    ActorViolationsAre(c);
    if c.actor.Some? {
      var target := c.actor.value.target;
      if target >= |c.types| {
        notes.Push(DanglingActor);
      } else if c.actor.value.ServiceActor? {
        if !c.types[target].Service? { notes.Push(ActorServiceNotService); }
      } else if !c.types[target].Class? {
        notes.Push(ActorClassNotClass);
      }
    }
    assert notes.noted == before + ActorViolations(c);
    WholePhase(c, before, notes.noted, 2, ActorViolations(c));
  }

  lemma ClassRules(c: Contract, i: nat)
    ensures forall v :: v in (if IsClass(c, i) && c.actor != Some(ClassActor(i)) then [ClassNotActorRoot(i)] else [])
                        <==> Violates(c, v) && Phase(v) == 3 && Place(v) == i
    ensures forall v :: v in (if i < |c.declarations| && IsClass(c, c.declarations[i].ty) then [DeclaredClass(i)] else [])
                        <==> Violates(c, v) && Phase(v) == 4 && Place(v) == i
  {
  }

  lemma ClassesEnd(c: Contract)
    ensures forall v :: Violates(c, v) && Phase(v) == 3 ==> Place(v) < |c.types|
    ensures forall v :: Violates(c, v) && Phase(v) == 4 ==> Place(v) < |c.declarations|
    ensures forall v :: Violates(c, v) && Phase(v) == 5 ==> Place(v) < |c.types| && Part(v) < |StoredRefs(c.types[Place(v)])|
  {
    hide StoredRefs;
  }

  /** The class nodes and the declarations of classes. */
  method CheckClasses(c: Contract, notes: ViolationCollector)
    requires notes.Valid() && NotedTo(c, notes.noted, 3, 0)
    modifies notes
    ensures notes.Valid() && NotedTo(c, notes.noted, 5, 0)
  {
    hide NotedTo, Violates, Phase, Place, Display;
    ClassesEnd(c);
    for i := 0 to |c.types|
      invariant notes.Valid() && NotedTo(c, notes.noted, 3, i)
    {
      ghost var before := notes.noted;
      ClassRules(c, i);
      if c.types[i].Class? && c.actor != Some(ClassActor(i)) { notes.Push(ClassNotActorRoot(i)); }
      PlaceNoted(c, before, notes.noted, 3, i,
                 if IsClass(c, i) && c.actor != Some(ClassActor(i)) then [ClassNotActorRoot(i)] else []);
    }
    NextPhase(c, notes.noted, 3, |c.types|);
    for i := 0 to |c.declarations|
      invariant notes.Valid() && NotedTo(c, notes.noted, 4, i)
    {
      ghost var before := notes.noted;
      ClassRules(c, i);
      if IsClass(c, c.declarations[i].ty) { notes.Push(DeclaredClass(i)); }
      PlaceNoted(c, before, notes.noted, 4, i,
                 if i < |c.declarations| && IsClass(c, c.declarations[i].ty) then [DeclaredClass(i)] else []);
    }
    NextPhase(c, notes.noted, 4, |c.declarations|);
  }

  /** Edges to classes up to one of a node. */
  ghost predicate EdgesTo(c: Contract, noted: seq<Violation>, i: nat, k: nat) {
    forall v :: v in noted <==>
      Earlier(c, v, 5) || AtPlaces(c, v, 5, i) || (Violates(c, v) && Phase(v) == 5 && Place(v) == i && Part(v) < k)
  }

  lemma EdgesStart(c: Contract, noted: seq<Violation>, i: nat)
    requires NotedTo(c, noted, 5, i)
    ensures EdgesTo(c, noted, i, 0)
  {
    hide Violates, Phase, Place, Part;
    forall v ensures v in noted <==> Earlier(c, v, 5) || AtPlaces(c, v, 5, i) {}
  }

  lemma EdgesEnd(c: Contract, noted: seq<Violation>, i: nat)
    requires i < |c.types| && EdgesTo(c, noted, i, |StoredRefs(c.types[i])|)
    ensures NotedTo(c, noted, 5, i + 1)
  {
    ClassesEnd(c);
    hide Violates, Phase, Place, Part, StoredRefs;
    forall v ensures v in noted <==> Earlier(c, v, 5) || AtPlaces(c, v, 5, i + 1) {
      assert v in noted <==> Earlier(c, v, 5) || AtPlaces(c, v, 5, i)
                             || (Violates(c, v) && Phase(v) == 5 && Place(v) == i && Part(v) < |StoredRefs(c.types[i])|);
    }
  }

  lemma EdgeNoted(c: Contract, before: seq<Violation>, after: seq<Violation>, i: nat, k: nat)
    requires HasPart(c, i, k) && EdgesTo(c, before, i, k)
    requires after == before + (if IsClass(c, StoredRefs(c.types[i])[k]) then [ClassThroughEdge(i, k)] else [])
    ensures EdgesTo(c, after, i, k + 1)
  {
    EdgeRule(c, i, k);
    hide Violates, Phase, Place, Part, StoredRefs, IsClass;
    forall v
      ensures v in after <==>
              Earlier(c, v, 5) || AtPlaces(c, v, 5, i) || (Violates(c, v) && Phase(v) == 5 && Place(v) == i && Part(v) < k + 1)
    {
      assert v in before <==>
             Earlier(c, v, 5) || AtPlaces(c, v, 5, i) || (Violates(c, v) && Phase(v) == 5 && Place(v) == i && Part(v) < k);
    }
  }

  lemma EdgeRule(c: Contract, i: nat, k: nat)
    requires HasPart(c, i, k)
    ensures forall v :: v in (if IsClass(c, StoredRefs(c.types[i])[k]) then [ClassThroughEdge(i, k)] else [])
                        <==> Violates(c, v) && Phase(v) == 5 && Place(v) == i && Part(v) == k
  {
    hide StoredRefs;
  }

  method CheckEdges(c: Contract, notes: ViolationCollector)
    requires notes.Valid() && NotedTo(c, notes.noted, 5, 0)
    modifies notes
    ensures notes.Valid() && NotedTo(c, notes.noted, 6, 0)
  {
    hide NotedTo, EdgesTo, Violates, Phase, Place, Display, StoredRefs;
    ClassesEnd(c);
    for i := 0 to |c.types|
      invariant notes.Valid() && NotedTo(c, notes.noted, 5, i)
    {
      var refs := StoredRefs(c.types[i]);
      EdgesStart(c, notes.noted, i);
      for k := 0 to |refs|
        invariant notes.Valid() && EdgesTo(c, notes.noted, i, k)
      {
        ghost var before := notes.noted;
        if IsClass(c, refs[k]) { notes.Push(ClassThroughEdge(i, k)); }
        EdgeNoted(c, before, notes.noted, i, k);
      }
      EdgesEnd(c, notes.noted, i);
    }
    NextPhase(c, notes.noted, 5, |c.types|);
  }

  // ----- reachability -----

  /** Marked nodes are reached, and what is reached from them is marked or
      waits. */
  ghost predicate Searching(c: Contract, marks: seq<bool>, work: seq<TypeRef>) {
    && |marks| == |c.types|
    && (forall i :: 0 <= i < |marks| && marks[i] ==> Reached(c, i))
    && (forall r :: r in work ==> r < |c.types| && Reached(c, r))
    && (forall r :: r in Roots(c) && r < |c.types| ==> marks[r] || r in work)
    && forall u: nat, w: nat :: (u, w) in InnerEdges(c.types) && u < |marks| && marks[u] ==> w < |marks| && (marks[w] || w in work)
  }

  lemma RootReached(c: Contract, r: TypeRef)
    requires r in Roots(c) && r < |c.types|
    ensures Reached(c, r)
  {
    var p: seq<nat> := [r];
    assert Walk(InnerEdges(c.types), p) && p[0] == r && p[|p| - 1] == r;
    assert Reach(InnerEdges(c.types), r, r);
  }

  lemma EdgeReached(c: Contract, u: nat, w: nat)
    requires Reached(c, u) && (u, w) in InnerEdges(c.types)
    ensures Reached(c, w)
  {
    var e := InnerEdges(c.types);
    hide InnerEdges;
    var r :| r in Roots(c) && r < |c.types| && Reach(e, r, u);
    var p :| Walk(e, p) && p[0] == r && p[|p| - 1] == u;
    var q := p + [w];
    assert Walk(e, q) && q[0] == r && q[|q| - 1] == w;
    assert Reach(e, r, w);
  }

  /** With nothing waiting, the marks are what is reached. */
  lemma AllMarked(c: Contract, marks: seq<bool>, i: nat)
    requires Searching(c, marks, []) && i < |c.types|
    ensures marks[i] <==> Reached(c, i)
  {
    if Reached(c, i) {
      var r :| r in Roots(c) && r < |c.types| && Reach(InnerEdges(c.types), r, i);
      var p :| Walk(InnerEdges(c.types), p) && p[0] == r && p[|p| - 1] == i;
      WalkMarked(c, marks, p);
    }
  }

  lemma {:induction false} WalkMarked(c: Contract, marks: seq<bool>, p: seq<nat>)
    requires Searching(c, marks, []) && Walk(InnerEdges(c.types), p) && p[0] < |c.types| && marks[p[0]]
    ensures p[|p| - 1] < |marks| && marks[p[|p| - 1]]
  {
    hide InnerEdges, Reached;
    if |p| > 1 {
      var n := |p| - 1;
      assert (p[n - 1], p[n - 1 + 1]) in InnerEdges(c.types);
      forall k | 0 <= k < n - 1 ensures (p[..n][k], p[..n][k + 1]) in InnerEdges(c.types) {
        assert (p[k], p[k + 1]) in InnerEdges(c.types);
      }
      WalkMarked(c, marks, p[..n]);
    }
  }

  ghost function Unmarked(marks: seq<bool>): set<nat> { set i: nat | i < |marks| && !marks[i] }

  lemma FewerUnmarked(marks: seq<bool>, i: nat)
    requires i < |marks| && !marks[i]
    ensures Unmarked(marks[i := true]) < Unmarked(marks)
  {
    assert i in Unmarked(marks) && i !in Unmarked(marks[i := true]);
  }

  /** Taking a marked node off the queue. */
  lemma TakeMarked(c: Contract, marks: seq<bool>, work: seq<TypeRef>)
    requires work != [] && Searching(c, marks, work) && work[0] < |marks| && marks[work[0]]
    ensures Searching(c, marks, work[1..])
  {
    hide InnerEdges, Reached, Roots;
    var rest := work[1..];
    assert work == [work[0]] + rest;
    forall r | r in rest ensures r in work {}
    forall r | r in Roots(c) && r < |c.types| ensures marks[r] || r in rest {
      if r !in rest { assert r in work ==> r == work[0]; }
    }
    forall u: nat, w: nat | (u, w) in InnerEdges(c.types) && u < |marks| && marks[u] ensures w < |marks| && (marks[w] || w in rest) {
      if w !in rest { assert w in work ==> w == work[0]; }
    }
  }

  /** Marking the node at the front and queueing what it refers to. */
  lemma TakeNew(c: Contract, marks: seq<bool>, work: seq<TypeRef>, added: seq<TypeRef>)
    requires work != [] && Searching(c, marks, work)
    requires work[0] < |c.types| && forall x :: x in added <==> x < |c.types| && x in StoredRefs(c.types[work[0]]) && !marks[work[0] := true][x]
    ensures Searching(c, marks[work[0] := true], work[1..] + added)
  {
    var v, more, rest := work[0], marks[work[0] := true], work[1..] + added;
    assert work == [v] + work[1..] && v in work;
    forall w: nat ensures (v, w) in InnerEdges(c.types) <==> w < |c.types| && w in StoredRefs(c.types[v]) {}
    hide InnerEdges, StoredRefs, Reached;
    forall r | r in rest ensures r < |c.types| && Reached(c, r) {
      if r in added { EdgeReached(c, v, r); } else { assert r in work; }
    }
    forall u: nat, w: nat | (u, w) in InnerEdges(c.types) && u < |more| && more[u] ensures w < |more| && (more[w] || w in rest) {
      if u != v { assert marks[u]; }
    }
  }

  /** What a node refers to that is in range and not marked. */
  method Unvisited(c: Contract, marks: seq<bool>, refs: seq<TypeRef>) returns (added: seq<TypeRef>)
    requires |marks| == |c.types|
    ensures forall x :: x in added <==> x < |c.types| && x in refs && !marks[x]
  {
    added := [];
    for k := 0 to |refs|
      invariant forall x :: x in added <==> x < |c.types| && x in refs[..k] && !marks[x]
    {
      assert refs[..k + 1] == refs[..k] + [refs[k]];
      if refs[k] < |c.types| && !marks[refs[k]] { added := added + [refs[k]]; }
    }
    assert refs[..|refs|] == refs;
  }

  /** The queue of `validate_reachability`. */
  method MarkReached(c: Contract) returns (marks: seq<bool>)
    ensures |marks| == |c.types| && forall i: nat :: i < |c.types| ==> (marks[i] <==> Reached(c, i))
  {
    hide Searching, Reached, StoredRefs, Roots;
    marks := seq(|c.types|, _ => false);
    var work := RootsWithin(c);
    SearchStarts(c, marks, work);
    while work != []
      invariant |marks| == |c.types| && Searching(c, marks, work)
      decreases Unmarked(marks), |work|
    {
      WorkInRange(c, marks, work);
      var reference := work[0];
      if marks[reference] {
        TakeMarked(c, marks, work);
        work := work[1..];
      } else {
        var added := Unvisited(c, marks[reference := true], StoredRefs(c.types[reference]));
        TakeNew(c, marks, work, added);
        FewerUnmarked(marks, reference);
        marks := marks[reference := true];
        work := work[1..] + added;
      }
    }
    forall i: nat | i < |c.types| ensures marks[i] <==> Reached(c, i) { AllMarked(c, marks, i); }
  }

  lemma WorkInRange(c: Contract, marks: seq<bool>, work: seq<TypeRef>)
    requires Searching(c, marks, work) && work != []
    ensures work[0] < |marks| == |c.types|
  {
    assert work[0] in work;
  }

  lemma SearchStarts(c: Contract, marks: seq<bool>, work: seq<TypeRef>)
    requires |marks| == |c.types| && (forall i :: 0 <= i < |marks| ==> !marks[i])
    requires forall x :: x in work <==> x in Roots(c) && x < |c.types|
    ensures Searching(c, marks, work)
  {
    hide Reached, InnerEdges, Roots;
    forall r | r in work ensures Reached(c, r) { RootReached(c, r); }
  }

  method RootsWithin(c: Contract) returns (work: seq<TypeRef>)
    ensures forall x :: x in work <==> x in Roots(c) && x < |c.types|
  {
    hide Roots;
    var roots := Roots(c);
    work := [];
    for k := 0 to |roots|
      invariant forall x :: x in work <==> x in roots[..k] && x < |c.types|
    {
      assert roots[..k + 1] == roots[..k] + [roots[k]];
      if roots[k] < |c.types| { work := work + [roots[k]]; }
    }
    assert roots[..|roots|] == roots;
  }

  lemma ReachabilityRules(c: Contract)
    ensures forall v :: Violates(c, v) && Phase(v) == 6 <==>
              (v == RootlessArena && c.types != [] && Roots(c) == [])
              || (v.OrphanNode? && v.at < |c.types| && Roots(c) != [] && !Reached(c, v.at))
  {
    hide Reached, Roots;
  }

  lemma OrphanRule(c: Contract, i: nat)
    requires i < |c.types| && Roots(c) != []
    ensures forall v :: v in (if Reached(c, i) then [] else [OrphanNode(i)]) <==> Violates(c, v) && Phase(v) == 6 && Place(v) == i
  {
    hide Reached, Roots;
  }

  /** `validate_reachability`. */
  method CheckReachability(c: Contract, notes: ViolationCollector)
    requires notes.Valid() && NotedTo(c, notes.noted, 6, 0)
    modifies notes
    ensures notes.Valid() && NotedTo(c, notes.noted, 7, 0)
  {
    hide NotedTo, Violates, Phase, Place, Display, Reached, Roots;
    ReachabilityRules(c);
    if c.types == [] {
      WholePhase(c, notes.noted, notes.noted, 6, []);
      return;
    }
    ghost var first := notes.noted;
    if Roots(c) == [] {
      notes.Push(RootlessArena);
      WholePhase(c, first, notes.noted, 6, [RootlessArena]);
      return;
    }
    var marks := MarkReached(c);
    for i := 0 to |c.types|
      invariant notes.Valid() && NotedTo(c, notes.noted, 6, i)
    {
      ghost var before := notes.noted;
      OrphanRule(c, i);
      if !marks[i] { notes.Push(OrphanNode(i)); }
      PlaceNoted(c, before, notes.noted, 6, i, if Reached(c, i) then [] else [OrphanNode(i)]);
    }
    OrphansEnd(c);
    NextPhase(c, notes.noted, 6, |c.types|);
  }

  lemma OrphansEnd(c: Contract)
    requires Roots(c) != []
    ensures forall v :: Violates(c, v) && Phase(v) == 6 ==> Place(v) < |c.types|
  {
    hide Reached, Roots;
  }

  // ----- the whole validation -----

  /** `validate_structure_with_budget` past the resource limits and the header. */
  method Validate(c: Contract, limit: nat) returns (r: Result<(), seq<Item>>)
    ensures r.Ok? <==> forall v :: !Violates(c, v)
    ensures r.Err? ==> exists noted :: r.error == Display(limit, noted) && forall v :: v in noted <==> Violates(c, v)
  {
    hide NotedTo, Violates, Display;
    var notes := new ViolationCollector(limit);
    CheckDeclarations(c, notes);
    CheckNodes(c, notes);
    CheckActor(c, notes);
    CheckClasses(c, notes);
    CheckEdges(c, notes);
    CheckReachability(c, notes);
    EveryPhase(c, notes.noted);
    if notes.observed == 0 {
      assert notes.noted == [];
      return Ok(());
    }
    assert notes.noted[0] in notes.noted;
    r := Err(notes.violations);
  }

  lemma EveryPhase(c: Contract, noted: seq<Violation>)
    requires NotedTo(c, noted, 7, 0)
    ensures forall v :: v in noted <==> Violates(c, v)
  {
    hide Violates;
    forall v ensures v in noted <==> Violates(c, v) { assert v in noted <==> Earlier(c, v, 7) || AtPlaces(c, v, 7, 0); }
  }

  // ----- the rules are the precondition of canonicalization -----

  /** Counts and lengths that 32 bits hold, as the resource limits ensure. */
  ghost predicate Sized(c: Contract) {
    |c.types| <= U32_LIMIT && forall i :: 0 <= i < |c.types| ==> SizedNode(c.types[i])
  }

  ghost predicate SizedNode(node: TypeNode) {
    match node
    case Record(fields) => |fields| < U32_LIMIT
    case Variant(fields) => |fields| < U32_LIMIT
    case Func(args, results, _) => |args| < U32_LIMIT && |results| < U32_LIMIT
    case Service(methods) => |methods| < U32_LIMIT && forall m :: m in methods ==> |m.name| < U32_LIMIT
    case Class(init, _) => |init| < U32_LIMIT
    case _ => true
  }

  ghost predicate Clean(c: Contract) { forall v :: !Violates(c, v) }

  lemma CleanDeclarations(c: Contract)
    ensures Clean(c) ==> ValidDeclarations(c)
  {
    if Clean(c) {
      forall d | d in c.declarations ensures d.name != [] && d.ty < |c.types| && !c.types[d.ty].Class? {
        var i :| 0 <= i < |c.declarations| && c.declarations[i] == d;
        assert !Violates(c, EmptyDeclarationName(i)) && !Violates(c, DanglingDeclaration(i)) && !Violates(c, DeclaredClass(i));
      }
      forall i, j | 0 <= i < j < |c.declarations| ensures c.declarations[i].name != c.declarations[j].name {
        assert !Violates(c, DuplicateDeclarationName(j));
        assert DeclaredNames(c)[i] == c.declarations[i].name && DeclaredNames(c)[j] == c.declarations[j].name;
      }
    }
  }

  lemma CleanParts(c: Contract, i: nat)
    requires Clean(c) && i < |c.types|
    ensures forall x :: x in StoredRefs(c.types[i]) ==> x < |c.types| && !c.types[x].Class?
  {
    forall x | x in StoredRefs(c.types[i]) ensures x < |c.types| && !c.types[x].Class? {
      var k :| 0 <= k < |StoredRefs(c.types[i])| && StoredRefs(c.types[i])[k] == x;
      assert !Violates(c, DanglingRef(i, k)) && !Violates(c, ClassThroughEdge(i, k));
    }
  }

  lemma CleanLocally(c: Contract, i: nat)
    requires Clean(c) && i < |c.types| && SizedNode(c.types[i])
    ensures ValidLocally(c.types[i])
  {
    hide NameHash, StoredRefs;
    var node := c.types[i];
    match node
    case Record(fields) => CleanFields(c, i, fields);
    case Variant(fields) => CleanFields(c, i, fields);
    case Func(_, _, _) => assert !Violates(c, OnewayHasResults(i));
    case Service(methods) => CleanMethods(c, i, methods);
    case _ =>
  }

  lemma CleanFields(c: Contract, i: nat, fields: seq<Field>)
    requires Clean(c) && i < |c.types| && (c.types[i].Record? || c.types[i].Variant?) && fields == c.types[i].fields
    ensures DistinctIds(fields)
  {
    hide NameHash, StoredRefs, Clean;
    forall j, k | 0 <= j < k < |fields| ensures fields[j].id != fields[k].id { assert !Violates(c, DuplicateFieldId(i, k)) by { IsClean(c, DuplicateFieldId(i, k)); } }
  }

  lemma IsClean(c: Contract, v: Violation)
    requires Clean(c)
    ensures !Violates(c, v)
  {
  }

  lemma CleanMethods(c: Contract, i: nat, methods: seq<ServiceMethod>)
    requires Clean(c) && i < |c.types| && c.types[i] == Service(methods)
    ensures DistinctNames(methods)
    ensures forall m :: m in methods ==> m.name != [] && m.id == NameHash(m.name) && (m.function_ < |c.types| ==> c.types[m.function_].Func?)
  {
    hide NameHash, StoredRefs, Clean;
    forall j, k | 0 <= j < k < |methods| ensures methods[j].name != methods[k].name {
      IsClean(c, DuplicateMethodName(i, k));
      assert HasMethod(c, i, k) && NamesOf(methods)[j] == methods[j].name && NamesOf(methods)[k] == methods[k].name;
    }
    forall m | m in methods
      ensures m.name != [] && m.id == NameHash(m.name) && (m.function_ < |c.types| ==> c.types[m.function_].Func?)
    {
      var k :| 0 <= k < |methods| && methods[k] == m;
      assert HasMethod(c, i, k);
      IsClean(c, EmptyMethodName(i, k));
      IsClean(c, MethodIdMismatch(i, k));
      IsClean(c, MethodNotFunction(i, k));
    }
  }

  lemma CleanNode(c: Contract, i: nat)
    requires Clean(c) && i < |c.types| && SizedNode(c.types[i])
    ensures ValidNode(c.types, i)
  {
    CleanParts(c, i);
    CleanLocally(c, i);
    hide ValidLocally, NameHash, Clean;
    if c.types[i].Service? {
      CleanMethods(c, i, c.types[i].methods);
      assert StoredRefs(c.types[i]) == MethodFunctions(c.types[i].methods);
      forall x | x in StoredRefs(c.types[i]) ensures c.types[x].Func? {
        var k :| 0 <= k < |c.types[i].methods| && MethodFunctions(c.types[i].methods)[k] == x;
        assert c.types[i].methods[k] in c.types[i].methods;
      }
    }
    if c.types[i].Class? {
      IsClean(c, ClassServiceNotService(i));
      assert c.types[i].service in StoredRefs(c.types[i]);
    }
  }

  lemma CleanActor(c: Contract)
    requires Clean(c)
    ensures ValidActor(c)
    ensures forall i :: 0 <= i < |c.types| && c.types[i].Class? ==> c.actor == Some(ClassActor(i))
  {
    hide Clean;
    IsClean(c, DanglingActor);
    IsClean(c, ActorServiceNotService);
    IsClean(c, ActorClassNotClass);
    forall i | 0 <= i < |c.types| && c.types[i].Class? ensures c.actor == Some(ClassActor(i)) { IsClean(c, ClassNotActorRoot(i)); }
  }

  /** With every reference in range, being reached by edges is being in every
      closed set that holds the roots. */
  lemma ReachedIsReachable(c: Contract, i: nat)
    requires Closed(c.types) && i < |c.types| && forall r :: r in Roots(c) ==> r < |c.types|
    ensures Reached(c, i) <==> Reachable(c.types, Roots(c), i)
  {
    hide Roots;
    if Reached(c, i) {
      var r :| r in Roots(c) && r < |c.types| && Reach(InnerEdges(c.types), r, i);
      var p :| Walk(InnerEdges(c.types), p) && p[0] == r && p[|p| - 1] == i;
      forall s: set<TypeRef> | (forall r :: r in Roots(c) ==> r in s) && ClosedSet(c.types, s) ensures i in s {
        WalkStays(c.types, s, p);
      }
    }
    if Reachable(c.types, Roots(c), i) {
      var s: set<TypeRef> := set j: TypeRef | j < |c.types| && Reached(c, j);
      forall r | r in Roots(c) ensures r in s { RootReached(c, r); }
      ReachedIsClosed(c, s);
    }
  }

  lemma ReachedIsClosed(c: Contract, s: set<TypeRef>)
    requires Closed(c.types) && forall j: TypeRef :: j in s <==> j < |c.types| && Reached(c, j)
    ensures ClosedSet(c.types, s)
  {
    hide Reached;
    forall j, x | j in s && 0 <= j < |c.types| && x in StoredRefs(c.types[j]) ensures x in s {
      assert RefsBelow(c.types[j], |c.types|);
      assert (j, x) in InnerEdges(c.types);
      EdgeReached(c, j, x);
    }
  }

  lemma {:induction false} WalkStays(types: Types, s: set<TypeRef>, p: seq<nat>)
    requires ClosedSet(types, s) && Walk(InnerEdges(types), p) && p[0] in s
    ensures p[|p| - 1] in s
  {
    if |p| > 1 {
      var n := |p| - 1;
      assert (p[n - 1], p[n - 1 + 1]) in InnerEdges(types);
      forall k | 0 <= k < n - 1 ensures (p[..n][k], p[..n][k + 1]) in InnerEdges(types) {
        assert (p[k], p[k + 1]) in InnerEdges(types);
      }
      WalkStays(types, s, p[..n]);
    }
  }

  lemma RootsBelow(c: Contract)
    requires ValidDeclarations(c) && ValidActor(c)
    ensures forall r :: r in Roots(c) ==> r < |c.types|
  {
  }

  lemma CleanReaches(c: Contract)
    requires Clean(c) && Closed(c.types) && ValidDeclarations(c) && ValidActor(c)
    ensures forall i :: 0 <= i < |c.types| ==> Reachable(c.types, Roots(c), i)
  {
    hide Clean, Roots, Reached, Reachable, ValidDeclarations, ValidActor;
    RootsBelow(c);
    IsClean(c, RootlessArena);
    forall i | 0 <= i < |c.types| ensures Reachable(c.types, Roots(c), i) {
      IsClean(c, OrphanNode(i));
      ReachedIsReachable(c, i);
    }
  }

  /** A contract without violations is valid. */
  lemma CleanIsValid(c: Contract)
    requires Clean(c) && Sized(c)
    ensures ValidContract(c)
  {
    hide Clean, Reachable, ValidNode, ValidDeclarations, ValidActor, Roots;
    CleanDeclarations(c);
    CleanActor(c);
    forall i | 0 <= i < |c.types| ensures ValidNode(c.types, i) && RefsBelow(c.types[i], |c.types|) {
      CleanNode(c, i);
      CleanParts(c, i);
    }
    CleanReaches(c);
  }

  /** A valid contract has no violation. */
  lemma ValidIsClean(c: Contract, v: Violation)
    requires ValidContract(c)
    ensures !Violates(c, v)
  {
    if v.OrphanNode? || v.RootlessArena? {
      ValidReaches(c, v);
    } else if Phase(v) == 1 || Phase(v) == 5 {
      if v.at < |c.types| {
        assert ValidNode(c.types, v.at);
        hide Reachable, NameHash, Reached, Roots;
        ValidNodeIsClean(c, v);
      }
    } else {
      hide Reachable, NameHash, Reached, Roots, ValidArena;
    }
  }

  lemma ValidReaches(c: Contract, v: Violation)
    requires ValidContract(c) && (v.OrphanNode? || v.RootlessArena?)
    ensures !Violates(c, v)
  {
    RootsBelow(c);
    hide Reached, Roots;
    if v.OrphanNode? && v.at < |c.types| {
      ReachedIsReachable(c, v.at);
    }
    if v.RootlessArena? && c.types != [] && Roots(c) == [] {
      ReachedIsReachable(c, 0);
      NothingReached(c);
    }
  }

  lemma NothingReached(c: Contract)
    requires Roots(c) == []
    ensures forall i :: !Reached(c, i)
  {
    hide Roots;
  }

  lemma ValidNodeIsClean(c: Contract, v: Violation)
    requires (Phase(v) == 1 || Phase(v) == 5) && v.at < |c.types| && ValidNode(c.types, v.at)
    ensures !Violates(c, v)
  {
    hide NameHash;
    var node := c.types[v.at];
    if v.DanglingRef? || v.ClassThroughEdge? {
      if v.part < |StoredRefs(node)| { assert StoredRefs(node)[v.part] in StoredRefs(node); }
    } else if v.MethodNotFunction? {
      if HasMethod(c, v.at, v.part) {
        assert StoredRefs(node)[v.part] == node.methods[v.part].function_ && StoredRefs(node)[v.part] in StoredRefs(node);
      }
    } else if HasMethod(c, v.at, Part(v)) {
      assert node.methods[Part(v)] in node.methods;
    }
  }

  /** Validation accepts, of the contracts whose counts 32 bits hold, exactly
      those that are valid. */
  lemma StructureIsValid(c: Contract)
    ensures Sized(c) && Clean(c) <==> ValidContract(c)
  {
    if Sized(c) && Clean(c) { CleanIsValid(c); }
    if ValidContract(c) {
      forall v ensures !Violates(c, v) { ValidIsClean(c, v); }
      ValidIsSized(c);
    }
  }

  lemma ValidIsSized(c: Contract)
    requires ValidContract(c)
    ensures Sized(c)
  {
    hide Reachable, NameHash;
    forall i | 0 <= i < |c.types| ensures SizedNode(c.types[i]) { assert ValidNode(c.types, i); }
  }
}
