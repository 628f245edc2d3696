/** The arena under construction while types are lowered: what each node was
    reserved for, what the lookup tables promise, and the steps that keep it. */
module ArenaSteps {
  import opened Bytes
  import opened Sorting
  import opened Wrappers
  import opened TypeGraph
  import opened CandidTypes

  predicate Composite(t: Type) { !t.VarT? && !t.PrimT? }

  function LowerMode(modes: seq<MethodMode>): Result<MethodMode, LowerError> {
    if modes == [] then Ok(Update) else if |modes| == 1 then Ok(modes[0]) else Err(TooManyModes)
  }

  /** Whether a composite type has a node at all, and the refusal if not. */
  function Supported(t: Type): Result<(), LowerError> {
    match t
    case FuncT(_, _, modes) => if LowerMode(modes).Ok? then Ok(()) else Err(TooManyModes)
    case VarT(_) => Err(UnsupportedType)
    case PrimT(_) => Err(UnsupportedType)
    case OtherT => Err(UnsupportedType)
    case _ => Ok(())
  }

  function LoweredFields(fields: seq<TypeField>, refs: seq<TypeRef>): (r: seq<Field>)
    requires |refs| == |fields|
    ensures |r| == |fields| && forall i :: 0 <= i < |r| ==> r[i] == Field(fields[i].id, refs[i])
  { seq(|fields|, i requires 0 <= i < |fields| => Field(fields[i].id, refs[i])) }

  function LoweredMethods(methods: seq<TypeMethod>, refs: seq<TypeRef>): (r: seq<ServiceMethod>)
    requires |refs| == |methods|
    ensures |r| == |methods|
    ensures forall i :: 0 <= i < |r| ==> r[i] == ServiceMethod(methods[i].name, NameHash(methods[i].name), refs[i])
  { seq(|methods|, i requires 0 <= i < |methods| => ServiceMethod(methods[i].name, NameHash(methods[i].name), refs[i])) }

  /** The node of a composite type, given the nodes of its parts. */
  function Assemble(t: Type, refs: seq<TypeRef>): TypeNode
    requires Supported(t).Ok? && |refs| == |Parts(t)|
  {
    match t
    case OptT(_) => Opt(refs[0])
    case VecT(_) => Vec(refs[0])
    case RecordT(fields) => Record(Sort(FieldLe, LoweredFields(fields, refs)))
    case VariantT(fields) => Variant(Sort(FieldLe, LoweredFields(fields, refs)))
    case FuncT(args, rets, modes) => Func(refs[..|args|], refs[|args|..], LowerMode(modes).value)
    case ServiceT(methods) => Service(Sort(MethodLe, LoweredMethods(methods, refs)))
    case ClassT(init, _) => Class(refs[..|init|], refs[|init|])
  }

  // ----- the arena under construction -----

  /** The lowerer's fields, with what each node was reserved for and the nodes
      of its parts. */
  datatype Arena = Arena(
    nodes: seq<Option<TypeNode>>,
    owner: seq<Type>,
    refs: seq<seq<TypeRef>>,
    named: map<Bytes.Text, TypeRef>,
    prims: map<PrimitiveType, TypeRef>,
    comps: map<Type, TypeRef>)

  type Pending = seq<(TypeRef, Type)>

  ghost predicate NamedOk(env: Environment, a: Arena) {
    forall n :: n in a.named ==> a.named[n] < |a.owner| && Denotation(env, VarT(n)) == Ok(a.owner[a.named[n]])
  }

  ghost predicate PrimsOk(a: Arena) {
    forall p :: p in a.prims ==>
      a.prims[p] < |a.owner| && a.owner[a.prims[p]] == PrimT(p) && a.prims[p] < |a.nodes|
      && a.nodes[a.prims[p]] == Some(Primitive(p))
  }

  ghost predicate CompsOk(a: Arena) {
    forall t :: t in a.comps ==> Composite(t) && a.comps[t] < |a.owner| && a.owner[a.comps[t]] == t
  }

  /** Every node is the one node of its type. */
  ghost predicate Owned(a: Arena) {
    forall r: nat :: r < |a.owner| ==>
      if a.owner[r].PrimT? then a.owner[r].primitive in a.prims && a.prims[a.owner[r].primitive] == r
      else Composite(a.owner[r]) && a.owner[r] in a.comps && a.comps[a.owner[r]] == r
  }

  /** A part of a type has been given the node of what it stands for; a named
      part is also recorded by its name. */
  ghost predicate PartOk(env: Environment, a: Arena, part: Type, ref: TypeRef) {
    && ref < |a.owner| && Denotation(env, part) == Ok(a.owner[ref])
    && (part.VarT? ==> part.name in a.named && a.named[part.name] == ref)
  }

  ghost predicate PartsOk(env: Environment, a: Arena, parts: seq<Type>, refs: seq<TypeRef>) {
    |refs| == |parts| && forall i :: 0 <= i < |parts| ==> PartOk(env, a, parts[i], refs[i])
  }

  /** A filled node is the node of its type over the nodes of its parts. */
  ghost predicate FilledAt(env: Environment, a: Arena, r: nat)
    requires r < |a.owner| == |a.nodes| == |a.refs|
  {
    a.nodes[r].Some? ==>
      if a.owner[r].PrimT? then a.nodes[r].value == Primitive(a.owner[r].primitive)
      else Supported(a.owner[r]).Ok? && PartsOk(env, a, Parts(a.owner[r]), a.refs[r])
           && a.nodes[r].value == Assemble(a.owner[r], a.refs[r])
  }

  ghost predicate Shaped(a: Arena) { |a.nodes| == |a.owner| == |a.refs| <= U32_LIMIT }

  ghost predicate Filled(env: Environment, a: Arena)
    requires Shaped(a)
  {
    forall r: nat :: r < |a.owner| ==> FilledAt(env, a, r)
  }

  ghost predicate Consistent(env: Environment, a: Arena) {
    Shaped(a) && NamedOk(env, a) && PrimsOk(a) && CompsOk(a) && Owned(a) && Filled(env, a)
  }

  /** Pending entries are reserved composite nodes, and every reserved node
      without content is pending or being filled right now. */
  ghost predicate Covers(a: Arena, pending: Pending, filling: set<TypeRef>) {
    && (forall x :: x in pending ==> x.0 < |a.owner| && a.owner[x.0] == x.1 && Composite(x.1))
    && forall r: nat :: r < |a.owner| && r < |a.nodes| && a.nodes[r].None? && r !in filling ==> (r, a.owner[r]) in pending
  }

  /** Everything met so far comes from a set of types closed under parts. */
  ghost predicate ClosedTypes(env: Environment, universe: set<Type>) {
    && (forall n :: n in env ==> env[n] in universe)
    && forall t, i :: t in universe && 0 <= i < |Parts(t)| ==> Parts(t)[i] in universe
  }

  ghost predicate Inside(a: Arena, universe: set<Type>) {
    forall r: nat :: r < |a.owner| ==> a.owner[r] in universe
  }

  ghost function Unowned(a: Arena, universe: set<Type>): set<Type> {
    set t | t in universe && t !in a.owner
  }

  /** The arena has no number left, and a type of the universe that needs a
      node has none. */
  ghost predicate Full(a: Arena, universe: set<Type>) {
    |a.owner| >= U32_LIMIT && exists t :: t in universe && !t.VarT? && t !in a.owner
  }

  /** Nothing already there changes. */
  ghost predicate Extends(a: Arena, b: Arena) {
    && a.owner <= b.owner
    && (forall n :: n in a.named ==> n in b.named && b.named[n] == a.named[n])
    && |a.nodes| <= |b.nodes|
    && forall r: nat :: r < |a.nodes| && a.nodes[r].Some? ==> b.nodes[r] == a.nodes[r]
  }

  /** While the parts of a type are looked up, nodes are only added. */
  ghost predicate Grows(a: Arena, b: Arena) {
    Extends(a, b) && a.nodes <= b.nodes && a.refs <= b.refs
  }

  lemma ExtendsTransitive(a: Arena, b: Arena, c: Arena)
    requires Extends(a, b) && Extends(b, c)
    ensures Extends(a, c)
  {
  }

  lemma PartExtends(env: Environment, a: Arena, b: Arena, part: Type, ref: TypeRef)
    requires PartOk(env, a, part, ref) && Extends(a, b)
    ensures PartOk(env, b, part, ref)
  {
    assert b.owner[ref] == a.owner[ref];
  }

  lemma PartsExtend(env: Environment, a: Arena, b: Arena, parts: seq<Type>, refs: seq<TypeRef>)
    requires PartsOk(env, a, parts, refs) && Extends(a, b)
    ensures PartsOk(env, b, parts, refs)
  {
    hide PartOk, Extends;
    forall i | 0 <= i < |parts| ensures PartOk(env, b, parts[i], refs[i]) {
      PartExtends(env, a, b, parts[i], refs[i]);
    }
  }

  lemma FilledExtends(env: Environment, a: Arena, b: Arena, r: nat)
    requires Shaped(a) && Shaped(b) && r < |a.owner| && FilledAt(env, a, r) && Extends(a, b)
    requires b.nodes[r] == a.nodes[r] && b.refs[r] == a.refs[r]
    ensures r < |b.owner| && b.owner[r] == a.owner[r] && FilledAt(env, b, r)
  {
    assert b.owner[r] == a.owner[r];
    if a.nodes[r].Some? && !a.owner[r].PrimT? {
      PartsExtend(env, a, b, Parts(a.owner[r]), a.refs[r]);
    }
  }

  // ----- the steps -----

  ghost function WithPrim(a: Arena, p: PrimitiveType): Arena {
    a.(nodes := a.nodes + [Some(Primitive(p))], owner := a.owner + [PrimT(p)], refs := a.refs + [[]],
       prims := a.prims[p := |a.nodes|])
  }

  ghost function WithComposite(a: Arena, t: Type): Arena {
    a.(nodes := a.nodes + [None], owner := a.owner + [t], refs := a.refs + [[]], comps := a.comps[t := |a.nodes|])
  }

  ghost function WithName(a: Arena, name: Bytes.Text, r: TypeRef): Arena {
    a.(named := a.named[name := r])
  }

  ghost function WithNode(a: Arena, r: TypeRef, refs: seq<TypeRef>): Arena
    requires r < |a.owner| == |a.nodes| == |a.refs| && Supported(a.owner[r]).Ok? && |refs| == |Parts(a.owner[r])|
  {
    a.(nodes := a.nodes[r := Some(Assemble(a.owner[r], refs))], refs := a.refs[r := refs])
  }

  lemma FilledGrows(env: Environment, a: Arena, b: Arena)
    requires Shaped(a) && Shaped(b) && Filled(env, a) && Extends(a, b)
    requires forall r: nat :: r < |a.owner| ==> b.nodes[r] == a.nodes[r] && b.refs[r] == a.refs[r]
    requires forall r: nat :: |a.owner| <= r < |b.owner| ==> FilledAt(env, b, r)
    ensures Filled(env, b)
  {
    hide FilledAt, Extends;
    ExtendsOwners(a, b);
    forall r: nat | r < |b.owner| ensures FilledAt(env, b, r) {
      if r < |a.owner| { FilledExtends(env, a, b, r); }
    }
  }

  lemma ExtendsOwners(a: Arena, b: Arena)
    requires Extends(a, b)
    ensures |a.owner| <= |b.owner|
  {
  }

  lemma PrimFilled(env: Environment, a: Arena, r: nat)
    requires r < |a.owner| == |a.nodes| == |a.refs|
    requires a.owner[r].PrimT? && a.nodes[r] == Some(Primitive(a.owner[r].primitive))
    ensures FilledAt(env, a, r)
  {
  }

  lemma EmptyFilled(env: Environment, a: Arena, r: nat)
    requires r < |a.owner| == |a.nodes| == |a.refs| && a.nodes[r].None?
    ensures FilledAt(env, a, r)
  {
  }

  lemma PrimTables(env: Environment, a: Arena, p: PrimitiveType)
    requires Consistent(env, a) && p !in a.prims && |a.nodes| < U32_LIMIT
    ensures var b := WithPrim(a, p); NamedOk(env, b) && PrimsOk(b) && CompsOk(b) && Owned(b)
  {
    hide Filled, Denotation;
  }

  lemma PrimKeepsFilled(env: Environment, a: Arena, p: PrimitiveType)
    requires Consistent(env, a) && p !in a.prims && |a.nodes| < U32_LIMIT
    ensures var b := WithPrim(a, p); Shaped(b) && Filled(env, b) && Extends(a, b)
  {
    var b := WithPrim(a, p);
    hide FilledAt, NamedOk, PrimsOk, CompsOk, Owned;
    PrimFilled(env, b, |a.owner|);
    FilledGrows(env, a, b);
  }

  lemma AddPrim(env: Environment, a: Arena, p: PrimitiveType, pending: Pending, filling: set<TypeRef>)
    requires Consistent(env, a) && Covers(a, pending, filling) && p !in a.prims && |a.nodes| < U32_LIMIT
    ensures var b := WithPrim(a, p); Consistent(env, b) && Covers(b, pending, filling) && Extends(a, b)
  {
    PrimTables(env, a, p);
    PrimKeepsFilled(env, a, p);
    hide Filled, NamedOk, PrimsOk, CompsOk, Owned, Extends;
  }

  lemma CompositeTables(env: Environment, a: Arena, t: Type)
    requires Consistent(env, a) && Composite(t) && t !in a.comps && |a.nodes| < U32_LIMIT
    ensures var b := WithComposite(a, t); NamedOk(env, b) && PrimsOk(b) && CompsOk(b) && Owned(b)
  {
    hide Filled, Denotation;
  }

  lemma CompositeKeepsFilled(env: Environment, a: Arena, t: Type)
    requires Consistent(env, a) && Composite(t) && t !in a.comps && |a.nodes| < U32_LIMIT
    ensures var b := WithComposite(a, t); Shaped(b) && Filled(env, b) && Extends(a, b)
  {
    var b := WithComposite(a, t);
    hide FilledAt, NamedOk, PrimsOk, CompsOk, Owned;
    EmptyFilled(env, b, |a.owner|);
    FilledGrows(env, a, b);
  }

  lemma AddComposite(env: Environment, a: Arena, t: Type, pending: Pending, filling: set<TypeRef>)
    requires Consistent(env, a) && Covers(a, pending, filling) && Composite(t) && t !in a.comps && |a.nodes| < U32_LIMIT
    ensures var b := WithComposite(a, t);
            Consistent(env, b) && Covers(b, pending + [(|a.nodes|, t)], filling) && Extends(a, b)
  {
    CompositeTables(env, a, t);
    CompositeKeepsFilled(env, a, t);
    hide Filled, NamedOk, PrimsOk, CompsOk, Owned, Extends;
    var more := pending + [(|a.nodes|, t)];
    assert forall x :: x in more <==> x in pending || x == (|a.nodes|, t);
  }

  lemma NameTables(env: Environment, a: Arena, name: Bytes.Text, r: TypeRef)
    requires Consistent(env, a) && (name in a.named ==> a.named[name] == r)
             && r < |a.owner| && Denotation(env, VarT(name)) == Ok(a.owner[r])
    ensures var b := WithName(a, name, r); NamedOk(env, b) && PrimsOk(b) && CompsOk(b) && Owned(b)
  {
    hide Filled, Denotation;
  }

  lemma NameKeepsFilled(env: Environment, a: Arena, name: Bytes.Text, r: TypeRef)
    requires Consistent(env, a) && (name in a.named ==> a.named[name] == r)
             && r < |a.owner| && Denotation(env, VarT(name)) == Ok(a.owner[r])
    ensures var b := WithName(a, name, r); Shaped(b) && Filled(env, b) && Extends(a, b)
  {
    var b := WithName(a, name, r);
    hide FilledAt, NamedOk, PrimsOk, CompsOk, Owned;
    FilledGrows(env, a, b);
  }

  lemma AddName(env: Environment, a: Arena, name: Bytes.Text, r: TypeRef, pending: Pending, filling: set<TypeRef>)
    requires Consistent(env, a) && Covers(a, pending, filling) && (name in a.named ==> a.named[name] == r)
    requires r < |a.owner| && Denotation(env, VarT(name)) == Ok(a.owner[r])
    ensures var b := WithName(a, name, r); Consistent(env, b) && Covers(b, pending, filling) && Extends(a, b)
  {
    NameTables(env, a, name, r);
    NameKeepsFilled(env, a, name, r);
    hide Filled, NamedOk, PrimsOk, CompsOk, Owned, Extends, Denotation;
  }

  lemma NodeFilled(env: Environment, a: Arena, r: nat)
    requires r < |a.owner| == |a.nodes| == |a.refs| && !a.owner[r].PrimT? && Supported(a.owner[r]).Ok?
    requires PartsOk(env, a, Parts(a.owner[r]), a.refs[r]) && a.nodes[r] == Some(Assemble(a.owner[r], a.refs[r]))
    ensures FilledAt(env, a, r)
  {
  }

  lemma NodeExtends(a: Arena, r: TypeRef, refs: seq<TypeRef>)
    requires Shaped(a) && r < |a.owner| && a.nodes[r].None?
    requires Supported(a.owner[r]).Ok? && |refs| == |Parts(a.owner[r])|
    ensures Shaped(WithNode(a, r, refs)) && Extends(a, WithNode(a, r, refs))
  {
    hide Assemble, Supported, Parts;
  }

  lemma NodeTables(env: Environment, a: Arena, r: TypeRef, refs: seq<TypeRef>, pending: Pending)
    requires Consistent(env, a) && r < |a.owner| && a.nodes[r].None? && Covers(a, pending, {r})
    requires Supported(a.owner[r]).Ok? && |refs| == |Parts(a.owner[r])|
    ensures var b := WithNode(a, r, refs); NamedOk(env, b) && PrimsOk(b) && CompsOk(b) && Owned(b) && Covers(b, pending, {})
  {
    hide Filled, Denotation, Assemble, Supported, Parts;
  }

  lemma NodeKeepsFilled(env: Environment, a: Arena, r: TypeRef, refs: seq<TypeRef>)
    requires Consistent(env, a) && r < |a.owner| && a.nodes[r].None? && Composite(a.owner[r])
    requires Supported(a.owner[r]).Ok? && PartsOk(env, a, Parts(a.owner[r]), refs)
    ensures var b := WithNode(a, r, refs); Shaped(b) && Filled(env, b) && Extends(a, b)
  {
    var b := WithNode(a, r, refs);
    NodeExtends(a, r, refs);
    PartsExtend(env, a, b, Parts(a.owner[r]), refs);
    hide Denotation, Assemble, Supported, FilledAt, NamedOk, PrimsOk, CompsOk, Owned, PartsOk, Parts, Extends;
    forall q: nat | q < |b.owner| ensures FilledAt(env, b, q) {
      if q != r { FilledExtends(env, a, b, q); } else { NodeFilled(env, b, r); }
    }
  }

  lemma OwnerIsComposite(env: Environment, a: Arena, r: nat)
    requires Consistent(env, a) && r < |a.owner| && a.nodes[r].None?
    ensures Composite(a.owner[r])
  {
    hide Filled, Denotation;
  }

  lemma FillNode(env: Environment, a: Arena, r: TypeRef, refs: seq<TypeRef>, pending: Pending)
    requires Consistent(env, a) && r < |a.owner| && a.nodes[r].None? && Covers(a, pending, {r})
    requires Supported(a.owner[r]).Ok? && PartsOk(env, a, Parts(a.owner[r]), refs)
    ensures var b := WithNode(a, r, refs); Consistent(env, b) && Covers(b, pending, {}) && Extends(a, b)
  {
    hide Filled, NamedOk, PrimsOk, CompsOk, Owned, Extends, Denotation, Covers, Composite, Supported, Parts;
    OwnerIsComposite(env, a, r);
    NodeTables(env, a, r, refs, pending);
    NodeKeepsFilled(env, a, r, refs);
  }

  // ----- what a request for nodes keeps -----

  /** From `a` to `b` nodes were only added, all of them for types of the
      universe, and whatever was queued is a type that had no node before. */
  ghost predicate Asked(env: Environment, a: Arena, pending: Pending, b: Arena, more: Pending,
                        filling: set<TypeRef>, universe: set<Type>) {
    && Consistent(env, b) && Covers(b, more, filling) && Inside(b, universe)
    && Grows(a, b)
    && Unowned(b, universe) <= Unowned(a, universe)
    && (more == pending || Unowned(b, universe) < Unowned(a, universe))
  }

  lemma AskedNothing(env: Environment, a: Arena, pending: Pending, filling: set<TypeRef>, universe: set<Type>)
    requires Consistent(env, a) && Covers(a, pending, filling) && Inside(a, universe)
    ensures Asked(env, a, pending, a, pending, filling, universe)
  {
  }

  lemma AskedTwice(env: Environment, a: Arena, p: Pending, b: Arena, q: Pending, c: Arena, r: Pending,
                   filling: set<TypeRef>, universe: set<Type>)
    requires Asked(env, a, p, b, q, filling, universe) && Asked(env, b, q, c, r, filling, universe)
    ensures Asked(env, a, p, c, r, filling, universe)
  {
    hide Consistent, Covers, Inside, Unowned;
  }

  lemma AskedPrim(env: Environment, a: Arena, p: PrimitiveType, pending: Pending, filling: set<TypeRef>, universe: set<Type>)
    requires Consistent(env, a) && Covers(a, pending, filling) && Inside(a, universe)
    requires p !in a.prims && |a.nodes| < U32_LIMIT && PrimT(p) in universe
    ensures Asked(env, a, pending, WithPrim(a, p), pending, filling, universe)
  {
    AddPrim(env, a, p, pending, filling);
    hide Consistent, Covers;
  }

  lemma AskedComposite(env: Environment, a: Arena, t: Type, pending: Pending, filling: set<TypeRef>, universe: set<Type>)
    requires Consistent(env, a) && Covers(a, pending, filling) && Inside(a, universe)
    requires Composite(t) && t !in a.comps && |a.nodes| < U32_LIMIT && t in universe
    ensures Asked(env, a, pending, WithComposite(a, t), pending + [(|a.nodes|, t)], filling, universe)
  {
    AddComposite(env, a, t, pending, filling);
    var b := WithComposite(a, t);
    assert t !in a.owner;
    hide Consistent, Covers;
    assert b.owner[|a.owner|] == t;
    assert t in Unowned(a, universe) && t !in Unowned(b, universe);
  }

  lemma NameKept(env: Environment, a: Arena, name: Bytes.Text, r: TypeRef)
    requires Consistent(env, a) && r < |a.owner| && Denotation(env, VarT(name)) == Ok(a.owner[r])
    ensures name in a.named ==> a.named[name] == r
  {
    hide Filled, Denotation;
    if name in a.named {
      assert a.owner[a.named[name]] == a.owner[r];
      SameOwnerSameNode(a, a.named[name], r);
    }
  }

  lemma AskedName(env: Environment, a: Arena, name: Bytes.Text, r: TypeRef, pending: Pending, filling: set<TypeRef>,
                  universe: set<Type>)
    requires Consistent(env, a) && Covers(a, pending, filling) && Inside(a, universe)
    requires r < |a.owner| && Denotation(env, VarT(name)) == Ok(a.owner[r])
    ensures Asked(env, a, pending, WithName(a, name, r), pending, filling, universe)
  {
    hide Consistent, Covers, Denotation, Terminal;
    NameKept(env, a, name, r);
    AddName(env, a, name, r, pending, filling);
  }

  lemma SameOwnerSameNode(a: Arena, q: nat, r: nat)
    requires Owned(a) && q < |a.owner| && r < |a.owner| && a.owner[q] == a.owner[r]
    ensures q == r
  {
  }
}
