/** The Contract type arena: nodes that refer to each other by index, the
    orders their collections are sorted by, and the structural rules a
    validated Contract meets. */
module TypeGraph {
  import opened Bytes
  import opened Sorting
  import opened Wrappers

  /** An arena index; arenas hold at most 2^32 nodes. */
  type TypeRef = nat

  datatype PrimitiveType =
    | Null | Bool | Nat | Int | Nat8 | Nat16 | Nat32 | Nat64 | Int8 | Int16 | Int32 | Int64
    | Float32 | Float64 | Text | Reserved | Empty | Principal

  datatype MethodMode = Update | Query | CompositeQuery | Oneway

  datatype Field = Field(id: u32, ty: TypeRef)

  datatype ServiceMethod = ServiceMethod(name: Bytes.Text, id: u32, function_: TypeRef)

  datatype TypeNode =
    | Primitive(primitive: PrimitiveType)
    | Opt(inner: TypeRef)
    | Vec(inner: TypeRef)
    | Record(fields: seq<Field>)
    | Variant(fields: seq<Field>)
    | Func(args: seq<TypeRef>, results: seq<TypeRef>, mode: MethodMode)
    | Service(methods: seq<ServiceMethod>)
    | Class(init: seq<TypeRef>, service: TypeRef)

  type Types = seq<TypeNode>

  datatype Declaration = Declaration(name: Bytes.Text, ty: TypeRef)

  datatype Actor = ServiceActor(target: TypeRef) | ClassActor(target: TypeRef)

  datatype Contract = Contract(types: Types, declarations: seq<Declaration>, actor: Option<Actor>)

  // ----- orders -----

  predicate FieldLe(a: Field, b: Field) {
    a.id < b.id || (a.id == b.id && a.ty <= b.ty)
  }

  predicate MethodLe(a: ServiceMethod, b: ServiceMethod) {
    a.id < b.id
    || (a.id == b.id
        && ((a.name != b.name && LexLe(a.name, b.name)) || (a.name == b.name && a.function_ <= b.function_)))
  }

  predicate DeclarationLe(a: Declaration, b: Declaration) {
    (a.name != b.name && LexLe(a.name, b.name)) || (a.name == b.name && a.ty <= b.ty)
  }

  predicate RefLe(a: TypeRef, b: TypeRef) { a <= b }

  lemma FieldOrder()
    ensures TotalOrder(FieldLe)
  {
  }

  lemma RefOrder()
    ensures TotalOrder(RefLe)
  {
  }

  lemma LexOrder()
    ensures TotalOrder(LexLe)
  {
    forall a, b ensures LexLe(a, b) || LexLe(b, a) { LexTotal(a, b); }
    forall a, b | LexLe(a, b) && LexLe(b, a) ensures a == b { LexAntisymmetric(a, b); }
    forall a, b, c | LexLe(a, b) && LexLe(b, c) ensures LexLe(a, c) { LexTransitive(a, b, c); }
  }

  lemma MethodOrder()
    ensures TotalOrder(MethodLe)
  {
    LexOrder();
    assert forall a, b :: LexLe(a, b) || LexLe(b, a);
    forall a, b, c | MethodLe(a, b) && MethodLe(b, c) ensures MethodLe(a, c) {
      if a.id == b.id == c.id && a.name != b.name && b.name != c.name {
        LexTransitive(a.name, b.name, c.name);
        if a.name == c.name { LexAntisymmetric(a.name, b.name); }
      }
    }
    forall a, b | MethodLe(a, b) && MethodLe(b, a) ensures a == b {
      if a.name != b.name { LexAntisymmetric(a.name, b.name); }
    }
  }

  lemma DeclarationOrder()
    ensures TotalOrder(DeclarationLe)
  {
    LexOrder();
    assert forall a, b :: LexLe(a, b) || LexLe(b, a);
    forall a, b, c | DeclarationLe(a, b) && DeclarationLe(b, c) ensures DeclarationLe(a, c) {
      if a.name != b.name && b.name != c.name {
        LexTransitive(a.name, b.name, c.name);
        if a.name == c.name { LexAntisymmetric(a.name, b.name); }
      }
    }
    forall a, b | DeclarationLe(a, b) && DeclarationLe(b, a) ensures a == b {
      if a.name != b.name { LexAntisymmetric(a.name, b.name); }
    }
  }

  // ----- children and shapes -----

  function FieldTypes(fields: seq<Field>): (r: seq<TypeRef>)
    ensures |r| == |fields|
  { seq(|fields|, i requires 0 <= i < |fields| => fields[i].ty) }

  function FieldIds(fields: seq<Field>): (r: seq<u32>)
    ensures |r| == |fields|
  { seq(|fields|, i requires 0 <= i < |fields| => fields[i].id) }

  function MethodFunctions(methods: seq<ServiceMethod>): (r: seq<TypeRef>)
    ensures |r| == |methods|
  { seq(|methods|, i requires 0 <= i < |methods| => methods[i].function_) }

  function MethodLabels(methods: seq<ServiceMethod>): (r: seq<(u32, Bytes.Text)>)
    ensures |r| == |methods|
  { seq(|methods|, i requires 0 <= i < |methods| => (methods[i].id, methods[i].name)) }

  /** A node's references in the order refinement and traversal take them. */
  function SortedChildren(node: TypeNode): seq<TypeRef> {
    match node
    case Primitive(_) => []
    case Opt(inner) => [inner]
    case Vec(inner) => [inner]
    case Record(fields) => FieldTypes(Sort(FieldLe, fields))
    case Variant(fields) => FieldTypes(Sort(FieldLe, fields))
    case Func(args, results, _) => args + results
    case Service(methods) => MethodFunctions(Sort(MethodLe, methods))
    case Class(init, service) => init + [service]
  }

  /** What a node says about itself, without its references. */
  datatype Shape =
    | PrimitiveShape(primitive: PrimitiveType)
    | OptShape
    | VecShape
    | RecordShape(ids: seq<u32>)
    | VariantShape(ids: seq<u32>)
    | FuncShape(args: nat, results: nat, mode: MethodMode)
    | ServiceShape(labels: seq<(u32, Bytes.Text)>)
    | ClassShape(init: nat)

  function ShapeOf(node: TypeNode): Shape {
    match node
    case Primitive(p) => PrimitiveShape(p)
    case Opt(_) => OptShape
    case Vec(_) => VecShape
    case Record(fields) => RecordShape(FieldIds(Sort(FieldLe, fields)))
    case Variant(fields) => VariantShape(FieldIds(Sort(FieldLe, fields)))
    case Func(args, results, mode) => FuncShape(|args|, |results|, mode)
    case Service(methods) => ServiceShape(MethodLabels(Sort(MethodLe, methods)))
    case Class(init, _) => ClassShape(|init|)
  }

  function Arity(shape: Shape): nat {
    match shape
    case PrimitiveShape(_) => 0
    case OptShape => 1
    case VecShape => 1
    case RecordShape(ids) => |ids|
    case VariantShape(ids) => |ids|
    case FuncShape(args, results, _) => args + results
    case ServiceShape(labels) => |labels|
    case ClassShape(init) => init + 1
  }

  lemma ChildrenFitShape(node: TypeNode)
    ensures |SortedChildren(node)| == Arity(ShapeOf(node))
  {
  }

  // ----- rewriting references -----

  function MapRefs(refs: seq<TypeRef>, to: seq<TypeRef>): (r: seq<TypeRef>)
    requires forall x :: x in refs ==> x < |to|
    ensures |r| == |refs|
    ensures forall i :: 0 <= i < |r| ==> refs[i] in refs && r[i] == to[refs[i]]
  { seq(|refs|, i requires 0 <= i < |refs| => assert refs[i] in refs; to[refs[i]]) }

  /** The references of a node, in stored order. */
  function StoredRefs(node: TypeNode): seq<TypeRef> {
    match node
    case Primitive(_) => []
    case Opt(inner) => [inner]
    case Vec(inner) => [inner]
    case Record(fields) => FieldTypes(fields)
    case Variant(fields) => FieldTypes(fields)
    case Func(args, results, _) => args + results
    case Service(methods) => MethodFunctions(methods)
    case Class(init, service) => init + [service]
  }

  predicate RefsBelow(node: TypeNode, bound: nat) {
    forall x :: x in StoredRefs(node) ==> x < bound
  }

  ghost predicate Closed(types: Types) {
    forall i :: 0 <= i < |types| ==> RefsBelow(types[i], |types|)
  }

  function RemapFields(fields: seq<Field>, to: seq<TypeRef>): (r: seq<Field>)
    requires forall f :: f in fields ==> f.ty < |to|
    ensures |r| == |fields|
    ensures forall i :: 0 <= i < |r| ==> r[i] == Field(fields[i].id, to[fields[i].ty])
  { seq(|fields|, i requires 0 <= i < |fields| => Field(fields[i].id, to[fields[i].ty])) }

  function RemapMethods(methods: seq<ServiceMethod>, to: seq<TypeRef>): (r: seq<ServiceMethod>)
    requires forall m :: m in methods ==> m.function_ < |to|
    ensures |r| == |methods|
    ensures forall i :: 0 <= i < |r| ==> r[i] == ServiceMethod(methods[i].name, methods[i].id, to[methods[i].function_])
  {
    seq(|methods|, i requires 0 <= i < |methods| =>
      ServiceMethod(methods[i].name, methods[i].id, to[methods[i].function_]))
  }

  lemma FieldRefs(fields: seq<Field>, bound: nat)
    requires forall x :: x in FieldTypes(fields) ==> x < bound
    ensures forall f :: f in fields ==> f.ty < bound
  {
    forall f | f in fields ensures f.ty < bound {
      var i :| 0 <= i < |fields| && fields[i] == f;
      assert f.ty == FieldTypes(fields)[i] && FieldTypes(fields)[i] in FieldTypes(fields);
    }
  }

  lemma MethodRefs(methods: seq<ServiceMethod>, bound: nat)
    requires forall x :: x in MethodFunctions(methods) ==> x < bound
    ensures forall m :: m in methods ==> m.function_ < bound
  {
    forall m | m in methods ensures m.function_ < bound {
      var i :| 0 <= i < |methods| && methods[i] == m;
      assert m.function_ == MethodFunctions(methods)[i] && MethodFunctions(methods)[i] in MethodFunctions(methods);
    }
  }

  lemma SortedFieldMembers(fields: seq<Field>)
    ensures forall f :: f in Sort(FieldLe, fields) <==> f in fields
    ensures |Sort(FieldLe, fields)| == |fields|
  {
    FieldOrder();
    SortSorts(FieldLe, fields);
    forall f ensures f in Sort(FieldLe, fields) <==> f in fields {
      assert f in multiset(Sort(FieldLe, fields)) <==> f in multiset(fields);
    }
  }

  lemma SortedMethodMembers(methods: seq<ServiceMethod>)
    ensures forall m :: m in Sort(MethodLe, methods) <==> m in methods
    ensures |Sort(MethodLe, methods)| == |methods|
  {
    MethodOrder();
    SortSorts(MethodLe, methods);
    forall m ensures m in Sort(MethodLe, methods) <==> m in methods {
      assert m in multiset(Sort(MethodLe, methods)) <==> m in multiset(methods);
    }
  }

  /** The node with its fields or methods sorted and then every reference
      replaced, as both rewriting passes of canonicalization do it. */
  function RemapNode(node: TypeNode, to: seq<TypeRef>): TypeNode
    requires RefsBelow(node, |to|)
  {
    match node
    case Primitive(p) => Primitive(p)
    case Opt(inner) => assert inner in StoredRefs(node); Opt(to[inner])
    case Vec(inner) => assert inner in StoredRefs(node); Vec(to[inner])
    case Record(fields) =>
      FieldRefs(fields, |to|);
      SortedFieldMembers(fields);
      Record(RemapFields(Sort(FieldLe, fields), to))
    case Variant(fields) =>
      FieldRefs(fields, |to|);
      SortedFieldMembers(fields);
      Variant(RemapFields(Sort(FieldLe, fields), to))
    case Func(args, results, mode) =>
      assert forall x :: x in args || x in results ==> x in StoredRefs(node);
      Func(MapRefs(args, to), MapRefs(results, to), mode)
    case Service(methods) =>
      MethodRefs(methods, |to|);
      SortedMethodMembers(methods);
      Service(RemapMethods(Sort(MethodLe, methods), to))
    case Class(init, service) =>
      assert forall x :: x in init || x == service ==> x in StoredRefs(node);
      Class(MapRefs(init, to), to[service])
  }

  // ----- structural rules -----

  /** The Candid hash of a method name. */
  function NameHash(name: Bytes.Text): u32 {
    if name == [] then 0
    else (NameHash(name[..|name| - 1]) * 223 + name[|name| - 1]) % U32_LIMIT
  }

  ghost predicate DistinctIds(fields: seq<Field>) {
    forall i, j :: 0 <= i < j < |fields| ==> fields[i].id != fields[j].id
  }

  ghost predicate DistinctNames(methods: seq<ServiceMethod>) {
    forall i, j :: 0 <= i < j < |methods| ==> methods[i].name != methods[j].name
  }

  /** What one node must meet on its own, without the arena around it. */
  ghost predicate ValidLocally(node: TypeNode) {
    match node
    case Primitive(_) => true
    case Opt(_) => true
    case Vec(_) => true
    case Record(fields) => DistinctIds(fields) && |fields| < U32_LIMIT
    case Variant(fields) => DistinctIds(fields) && |fields| < U32_LIMIT
    case Func(args, results, mode) =>
      |args| < U32_LIMIT && |results| < U32_LIMIT && (mode == Oneway ==> results == [])
    case Service(methods) =>
      && DistinctNames(methods)
      && |methods| < U32_LIMIT
      && forall m :: m in methods ==> m.name != [] && |m.name| < U32_LIMIT && m.id == NameHash(m.name)
    case Class(init, _) => |init| < U32_LIMIT
  }

  /** A node in its arena: references in range, methods that are functions and
      a class service that is a service. */
  ghost predicate ValidNode(types: Types, i: nat)
    requires i < |types|
  {
    && ValidLocally(types[i])
    && RefsBelow(types[i], |types|)
    && (forall x :: x in StoredRefs(types[i]) && x < |types| ==> !types[x].Class?)
    && (types[i].Service? ==> forall x :: x in StoredRefs(types[i]) && x < |types| ==> types[x].Func?)
    && (types[i].Class? ==> types[i].service < |types| && types[types[i].service].Service?)
  }

  ghost predicate ValidArena(types: Types) {
    && |types| <= U32_LIMIT
    && Closed(types)
    && forall i :: 0 <= i < |types| ==> ValidNode(types, i)
  }

  /** Indices reachable from a set of roots: in every set that holds the roots
      and is closed under references. */
  ghost predicate ClosedSet(types: Types, s: set<TypeRef>) {
    forall i, x :: i in s && 0 <= i < |types| && x in StoredRefs(types[i]) ==> x in s
  }

  ghost predicate Reachable(types: Types, roots: seq<TypeRef>, v: TypeRef) {
    forall s: set<TypeRef> :: (forall r :: r in roots ==> r in s) && ClosedSet(types, s) ==> v in s
  }

  function Roots(c: Contract): seq<TypeRef> {
    (if c.actor.Some? then [c.actor.value.target] else [])
    + seq(|c.declarations|, i requires 0 <= i < |c.declarations| => c.declarations[i].ty)
  }

  ghost predicate ValidActor(c: Contract) {
    c.actor.Some? ==>
      && c.actor.value.target < |c.types|
      && (c.actor.value.ServiceActor? ==> c.types[c.actor.value.target].Service?)
      && (c.actor.value.ClassActor? ==> c.types[c.actor.value.target].Class?)
  }

  ghost predicate ValidDeclarations(c: Contract) {
    && (forall d :: d in c.declarations ==> d.name != [] && d.ty < |c.types| && !c.types[d.ty].Class?)
    && forall i, j :: 0 <= i < j < |c.declarations| ==> c.declarations[i].name != c.declarations[j].name
  }

  ghost predicate ValidContract(c: Contract) {
    && ValidArena(c.types)
    && ValidDeclarations(c)
    && ValidActor(c)
    && (forall i :: 0 <= i < |c.types| && c.types[i].Class? ==> c.actor == Some(ClassActor(i)))
    && forall i :: 0 <= i < |c.types| ==> Reachable(c.types, Roots(c), i)
  }
}
