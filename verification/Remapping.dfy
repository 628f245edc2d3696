/** What replacing references does to a node: its shape stays, its sorted
    children are replaced one by one, and those two decide the new node. */
module Remapping {
  import opened Bytes
  import opened Sorting
  import opened TypeGraph

  lemma MembersOf<T>(s: seq<T>, i: nat)
    requires i < |s|
    ensures s[i] in s
  {
  }

  lemma StoredAndSorted(node: TypeNode)
    ensures forall x :: x in SortedChildren(node) <==> x in StoredRefs(node)
  {
    match node
    case Record(fields) => SameFieldTypes(fields);
    case Variant(fields) => SameFieldTypes(fields);
    case Service(methods) => SameMethodFunctions(methods);
    case _ =>
  }

  lemma SameFieldTypes(fields: seq<Field>)
    ensures forall x :: x in FieldTypes(Sort(FieldLe, fields)) <==> x in FieldTypes(fields)
  {
    SortedFieldMembers(fields);
    FieldTypesWithin(Sort(FieldLe, fields), fields);
    FieldTypesWithin(fields, Sort(FieldLe, fields));
  }

  lemma FieldTypesWithin(a: seq<Field>, b: seq<Field>)
    requires forall f :: f in a ==> f in b
    ensures forall x :: x in FieldTypes(a) ==> x in FieldTypes(b)
  {
    forall x | x in FieldTypes(a) ensures x in FieldTypes(b) {
      var i :| 0 <= i < |a| && FieldTypes(a)[i] == x;
      assert a[i] in a && a[i] in b;
      var j :| 0 <= j < |b| && b[j] == a[i];
      MembersOf(FieldTypes(b), j);
    }
  }

  lemma SameMethodFunctions(methods: seq<ServiceMethod>)
    ensures forall x :: x in MethodFunctions(Sort(MethodLe, methods)) <==> x in MethodFunctions(methods)
  {
    SortedMethodMembers(methods);
    MethodFunctionsWithin(Sort(MethodLe, methods), methods);
    MethodFunctionsWithin(methods, Sort(MethodLe, methods));
  }

  lemma MethodFunctionsWithin(a: seq<ServiceMethod>, b: seq<ServiceMethod>)
    requires forall m :: m in a ==> m in b
    ensures forall x :: x in MethodFunctions(a) ==> x in MethodFunctions(b)
  {
    forall x | x in MethodFunctions(a) ensures x in MethodFunctions(b) {
      var i :| 0 <= i < |a| && MethodFunctions(a)[i] == x;
      assert a[i] in a && a[i] in b;
      var j :| 0 <= j < |b| && b[j] == a[i];
      MembersOf(MethodFunctions(b), j);
    }
  }

  lemma ChildInRange(types: Types, i: nat, k: nat)
    requires Closed(types) && i < |types| && k < |SortedChildren(types[i])|
    ensures SortedChildren(types[i])[k] < |types|
  {
    StoredAndSorted(types[i]);
    MembersOf(SortedChildren(types[i]), k);
  }

  lemma ChildrenInRange(types: Types, i: nat)
    requires Closed(types) && i < |types|
    ensures forall x :: x in SortedChildren(types[i]) ==> x < |types|
    ensures forall k :: 0 <= k < |SortedChildren(types[i])| ==> SortedChildren(types[i])[k] < |types|
  {
    forall k | 0 <= k < |SortedChildren(types[i])| ensures SortedChildren(types[i])[k] < |types| {
      ChildInRange(types, i, k);
    }
  }

  // ----- fields already in identifier order -----

  ghost predicate IdOrdered(fields: seq<Field>) {
    forall i, j :: 0 <= i < j < |fields| ==> fields[i].id < fields[j].id
  }

  lemma SortedFieldsIdOrdered(fields: seq<Field>)
    requires DistinctIds(fields)
    ensures IdOrdered(Sort(FieldLe, fields))
  {
    FieldOrder();
    SortSorts(FieldLe, fields);
    var s := Sort(FieldLe, fields);
    assert NoDuplicates(fields);
    CountsKeepNoDuplicates(fields, s);
    forall i, j | 0 <= i < j < |s| ensures s[i].id < s[j].id {
      assert s[i] in multiset(fields) && s[j] in multiset(fields);
      var k :| 0 <= k < |fields| && fields[k] == s[i];
      var l :| 0 <= l < |fields| && fields[l] == s[j];
    }
  }

  lemma IdOrderedIsSorted(fields: seq<Field>)
    requires IdOrdered(fields)
    ensures Sort(FieldLe, fields) == fields
  {
    FieldOrder();
    SortSorts(FieldLe, fields);
    SortedUnique(FieldLe, Sort(FieldLe, fields), fields);
  }

  /** Distinct names in `MethodLe` order, whatever the function references. */
  ghost predicate NameOrdered(methods: seq<ServiceMethod>) {
    forall i, j :: 0 <= i < j < |methods| ==>
      methods[i].name != methods[j].name
      && (methods[i].id < methods[j].id
          || (methods[i].id == methods[j].id && LexLe(methods[i].name, methods[j].name)))
  }

  lemma SortedMethodsNameOrdered(methods: seq<ServiceMethod>)
    requires DistinctNames(methods)
    ensures NameOrdered(Sort(MethodLe, methods))
  {
    MethodOrder();
    SortSorts(MethodLe, methods);
    var s := Sort(MethodLe, methods);
    assert NoDuplicates(methods);
    CountsKeepNoDuplicates(methods, s);
    forall i, j | 0 <= i < j < |s|
      ensures s[i].name != s[j].name
      ensures s[i].id < s[j].id || (s[i].id == s[j].id && LexLe(s[i].name, s[j].name))
    {
      assert s[i] in multiset(methods) && s[j] in multiset(methods);
      var k :| 0 <= k < |methods| && methods[k] == s[i];
      var l :| 0 <= l < |methods| && methods[l] == s[j];
    }
  }

  lemma NameOrderedIsSorted(methods: seq<ServiceMethod>)
    requires NameOrdered(methods)
    ensures Sort(MethodLe, methods) == methods
  {
    MethodOrder();
    SortSorts(MethodLe, methods);
    SortedUnique(MethodLe, Sort(MethodLe, methods), methods);
  }

  // ----- what rewriting keeps -----

  lemma RemappedFields(fields: seq<Field>, to: seq<TypeRef>)
    requires DistinctIds(fields) && RefsBelow(Record(fields), |to|)
    ensures forall f :: f in Sort(FieldLe, fields) ==> f.ty < |to|
    ensures |Sort(FieldLe, fields)| == |fields|
    ensures forall x :: x in FieldTypes(Sort(FieldLe, fields)) ==> x < |to|
    ensures var r := RemapFields(Sort(FieldLe, fields), to);
            && Sort(FieldLe, r) == r && DistinctIds(r)
            && FieldIds(r) == FieldIds(Sort(FieldLe, fields))
            && FieldTypes(r) == MapRefs(FieldTypes(Sort(FieldLe, fields)), to)
  {
    assert StoredRefs(Record(fields)) == FieldTypes(fields);
    FieldRefs(fields, |to|);
    SortedFieldMembers(fields);
    SameFieldTypes(fields);
    SortedFieldsIdOrdered(fields);
    IdOrderedIsSorted(RemapFields(Sort(FieldLe, fields), to));
  }

  lemma RemappedMethods(methods: seq<ServiceMethod>, to: seq<TypeRef>)
    requires DistinctNames(methods) && RefsBelow(Service(methods), |to|)
    ensures forall m :: m in Sort(MethodLe, methods) ==> m.function_ < |to| && m in methods
    ensures |Sort(MethodLe, methods)| == |methods|
    ensures forall x :: x in MethodFunctions(Sort(MethodLe, methods)) ==> x < |to|
    ensures var r := RemapMethods(Sort(MethodLe, methods), to);
            && Sort(MethodLe, r) == r && DistinctNames(r)
            && MethodLabels(r) == MethodLabels(Sort(MethodLe, methods))
            && MethodFunctions(r) == MapRefs(MethodFunctions(Sort(MethodLe, methods)), to)
  {
    assert StoredRefs(Service(methods)) == MethodFunctions(methods);
    MethodRefs(methods, |to|);
    SortedMethodMembers(methods);
    SameMethodFunctions(methods);
    SortedMethodsNameOrdered(methods);
    NameOrderedIsSorted(RemapMethods(Sort(MethodLe, methods), to));
  }

  lemma MapConcat(a: seq<TypeRef>, b: seq<TypeRef>, to: seq<TypeRef>)
    requires forall x :: x in a + b ==> x < |to|
    ensures forall x :: x in a ==> x < |to|
    ensures forall x :: x in b ==> x < |to|
    ensures MapRefs(a + b, to) == MapRefs(a, to) + MapRefs(b, to)
  {
    assert forall x :: x in a || x in b ==> x in a + b;
  }

  lemma RemappedRecord(node: TypeNode, to: seq<TypeRef>)
    requires node.Record? || node.Variant?
    requires ValidLocally(node) && RefsBelow(node, |to|)
    ensures forall x :: x in SortedChildren(node) ==> x < |to|
    ensures ShapeOf(RemapNode(node, to)) == ShapeOf(node)
    ensures SortedChildren(RemapNode(node, to)) == MapRefs(SortedChildren(node), to)
    ensures StoredRefs(RemapNode(node, to)) == MapRefs(SortedChildren(node), to)
    ensures ValidLocally(RemapNode(node, to))
  {
    assert StoredRefs(node) == StoredRefs(Record(node.fields));
    RemappedFields(node.fields, to);
  }

  lemma RemappedService(node: TypeNode, to: seq<TypeRef>)
    requires node.Service?
    requires ValidLocally(node) && RefsBelow(node, |to|)
    ensures forall x :: x in SortedChildren(node) ==> x < |to|
    ensures ShapeOf(RemapNode(node, to)) == ShapeOf(node)
    ensures SortedChildren(RemapNode(node, to)) == MapRefs(SortedChildren(node), to)
    ensures StoredRefs(RemapNode(node, to)) == MapRefs(SortedChildren(node), to)
    ensures ValidLocally(RemapNode(node, to))
  {
    RemappedMethods(node.methods, to);
    var s := Sort(MethodLe, node.methods);
    var r := RemapMethods(s, to);
    forall m | m in r ensures m.name != [] && |m.name| < U32_LIMIT && m.id == NameHash(m.name) {
      var i :| 0 <= i < |r| && r[i] == m;
      assert s[i] in node.methods;
    }
  }

  /** A rewritten node has the old shape, and its sorted children are the old
      sorted children replaced one by one: sorting before the replacement
      agrees with sorting after it. */
  lemma RemapKeepsShape(node: TypeNode, to: seq<TypeRef>)
    requires ValidLocally(node) && RefsBelow(node, |to|)
    ensures forall x :: x in SortedChildren(node) ==> x < |to|
    ensures ShapeOf(RemapNode(node, to)) == ShapeOf(node)
    ensures SortedChildren(RemapNode(node, to)) == MapRefs(SortedChildren(node), to)
    ensures StoredRefs(RemapNode(node, to)) == MapRefs(SortedChildren(node), to)
    ensures ValidLocally(RemapNode(node, to))
  {
    assert forall x :: x in StoredRefs(node) ==> x < |to|;
    StoredAndSorted(node);
    match node
    case Record(_) => RemappedRecord(node, to);
    case Variant(_) => RemappedRecord(node, to);
    case Service(_) => RemappedService(node, to);
    case Func(args, results, _) => MapConcat(args, results, to);
    case Class(init, service) => MapConcat(init, [service], to);
    case _ =>
  }

  /** Shape and replaced children decide the rewritten node. */
  lemma RemapDetermined(a: TypeNode, ta: seq<TypeRef>, b: TypeNode, tb: seq<TypeRef>)
    requires RefsBelow(a, |ta|) && RefsBelow(b, |tb|)
    requires forall x :: x in SortedChildren(a) ==> x < |ta|
    requires forall x :: x in SortedChildren(b) ==> x < |tb|
    requires ShapeOf(a) == ShapeOf(b)
    requires MapRefs(SortedChildren(a), ta) == MapRefs(SortedChildren(b), tb)
    ensures RemapNode(a, ta) == RemapNode(b, tb)
  {
    match a
    case Primitive(_) =>
    case Opt(x) => SingleRef(x, ta, b.inner, tb);
    case Vec(x) => SingleRef(x, ta, b.inner, tb);
    case Record(fields) => SameFields(Sort(FieldLe, fields), ta, Sort(FieldLe, b.fields), tb);
    case Variant(fields) => SameFields(Sort(FieldLe, fields), ta, Sort(FieldLe, b.fields), tb);
    case Func(args, results, _) =>
      MapConcat(args, results, ta);
      MapConcat(b.args, b.results, tb);
      SplitEqual(MapRefs(args, ta), MapRefs(results, ta), MapRefs(b.args, tb), MapRefs(b.results, tb));
    case Service(methods) => SameMethods(Sort(MethodLe, methods), ta, Sort(MethodLe, b.methods), tb);
    case Class(init, service) =>
      MapConcat(init, [service], ta);
      MapConcat(b.init, [b.service], tb);
      SplitEqual(MapRefs(init, ta), MapRefs([service], ta), MapRefs(b.init, tb), MapRefs([b.service], tb));
      SingleRef(service, ta, b.service, tb);
  }

  lemma SingleRef(x: TypeRef, ta: seq<TypeRef>, y: TypeRef, tb: seq<TypeRef>)
    requires forall v :: v in [x] ==> v < |ta|
    requires forall v :: v in [y] ==> v < |tb|
    requires MapRefs([x], ta) == MapRefs([y], tb)
    ensures x < |ta| && y < |tb| && ta[x] == tb[y]
  {
    assert x in [x] && y in [y];
    assert MapRefs([x], ta)[0] == MapRefs([y], tb)[0];
  }

  lemma SameFields(a: seq<Field>, ta: seq<TypeRef>, b: seq<Field>, tb: seq<TypeRef>)
    requires FieldIds(a) == FieldIds(b)
    requires forall x :: x in FieldTypes(a) ==> x < |ta|
    requires forall x :: x in FieldTypes(b) ==> x < |tb|
    requires MapRefs(FieldTypes(a), ta) == MapRefs(FieldTypes(b), tb)
    ensures forall f :: f in a ==> f.ty < |ta|
    ensures forall f :: f in b ==> f.ty < |tb|
    ensures RemapFields(a, ta) == RemapFields(b, tb)
  {
    FieldRefs(a, |ta|);
    FieldRefs(b, |tb|);
    assert |a| == |FieldIds(a)| == |FieldIds(b)| == |b|;
    forall i | 0 <= i < |a| ensures RemapFields(a, ta)[i] == RemapFields(b, tb)[i] {
      SameField(a, ta, b, tb, i);
    }
  }

  lemma SameField(a: seq<Field>, ta: seq<TypeRef>, b: seq<Field>, tb: seq<TypeRef>, i: nat)
    requires FieldIds(a) == FieldIds(b) && i < |a| == |b|
    requires forall x :: x in FieldTypes(a) ==> x < |ta|
    requires forall x :: x in FieldTypes(b) ==> x < |tb|
    requires MapRefs(FieldTypes(a), ta) == MapRefs(FieldTypes(b), tb)
    ensures a[i].id == b[i].id && a[i].ty < |ta| && b[i].ty < |tb| && ta[a[i].ty] == tb[b[i].ty]
  {
    assert FieldIds(a)[i] == FieldIds(b)[i];
    MembersOf(FieldTypes(a), i);
    MembersOf(FieldTypes(b), i);
    assert MapRefs(FieldTypes(a), ta)[i] == MapRefs(FieldTypes(b), tb)[i];
  }

  lemma SameMethods(a: seq<ServiceMethod>, ta: seq<TypeRef>, b: seq<ServiceMethod>, tb: seq<TypeRef>)
    requires MethodLabels(a) == MethodLabels(b)
    requires forall x :: x in MethodFunctions(a) ==> x < |ta|
    requires forall x :: x in MethodFunctions(b) ==> x < |tb|
    requires MapRefs(MethodFunctions(a), ta) == MapRefs(MethodFunctions(b), tb)
    ensures forall m :: m in a ==> m.function_ < |ta|
    ensures forall m :: m in b ==> m.function_ < |tb|
    ensures RemapMethods(a, ta) == RemapMethods(b, tb)
  {
    MethodRefs(a, |ta|);
    MethodRefs(b, |tb|);
    assert |a| == |MethodLabels(a)| == |MethodLabels(b)| == |b|;
    forall i | 0 <= i < |a| ensures RemapMethods(a, ta)[i] == RemapMethods(b, tb)[i] {
      SameMethod(a, ta, b, tb, i);
    }
  }

  lemma SameMethod(a: seq<ServiceMethod>, ta: seq<TypeRef>, b: seq<ServiceMethod>, tb: seq<TypeRef>, i: nat)
    requires MethodLabels(a) == MethodLabels(b) && i < |a| == |b|
    requires forall x :: x in MethodFunctions(a) ==> x < |ta|
    requires forall x :: x in MethodFunctions(b) ==> x < |tb|
    requires MapRefs(MethodFunctions(a), ta) == MapRefs(MethodFunctions(b), tb)
    ensures a[i].id == b[i].id && a[i].name == b[i].name
    ensures a[i].function_ < |ta| && b[i].function_ < |tb| && ta[a[i].function_] == tb[b[i].function_]
  {
    assert MethodLabels(a)[i] == MethodLabels(b)[i];
    MembersOf(MethodFunctions(a), i);
    MembersOf(MethodFunctions(b), i);
    assert MapRefs(MethodFunctions(a), ta)[i] == MapRefs(MethodFunctions(b), tb)[i];
  }
}
