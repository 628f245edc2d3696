/** What a node of a cyclic arena means. Two definitions are given: equality of
    the unfoldings of the node to every finite depth, which is what refinement
    computes with, and bisimilarity by labelled edges, which mentions neither
    sorting nor positions. They coincide on valid arenas. */
module Meaning {
  import opened Bytes
  import opened Sorting
  import opened TypeGraph
  import opened Remapping

  // ----- unfoldings -----

  datatype Tree = Cut | Tree(shape: Shape, children: seq<Tree>)

  /** The node written out as a tree, cut at depth `n`. */
  ghost function Unfold(types: Types, i: TypeRef, n: nat): Tree
    requires Closed(types) && i < |types|
    decreases n
  {
    if n == 0 then Cut
    else
      ChildrenInRange(types, i);
      var kids := SortedChildren(types[i]);
      Tree(ShapeOf(types[i]), seq(|kids|, k requires 0 <= k < |kids| => Unfold(types, kids[k], n - 1)))
  }

  ghost predicate Same(a: Types, i: TypeRef, b: Types, j: TypeRef)
    requires Closed(a) && Closed(b) && i < |a| && j < |b|
  {
    forall n: nat :: Unfold(a, i, n) == Unfold(b, j, n)
  }

  lemma UnfoldStart(a: Types, i: TypeRef, b: Types, j: TypeRef)
    requires Closed(a) && Closed(b) && i < |a| && j < |b|
    ensures Unfold(a, i, 0) == Unfold(b, j, 0)
  {
  }

  /** One level of an unfolding. */
  lemma UnfoldStep(a: Types, i: TypeRef, b: Types, j: TypeRef, n: nat)
    requires Closed(a) && Closed(b) && i < |a| && j < |b|
    ensures forall k :: 0 <= k < |SortedChildren(a[i])| ==> SortedChildren(a[i])[k] < |a|
    ensures forall k :: 0 <= k < |SortedChildren(b[j])| ==> SortedChildren(b[j])[k] < |b|
    ensures Unfold(a, i, n + 1) == Unfold(b, j, n + 1) <==>
            && ShapeOf(a[i]) == ShapeOf(b[j])
            && |SortedChildren(a[i])| == |SortedChildren(b[j])|
            && forall k :: 0 <= k < |SortedChildren(a[i])| ==>
                 Unfold(a, SortedChildren(a[i])[k], n) == Unfold(b, SortedChildren(b[j])[k], n)
  {
    ChildrenInRange(a, i);
    ChildrenInRange(b, j);
    var ka, kb := SortedChildren(a[i]), SortedChildren(b[j]);
    var ta, tb := Unfold(a, i, n + 1).children, Unfold(b, j, n + 1).children;
    assert |ta| == |ka| && |tb| == |kb|;
    assert forall k :: 0 <= k < |ka| ==> ta[k] == Unfold(a, ka[k], n);
    assert forall k :: 0 <= k < |kb| ==> tb[k] == Unfold(b, kb[k], n);
  }

  lemma {:induction false} UnfoldShorter(a: Types, i: TypeRef, b: Types, j: TypeRef, n: nat)
    requires Closed(a) && Closed(b) && i < |a| && j < |b|
    requires Unfold(a, i, n + 1) == Unfold(b, j, n + 1)
    ensures Unfold(a, i, n) == Unfold(b, j, n)
    decreases n
  {
    if n > 0 {
      var m := n - 1;
      UnfoldStep(a, i, b, j, n);
      forall k | 0 <= k < |SortedChildren(a[i])|
        ensures Unfold(a, SortedChildren(a[i])[k], m) == Unfold(b, SortedChildren(b[j])[k], m)
      {
        UnfoldShorter(a, SortedChildren(a[i])[k], b, SortedChildren(b[j])[k], m);
      }
      UnfoldStep(a, i, b, j, m);
    }
  }

  /** Two nodes mean the same exactly when their shapes agree and their sorted
      children mean the same, one by one. */
  lemma SameStep(a: Types, i: TypeRef, b: Types, j: TypeRef)
    requires Closed(a) && Closed(b) && i < |a| && j < |b|
    ensures forall k :: 0 <= k < |SortedChildren(a[i])| ==> SortedChildren(a[i])[k] < |a|
    ensures forall k :: 0 <= k < |SortedChildren(b[j])| ==> SortedChildren(b[j])[k] < |b|
    ensures Same(a, i, b, j) <==>
            && ShapeOf(a[i]) == ShapeOf(b[j])
            && |SortedChildren(a[i])| == |SortedChildren(b[j])|
            && forall k :: 0 <= k < |SortedChildren(a[i])| ==>
                 Same(a, SortedChildren(a[i])[k], b, SortedChildren(b[j])[k])
  {
    ChildrenInRange(a, i);
    ChildrenInRange(b, j);
    var ka, kb := SortedChildren(a[i]), SortedChildren(b[j]);
    if Same(a, i, b, j) {
      assert Unfold(a, i, 0 + 1) == Unfold(b, j, 0 + 1);
      UnfoldStep(a, i, b, j, 0);
      forall k, n: nat | 0 <= k < |ka| ensures Unfold(a, ka[k], n) == Unfold(b, kb[k], n) {
        assert Unfold(a, i, n + 1) == Unfold(b, j, n + 1);
        UnfoldStep(a, i, b, j, n);
      }
    }
    if ShapeOf(a[i]) == ShapeOf(b[j]) && |ka| == |kb| && forall k :: 0 <= k < |ka| ==> Same(a, ka[k], b, kb[k]) {
      forall n: nat ensures Unfold(a, i, n) == Unfold(b, j, n) {
        if n > 0 {
          forall k | 0 <= k < |ka| ensures Unfold(a, ka[k], n - 1) == Unfold(b, kb[k], n - 1) {
            assert ka[k] in ka && kb[k] in kb && Same(a, ka[k], b, kb[k]);
          }
          UnfoldStep(a, i, b, j, n - 1);
        }
      }
    }
  }

  // ----- labelled edges -----

  datatype Label =
    | InnerLabel
    | FieldLabel(id: u32)
    | MethodLabel(name: Bytes.Text)
    | ArgumentLabel(position: nat)
    | ResultLabel(position: nat)
    | InitLabel(position: nat)
    | ServiceLabel

  datatype Kind =
    | PrimitiveKind(primitive: PrimitiveType)
    | OptKind
    | VecKind
    | RecordKind
    | VariantKind
    | FuncKind(args: nat, results: nat, mode: MethodMode)
    | ServiceKind
    | ClassKind(init: nat)

  function KindOf(node: TypeNode): Kind {
    match node
    case Primitive(p) => PrimitiveKind(p)
    case Opt(_) => OptKind
    case Vec(_) => VecKind
    case Record(_) => RecordKind
    case Variant(_) => VariantKind
    case Func(args, results, mode) => FuncKind(|args|, |results|, mode)
    case Service(_) => ServiceKind
    case Class(init, _) => ClassKind(|init|)
  }

  /** An edge of the arena: node `node` reaches `to` under `name`. */
  ghost predicate Edge(node: TypeNode, name: Label, to: TypeRef) {
    match name
    case InnerLabel => (node.Opt? || node.Vec?) && node.inner == to
    case FieldLabel(id) => (node.Record? || node.Variant?) && Field(id, to) in node.fields
    case MethodLabel(text) => node.Service? && ServiceMethod(text, NameHash(text), to) in node.methods
    case ArgumentLabel(i) => node.Func? && i < |node.args| && node.args[i] == to
    case ResultLabel(i) => node.Func? && i < |node.results| && node.results[i] == to
    case InitLabel(i) => node.Class? && i < |node.init| && node.init[i] == to
    case ServiceLabel => node.Class? && node.service == to
  }

  function MethodNames(methods: seq<ServiceMethod>): (r: seq<Bytes.Text>)
    ensures |r| == |methods|
  { seq(|methods|, i requires 0 <= i < |methods| => methods[i].name) }

  /** Some edge leaves the node under the label. */
  predicate HasLabel(node: TypeNode, name: Label) {
    match name
    case InnerLabel => node.Opt? || node.Vec?
    case FieldLabel(id) => (node.Record? || node.Variant?) && id in FieldIds(node.fields)
    case MethodLabel(text) => node.Service? && text in MethodNames(node.methods)
    case ArgumentLabel(i) => node.Func? && i < |node.args|
    case ResultLabel(i) => node.Func? && i < |node.results|
    case InitLabel(i) => node.Class? && i < |node.init|
    case ServiceLabel => node.Class?
  }

  /** Two nodes agree on their kind and on the labels of their edges, and equal
      labels lead to related nodes. */
  ghost predicate Matches(a: TypeNode, b: TypeNode, related: set<(TypeRef, TypeRef)>) {
    && KindOf(a) == KindOf(b)
    && (forall l :: HasLabel(a, l) <==> HasLabel(b, l))
    && forall l, x: TypeRef, y: TypeRef :: Edge(a, l, x) && Edge(b, l, y) ==> (x, y) in related
  }

  ghost predicate Bisimulation(a: Types, b: Types, related: set<(TypeRef, TypeRef)>) {
    forall p :: p in related ==> p.0 < |a| && p.1 < |b| && Matches(a[p.0], b[p.1], related)
  }

  /** The textbook definition: some bisimulation relates the two nodes. */
  ghost predicate Bisimilar(a: Types, i: TypeRef, b: Types, j: TypeRef) {
    exists related: set<(TypeRef, TypeRef)> :: Bisimulation(a, b, related) && (i, j) in related
  }

  ghost predicate MatchesInOrder(a: TypeNode, b: TypeNode, related: set<(TypeRef, TypeRef)>) {
    && ShapeOf(a) == ShapeOf(b)
    && |SortedChildren(a)| == |SortedChildren(b)|
    && forall k :: 0 <= k < |SortedChildren(a)| ==> (SortedChildren(a)[k], SortedChildren(b)[k]) in related
  }

  // ----- the two agree node by node -----

  lemma DistinctIdLists(a: seq<nat>, b: seq<nat>)
    requires forall i, j :: 0 <= i < j < |a| ==> a[i] < a[j]
    requires forall i, j :: 0 <= i < j < |b| ==> b[i] < b[j]
    requires forall x :: x in a <==> x in b
    ensures a == b
  {
    SameMembersSameMultiset(a, b);
    RefOrder();
    SortedUnique(RefLe, a, b);
  }

  lemma FieldIdMember(fields: seq<Field>, k: nat)
    requires k < |fields|
    ensures fields[k].id in FieldIds(fields)
  {
    assert FieldIds(fields)[k] == fields[k].id;
  }

  ghost predicate FieldsMatch(a: seq<Field>, b: seq<Field>, related: set<(TypeRef, TypeRef)>) {
    && (forall id :: id in FieldIds(a) <==> id in FieldIds(b))
    && forall f, g :: f in a && g in b && f.id == g.id ==> (f.ty, g.ty) in related
  }

  ghost predicate FieldsMatchInOrder(a: seq<Field>, b: seq<Field>, related: set<(TypeRef, TypeRef)>) {
    && FieldIds(a) == FieldIds(b)
    && |a| == |b|
    && forall k :: 0 <= k < |a| ==> (FieldTypes(a)[k], FieldTypes(b)[k]) in related
  }

  lemma OrderFieldMatch(a: seq<Field>, b: seq<Field>, related: set<(TypeRef, TypeRef)>)
    requires IdOrdered(a) && IdOrdered(b) && FieldsMatch(a, b, related)
    ensures FieldsMatchInOrder(a, b, related)
  {
    DistinctIdLists(FieldIds(a), FieldIds(b));
    assert |a| == |FieldIds(a)| == |b|;
    forall k | 0 <= k < |a| ensures (FieldTypes(a)[k], FieldTypes(b)[k]) in related {
      assert FieldIds(a)[k] == FieldIds(b)[k];
      assert a[k] in a && b[k] in b;
    }
  }

  lemma UnorderFieldMatch(a: seq<Field>, b: seq<Field>, related: set<(TypeRef, TypeRef)>)
    requires IdOrdered(a) && FieldsMatchInOrder(a, b, related)
    ensures FieldsMatch(a, b, related)
  {
    forall f, g | f in a && g in b && f.id == g.id ensures (f.ty, g.ty) in related {
      var k :| 0 <= k < |a| && a[k] == f;
      var l :| 0 <= l < |b| && b[l] == g;
      assert FieldIds(a)[l] == FieldIds(b)[l] && FieldIds(a)[k] == FieldIds(b)[k];
      assert k == l;
      assert (FieldTypes(a)[k], FieldTypes(b)[k]) in related;
    }
  }

  lemma SameFieldIds(a: seq<Field>, b: seq<Field>)
    requires forall f :: f in a ==> f in b
    ensures forall id :: id in FieldIds(a) ==> id in FieldIds(b)
  {
    forall id | id in FieldIds(a) ensures id in FieldIds(b) {
      var k :| 0 <= k < |a| && FieldIds(a)[k] == id;
      assert a[k] in a;
      var l :| 0 <= l < |b| && b[l] == a[k];
      FieldIdMember(b, l);
    }
  }

  /** For distinct identifiers, matching fields by identifier is matching the
      sorted fields one by one. */
  lemma FieldsMatchWhenSorted(a: seq<Field>, b: seq<Field>, related: set<(TypeRef, TypeRef)>)
    requires DistinctIds(a) && DistinctIds(b)
    ensures FieldsMatch(a, b, related) <==> FieldsMatchInOrder(Sort(FieldLe, a), Sort(FieldLe, b), related)
  {
    var sa, sb := Sort(FieldLe, a), Sort(FieldLe, b);
    SortedFieldMembers(a);
    SortedFieldMembers(b);
    SameFieldIds(a, sa);
    SameFieldIds(sa, a);
    SameFieldIds(b, sb);
    SameFieldIds(sb, b);
    assert FieldsMatch(a, b, related) <==> FieldsMatch(sa, sb, related);
    SortedFieldsIdOrdered(a);
    SortedFieldsIdOrdered(b);
    if FieldsMatch(sa, sb, related) { OrderFieldMatch(sa, sb, related); }
    if FieldsMatchInOrder(sa, sb, related) { UnorderFieldMatch(sa, sb, related); }
  }

  /** The order of distinct method names that `MethodLe` induces. */
  predicate NameLe(a: Bytes.Text, b: Bytes.Text) {
    NameHash(a) < NameHash(b) || (NameHash(a) == NameHash(b) && LexLe(a, b))
  }

  lemma NameOrder()
    ensures TotalOrder(NameLe)
  {
    LexOrder();
    forall a, b ensures NameLe(a, b) || NameLe(b, a) { LexTotal(a, b); }
    forall a, b | NameLe(a, b) && NameLe(b, a) ensures a == b { LexAntisymmetric(a, b); }
    forall a, b, c | NameLe(a, b) && NameLe(b, c) ensures NameLe(a, c) {
      if NameHash(a) == NameHash(b) == NameHash(c) { LexTransitive(a, b, c); }
    }
  }

  lemma MethodNameMember(methods: seq<ServiceMethod>, k: nat)
    requires k < |methods|
    ensures methods[k].name in MethodNames(methods)
  {
    assert MethodNames(methods)[k] == methods[k].name;
  }

  ghost predicate Hashed(methods: seq<ServiceMethod>) {
    forall m :: m in methods ==> m.id == NameHash(m.name)
  }

  ghost predicate MethodsMatch(a: seq<ServiceMethod>, b: seq<ServiceMethod>, related: set<(TypeRef, TypeRef)>) {
    && (forall text :: text in MethodNames(a) <==> text in MethodNames(b))
    && forall m, w :: m in a && w in b && m.name == w.name ==> (m.function_, w.function_) in related
  }

  ghost predicate MethodsMatchInOrder(a: seq<ServiceMethod>, b: seq<ServiceMethod>, related: set<(TypeRef, TypeRef)>) {
    && MethodLabels(a) == MethodLabels(b)
    && |a| == |b|
    && forall k :: 0 <= k < |a| ==> (MethodFunctions(a)[k], MethodFunctions(b)[k]) in related
  }

  lemma OrderedNames(methods: seq<ServiceMethod>)
    requires NameOrdered(methods) && Hashed(methods)
    ensures Sorted(NameLe, MethodNames(methods)) && NoDuplicates(MethodNames(methods))
  {
    var names := MethodNames(methods);
    forall i, j | 0 <= i < j < |names| ensures NameLe(names[i], names[j]) && names[i] != names[j] {
      assert methods[i] in methods && methods[j] in methods;
    }
  }

  lemma OrderMethodMatch(a: seq<ServiceMethod>, b: seq<ServiceMethod>, related: set<(TypeRef, TypeRef)>)
    requires NameOrdered(a) && NameOrdered(b) && Hashed(a) && Hashed(b) && MethodsMatch(a, b, related)
    ensures MethodsMatchInOrder(a, b, related)
  {
    OrderedNames(a);
    OrderedNames(b);
    SameMembersSameMultiset(MethodNames(a), MethodNames(b));
    NameOrder();
    SortedUnique(NameLe, MethodNames(a), MethodNames(b));
    assert |a| == |MethodNames(a)| == |b|;
    forall k | 0 <= k < |a|
      ensures MethodLabels(a)[k] == MethodLabels(b)[k] && (MethodFunctions(a)[k], MethodFunctions(b)[k]) in related
    {
      assert MethodNames(a)[k] == MethodNames(b)[k];
      assert a[k] in a && b[k] in b;
    }
  }

  lemma UnorderMethodMatch(a: seq<ServiceMethod>, b: seq<ServiceMethod>, related: set<(TypeRef, TypeRef)>)
    requires NameOrdered(a) && MethodsMatchInOrder(a, b, related)
    ensures MethodsMatch(a, b, related)
  {
    forall k | 0 <= k < |a| ensures MethodNames(a)[k] == MethodNames(b)[k] {
      assert MethodLabels(a)[k] == MethodLabels(b)[k];
    }
    assert MethodNames(a) == MethodNames(b);
    forall m, w | m in a && w in b && m.name == w.name ensures (m.function_, w.function_) in related {
      var k :| 0 <= k < |a| && a[k] == m;
      var l :| 0 <= l < |b| && b[l] == w;
      assert MethodNames(a)[l] == MethodNames(b)[l];
      assert a[l].name == a[k].name;
      assert k == l;
      assert (MethodFunctions(a)[k], MethodFunctions(b)[k]) in related;
    }
  }

  lemma SameMethodNames(a: seq<ServiceMethod>, b: seq<ServiceMethod>)
    requires forall m :: m in a ==> m in b
    ensures forall text :: text in MethodNames(a) ==> text in MethodNames(b)
  {
    forall text | text in MethodNames(a) ensures text in MethodNames(b) {
      var k :| 0 <= k < |a| && MethodNames(a)[k] == text;
      assert a[k] in a;
      var l :| 0 <= l < |b| && b[l] == a[k];
      MethodNameMember(b, l);
    }
  }

  lemma MethodsMatchAsSorted(a: seq<ServiceMethod>, b: seq<ServiceMethod>, related: set<(TypeRef, TypeRef)>)
    ensures MethodsMatch(a, b, related) <==> MethodsMatch(Sort(MethodLe, a), Sort(MethodLe, b), related)
  {
    hide Sort, MethodNames;
    SortedMethodMembers(a);
    SortedMethodMembers(b);
    SameMethodNames(a, Sort(MethodLe, a));
    SameMethodNames(Sort(MethodLe, a), a);
    SameMethodNames(b, Sort(MethodLe, b));
    SameMethodNames(Sort(MethodLe, b), b);
  }

  /** The same for methods, whose identifiers follow from their names. */
  lemma MethodsMatchWhenSorted(a: seq<ServiceMethod>, b: seq<ServiceMethod>, related: set<(TypeRef, TypeRef)>)
    requires DistinctNames(a) && DistinctNames(b) && Hashed(a) && Hashed(b)
    ensures MethodsMatch(a, b, related) <==> MethodsMatchInOrder(Sort(MethodLe, a), Sort(MethodLe, b), related)
  {
    var sa, sb := Sort(MethodLe, a), Sort(MethodLe, b);
    SortedMethodMembers(a);
    SortedMethodMembers(b);
    assert Hashed(sa) && Hashed(sb);
    hide Sort, MethodsMatch, MethodsMatchInOrder, NameOrdered, DistinctNames, Hashed;
    MethodsMatchAsSorted(a, b, related);
    SortedMethodsNameOrdered(a);
    SortedMethodsNameOrdered(b);
    if MethodsMatch(sa, sb, related) { OrderMethodMatch(sa, sb, related); }
    if MethodsMatchInOrder(sa, sb, related) { UnorderMethodMatch(sa, sb, related); }
  }

  lemma FieldEdges(a: TypeNode, b: TypeNode, related: set<(TypeRef, TypeRef)>)
    requires (a.Record? && b.Record?) || (a.Variant? && b.Variant?)
    ensures Matches(a, b, related) <==> FieldsMatch(a.fields, b.fields, related)
  {
    assert forall id :: HasLabel(a, FieldLabel(id)) <==> id in FieldIds(a.fields);
    assert forall id :: HasLabel(b, FieldLabel(id)) <==> id in FieldIds(b.fields);
    if Matches(a, b, related) {
      forall f, g | f in a.fields && g in b.fields && f.id == g.id ensures (f.ty, g.ty) in related {
        assert Edge(a, FieldLabel(f.id), f.ty) && Edge(b, FieldLabel(f.id), g.ty);
      }
      assert forall id :: HasLabel(a, FieldLabel(id)) <==> HasLabel(b, FieldLabel(id));
    }
  }

  lemma MethodEdges(a: TypeNode, b: TypeNode, related: set<(TypeRef, TypeRef)>)
    requires a.Service? && b.Service? && Hashed(a.methods) && Hashed(b.methods)
    ensures Matches(a, b, related) <==> MethodsMatch(a.methods, b.methods, related)
  {
    assert forall text :: HasLabel(a, MethodLabel(text)) <==> text in MethodNames(a.methods);
    assert forall text :: HasLabel(b, MethodLabel(text)) <==> text in MethodNames(b.methods);
    if Matches(a, b, related) {
      forall m, w | m in a.methods && w in b.methods && m.name == w.name ensures (m.function_, w.function_) in related {
        assert Edge(a, MethodLabel(m.name), m.function_) && Edge(b, MethodLabel(m.name), w.function_);
      }
      assert forall text :: HasLabel(a, MethodLabel(text)) <==> HasLabel(b, MethodLabel(text));
    }
  }

  lemma FuncEdges(a: TypeNode, b: TypeNode, related: set<(TypeRef, TypeRef)>)
    requires a.Func? && b.Func? && KindOf(a) == KindOf(b)
    ensures Matches(a, b, related) <==> MatchesInOrder(a, b, related)
  {
    var ka, kb := SortedChildren(a), SortedChildren(b);
    if Matches(a, b, related) {
      forall k | 0 <= k < |ka| ensures (ka[k], kb[k]) in related {
        var l := if k < |a.args| then ArgumentLabel(k) else ResultLabel(k - |a.args|);
        assert Edge(a, l, ka[k]) && Edge(b, l, kb[k]);
      }
    }
    if MatchesInOrder(a, b, related) {
      forall l, x: TypeRef, y: TypeRef | Edge(a, l, x) && Edge(b, l, y) ensures (x, y) in related {
        var k := if l.ArgumentLabel? then l.position else |a.args| + l.position;
        assert (ka[k], kb[k]) in related;
      }
    }
  }

  lemma ClassEdges(a: TypeNode, b: TypeNode, related: set<(TypeRef, TypeRef)>)
    requires a.Class? && b.Class? && KindOf(a) == KindOf(b)
    ensures Matches(a, b, related) <==> MatchesInOrder(a, b, related)
  {
    var ka, kb := SortedChildren(a), SortedChildren(b);
    if Matches(a, b, related) {
      forall k | 0 <= k < |ka| ensures (ka[k], kb[k]) in related {
        var l := if k < |a.init| then InitLabel(k) else ServiceLabel;
        assert Edge(a, l, ka[k]) && Edge(b, l, kb[k]);
      }
    }
    if MatchesInOrder(a, b, related) {
      forall l, x: TypeRef, y: TypeRef | Edge(a, l, x) && Edge(b, l, y) ensures (x, y) in related {
        var k := if l.InitLabel? then l.position else |a.init|;
        assert (ka[k], kb[k]) in related;
      }
    }
  }

  lemma InnerEdges(a: TypeNode, b: TypeNode, related: set<(TypeRef, TypeRef)>)
    requires (a.Opt? && b.Opt?) || (a.Vec? && b.Vec?)
    ensures Matches(a, b, related) <==> MatchesInOrder(a, b, related)
  {
    assert Edge(a, InnerLabel, a.inner) && Edge(b, InnerLabel, b.inner);
    assert SortedChildren(a)[0] == a.inner && SortedChildren(b)[0] == b.inner;
    assert forall l, x: TypeRef :: Edge(a, l, x) ==> l == InnerLabel && x == a.inner;
    assert forall l, y: TypeRef :: Edge(b, l, y) ==> l == InnerLabel && y == b.inner;
  }

  /** For valid nodes, matching edges by label is matching the shapes and the
      sorted children one by one. */
  lemma MatchingInOrder(a: TypeNode, b: TypeNode, related: set<(TypeRef, TypeRef)>)
    requires ValidLocally(a) && ValidLocally(b)
    ensures Matches(a, b, related) <==> MatchesInOrder(a, b, related)
  {
    if KindOf(a) == KindOf(b) {
      match a
      case Primitive(_) =>
      case Opt(_) => InnerEdges(a, b, related);
      case Vec(_) => InnerEdges(a, b, related);
      case Record(_) => FieldEdges(a, b, related); FieldsMatchWhenSorted(a.fields, b.fields, related);
      case Variant(_) => FieldEdges(a, b, related); FieldsMatchWhenSorted(a.fields, b.fields, related);
      case Func(_, _, _) => FuncEdges(a, b, related);
      case Service(_) => MethodEdges(a, b, related); MethodsMatchWhenSorted(a.methods, b.methods, related);
      case Class(_, _) => ClassEdges(a, b, related);
    }
  }

  // ----- the two agree -----

  lemma BisimulationChildren(a: Types, i: TypeRef, b: Types, j: TypeRef, related: set<(TypeRef, TypeRef)>)
    requires ValidArena(a) && ValidArena(b) && Bisimulation(a, b, related) && (i, j) in related
    ensures i < |a| && j < |b| && MatchesInOrder(a[i], b[j], related)
  {
    var p := (i, j);
    assert p.0 < |a| && p.1 < |b| && Matches(a[p.0], b[p.1], related);
    assert ValidNode(a, i) && ValidNode(b, j);
    MatchingInOrder(a[i], b[j], related);
  }

  /** Nodes whose sorted children unfold alike to a depth unfold alike to the
      next one. */
  lemma MatchedUnfold(a: Types, i: TypeRef, b: Types, j: TypeRef, related: set<(TypeRef, TypeRef)>, n: nat)
    requires Closed(a) && Closed(b) && i < |a| && j < |b| && MatchesInOrder(a[i], b[j], related)
    requires UnfoldAlike(a, b, related, n)
    ensures Unfold(a, i, n + 1) == Unfold(b, j, n + 1)
  {
    UnfoldStep(a, i, b, j, n);
    hide Unfold, SortedChildren, ShapeOf, Closed;
    forall k | 0 <= k < |SortedChildren(a[i])|
      ensures Unfold(a, SortedChildren(a[i])[k], n) == Unfold(b, SortedChildren(b[j])[k], n)
    {
      var x := (SortedChildren(a[i])[k], SortedChildren(b[j])[k]);
      assert x in related;
    }
  }

  /** Every related pair unfolds alike to the depth. */
  ghost predicate UnfoldAlike(a: Types, b: Types, related: set<(TypeRef, TypeRef)>, n: nat)
    requires Closed(a) && Closed(b)
  {
    forall x :: x in related ==> x.0 < |a| && x.1 < |b| && Unfold(a, x.0, n) == Unfold(b, x.1, n)
  }

  lemma PairUnfolds(a: Types, b: Types, related: set<(TypeRef, TypeRef)>, n: nat, x: (TypeRef, TypeRef))
    requires ValidArena(a) && ValidArena(b) && Bisimulation(a, b, related) && x in related
    requires n > 0 ==> UnfoldAlike(a, b, related, n - 1)
    ensures x.0 < |a| && x.1 < |b| && Unfold(a, x.0, n) == Unfold(b, x.1, n)
  {
    assert x == (x.0, x.1);
    assert Closed(a) && Closed(b);
    hide Bisimulation, ValidArena, Unfold, MatchesInOrder, Closed;
    BisimulationChildren(a, x.0, b, x.1, related);
    if n == 0 { UnfoldStart(a, x.0, b, x.1); } else { MatchedUnfold(a, x.0, b, x.1, related, n - 1); }
  }

  lemma {:induction false} RelatedUnfold(a: Types, b: Types, related: set<(TypeRef, TypeRef)>, n: nat)
    requires ValidArena(a) && ValidArena(b) && Bisimulation(a, b, related)
    ensures UnfoldAlike(a, b, related, n)
  {
    assert Closed(a) && Closed(b);
    hide Bisimulation, ValidArena, Unfold, Closed;
    if n > 0 { RelatedUnfold(a, b, related, n - 1); }
    forall x | x in related ensures x.0 < |a| && x.1 < |b| && Unfold(a, x.0, n) == Unfold(b, x.1, n) {
      PairUnfolds(a, b, related, n, x);
    }
  }

  lemma BisimulationUnfolds(a: Types, i: TypeRef, b: Types, j: TypeRef, related: set<(TypeRef, TypeRef)>, n: nat)
    requires ValidArena(a) && ValidArena(b) && Bisimulation(a, b, related) && (i, j) in related
    ensures i < |a| && j < |b| && Unfold(a, i, n) == Unfold(b, j, n)
  {
    RelatedUnfold(a, b, related, n);
    hide Unfold, Bisimulation, ValidArena;
    assert (i, j).0 < |a| && (i, j).1 < |b|;
  }

  /** Bisimilar nodes are exactly the nodes with equal unfoldings. */
  lemma BisimilarIsSame(a: Types, i: TypeRef, b: Types, j: TypeRef)
    requires ValidArena(a) && ValidArena(b) && i < |a| && j < |b|
    ensures Bisimilar(a, i, b, j) <==> Same(a, i, b, j)
  {
    if Bisimilar(a, i, b, j) {
      var related: set<(TypeRef, TypeRef)> :| Bisimulation(a, b, related) && (i, j) in related;
      forall n: nat ensures Unfold(a, i, n) == Unfold(b, j, n) {
        BisimulationUnfolds(a, i, b, j, related, n);
      }
    }
    if Same(a, i, b, j) {
      var related := set x: nat, y: nat | x < |a| && y < |b| && Same(a, x, b, y) :: (x, y);
      forall p | p in related ensures p.0 < |a| && p.1 < |b| && Matches(a[p.0], b[p.1], related) {
        SameStep(a, p.0, b, p.1);
        assert ValidNode(a, p.0) && ValidNode(b, p.1);
        var ka, kb := SortedChildren(a[p.0]), SortedChildren(b[p.1]);
        forall k | 0 <= k < |ka| ensures (ka[k], kb[k]) in related {
          assert ka[k] in ka && kb[k] in kb;
        }
        MatchingInOrder(a[p.0], b[p.1], related);
      }
      assert (i, j) in related;
    }
  }
}
