/** The signature bytes partition refinement compares. */
module Signatures {
  import opened Bytes
  import opened Sorting
  import opened TypeGraph
  import opened Remapping

  function PrimitiveTag(p: PrimitiveType): byte {
    match p
    case Null => 0 case Bool => 1 case Nat => 2 case Int => 3
    case Nat8 => 4 case Nat16 => 5 case Nat32 => 6 case Nat64 => 7
    case Int8 => 8 case Int16 => 9 case Int32 => 10 case Int64 => 11
    case Float32 => 12 case Float64 => 13 case Text => 14
    case Reserved => 15 case Empty => 16 case Principal => 17
  }

  function ModeTag(m: MethodMode): byte {
    match m
    case Update => 0 case Query => 1 case CompositeQuery => 2 case Oneway => 3
  }

  function WriteAll(values: seq<nat>): seq<byte>
    requires forall v :: v in values ==> v < U32_LIMIT
  {
    if values == [] then []
    else
      assert values[0] in values && forall v :: v in values[1..] ==> v in values;
      U32Be(values[0]) + WriteAll(values[1..])
  }

  ghost predicate LabelsFit(labels: seq<(u32, Bytes.Text)>) {
    forall l :: l in labels ==> |l.1| < U32_LIMIT
  }

  function WriteLabels(labels: seq<(u32, Bytes.Text)>): seq<byte>
    requires LabelsFit(labels)
  {
    if labels == [] then []
    else U32Be(labels[0].0) + (U32Be(|labels[0].1|) + (labels[0].1 + WriteLabels(labels[1..])))
  }

  /** Every count and length fits the four-byte encoding; the source panics
      otherwise. */
  ghost predicate Fits(shape: Shape) {
    match shape
    case RecordShape(ids) => |ids| < U32_LIMIT
    case VariantShape(ids) => |ids| < U32_LIMIT
    case FuncShape(args, results, _) => args < U32_LIMIT && results < U32_LIMIT
    case ServiceShape(labels) => |labels| < U32_LIMIT && LabelsFit(labels)
    case ClassShape(init) => init < U32_LIMIT
    case _ => true
  }

  function NodeTag(shape: Shape): byte {
    match shape
    case PrimitiveShape(_) => 0
    case OptShape => 1
    case VecShape => 2
    case RecordShape(_) => 3
    case VariantShape(_) => 4
    case FuncShape(_, _, _) => 5
    case ServiceShape(_) => 6
    case ClassShape(_) => 7
  }

  function ShapeBody(shape: Shape): seq<byte>
    requires Fits(shape)
  {
    match shape
    case PrimitiveShape(p) => [PrimitiveTag(p)]
    case OptShape => []
    case VecShape => []
    case RecordShape(ids) => U32Be(|ids|) + WriteAll(ids)
    case VariantShape(ids) => U32Be(|ids|) + WriteAll(ids)
    case FuncShape(args, results, mode) => [ModeTag(mode)] + (U32Be(args) + U32Be(results))
    case ServiceShape(labels) => U32Be(|labels|) + WriteLabels(labels)
    case ClassShape(init) => U32Be(init)
  }

  function ShapeBytes(shape: Shape): seq<byte>
    requires Fits(shape)
  {
    [NodeTag(shape)] + ShapeBody(shape)
  }

  lemma ShapeFits(node: TypeNode)
    requires ValidLocally(node)
    ensures Fits(ShapeOf(node))
  {
    match node
    case Record(fields) => SortedFieldMembers(fields);
    case Variant(fields) => SortedFieldMembers(fields);
    case Service(methods) =>
      SortedMethodMembers(methods);
      var s := Sort(MethodLe, methods);
      forall l | l in MethodLabels(s) ensures |l.1| < U32_LIMIT {
        var i :| 0 <= i < |s| && MethodLabels(s)[i] == l;
        assert s[i] in methods;
      }
    case _ =>
  }

  /** The bytes a node starts out with. */
  function LocalSignature(node: TypeNode): seq<byte>
    requires ValidLocally(node)
  {
    ShapeFits(node);
    ShapeBytes(ShapeOf(node))
  }

  /** The bytes of a refinement round: the local signature, the separator, the
      node's own class and the classes of its sorted children. */
  function RefinedSignature(node: TypeNode, own: nat, classes: seq<nat>): seq<byte>
    requires ValidLocally(node) && RefsBelow(node, |classes|)
    requires own < U32_LIMIT && forall c :: c in classes ==> c < U32_LIMIT
  {
    StoredAndSorted(node);
    LocalSignature(node) + ([255] + (U32Be(own) + WriteAll(ClassesOf(node, classes))))
  }

  function ClassesOf(node: TypeNode, classes: seq<nat>): (r: seq<nat>)
    requires RefsBelow(node, |classes|)
    ensures |r| == |SortedChildren(node)|
    ensures forall c :: c in r ==> c in classes
  {
    StoredAndSorted(node);
    MapRefs(SortedChildren(node), classes)
  }

  // ----- the bytes are unambiguous -----

  lemma {:induction false} WriteAllPrefix(a: seq<nat>, x: seq<byte>, b: seq<nat>, y: seq<byte>)
    requires forall v :: v in a ==> v < U32_LIMIT
    requires forall v :: v in b ==> v < U32_LIMIT
    requires |a| == |b| && WriteAll(a) + x == WriteAll(b) + y
    ensures a == b && x == y
  {
    if a == [] {
      assert [] + x == x && [] + y == y;
    } else {
      assert a[0] in a && b[0] in b;
      assert forall v :: v in a[1..] ==> v in a;
      assert forall v :: v in b[1..] ==> v in b;
      Associative(U32Be(a[0]), WriteAll(a[1..]), x);
      Associative(U32Be(b[0]), WriteAll(b[1..]), y);
      U32BePrefix(a[0], WriteAll(a[1..]) + x, b[0], WriteAll(b[1..]) + y);
      WriteAllPrefix(a[1..], x, b[1..], y);
      assert a == [a[0]] + a[1..] && b == [b[0]] + b[1..];
    }
  }

  lemma FirstLabel(a: seq<(u32, Bytes.Text)>, x: seq<byte>)
    requires LabelsFit(a) && a != []
    ensures WriteLabels(a) + x
            == U32Be(a[0].0) + (U32Be(|a[0].1|) + (a[0].1 + (WriteLabels(a[1..]) + x)))
  {
    hide U32Be;
  }

  lemma {:induction false} WriteLabelsPrefix(a: seq<(u32, Bytes.Text)>, x: seq<byte>, b: seq<(u32, Bytes.Text)>, y: seq<byte>)
    requires LabelsFit(a) && LabelsFit(b)
    requires |a| == |b| && WriteLabels(a) + x == WriteLabels(b) + y
    ensures a == b && x == y
  {
    if a == [] {
      assert [] + x == x && [] + y == y;
    } else {
      var ta, tb := WriteLabels(a[1..]) + x, WriteLabels(b[1..]) + y;
      var na, nb := a[0].1, b[0].1;
      FirstLabel(a, x);
      FirstLabel(b, y);
      hide WriteLabels, U32Be;
      U32BePrefix(a[0].0, U32Be(|na|) + (na + ta), b[0].0, U32Be(|nb|) + (nb + tb));
      U32BePrefix(|na|, na + ta, |nb|, nb + tb);
      SplitEqual(na, ta, nb, tb);
      WriteLabelsPrefix(a[1..], x, b[1..], y);
      assert a == [a[0]] + a[1..] && b == [b[0]] + b[1..];
    }
  }

  lemma Associative<T>(a: seq<T>, b: seq<T>, c: seq<T>)
    ensures (a + b) + c == a + (b + c)
  {
  }

  lemma CountedIds(a: seq<u32>, x: seq<byte>, b: seq<u32>, y: seq<byte>)
    requires |a| < U32_LIMIT && |b| < U32_LIMIT
    requires (U32Be(|a|) + WriteAll(a)) + x == (U32Be(|b|) + WriteAll(b)) + y
    ensures a == b && x == y
  {
    Associative(U32Be(|a|), WriteAll(a), x);
    Associative(U32Be(|b|), WriteAll(b), y);
    U32BePrefix(|a|, WriteAll(a) + x, |b|, WriteAll(b) + y);
    WriteAllPrefix(a, x, b, y);
  }

  lemma CountedLabels(a: seq<(u32, Bytes.Text)>, x: seq<byte>, b: seq<(u32, Bytes.Text)>, y: seq<byte>)
    requires |a| < U32_LIMIT && |b| < U32_LIMIT && LabelsFit(a) && LabelsFit(b)
    requires (U32Be(|a|) + WriteLabels(a)) + x == (U32Be(|b|) + WriteLabels(b)) + y
    ensures a == b && x == y
  {
    Associative(U32Be(|a|), WriteLabels(a), x);
    Associative(U32Be(|b|), WriteLabels(b), y);
    U32BePrefix(|a|, WriteLabels(a) + x, |b|, WriteLabels(b) + y);
    WriteLabelsPrefix(a, x, b, y);
  }

  lemma FuncBody(s: Shape, t: Shape)
    requires Fits(s) && Fits(t) && s.FuncShape? && t.FuncShape?
    requires ShapeBody(s) == ShapeBody(t)
    ensures s == t
  {
    SplitEqual([ModeTag(s.mode)], U32Be(s.args) + U32Be(s.results), [ModeTag(t.mode)], U32Be(t.args) + U32Be(t.results));
    assert [ModeTag(s.mode)][0] == [ModeTag(t.mode)][0];
    U32BePrefix(s.args, U32Be(s.results), t.args, U32Be(t.results));
    U32BeInjective(s.results, t.results);
  }

  /** Bodies under one node tag are a prefix code. */
  lemma ShapeBodyPrefix(s: Shape, x: seq<byte>, t: Shape, y: seq<byte>)
    requires Fits(s) && Fits(t) && NodeTag(s) == NodeTag(t)
    requires ShapeBody(s) + x == ShapeBody(t) + y
    ensures s == t && x == y
  {
    match s
    case RecordShape(ids) => CountedIds(ids, x, t.ids, y);
    case VariantShape(ids) => CountedIds(ids, x, t.ids, y);
    case ServiceShape(labels) => CountedLabels(labels, x, t.labels, y);
    case PrimitiveShape(p) =>
      SplitEqual(ShapeBody(s), x, ShapeBody(t), y);
      assert ShapeBody(s)[0] == ShapeBody(t)[0];
    case FuncShape(_, _, _) =>
      SplitEqual(ShapeBody(s), x, ShapeBody(t), y);
      FuncBody(s, t);
    case ClassShape(init) => U32BePrefix(init, x, t.init, y);
    case _ => SplitEqual(ShapeBody(s), x, ShapeBody(t), y);
  }

  /** Local signatures are a prefix code for shapes: no signature followed by
      anything reads as another shape's signature followed by anything. */
  lemma ShapeBytesPrefix(s: Shape, x: seq<byte>, t: Shape, y: seq<byte>)
    requires Fits(s) && Fits(t)
    requires ShapeBytes(s) + x == ShapeBytes(t) + y
    ensures s == t && x == y
  {
    Associative([NodeTag(s)], ShapeBody(s), x);
    Associative([NodeTag(t)], ShapeBody(t), y);
    SplitEqual([NodeTag(s)], ShapeBody(s) + x, [NodeTag(t)], ShapeBody(t) + y);
    assert [NodeTag(s)][0] == [NodeTag(t)][0];
    ShapeBodyPrefix(s, x, t, y);
  }

  lemma LocalSignatureInjective(a: TypeNode, b: TypeNode)
    requires ValidLocally(a) && ValidLocally(b)
    ensures LocalSignature(a) == LocalSignature(b) <==> ShapeOf(a) == ShapeOf(b)
  {
    ShapeFits(a);
    ShapeFits(b);
    if LocalSignature(a) == LocalSignature(b) {
      ShapeBytesPrefix(ShapeOf(a), [], ShapeOf(b), []);
    }
  }

  /** Two refined signatures agree exactly when the shapes, the own classes and
      the classes of the sorted children, one by one, agree. */
  lemma RefinedSignatureInjective(a: TypeNode, ca: nat, la: seq<nat>, b: TypeNode, cb: nat, lb: seq<nat>)
    requires ValidLocally(a) && RefsBelow(a, |la|) && ca < U32_LIMIT && forall c :: c in la ==> c < U32_LIMIT
    requires ValidLocally(b) && RefsBelow(b, |lb|) && cb < U32_LIMIT && forall c :: c in lb ==> c < U32_LIMIT
    ensures RefinedSignature(a, ca, la) == RefinedSignature(b, cb, lb) <==>
            ShapeOf(a) == ShapeOf(b) && ca == cb && ClassesOf(a, la) == ClassesOf(b, lb)
  {
    ShapeFits(a);
    ShapeFits(b);
    var ka, kb := ClassesOf(a, la), ClassesOf(b, lb);
    if RefinedSignature(a, ca, la) == RefinedSignature(b, cb, lb) {
      var ra, rb := U32Be(ca) + WriteAll(ka), U32Be(cb) + WriteAll(kb);
      ShapeBytesPrefix(ShapeOf(a), [255] + ra, ShapeOf(b), [255] + rb);
      SplitEqual([255], ra, [255], rb);
      U32BePrefix(ca, WriteAll(ka), cb, WriteAll(kb));
      ChildrenFitShape(a);
      ChildrenFitShape(b);
      WriteAllPrefix(ka, [], kb, []);
    }
  }
}
