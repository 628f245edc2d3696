/** The signature bytes and work charges as protocol constants: the encodings
    the profile lists for every kind of node, and what a charge counts. */
module SignatureVectors {
  import opened Bytes
  import opened Counting
  import opened Sorting
  import opened TypeGraph
  import opened Signatures
  import opened Partition

  const PRIMITIVES: seq<PrimitiveType> := [
    Null, Bool, Nat, Int, Nat8, Nat16, Nat32, Nat64, Int8, Int16, Int32, Int64, Float32, Float64, PrimitiveType.Text, Reserved,
    Empty, Principal]

  const MODES: seq<MethodMode> := [Update, Query, CompositeQuery, Oneway]

  /** Tags are positions in the two tables. */
  lemma TagsArePositions(p: PrimitiveType, m: MethodMode)
    ensures |PRIMITIVES| == 18 && PrimitiveTag(p) < 18 && PRIMITIVES[PrimitiveTag(p)] == p
    ensures |MODES| == 4 && ModeTag(m) < 4 && MODES[ModeTag(m)] == m
  {
    match p
    case Null => case Bool => case Nat => case Int => case Nat8 => case Nat16 => case Nat32 => case Nat64 =>
    case Int8 => case Int16 => case Int32 => case Int64 => case Float32 => case Float64 => case Text =>
    case Reserved => case Empty => case Principal =>
  }

  lemma FieldsInOrder(a: Field, b: Field)
    requires a.id > b.id
    ensures Sort(FieldLe, [a, b]) == [b, a]
  {
    assert [a, b][1..] == [b] && [b][1..] == [];
    assert Sort(FieldLe, [b]) == [b];
    assert Insert(FieldLe, a, [b]) == [b] + Insert(FieldLe, a, []);
  }

  lemma SmallNumber(n: nat)
    requires n < 256
    ensures U32Be(n) == [0, 0, 0, n]
  {
    assert 0 <= n / 0x100_0000 <= n / 256 && 0 <= n / 0x1_0000 <= n / 256 && n / 256 == 0;
    var b := U32Be(n);
    assert b[0] == 0 && b[1] == 0 && b[2] == 0 && b[3] == n;
  }

  lemma TwoIds()
    ensures ShapeBytes(RecordShape([1, 2])) == [3, 0, 0, 0, 2, 0, 0, 0, 1, 0, 0, 0, 2]
    ensures ShapeBytes(VariantShape([1, 2])) == [4, 0, 0, 0, 2, 0, 0, 0, 1, 0, 0, 0, 2]
  {
    hide U32Be;
    SmallNumber(1);
    SmallNumber(2);
    var ids: seq<u32> := [1, 2];
    assert ids[1..] == [2] && [2][1..] == [];
    assert WriteAll([2]) == [0, 0, 0, 2] + [];
    assert WriteAll(ids) == [0, 0, 0, 1] + [0, 0, 0, 2];
  }

  /** The local signatures pinned for nodes without labels. */
  lemma LocalVectors()
    ensures ShapeBytes(ShapeOf(Primitive(Nat))) == [0, 2]
    ensures ShapeBytes(ShapeOf(Opt(9))) == [1] && ShapeBytes(ShapeOf(Vec(9))) == [2]
    ensures ShapeBytes(ShapeOf(Func([7, 8], [9], Query))) == [5, 1, 0, 0, 0, 2, 0, 0, 0, 1]
    ensures ShapeBytes(ShapeOf(Class([1, 2], 3))) == [7, 0, 0, 0, 2]
  {
    hide U32Be;
    SmallNumber(1);
    SmallNumber(2);
  }

  /** Fields are sorted by identifier, and the identifiers alone are written. */
  lemma FieldVectors()
    ensures ShapeOf(Record([Field(2, 9), Field(1, 5)])) == RecordShape([1, 2])
    ensures ShapeOf(Variant([Field(2, 9), Field(1, 5)])) == VariantShape([1, 2])
    ensures ShapeBytes(RecordShape([1, 2])) == [3, 0, 0, 0, 2, 0, 0, 0, 1, 0, 0, 0, 2]
    ensures ShapeBytes(VariantShape([1, 2])) == [4, 0, 0, 0, 2, 0, 0, 0, 1, 0, 0, 0, 2]
  {
    TwoIds();
    FieldsInOrder(Field(2, 9), Field(1, 5));
    hide ShapeBytes, Sort;
    var ids: seq<u32> := [1, 2];
    assert FieldIds([Field(1, 5), Field(2, 9)]) == ids;
  }

  lemma OneLabel()
    ensures ShapeOf(Service([ServiceMethod([0xc3, 0xa9], 0x0102_0304, 9)])) == ServiceShape([(0x0102_0304, [0xc3, 0xa9])])
  {
    var method_ := ServiceMethod([0xc3, 0xa9], 0x0102_0304, 9);
    assert [method_][1..] == [];
    assert Sort(MethodLe, [method_]) == [method_];
    hide Sort;
    var labels: seq<(u32, Bytes.Text)> := [(0x0102_0304, [0xc3, 0xa9])];
    assert MethodLabels([method_]) == labels;
  }

  /** A method is written by its identifier, the length of its name in bytes and
      the bytes. */
  lemma ServiceVector()
    ensures var node := Service([ServiceMethod([0xc3, 0xa9], 0x0102_0304, 9)]);
            Fits(ShapeOf(node)) && ShapeBytes(ShapeOf(node)) == [6, 0, 0, 0, 1, 1, 2, 3, 4, 0, 0, 0, 2, 0xc3, 0xa9]
  {
    OneLabel();
    assert U32Be(0x0102_0304) == [1, 2, 3, 4];
    hide U32Be, ShapeOf;
    SmallNumber(1);
    SmallNumber(2);
    var labels: seq<(u32, Bytes.Text)> := [(0x0102_0304, [0xc3, 0xa9])];
    assert labels[1..] == [] && WriteLabels([]) == [];
    assert WriteLabels(labels) == [1, 2, 3, 4] + ([0, 0, 0, 2] + [0xc3, 0xa9]);
  }

  /** The separator, the own class and the children's classes in field order. */
  lemma RefinedVector()
    ensures var node, classes := Record([Field(2, 0), Field(1, 1)]), [7, 3];
            && ValidLocally(node) && RefsBelow(node, |classes|)
            && RefinedSignature(node, 5, classes) == LocalSignature(node) + [0xff, 0, 0, 0, 5, 0, 0, 0, 3, 0, 0, 0, 7]
  {
    var node, classes := Record([Field(2, 0), Field(1, 1)]), [7, 3];
    RefinedClasses();
    hide Sort, LocalSignature, SortedChildren, U32Be;
    SmallNumber(5);
    TwoClasses();
  }

  lemma RefinedClasses()
    ensures var node, classes := Record([Field(2, 0), Field(1, 1)]), [7, 3];
            RefsBelow(node, |classes|) && ClassesOf(node, classes) == [3, 7]
  {
    FieldsInOrder(Field(2, 0), Field(1, 1));
    hide Sort;
    assert SortedChildren(Record([Field(2, 0), Field(1, 1)])) == [1, 0];
  }

  lemma TwoClasses()
    ensures WriteAll([3, 7]) == [0, 0, 0, 3, 0, 0, 0, 7]
  {
    hide U32Be;
    SmallNumber(3);
    SmallNumber(7);
    assert [3, 7][1..] == [7] && [7][1..] == [];
    assert WriteAll([7]) == [0, 0, 0, 7] + [];
    assert WriteAll([3, 7]) == [0, 0, 0, 3] + [0, 0, 0, 7];
  }

  // ----- what a charge counts -----

  /** What a charge for a node counts beside the node: its references, and the
      bytes of its signature but for the tag and count of a sorted list and the
      length of each of its names. */
  lemma NodeWorkCounts(node: TypeNode)
    requires ValidLocally(node)
    ensures NodeWork(node) == 1 + |SortedChildren(node)|
                              + match node
                                case Record(fields) => |LocalSignature(node)| - 5 + SortComparisonWork(|fields|)
                                case Variant(fields) => |LocalSignature(node)| - 5 + SortComparisonWork(|fields|)
                                case Service(methods) => |LocalSignature(node)| - 5 - 4 * |methods| + SortComparisonWork(|methods|)
                                case _ => |LocalSignature(node)|
  {
    ShapeFits(node);
    match node
    case Record(fields) =>
      SortedFieldMembers(fields);
      WrittenLength(FieldIds(Sort(FieldLe, fields)));
    case Variant(fields) =>
      SortedFieldMembers(fields);
      WrittenLength(FieldIds(Sort(FieldLe, fields)));
    case Service(methods) =>
      SortedMethodMembers(methods);
      MethodOrder();
      SortSorts(MethodLe, methods);
      LabelsLength(Sort(MethodLe, methods));
      SameNameBytes(Sort(MethodLe, methods), methods);
    case _ =>
  }

  lemma {:induction false} WrittenLength(values: seq<nat>)
    requires forall v :: v in values ==> v < U32_LIMIT
    ensures |WriteAll(values)| == 4 * |values|
  {
    if values != [] {
      assert forall v :: v in values[1..] ==> v in values;
      WrittenLength(values[1..]);
    }
  }

  lemma {:induction false} LabelsLength(methods: seq<ServiceMethod>)
    requires LabelsFit(MethodLabels(methods))
    ensures |WriteLabels(MethodLabels(methods))| == NameBytes(methods) + 4 * |methods|
  {
    if methods != [] {
      assert MethodLabels(methods)[1..] == MethodLabels(methods[1..]);
      assert forall l :: l in MethodLabels(methods[1..]) ==> l in MethodLabels(methods);
      LabelsLength(methods[1..]);
      NameBytesFirst(methods);
    }
  }

  lemma {:induction false} NameBytesFirst(methods: seq<ServiceMethod>)
    requires methods != []
    ensures NameBytes(methods) == 4 + |methods[0].name| + NameBytes(methods[1..])
  {
    if |methods| > 1 {
      var n := |methods| - 1;
      NameBytesFirst(methods[..n]);
      assert methods[1..][..n - 1] == methods[..n][1..];
    }
  }

  lemma TakenOut<T>(a: seq<T>, b: seq<T>, i: nat)
    requires multiset(a) == multiset(b) && a != [] && i < |b| && b[i] == a[|a| - 1]
    ensures multiset(a[..|a| - 1]) == multiset(b[..i] + b[i + 1..])
  {
    var x, rest := b[i], b[..i] + b[i + 1..];
    assert a == a[..|a| - 1] + [x];
    Around(b, i);
    assert multiset(a[..|a| - 1]) + multiset{x} == multiset(a);
  }

  lemma Around<T>(b: seq<T>, i: nat)
    requires i < |b|
    ensures multiset(b[..i] + b[i + 1..]) == multiset(b) - multiset{b[i]}
  {
    assert b == b[..i] + ([b[i]] + b[i + 1..]);
    assert multiset(b) == multiset(b[..i]) + multiset{b[i]} + multiset(b[i + 1..]);
  }

  lemma NameBytesAround(b: seq<ServiceMethod>, i: nat)
    requires i < |b|
    ensures NameBytes(b) == NameBytes(b[..i] + b[i + 1..]) + 4 + |b[i].name|
  {
    assert b == b[..i] + b[i..] && b[i..][1..] == b[i + 1..];
    NameBytesOfBoth(b[..i], b[i..]);
    NameBytesFirst(b[i..]);
    NameBytesOfBoth(b[..i], b[i + 1..]);
  }

  /** The bytes of names are counted in any order. */
  lemma {:induction false} SameNameBytes(a: seq<ServiceMethod>, b: seq<ServiceMethod>)
    requires multiset(a) == multiset(b)
    ensures NameBytes(a) == NameBytes(b)
  {
    SameLength(a, b);
    if a != [] {
      assert a[|a| - 1] in multiset(b);
      var i :| 0 <= i < |b| && b[i] == a[|a| - 1];
      TakenOut(a, b, i);
      SameNameBytes(a[..|a| - 1], b[..i] + b[i + 1..]);
      NameBytesAround(b, i);
    }
  }

  lemma {:induction false} NameBytesOfBoth(a: seq<ServiceMethod>, b: seq<ServiceMethod>)
    ensures NameBytes(a + b) == NameBytes(a) + NameBytes(b)
  {
    if b == [] {
      assert a + b == a;
    } else {
      assert (a + b)[..|a + b| - 1] == a + b[..|b| - 1];
      NameBytesOfBoth(a, b[..|b| - 1]);
    }
  }

  /** Sorting a list is charged its length times the logarithm of its length,
      rounded up. */
  lemma SortWorkIs(length: nat) returns (log: nat)
    requires length >= 2
    ensures SortComparisonWork(length) == length * log && log >= 1 && TwoTo(log - 1) < length <= TwoTo(log)
  {
    log := BitLength(length - 1);
    BitsBound(length - 1);
  }

  lemma {:induction false} BitsBound(n: nat)
    requires n > 0
    ensures BitLength(n) >= 1 && TwoTo(BitLength(n) - 1) <= n < TwoTo(BitLength(n))
  {
    if n > 1 {
      BitsBound(n / 2);
      hide BitLength, TwoTo;
      BitsStep(n);
    }
  }

  lemma BitsStep(n: nat)
    requires n > 1 && BitLength(n / 2) >= 1 && TwoTo(BitLength(n / 2) - 1) <= n / 2 < TwoTo(BitLength(n / 2))
    ensures BitLength(n) >= 1 && TwoTo(BitLength(n) - 1) <= n < TwoTo(BitLength(n))
  {
  }
}
