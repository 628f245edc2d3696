/** What a value costs, read from the value alone: its levels, how many values
    it is made of and how much text they carry, whatever order a record's type
    lists its fields in. */
module ValueMeasures {
  import opened Bytes
  import opened Sorting
  import opened Wrappers
  import opened TypeGraph
  import opened Values
  import opened ValueChecking
  import opened RecordWork

  ghost predicate Inner(v: Value, parts: seq<Value>) { forall i :: 0 <= i < |parts| ==> parts[i] < v }

  /** The values directly inside a value, in its own order. */
  function Nested(v: Value): (r: seq<Value>)
    ensures Inner(v, r)
  {
    match v
    case OptV(Some(x)) => [x]
    case VecV(values) => values
    case RecordV(fields) => FieldParts(fields)
    case VariantV(_, x) => [x]
    case _ => []
  }

  function FieldParts(fields: seq<FieldValue>): (r: seq<Value>)
    ensures |r| == |fields| && forall i :: 0 <= i < |r| ==> r[i] == fields[i].value
  { seq(|fields|, i requires 0 <= i < |fields| => fields[i].value) }

  /** A value inside values inside the value, so many levels down. */
  ghost predicate Reaches(v: Value, levels: nat)
    decreases v
  {
    levels == 0 || exists i :: 0 <= i < |Nested(v)| && Reaches(Nested(v)[i], levels - 1)
  }

  /** The text a value carries of its own. */
  function OwnText(v: Value): Bytes.Text {
    if v.ScalarV? then v.text else if v.ServiceV? then v.principal else if v.FuncV? then v.principal + v.method_ else []
  }

  /** The number of values a value is made of, itself included. */
  ghost function Count(v: Value): nat
    decreases v, 1
  { 1 + Counts(v, Nested(v)) }

  ghost function Counts(v: Value, parts: seq<Value>): nat
    requires Inner(v, parts)
    decreases v, 0, |parts|
  { if parts == [] then 0 else Count(parts[0]) + Counts(v, parts[1..]) }

  /** All the text of a value, one piece after the other. */
  ghost function AllText(v: Value): Bytes.Text
    decreases v, 1
  { OwnText(v) + Texts(v, Nested(v)) }

  ghost function Texts(v: Value, parts: seq<Value>): Bytes.Text
    requires Inner(v, parts)
    decreases v, 0, |parts|
  { if parts == [] then [] else AllText(parts[0]) + Texts(v, parts[1..]) }

  // ----- levels -----

  /** A value fits a depth exactly when nothing in it lies deeper. */
  lemma {:induction false} ShallowReaches(v: Value, room: nat)
    ensures Shallow(v, room) <==> forall n: nat :: Reaches(v, n) ==> n <= room
    decreases v
  {
    var parts := Nested(v);
    if room > 0 {
      forall i | 0 <= i < |parts| ensures Shallow(parts[i], room - 1) <==> forall n: nat :: Reaches(parts[i], n) ==> n <= room - 1 {
        ShallowReaches(parts[i], room - 1);
      }
    }
    ShallowIs(v, room);
    hide Shallow, Nested;
    if Shallow(v, room) {
      forall n: nat | Reaches(v, n) ensures n <= room {
        if n > 0 {
          var i :| 0 <= i < |parts| && Reaches(parts[i], n - 1);
        }
      }
    } else if room == 0 {
      OneLevel(v, 0, 0);
    } else {
      var i :| 0 <= i < |parts| && !Shallow(parts[i], room - 1);
      var n: nat :| Reaches(parts[i], n) && n > room - 1;
      OneLevel(v, i, n);
    }
  }

  lemma OneLevel(v: Value, i: nat, n: nat)
    requires i < |Nested(v)| && Reaches(Nested(v)[i], n)
    ensures Reaches(v, n + 1)
  {
    hide Nested;
  }

  lemma ShallowIs(v: Value, room: nat)
    ensures Shallow(v, room) <==>
            Nested(v) == [] || (room > 0 && forall i :: 0 <= i < |Nested(v)| ==> Shallow(Nested(v)[i], room - 1))
  {
    var parts := Nested(v);
    match v
    case RecordV(fields) =>
      RecordShallow(v, room);
      hide Shallow;
      forall i | 0 <= i < |fields| ensures parts[i] == fields[i].value {}
      if room > 0 && forall i :: 0 <= i < |parts| ==> Shallow(parts[i], room - 1) {
        forall i | 0 <= i < |fields| ensures Shallow(fields[i].value, room - 1) { assert Shallow(parts[i], room - 1); }
      }
    case VariantV(_, x) => assert parts == [x] && parts[0] == x;
    case OptV(some) => if some.Some? { assert parts == [some.value] && parts[0] == some.value; }
    case _ =>
  }

  // ----- elements and bytes -----

  /** A cost without its comparisons. */
  ghost function Weight(v: Value): Cost { Cost(Count(v), |AllText(v)|, 0) }

  ghost function Weights(v: Value, parts: seq<Value>): Cost
    requires Inner(v, parts)
  { Cost(Counts(v, parts), |Texts(v, parts)|, 0) }

  ghost predicate Weighs(c: Cost, w: Cost) { c.elements == w.elements && c.bytes == w.bytes }

  lemma WeightIs(v: Value)
    ensures Weight(v) == Plus(Cost(1, |OwnText(v)|, 0), Weights(v, Nested(v)))
    ensures |OwnText(v)| == StringBytes(v)
  {
    hide Nested;
  }

  lemma WeightsStep(v: Value, parts: seq<Value>)
    requires parts != [] && Inner(v, parts)
    ensures Inner(v, parts[1..]) && Weights(v, parts) == Plus(Weight(parts[0]), Weights(v, parts[1..]))
  {
  }

  lemma {:induction false} WeightsLast(v: Value, parts: seq<Value>, last: Value)
    requires Inner(v, parts) && last < v
    ensures Inner(v, parts + [last])
    ensures Weights(v, parts + [last]) == Plus(Weights(v, parts), Weight(last))
  {
    hide Weight;
    var all := parts + [last];
    WeightsStep(v, all);
    if parts == [] {
      assert all[1..] == [];
    } else {
      WeightsStep(v, parts);
      assert all[1..] == parts[1..] + [last];
      WeightsLast(v, parts[1..], last);
    }
    hide Weights;
  }

  // ----- in the order of a type -----

  /** The fields' values, picked by their places. */
  ghost function Picked(v: Value, places: seq<nat>): Cost
    requires v.RecordV?
  {
    if places == [] then Work(0) else Plus(WeightAt(v, places[0]), Picked(v, places[1..]))
  }

  ghost function WeightAt(v: Value, place: nat): Cost
    requires v.RecordV?
  {
    if place < |v.fields| then Weight(v.fields[place].value) else Work(0)
  }

  lemma PickedStep(v: Value, place: nat, places: seq<nat>)
    requires v.RecordV?
    ensures Picked(v, [place] + places) == Plus(WeightAt(v, place), Picked(v, places))
  {
    assert ([place] + places)[1..] == places;
    hide WeightAt;
  }

  lemma {:induction false} PickedLast(v: Value, places: seq<nat>, last: nat)
    requires v.RecordV?
    ensures Picked(v, places + [last]) == Plus(Picked(v, places), WeightAt(v, last))
  {
    hide WeightAt, Picked;
    if places == [] {
      assert [] + [last] == [last] + [];
      PickedStep(v, last, []);
      NothingPicked(v);
    } else {
      assert places == [places[0]] + places[1..];
      PickedLast(v, places[1..], last);
      PickedStep(v, places[0], places[1..]);
      assert places + [last] == [places[0]] + (places[1..] + [last]);
      PickedStep(v, places[0], places[1..] + [last]);
    }
  }

  lemma NothingPicked(v: Value)
    requires v.RecordV?
    ensures Picked(v, []) == Work(0)
  {
  }

  lemma {:induction false} PickedInsert(v: Value, place: nat, places: seq<nat>)
    requires v.RecordV?
    ensures Picked(v, Insert(RefLe, place, places)) == Plus(WeightAt(v, place), Picked(v, places))
  {
    hide WeightAt, Picked;
    PickedStep(v, place, places);
    if places != [] && !RefLe(place, places[0]) {
      PickedInsert(v, place, places[1..]);
      PickedStep(v, places[0], places[1..]);
      assert places == [places[0]] + places[1..];
      PickedStep(v, places[0], Insert(RefLe, place, places[1..]));
    }
  }

  lemma {:induction false} PickedSort(v: Value, places: seq<nat>)
    requires v.RecordV?
    ensures Picked(v, Sort(RefLe, places)) == Picked(v, places)
  {
    hide WeightAt, Picked;
    if places != [] {
      PickedSort(v, places[1..]);
      PickedInsert(v, places[0], Sort(RefLe, places[1..]));
      assert places == [places[0]] + places[1..];
      PickedStep(v, places[0], places[1..]);
    }
  }

  lemma {:induction false} PickedInOrder(v: Value, k: nat)
    requires v.RecordV? && k <= |v.fields|
    ensures Inner(v, Nested(v)[..k])
    ensures Picked(v, UpTo(k)) == Weights(v, Nested(v)[..k])
  {
    hide Weight, Picked, Weights;
    if k == 0 {
      NothingPicked(v);
      NothingWeighs(v);
      assert Nested(v)[..0] == [] && UpTo(0) == [];
    } else {
      PickedInOrder(v, k - 1);
      assert UpTo(k) == UpTo(k - 1) + [k - 1];
      PickedLast(v, UpTo(k - 1), k - 1);
      assert Nested(v)[..k] == Nested(v)[..k - 1] + [v.fields[k - 1].value];
      WeightsLast(v, Nested(v)[..k - 1], v.fields[k - 1].value);
    }
  }

  lemma NothingWeighs(v: Value)
    ensures Weights(v, []) == Work(0)
  {
  }

  /** However a type lists its fields, their values weigh the same. */
  lemma FieldsWeigh(v: Value, places: seq<nat>)
    requires v.RecordV? && multiset(places) == multiset(UpTo(|v.fields|))
    ensures Picked(v, places) == Weights(v, Nested(v))
  {
    var n := |v.fields|;
    PickedInOrder(v, n);
    hide Weight, Picked, Weights;
    assert Nested(v)[..n] == Nested(v);
    RefOrder();
    SortOfPermutation(RefLe, places, UpTo(n));
    PickedSort(v, places);
    PickedSort(v, UpTo(n));
  }

  // ----- inhabitants -----

  /** The value of a type's field is at a place of the record and weighs what
      checking it costs. */
  ghost predicate FieldWeighs(types: Types, fields: seq<Field>, v: Value, places: seq<nat>, i: nat)
    requires v.RecordV? && i < |fields| == |places|
  {
    && fields[i].id as nat in ValueIds(v.fields) && places[i] == IndexOf(ValueIds(v.fields), fields[i].id as nat)
    && Weighs(CostOf(types, fields[i].ty, v.fields[places[i]].value), WeightAt(v, places[i]))
  }

  lemma {:induction false} RecordCostPicks(types: Types, fields: seq<Field>, v: Value, places: seq<nat>, k: nat)
    requires v.RecordV? && k <= |fields| && |places| == |fields|
    requires forall i :: 0 <= i < |fields| ==> FieldWeighs(types, fields, v, places, i)
    ensures Weighs(RecordCost(types, fields, v, k), Picked(v, places[..k]))
  {
    hide CostOf, WeightAt, IndexOf, Picked, RecordCost, FieldWeighs;
    if k == 0 {
      NothingPicked(v);
      assert places[..0] == [];
      assert RecordCost(types, fields, v, 0) == Work(0) by { NothingCosts(types, fields, v); }
    } else {
      RecordCostPicks(types, fields, v, places, k - 1);
      assert places[..k] == places[..k - 1] + [places[k - 1]];
      PickedLast(v, places[..k - 1], places[k - 1]);
      assert FieldWeighs(types, fields, v, places, k - 1);
      FieldCosts(types, fields, v, places, k - 1);
    }
  }

  lemma NothingCosts(types: Types, fields: seq<Field>, v: Value)
    requires v.RecordV?
    ensures RecordCost(types, fields, v, 0) == Work(0)
  {
  }

  lemma FieldCosts(types: Types, fields: seq<Field>, v: Value, places: seq<nat>, k: nat)
    requires v.RecordV? && k < |fields| == |places| && FieldWeighs(types, fields, v, places, k)
    ensures Weighs(RecordCost(types, fields, v, k + 1), Plus(RecordCost(types, fields, v, k), WeightAt(v, places[k])))
  {
    hide CostOf, WeightAt, IndexOf, RecordCost;
    RecordCostStep(types, fields, v, k);
  }

  lemma {:induction false} VecCostWeighs(types: Types, inner: TypeRef, v: Value, k: nat)
    requires v.VecV? && k <= |v.values|
    requires forall i :: 0 <= i < |v.values| ==> Weighs(CostOf(types, inner, v.values[i]), Weight(v.values[i]))
    ensures Inner(v, v.values[..k]) && Weighs(VecCost(types, inner, v, k), Weights(v, v.values[..k]))
  {
    hide CostOf, Weight, Weights;
    if k == 0 {
      NothingWeighs(v);
      assert v.values[..0] == [];
    } else {
      VecCostWeighs(types, inner, v, k - 1);
      assert v.values[..k] == v.values[..k - 1] + [v.values[k - 1]];
      WeightsLast(v, v.values[..k - 1], v.values[k - 1]);
    }
  }

  ghost predicate WellFielded(types: Types) {
    forall i :: 0 <= i < |types| ==> NodeIds(types[i])
  }

  lemma OneInside(v: Value, x: Value)
    requires Nested(v) == [x] && x < v
    ensures Weights(v, Nested(v)) == Weight(x)
  {
    hide Count, AllText;
    WeightsStep(v, [x]);
    NothingWeighs(v);
  }

  lemma RecordWeighs(types: Types, r: TypeRef, v: Value)
    requires r < |types| && types[r].Record? && v.RecordV? && DistinctIds(types[r].fields)
    requires NoDuplicates(ValueIds(v.fields)) && forall id :: id in TypeIds(types[r].fields) <==> id in ValueIds(v.fields)
    requires forall i, j :: 0 <= i < |types[r].fields| && 0 <= j < |v.fields| && types[r].fields[i].id == v.fields[j].id ==>
               Weighs(CostOf(types, types[r].fields[i].ty, v.fields[j].value), Weight(v.fields[j].value))
    ensures Weighs(CostOf(types, r, v), Weight(v))
  {
    hide CostOf, RecordCost, Weight, Weights, Picked, PairWork, ScanWork, Nested, NoDuplicates, IndexOf, StringBytes, OwnText, Weighs;
    RecordCostIs(types, r, v);
    WeightIs(v);
    RecordPicks(types, types[r].fields, v);
    RecordAddsUp(types, r, v);
  }

  lemma RecordAddsUp(types: Types, r: TypeRef, v: Value)
    requires r < |types| && types[r].Record? && v.RecordV?
    requires Weighs(RecordCost(types, types[r].fields, v, |types[r].fields|), Weights(v, Nested(v)))
    requires CostOf(types, r, v) == Plus(Plus(Cost(1, 0, 0),
                                              Work(PairWork(|v.fields|) + ScanWork(TypeIds(types[r].fields), ValueIds(v.fields)))),
                                         RecordCost(types, types[r].fields, v, |types[r].fields|))
    requires Weight(v) == Plus(Cost(1, |OwnText(v)|, 0), Weights(v, Nested(v)))
    ensures Weighs(CostOf(types, r, v), Weight(v))
  {
    hide CostOf, RecordCost, Weight, Weights, PairWork, ScanWork, Nested;
  }

  lemma RecordPicks(types: Types, fields: seq<Field>, v: Value)
    requires v.RecordV? && DistinctIds(fields)
    requires NoDuplicates(ValueIds(v.fields)) && forall id :: id in TypeIds(fields) <==> id in ValueIds(v.fields)
    requires forall i, j :: 0 <= i < |fields| && 0 <= j < |v.fields| && fields[i].id == v.fields[j].id ==>
               Weighs(CostOf(types, fields[i].ty, v.fields[j].value), Weight(v.fields[j].value))
    ensures Weighs(RecordCost(types, fields, v, |fields|), Weights(v, Nested(v)))
  {
    hide CostOf, RecordCost, Weight, Weights, Picked, Nested, DistinctIds, NoDuplicates, IndexOf, FieldWeighs, Positions;
    FieldsOnce(fields);
    var ids := ValueIds(v.fields);
    PositionsPermute(TypeIds(fields), ids);
    var places := Positions(TypeIds(fields), ids);
    forall i | 0 <= i < |fields| ensures FieldWeighs(types, fields, v, places, i) { FieldWeighsAt(types, fields, v, i); }
    RecordCostPicks(types, fields, v, places, |fields|);
    assert places[..|fields|] == places;
    FieldsWeigh(v, places);
  }

  lemma FieldWeighsAt(types: Types, fields: seq<Field>, v: Value, i: nat)
    requires v.RecordV? && i < |fields| && forall id :: id in TypeIds(fields) ==> id in ValueIds(v.fields)
    requires forall j :: 0 <= j < |v.fields| && fields[i].id == v.fields[j].id ==>
               Weighs(CostOf(types, fields[i].ty, v.fields[j].value), Weight(v.fields[j].value))
    ensures FieldWeighs(types, fields, v, Positions(TypeIds(fields), ValueIds(v.fields)), i)
  {
    hide CostOf, Weight, Weighs;
    var ids := ValueIds(v.fields);
    assert TypeIds(fields)[i] in TypeIds(fields);
    var j := Positions(TypeIds(fields), ids)[i];
    assert ids[j] == fields[i].id as nat;
  }

  lemma OptWeighs(types: Types, r: TypeRef, v: Value)
    requires r < |types| && types[r].Opt? && v.OptV?
    requires v.some.Some? ==> Weighs(CostOf(types, types[r].inner, v.some.value), Weight(v.some.value))
    ensures Weighs(CostOf(types, r, v), Weight(v))
  {
    WeightIs(v);
    NothingWeighs(v);
    hide Weight, Weights;
    if v.some.Some? { OneInside(v, v.some.value); }
  }

  lemma VecWeighs(types: Types, r: TypeRef, v: Value)
    requires r < |types| && types[r].Vec? && v.VecV?
    requires forall i :: 0 <= i < |v.values| ==> Weighs(CostOf(types, types[r].inner, v.values[i]), Weight(v.values[i]))
    ensures Weighs(CostOf(types, r, v), Weight(v))
  {
    WeightIs(v);
    VecCostWeighs(types, types[r].inner, v, |v.values|);
    assert v.values[..|v.values|] == v.values;
    hide Weight, Weights, VecCost;
  }

  lemma VariantWeighs(types: Types, r: TypeRef, v: Value, i: nat)
    requires r < |types| && types[r].Variant? && v.VariantV?
    requires v.id as nat in TypeIds(types[r].fields) && i == IndexOf(TypeIds(types[r].fields), v.id as nat)
    requires Weighs(CostOf(types, types[r].fields[i].ty, v.value), Weight(v.value))
    ensures Weighs(CostOf(types, r, v), Weight(v))
  {
    VariantCostIs(types, r, v, i);
    WeightIs(v);
    OneInside(v, v.value);
    hide Weight, Weights, CostOf, IndexOf;
  }

  lemma LeafWeighs(types: Types, principals: Bytes.Text -> bool, r: TypeRef, v: Value)
    requires Inhabits(types, principals, r, v) && (v.ScalarV? || v.ServiceV? || v.FuncV?)
    ensures Weighs(CostOf(types, r, v), Weight(v))
  {
    WeightIs(v);
    NothingWeighs(v);
    hide Weight, Weights, ScalarOk;
  }

  /** Checking an inhabitant charges one element for every value it is made of
      and all its text, whatever the type. */
  lemma {:induction false} InhabitantWeighs(types: Types, principals: Bytes.Text -> bool, r: TypeRef, v: Value)
    requires Inhabits(types, principals, r, v) && WellFielded(types)
    ensures Weighs(CostOf(types, r, v), Weight(v))
    decreases v
  {
    hide Weight, CostOf, Weighs, ScalarOk;
    match v
    case OptV(some) =>
      if some.Some? { InhabitantWeighs(types, principals, types[r].inner, some.value); }
      OptWeighs(types, r, v);
    case VecV(values) =>
      forall i | 0 <= i < |values| ensures Weighs(CostOf(types, types[r].inner, values[i]), Weight(values[i])) {
        InhabitantWeighs(types, principals, types[r].inner, values[i]);
      }
      VecWeighs(types, r, v);
    case RecordV(values) =>
      RecordTyping(types, principals, r, v);
      hide Inhabits;
      var fields := types[r].fields;
      assert NodeIds(types[r]);
      forall i, j | 0 <= i < |fields| && 0 <= j < |values| && fields[i].id == values[j].id
        ensures Weighs(CostOf(types, fields[i].ty, values[j].value), Weight(values[j].value))
      {
        InhabitantWeighs(types, principals, fields[i].ty, values[j].value);
      }
      RecordWeighs(types, r, v);
    case VariantV(id, x) =>
      VariantInhabitantWeighs(types, principals, r, v);
    case _ => LeafWeighs(types, principals, r, v);
  }

  lemma VariantInhabitantWeighs(types: Types, principals: Bytes.Text -> bool, r: TypeRef, v: Value)
    requires Inhabits(types, principals, r, v) && v.VariantV? && WellFielded(types)
    ensures Weighs(CostOf(types, r, v), Weight(v))
    decreases v, 0
  {
    var fields := types[r].fields;
    var k :| 0 <= k < |fields| && fields[k].id == v.id && Inhabits(types, principals, fields[k].ty, v.value);
    assert NodeIds(types[r]);
    FirstField(fields, k);
    InhabitantWeighs(types, principals, fields[k].ty, v.value);
    VariantWeighs(types, r, v, k);
  }

  lemma FirstField(fields: seq<Field>, k: nat)
    requires k < |fields| && DistinctIds(fields)
    ensures fields[k].id as nat in TypeIds(fields) && IndexOf(TypeIds(fields), fields[k].id as nat) == k
  {
    FieldsOnce(fields);
    assert TypeIds(fields)[k] == fields[k].id as nat;
    IndexOfUnique(TypeIds(fields), k);
  }

  /** A value is accepted exactly when it inhabits its node, nothing in it lies
      deeper than the depth limit, it is made of no more values and carries no
      more text than the limits allow, and its comparisons fit. */
  lemma AcceptedByMeasure(check: ValueCheck, r: TypeRef, v: Value)
    requires WellFielded(check.types)
    ensures check.Accepts(Work(0), r, v, 0) <==>
              && Inhabits(check.types, check.principals, r, v)
              && (forall n: nat :: Reaches(v, n) ==> n <= check.limits.depth)
              && Count(v) <= check.limits.elements && |AllText(v)| <= check.limits.bytes
              && CostOf(check.types, r, v).work <= check.limits.work
  {
    hide Inhabits, Shallow, CostOf, Count, AllText, Reaches;
    ShallowReaches(v, check.limits.depth);
    if Inhabits(check.types, check.principals, r, v) { InhabitantWeighs(check.types, check.principals, r, v); }
  }
}
