/** Checking a host value against a node: accepts exactly the values that
    inhabit it within the depth, element, byte and work limits, and charges
    exactly their cost. */
module ValueChecking {
  import opened Bytes
  import opened Sorting
  import opened Wrappers
  import opened TypeGraph
  import opened Budgets
  import opened Counting
  import opened Values
  import opened ValueErrors

  predicate Within(c: Cost, limits: ValueLimits) {
    c.elements <= limits.elements && c.bytes <= limits.bytes && c.work <= limits.work
  }

  ghost predicate NodeIds(node: TypeNode) {
    match node
    case Record(fields) => DistinctIds(fields)
    case Variant(fields) => DistinctIds(fields)
    case _ => true
  }

  /** What the check needs of an arena: references in range and distinct field
      identifiers. */
  ghost predicate Checkable(types: Types) {
    Closed(types) && forall i :: 0 <= i < |types| ==> NodeIds(types[i])
  }

  class ValueCheck {
    const types: Types
    const limits: ValueLimits
    const principals: Bytes.Text -> bool
    const budget: Budget

    constructor (types: Types, limits: ValueLimits, principals: Bytes.Text -> bool, budget: Budget)
      ensures this.types == types && this.limits == limits && this.principals == principals && this.budget == budget
    {
      this.types, this.limits, this.principals, this.budget := types, limits, principals, budget;
    }

    function Spent(): Cost
      reads budget
    {
      Cost(budget.Consumed(ElementCounter()), budget.Consumed(ByteCounter()), budget.Consumed(WorkCounter()))
    }

    /** One counter moves, the others stay. */
    method Charge(counter: string, limit: nat, amount: nat) returns (r: Result<(), ValueError>)
      modifies budget
      ensures r.Ok? <==> old(budget.Consumed(counter)) + amount <= limit
      ensures r.Err? ==> r.error == OverLimit(ResourceLimit(counter, limit, old(budget.Consumed(counter)) + amount))
      ensures budget.Consumed(counter) == if r.Ok? then old(budget.Consumed(counter)) + amount else old(budget.Consumed(counter))
      ensures counter != ElementCounter() ==> budget.Consumed(ElementCounter()) == old(budget.Consumed(ElementCounter()))
      ensures counter != ByteCounter() ==> budget.Consumed(ByteCounter()) == old(budget.Consumed(ByteCounter()))
      ensures counter != WorkCounter() ==> budget.Consumed(WorkCounter()) == old(budget.Consumed(WorkCounter()))
    {
      hide ElementCounter, ByteCounter, WorkCounter;
      var charged := budget.Charge(counter, limit, amount);
      r := if charged.Ok? then Ok(()) else Err(OverLimit(charged.error));
    }

    /** The refusal of one comparison more. */
    function TooMuchWork(spent: nat): ValueError {
      OverLimit(ResourceLimit(WorkCounter(), limits.work, spent + 1))
    }

    method ChargeWork() returns (r: Result<(), ValueError>)
      modifies budget
      ensures r.Ok? <==> old(Spent()).work + 1 <= limits.work
      ensures r.Err? ==> r.error == TooMuchWork(old(Spent()).work)
      ensures Spent() == if r.Ok? then Plus(old(Spent()), Work(1)) else old(Spent())
    {
      CountersDiffer();
      hide ElementCounter, ByteCounter, WorkCounter;
      r := Charge(WorkCounter(), limits.work, 1);
    }

    method ChargeElement() returns (r: Result<(), ValueError>)
      modifies budget
      ensures r.Ok? <==> old(Spent()).elements + 1 <= limits.elements
      ensures r.Err? ==> r.error == OverLimit(ResourceLimit(ElementCounter(), limits.elements, old(Spent()).elements + 1))
      ensures Spent() == if r.Ok? then Plus(old(Spent()), Cost(1, 0, 0)) else old(Spent())
    {
      CountersDiffer();
      hide ElementCounter, ByteCounter, WorkCounter;
      r := Charge(ElementCounter(), limits.elements, 1);
    }

    method ChargeStringBytes(v: Value) returns (r: Result<(), ValueError>)
      modifies budget
      ensures r.Ok? <==> old(Spent()).bytes + StringBytes(v) <= limits.bytes
      ensures r.Err? ==> r.error == OverLimit(ResourceLimit(ByteCounter(), limits.bytes, old(Spent()).bytes + StringBytes(v)))
      ensures Spent() == if r.Ok? then Plus(old(Spent()), Cost(0, StringBytes(v), 0)) else old(Spent())
    {
      CountersDiffer();
      hide ElementCounter, ByteCounter, WorkCounter, StringBytes;
      r := Charge(ByteCounter(), limits.bytes, StringBytes(v));
    }

    method PreflightChildren(children: nat) returns (r: Result<(), ValueError>)
      ensures r.Ok? <==> Spent().elements + children <= limits.elements
      ensures r.Err? ==> r.error == OverLimit(ResourceLimit(ElementCounter(), limits.elements, Spent().elements + children))
    {
      var observed := budget.Consumed(ElementCounter()) + children;
      if observed > limits.elements {
        return Err(OverLimit(ResourceLimit(ElementCounter(), limits.elements, observed)));
      }
      r := Ok(());
    }

    predicate Twice(ids: seq<nat>, id: nat) { exists i, j :: 0 <= i < j < |ids| && ids[i] == id == ids[j] }

    /** The pairwise search for a repeated field identifier. */
    method CheckDuplicates(ids: seq<nat>) returns (r: Result<(), ValueError>)
      requires Within(Spent(), limits)
      modifies budget
      ensures Within(Spent(), limits)
      ensures r.Ok? <==> NoDuplicates(ids) && old(Spent()).work + PairWork(|ids|) <= limits.work
      ensures r.Ok? ==> Spent() == Plus(old(Spent()), Work(PairWork(|ids|)))
      ensures r.Err? ==> r.error == TooMuchWork(limits.work) || (r.error.DuplicateHostField? && Twice(ids, r.error.id))
    {
      hide Spent, PairWork, NoDuplicates, Twice;
      ghost var w := Spent();
      ghost var n := |ids|;
      NoPairs();
      for index := 0 to |ids|
        invariant Within(Spent(), limits)
        invariant DistinctFrom(ids, index)
        invariant index <= n && PairWork(n - index) <= PairWork(n)
        invariant Spent() == Plus(w, Work(PairWork(n) - PairWork(n - index)))
      {
        PairWorkGrows(n - index - 1, n - index);
        PairWorkStep(n - index);
        for other := index + 1 to |ids|
          invariant Within(Spent(), limits)
          invariant forall j :: index < j < other ==> ids[index] != ids[j]
          invariant Spent() == Plus(w, Work(PairWork(n) - PairWork(n - index) + other - index - 1))
        {
          var charged := ChargeWork();
          if charged.Err? { return charged; }
          if ids[other] == ids[index] {
            FoundTwice(ids, index, other);
            return Err(DuplicateHostField(ids[index]));
          }
        }
      }
      AllDistinct(ids);
      r := Ok(());
    }

    /** The first identifiers differ from all after them. */
    ghost predicate DistinctFrom(ids: seq<nat>, index: nat) {
      forall i, j :: 0 <= i < index && i < j < |ids| ==> ids[i] != ids[j]
    }

    lemma AllDistinct(ids: seq<nat>)
      ensures DistinctFrom(ids, |ids|) <==> NoDuplicates(ids)
    {
    }

    lemma FoundTwice(ids: seq<nat>, i: nat, j: nat)
      requires i < j < |ids| && ids[i] == ids[j]
      ensures Twice(ids, ids[i]) && !NoDuplicates(ids)
    {
    }

    lemma NoPairs()
      ensures PairWork(0) == 0
    {
    }

    lemma PairWorkStep(n: nat)
      requires n > 0
      ensures PairWork(n) == PairWork(n - 1) + n - 1
    {
    }

    /** Scanning a list for an identifier, one charge a comparison. */
    method Scan(id: nat, listed: seq<nat>) returns (r: Result<Option<nat>, ValueError>)
      requires Within(Spent(), limits)
      modifies budget
      ensures Within(Spent(), limits)
      ensures r.Err? <==> old(Spent()).work + ScanCost(id, listed) > limits.work
      ensures r.Err? ==> r.error == TooMuchWork(limits.work)
      ensures r.Ok? ==> Spent() == Plus(old(Spent()), Work(ScanCost(id, listed)))
      ensures r.Ok? ==> r.value == if id in listed then Some(IndexOf(listed, id)) else None
    {
      hide Spent, IndexOf;
      ghost var w := Spent();
      for i := 0 to |listed|
        invariant Within(Spent(), limits)
        invariant id !in listed[..i] && Spent() == Plus(w, Work(i)) && i <= ScanCost(id, listed)
      {
        FirstAt(id, listed, i);
        var charged := ChargeWork();
        if charged.Err? { return Err(charged.error); }
        if listed[i] == id { return Ok(Some(i)); }
        assert listed[..i + 1] == listed[..i] + [listed[i]];
      }
      assert listed[..|listed|] == listed;
      r := Ok(None);
    }

    /** Whether every wanted identifier is listed. */
    method MatchFields(wanted: seq<nat>, listed: seq<nat>) returns (r: Result<bool, ValueError>)
      requires Within(Spent(), limits)
      modifies budget
      ensures Within(Spent(), limits)
      ensures r.Err? ==> old(Spent()).work + ScanWork(wanted, listed) > limits.work
      ensures r.Err? ==> r.error == TooMuchWork(limits.work)
      ensures r == Ok(true) ==> (forall id :: id in wanted ==> id in listed)
                                && Spent() == Plus(old(Spent()), Work(ScanWork(wanted, listed)))
      ensures r == Ok(false) ==> exists id :: id in wanted && id !in listed
    {
      hide Spent, ScanWork, ScanCost, IndexOf;
      ghost var w := Spent();
      NothingScanned(wanted, listed);
      for i := 0 to |wanted|
        invariant Within(Spent(), limits)
        invariant (forall j :: 0 <= j < i ==> wanted[j] in listed)
        invariant Spent() == Plus(w, Work(ScanWork(wanted[..i], listed)))
      {
        ScanWorkStep(wanted, listed, i);
        ScanWorkGrows(wanted, listed, i + 1);
        var found := Scan(wanted[i], listed);
        if found.Err? { return Err(found.error); }
        if found.value.None? {
          assert wanted[i] in wanted;
          return Ok(false);
        }
      }
      assert wanted[..|wanted|] == wanted;
      r := Ok(true);
    }

    lemma NothingScanned(wanted: seq<nat>, listed: seq<nat>)
      ensures ScanWork(wanted[..0], listed) == 0
    {
    }

    /** The distinct identifiers in ascending order, by repeated selection of
        the least one above the last; refused exactly when the comparisons of
        its rounds do not fit. */
    method SortedFieldIds(ids: seq<nat>) returns (r: Result<seq<nat>, ValueError>)
      requires Within(Spent(), limits)
      modifies budget
      ensures Within(Spent(), limits)
      ensures r.Ok? ==> (forall i, j :: 0 <= i < j < |r.value| ==> r.value[i] < r.value[j])
      ensures r.Ok? ==> forall id :: id in r.value <==> id in ids
      ensures r.Ok? <==> old(Spent()).work + SelectionWork(ids) <= limits.work
      ensures r.Ok? ==> Spent() == Plus(old(Spent()), Work(SelectionWork(ids)))
      ensures r.Err? ==> r.error == TooMuchWork(limits.work)
    {
      hide Spent, SelectionWork, Selecting, Times;
      ghost var before, n := Spent(), |ids|;
      var output: seq<nat> := [];
      var previous: Option<nat> := None;
      SelectionStarts(ids);
      OneMore(0, n);
      for position := 0 to |ids|
        invariant Within(Spent(), limits) && |output| == position && Selecting(ids, output, previous)
        invariant Spent() == Plus(before, Work(Times(position, n)))
      {
        RoundFits(ids, output, previous);
        var next: Option<nat> := None;
        for index := 0 to |ids|
          invariant Within(Spent(), limits) && Spent() == Plus(before, Work(Times(position, n) + index))
          invariant next.Some? ==> next.value in ids && Above(next.value, previous)
          invariant forall j :: 0 <= j < index && Above(ids[j], previous) ==> next.Some? && next.value <= ids[j]
        {
          var charged := ChargeWork();
          if charged.Err? { return Err(charged.error); }
          var id := ids[index];
          if Above(id, previous) && (next.None? || id < next.value) { next := Some(id); }
        }
        if next.None? {
          LastRound(ids, output, previous);
          return Ok(output);
        }
        NextSelected(ids, output, previous, next.value);
        output := output + [next.value];
        previous := next;
      }
      EveryRound(ids, output, previous);
      r := Ok(output);
    }

    /** What accepting a value at a depth comes to. */
    ghost predicate Accepts(before: Cost, r: TypeRef, v: Value, depth: nat) {
      && Inhabits(types, principals, r, v)
      && depth <= limits.depth && Shallow(v, limits.depth - depth)
      && Within(Plus(before, CostOf(types, r, v)), limits)
    }

    /** Every element of a list fits its node and the depth below. */
    ghost predicate ElementsOk(inner: TypeRef, values: seq<Value>, depth: nat, n: nat)
      requires n <= |values|
    {
      forall i :: 0 <= i < n ==>
        Inhabits(types, principals, inner, values[i]) && depth < limits.depth && Shallow(values[i], limits.depth - depth - 1)
    }

    ghost predicate VecAccepts(before: Cost, inner: TypeRef, v: Value, depth: nat)
      requires v.VecV?
    {
      ElementsOk(inner, v.values, depth, |v.values|) && Within(Plus(before, VecCost(types, inner, v, |v.values|)), limits)
    }

    lemma VecTooMany(before: Cost, inner: TypeRef, v: Value, depth: nat)
      requires v.VecV? && before.elements + |v.values| > limits.elements
      ensures !VecAccepts(before, inner, v, depth)
    {
      hide ElementsOk, VecCost;
      VecCostElements(types, inner, v, |v.values|);
    }

    lemma VecElement(before: Cost, inner: TypeRef, v: Value, depth: nat, i: nat)
      requires v.VecV? && i < |v.values| && ElementsOk(inner, v.values, depth, i)
      ensures var spent := Plus(before, VecCost(types, inner, v, i));
              if Accepts(spent, inner, v.values[i], depth + 1)
              then ElementsOk(inner, v.values, depth, i + 1)
                   && Plus(spent, CostOf(types, inner, v.values[i])) == Plus(before, VecCost(types, inner, v, i + 1))
              else !VecAccepts(before, inner, v, depth)
    {
      hide Inhabits, Shallow, CostOf;
      VecCostGrows(types, inner, v, i + 1, |v.values|);
    }

    ghost predicate Explained(reference: TypeRef, v: Value, depth: nat, e: ValueError) {
      Explains(types, principals, limits, reference, v, depth, e)
    }

    method ValidateVec(inner: TypeRef, v: Value, depth: nat, ghost reference: TypeRef) returns (r: Result<(), ValueError>)
      requires reference < |types| && types[reference] == Vec(inner)
      requires v.VecV? && Checkable(types) && inner < |types| && depth <= limits.depth && Within(Spent(), limits)
      modifies budget
      ensures Within(Spent(), limits)
      ensures r.Ok? <==> VecAccepts(old(Spent()), inner, v, depth)
      ensures r.Ok? ==> Spent() == Plus(old(Spent()), VecCost(types, inner, v, |v.values|))
      ensures r.Err? ==> Explained(reference, v, depth, r.error)
      decreases v, 0
    {
      hide Spent, CostOf, VecCost, ElementsOk, Plus, Checkable, Accepts, VecAccepts, Explains, Inhabits, Shallow;
      ghost var w := Spent();
      r := PreflightChildren(|v.values|);
      if r.Err? {
        VecTooMany(w, inner, v, depth);
        PreflightExplained(reference, v, depth, w.elements + |v.values|);
        return;
      }
      NothingYet(w, inner, v, depth);
      for i := 0 to |v.values|
        invariant Within(Spent(), limits) && ElementsOk(inner, v.values, depth, i)
        invariant Spent() == Plus(w, VecCost(types, inner, v, i))
      {
        VecElement(w, inner, v, depth, i);
        r := ValidateNode(inner, v.values[i], depth + 1);
        if r.Err? {
          VecExplained(types, principals, limits, reference, v, depth, r.error, i);
          return;
        }
      }
      VecDone(w, inner, v, depth);
      r := Ok(());
    }

    lemma PreflightExplained(reference: TypeRef, v: Value, depth: nat, observed: nat)
      requires observed > limits.elements
      ensures Explained(reference, v, depth, OverLimit(ResourceLimit(ElementCounter(), limits.elements, observed)))
    {
      DepthIsNoCounter();
      hide ElementCounter, ByteCounter, WorkCounter, Shallow;
    }

    lemma BytesExplained(reference: TypeRef, v: Value, depth: nat, observed: nat)
      requires observed > limits.bytes
      ensures Explained(reference, v, depth, OverLimit(ResourceLimit(ByteCounter(), limits.bytes, observed)))
    {
      DepthIsNoCounter();
      hide ElementCounter, ByteCounter, WorkCounter, Shallow;
    }

    lemma WorkExplained(reference: TypeRef, v: Value, depth: nat)
      ensures Explained(reference, v, depth, TooMuchWork(limits.work))
    {
      DepthIsNoCounter();
      hide ElementCounter, ByteCounter, WorkCounter, Shallow;
    }

    lemma DepthExplained(reference: TypeRef, v: Value, depth: nat)
      requires depth > limits.depth
      ensures Explained(reference, v, depth, OverLimit(ResourceLimit("value_depth", limits.depth, depth)))
    {
    }

    lemma FaultExplained(reference: TypeRef, v: Value, depth: nat, e: ValueError)
      requires reference < |types| && Faulty(principals, types[reference], v, e)
      ensures Explained(reference, v, depth, e)
    {
      hide Faulty, Shallow;
      NoLimitFault(reference, v, e);
    }

    lemma NoLimitFault(reference: TypeRef, v: Value, e: ValueError)
      requires reference < |types| && Faulty(principals, types[reference], v, e)
      ensures !e.OverLimit?
    {
    }

    lemma NothingYet(before: Cost, inner: TypeRef, v: Value, depth: nat)
      requires v.VecV?
      ensures ElementsOk(inner, v.values, depth, 0) && before == Plus(before, VecCost(types, inner, v, 0))
    {
    }

    lemma VecDone(before: Cost, inner: TypeRef, v: Value, depth: nat)
      requires v.VecV? && ElementsOk(inner, v.values, depth, |v.values|)
      requires Within(Plus(before, VecCost(types, inner, v, |v.values|)), limits)
      ensures VecAccepts(before, inner, v, depth)
    {
    }

    /** The value of a type field is there, fits its node and the depth. */
    ghost predicate FieldOk(fields: seq<Field>, v: Value, depth: nat, k: nat)
      requires v.RecordV? && k < |fields|
    {
      var ids := ValueIds(v.fields);
      fields[k].id as nat in ids &&
      var x := v.fields[IndexOf(ids, fields[k].id as nat)].value;
      Inhabits(types, principals, fields[k].ty, x) && depth < limits.depth && Shallow(x, limits.depth - depth - 1)
    }

    ghost predicate FieldsOk(fields: seq<Field>, v: Value, depth: nat, n: nat)
      requires v.RecordV? && n <= |fields|
    {
      forall k :: 0 <= k < n ==> FieldOk(fields, v, depth, k)
    }

    ghost predicate FieldSetOk(fields: seq<Field>, v: Value)
      requires v.RecordV?
    {
      && NoDuplicates(ValueIds(v.fields))
      && forall id :: id in TypeIds(fields) <==> id in ValueIds(v.fields)
    }

    ghost function ScansOf(fields: seq<Field>, v: Value): Cost
      requires v.RecordV?
    {
      Work(PairWork(|v.fields|) + ScanWork(TypeIds(fields), ValueIds(v.fields)))
    }

    ghost predicate RecordAccepts(before: Cost, fields: seq<Field>, v: Value, depth: nat)
      requires v.RecordV?
    {
      && FieldSetOk(fields, v) && FieldsOk(fields, v, depth, |fields|)
      && Within(Plus(Plus(before, ScansOf(fields, v)), RecordCost(types, fields, v, |fields|)), limits)
    }

    lemma RecordTooMany(before: Cost, fields: seq<Field>, v: Value, depth: nat)
      requires v.RecordV? && DistinctIds(fields) && before.elements + |v.fields| > limits.elements
      ensures !RecordAccepts(before, fields, v, depth)
    {
      if FieldSetOk(fields, v) {
        SameFieldCount(fields, v);
        RecordCostElements(types, fields, v, |fields|);
      }
      hide RecordCost, FieldsOk;
    }

    lemma RecordTooMuchWork(before: Cost, fields: seq<Field>, v: Value, depth: nat)
      requires v.RecordV? && before.work + ScansOf(fields, v).work > limits.work
      ensures !RecordAccepts(before, fields, v, depth)
    {
      hide RecordCost, FieldsOk, ScansOf;
    }

    lemma RecordFieldPasses(base: Cost, fields: seq<Field>, v: Value, depth: nat, k: nat, i: nat)
      requires v.RecordV? && k < |fields| && FieldsOk(fields, v, depth, k)
      requires fields[k].id as nat in ValueIds(v.fields) && i == IndexOf(ValueIds(v.fields), fields[k].id as nat)
      requires Accepts(Plus(Plus(base, RecordCost(types, fields, v, k)), Work(i + 1)), fields[k].ty, v.fields[i].value, depth + 1)
      ensures FieldsOk(fields, v, depth, k + 1)
      ensures Plus(Plus(Plus(base, RecordCost(types, fields, v, k)), Work(i + 1)), CostOf(types, fields[k].ty, v.fields[i].value))
              == Plus(base, RecordCost(types, fields, v, k + 1))
    {
      RecordCostStep(types, fields, v, k);
      FieldAccepted(fields, v, depth, k);
      hide Inhabits, Shallow, CostOf, IndexOf, RecordCost, FieldOk, ValueIds;
    }

    lemma RecordFieldFails(before: Cost, fields: seq<Field>, v: Value, depth: nat, k: nat, i: nat)
      requires v.RecordV? && k < |fields|
      requires fields[k].id as nat in ValueIds(v.fields) && i == IndexOf(ValueIds(v.fields), fields[k].id as nat)
      requires var spent := Plus(Plus(before, ScansOf(fields, v)), RecordCost(types, fields, v, k));
               spent.work + i + 1 > limits.work
               || !Accepts(Plus(spent, Work(i + 1)), fields[k].ty, v.fields[i].value, depth + 1)
      ensures !RecordAccepts(before, fields, v, depth)
    {
      hide Inhabits, Shallow, CostOf, FieldSetOk, IndexOf, RecordCost, FieldOk, ScansOf, Within, Plus, NoMore;
      RecordCostGrows(types, fields, v, k + 1, |fields|);
      RecordCostStep(types, fields, v, k);
      FieldAccepted(fields, v, depth, k);
      var base, c, total := Plus(before, ScansOf(fields, v)), RecordCost(types, fields, v, k), RecordCost(types, fields, v, |fields|);
      OverBudget(base, c, i + 1, CostOf(types, fields[k].ty, v.fields[i].value), total, limits);
    }

    lemma FieldAccepted(fields: seq<Field>, v: Value, depth: nat, k: nat)
      requires v.RecordV? && k < |fields| && fields[k].id as nat in ValueIds(v.fields)
      ensures var x := v.fields[IndexOf(ValueIds(v.fields), fields[k].id as nat)].value;
              FieldOk(fields, v, depth, k) <==>
              Inhabits(types, principals, fields[k].ty, x) && depth + 1 <= limits.depth
              && Shallow(x, limits.depth - (depth + 1))
    {
    }

    lemma FieldIsThere(fields: seq<Field>, v: Value, k: nat)
      requires v.RecordV? && k < |fields| && FieldSetOk(fields, v)
      ensures fields[k] in fields && fields[k].id as nat in ValueIds(v.fields)
      ensures v.fields[IndexOf(ValueIds(v.fields), fields[k].id as nat)].value < v
    {
      assert TypeIds(fields)[k] in TypeIds(fields);
    }

    lemma RecordStarts(before: Cost, fields: seq<Field>, v: Value, depth: nat)
      requires v.RecordV?
      ensures FieldsOk(fields, v, depth, 0)
      ensures Plus(before, ScansOf(fields, v)) == Plus(Plus(before, ScansOf(fields, v)), RecordCost(types, fields, v, 0))
    {
    }

    lemma RecordDone(before: Cost, fields: seq<Field>, v: Value, depth: nat)
      requires v.RecordV? && FieldSetOk(fields, v) && FieldsOk(fields, v, depth, |fields|)
      requires Within(Plus(Plus(before, ScansOf(fields, v)), RecordCost(types, fields, v, |fields|)), limits)
      ensures RecordAccepts(before, fields, v, depth)
    {
    }

    lemma FieldSetMatches(fields: seq<Field>, v: Value)
      requires v.RecordV? && DistinctIds(fields) && NoDuplicates(ValueIds(v.fields))
      ensures FieldSetOk(fields, v) <==>
              |fields| == |v.fields| && forall id :: id in TypeIds(fields) ==> id in ValueIds(v.fields)
    {
      if FieldSetOk(fields, v) { SameFieldCount(fields, v); }
      if |fields| == |v.fields| && forall id :: id in TypeIds(fields) ==> id in ValueIds(v.fields) {
        FieldsOnce(fields);
        FullCover(TypeIds(fields), ValueIds(v.fields));
      }
    }

    lemma SameFieldCount(fields: seq<Field>, v: Value)
      requires v.RecordV? && DistinctIds(fields) && FieldSetOk(fields, v)
      ensures |fields| == |v.fields|
    {
      FieldsOnce(fields);
      PigeonHole(TypeIds(fields), ValueIds(v.fields));
      PigeonHole(ValueIds(v.fields), TypeIds(fields));
    }

    lemma NotAField(before: Cost, fields: seq<Field>, v: Value, depth: nat)
      requires v.RecordV? && !FieldSetOk(fields, v)
      ensures !RecordAccepts(before, fields, v, depth)
    {
    }

    lemma TwiceExplained(reference: TypeRef, v: Value, depth: nat, id: nat)
      requires reference < |types| && types[reference].Record? && v.RecordV? && Twice(ValueIds(v.fields), id)
      ensures Explained(reference, v, depth, DuplicateHostField(id))
    {
      var ids := ValueIds(v.fields);
      var i, j :| 0 <= i < j < |ids| && ids[i] == id == ids[j];
      assert v.fields[i].id == id == v.fields[j].id;
      FaultExplained(reference, v, depth, DuplicateHostField(id));
    }

    lemma MismatchExplained(reference: TypeRef, v: Value, depth: nat, expected: seq<nat>, found: seq<nat>)
      requires reference < |types| && types[reference].Record? && v.RecordV? && NoDuplicates(ValueIds(v.fields))
      requires !FieldSetOk(types[reference].fields, v)
      requires Listing(expected, TypeIds(types[reference].fields)) && Listing(found, ValueIds(v.fields))
      ensures Explained(reference, v, depth, FieldSetMismatch(expected, found))
    {
      forall i, j | 0 <= i < j < |v.fields| ensures v.fields[i].id != v.fields[j].id {
        assert ValueIds(v.fields)[i] != ValueIds(v.fields)[j];
      }
      FaultExplained(reference, v, depth, FieldSetMismatch(expected, found));
    }

    method ValidateRecord(fields: seq<Field>, v: Value, depth: nat, ghost reference: TypeRef) returns (r: Result<(), ValueError>)
      requires reference < |types| && types[reference] == Record(fields)
      requires v.RecordV? && Checkable(types) && DistinctIds(fields) && (forall f :: f in fields ==> f.ty < |types|)
      requires depth <= limits.depth && Within(Spent(), limits)
      modifies budget
      ensures Within(Spent(), limits)
      ensures r.Ok? <==> RecordAccepts(old(Spent()), fields, v, depth)
      ensures r.Ok? ==>
                Spent() == Plus(Plus(old(Spent()), ScansOf(fields, v)), RecordCost(types, fields, v, |fields|))
      ensures r.Err? ==> Explained(reference, v, depth, r.error)
      decreases v, 0
    {
      hide Spent, CostOf, RecordCost, Checkable, Accepts, RecordAccepts, FieldSetOk, FieldsOk, IndexOf, PairWork, ScanWork, NoDuplicates, Explains,
           Inhabits, Shallow, Twice, Listing;
      WorkExplained(reference, v, depth);
      ghost var w := Spent();
      var expected, actual := TypeIds(fields), ValueIds(v.fields);
      r := PreflightChildren(|v.fields|);
      if r.Err? {
        RecordTooMany(w, fields, v, depth);
        PreflightExplained(reference, v, depth, w.elements + |v.fields|);
        return;
      }
      r := CheckDuplicates(actual);
      if r.Err? {
        DuplicatesRefuse(w, fields, v, depth);
        if r.error.DuplicateHostField? { TwiceExplained(reference, v, depth, r.error.id); }
        return;
      }
      FieldSetMatches(fields, v);
      var matches := Ok(false);
      if |fields| == |v.fields| {
        matches := MatchFields(expected, actual);
        if matches.Err? {
          RecordTooMuchWork(w, fields, v, depth);
          return Err(matches.error);
        }
      }
      if !matches.value {
        NotAField(w, fields, v, depth);
        var wanted := SortedFieldIds(expected);
        if wanted.Err? { return Err(wanted.error); }
        var found := SortedFieldIds(actual);
        if found.Err? { return Err(found.error); }
        ListingIs(wanted.value, expected);
        ListingIs(found.value, actual);
        MismatchExplained(reference, v, depth, wanted.value, found.value);
        return Err(FieldSetMismatch(wanted.value, found.value));
      }
      RecordStarts(w, fields, v, depth);
      for k := 0 to |fields|
        invariant Within(Spent(), limits) && FieldsOk(fields, v, depth, k)
        invariant Spent() == Plus(Plus(w, ScansOf(fields, v)), RecordCost(types, fields, v, k))
      {
        FieldIsThere(fields, v, k);
        ghost var i := IndexOf(actual, fields[k].id as nat);
        var found := Scan(fields[k].id, actual);
        if found.Err? {
          RecordFieldFails(w, fields, v, depth, k, i);
          return Err(found.error);
        }
        var value := v.fields[found.value.value].value;
        r := ValidateNode(fields[k].ty, value, depth + 1);
        if r.Err? {
          RecordFieldFails(w, fields, v, depth, k, i);
          RecordExplained(types, principals, limits, reference, v, depth, r.error, k, i);
          return;
        }
        RecordFieldPasses(Plus(w, ScansOf(fields, v)), fields, v, depth, k, i);
      }
      RecordDone(w, fields, v, depth);
      r := Ok(());
    }

    lemma ListingIs(output: seq<nat>, ids: seq<nat>)
      requires (forall i, j :: 0 <= i < j < |output| ==> output[i] < output[j]) && forall id :: id in output <==> id in ids
      ensures Listing(output, ids)
    {
    }

    lemma DuplicatesRefuse(before: Cost, fields: seq<Field>, v: Value, depth: nat)
      requires v.RecordV? && (!NoDuplicates(ValueIds(v.fields)) || before.work + PairWork(|v.fields|) > limits.work)
      ensures !RecordAccepts(before, fields, v, depth)
    {
      hide NoDuplicates, RecordCost;
    }

    // ----- one node -----

    ghost function Own(before: Cost, v: Value): Cost { Plus(before, Cost(1, StringBytes(v), 0)) }

    lemma VecArm(before: Cost, r: TypeRef, v: Value, depth: nat)
      requires r < |types| && types[r].Vec? && v.VecV? && depth <= limits.depth
      ensures Accepts(before, r, v, depth) <==> VecAccepts(Own(before, v), types[r].inner, v, depth)
      ensures Plus(before, CostOf(types, r, v))
              == Plus(Own(before, v), VecCost(types, types[r].inner, v, |v.values|))
    {
      hide VecCost;
      VecInhabits(r, v, depth);
      hide Inhabits, Shallow, ElementsOk;
    }

    lemma VecInhabits(r: TypeRef, v: Value, depth: nat)
      requires r < |types| && types[r].Vec? && v.VecV? && depth <= limits.depth
      ensures Inhabits(types, principals, r, v) && Shallow(v, limits.depth - depth) <==>
              ElementsOk(types[r].inner, v.values, depth, |v.values|)
    {
      VecTyping(types, principals, r, v);
      VecShallow(v, limits.depth - depth);
      hide Inhabits, Shallow;
      if v.values != [] { var first := v.values[0]; }
    }

    lemma OptArm(before: Cost, r: TypeRef, v: Value, depth: nat)
      requires r < |types| && types[r].Opt? && v.OptV? && v.some.Some? && depth <= limits.depth
      ensures Accepts(before, r, v, depth) <==> Accepts(Own(before, v), types[r].inner, v.some.value, depth + 1)
      ensures Plus(before, CostOf(types, r, v)) == Plus(Own(before, v), CostOf(types, types[r].inner, v.some.value))
      ensures Own(before, v).elements + 1 > limits.elements ==> !Accepts(before, r, v, depth)
    {
      OwnElement(types, types[r].inner, v.some.value);
    }

    lemma VariantArm(before: Cost, r: TypeRef, v: Value, depth: nat, i: nat)
      requires r < |types| && types[r].Variant? && v.VariantV? && depth <= limits.depth && DistinctIds(types[r].fields)
      requires v.id as nat in TypeIds(types[r].fields) && i == IndexOf(TypeIds(types[r].fields), v.id as nat)
      ensures Accepts(before, r, v, depth) <==>
              Accepts(Plus(Own(before, v), Work(i + 1)), types[r].fields[i].ty, v.value, depth + 1)
      ensures Plus(before, CostOf(types, r, v))
              == Plus(Plus(Own(before, v), Work(i + 1)), CostOf(types, types[r].fields[i].ty, v.value))
      ensures Own(before, v).elements + 1 > limits.elements || Own(before, v).work + i + 1 > limits.work
              ==> !Accepts(before, r, v, depth)
    {
      OwnElement(types, types[r].fields[i].ty, v.value);
      VariantInhabits(r, v, i);
      VariantCostIs(types, r, v, i);
      hide Inhabits, CostOf, IndexOf;
    }

    lemma VariantInhabits(r: TypeRef, v: Value, i: nat)
      requires r < |types| && types[r].Variant? && v.VariantV? && DistinctIds(types[r].fields)
      requires v.id as nat in TypeIds(types[r].fields) && i == IndexOf(TypeIds(types[r].fields), v.id as nat)
      ensures Inhabits(types, principals, r, v) <==> Inhabits(types, principals, types[r].fields[i].ty, v.value)
    {
      assert types[r].fields[i].id == v.id;
      if Inhabits(types, principals, r, v) {
        var j: nat :| j < |types[r].fields| && types[r].fields[j].id == v.id
                      && Inhabits(types, principals, types[r].fields[j].ty, v.value);
        assert j == i;
      }
    }

    lemma VariantUnknown(before: Cost, r: TypeRef, v: Value, depth: nat)
      requires r < |types| && types[r].Variant? && v.VariantV? && v.id as nat !in TypeIds(types[r].fields)
      ensures !Accepts(before, r, v, depth)
    {
      forall i | 0 <= i < |types[r].fields| ensures types[r].fields[i].id != v.id {
        assert TypeIds(types[r].fields)[i] in TypeIds(types[r].fields);
      }
    }

    lemma VariantTooMuch(before: Cost, r: TypeRef, v: Value, depth: nat)
      requires r < |types| && types[r].Variant? && v.VariantV? && DistinctIds(types[r].fields)
      requires Own(before, v).work + ScanCost(v.id, TypeIds(types[r].fields)) > limits.work
      ensures !Accepts(before, r, v, depth)
    {
      if v.id as nat !in TypeIds(types[r].fields) {
        VariantUnknown(before, r, v, depth);
      } else if depth <= limits.depth {
        VariantArm(before, r, v, depth, IndexOf(TypeIds(types[r].fields), v.id as nat));
      }
    }

    /** The record's fields found one by one are all of them, each once. */
    lemma RecordInhabits(fields: seq<Field>, r: TypeRef, v: Value, depth: nat)
      requires r < |types| && types[r] == Record(fields) && v.RecordV? && DistinctIds(fields) && depth <= limits.depth
      ensures Inhabits(types, principals, r, v) && Shallow(v, limits.depth - depth) <==>
              FieldSetOk(fields, v) && FieldsOk(fields, v, depth, |fields|)
    {
      RecordTyping(types, principals, r, v);
      RecordShallow(v, limits.depth - depth);
      hide Inhabits, Shallow;
      var ids := ValueIds(v.fields);
      if FieldSetOk(fields, v) && FieldsOk(fields, v, depth, |fields|) {
        forall i: nat, j: nat | i < |fields| && j < |v.fields| && fields[i].id == v.fields[j].id
          ensures Inhabits(types, principals, fields[i].ty, v.fields[j].value)
        {
          IndexOfUnique(ids, j);
          assert FieldOk(fields, v, depth, i);
        }
        forall j: nat | j < |v.fields|
          ensures limits.depth - depth > 0 && Shallow(v.fields[j].value, limits.depth - depth - 1)
        {
          var i := TypeFieldOf(fields, v, j);
          IndexOfUnique(ids, j);
          assert FieldOk(fields, v, depth, i);
        }
        if v.fields != [] { var first := v.fields[0]; }
      }
      if Inhabits(types, principals, r, v) && Shallow(v, limits.depth - depth) {
        forall k | 0 <= k < |fields| ensures FieldOk(fields, v, depth, k) {
          assert TypeIds(fields)[k] in TypeIds(fields);
          var j := IndexOf(ids, fields[k].id as nat);
          assert v.fields[j].id == fields[k].id;
        }
      }
    }

    lemma TypeFieldOf(fields: seq<Field>, v: Value, j: nat) returns (i: nat)
      requires v.RecordV? && FieldSetOk(fields, v) && j < |v.fields|
      ensures i < |fields| && fields[i].id == v.fields[j].id
    {
      assert ValueIds(v.fields)[j] in ValueIds(v.fields);
      i :| 0 <= i < |fields| && TypeIds(fields)[i] == v.fields[j].id;
    }

    lemma RecordArm(before: Cost, r: TypeRef, v: Value, depth: nat)
      requires r < |types| && types[r].Record? && v.RecordV? && depth <= limits.depth && DistinctIds(types[r].fields)
      ensures Accepts(before, r, v, depth) <==> RecordAccepts(Own(before, v), types[r].fields, v, depth)
      ensures Plus(before, CostOf(types, r, v))
              == Plus(Plus(Own(before, v), ScansOf(types[r].fields, v)), RecordCost(types, types[r].fields, v, |types[r].fields|))
    {
      RecordInhabits(types[r].fields, r, v, depth);
      RecordCostIs(types, r, v);
      hide Inhabits, Shallow, FieldSetOk, FieldsOk, CostOf, RecordCost, PairWork, ScanWork;
    }

    /** A node and a value that has no parts. */
    predicate Leaf(node: TypeNode, v: Value) {
      match (node, v)
      case (Primitive(_), _) => true
      case (Opt(_), OptV(some)) => some.None?
      case (Service(_), ServiceV(_)) => true
      case (Func(_, _, _), FuncV(_, _)) => true
      case _ => false
    }

    predicate LeafOk(node: TypeNode, v: Value) {
      match (node, v)
      case (Primitive(p), ScalarV(kind, text)) => kind == p && ScalarOk(principals, p, text)
      case (Opt(_), OptV(some)) => some.None?
      case (Service(_), ServiceV(principal)) => principals(principal)
      case (Func(_, _, _), FuncV(principal, name)) => principals(principal) && name != []
      case _ => false
    }

    lemma LeafArm(before: Cost, r: TypeRef, v: Value, depth: nat)
      requires r < |types| && Leaf(types[r], v) && depth <= limits.depth
      ensures Accepts(before, r, v, depth) <==> LeafOk(types[r], v) && Within(Own(before, v), limits)
      ensures Plus(before, CostOf(types, r, v)) == Own(before, v)
    {
      hide ScalarOk;
    }

    /** Whether a value has the kind a node asks for. */
    predicate SameKind(node: TypeNode, v: Value) {
      match (node, v)
      case (Primitive(_), _) => true
      case (Opt(_), OptV(_)) => true
      case (Vec(_), VecV(_)) => true
      case (Record(_), RecordV(_)) => true
      case (Variant(_), VariantV(_, _)) => true
      case (Service(_), ServiceV(_)) => true
      case (Func(_, _, _), FuncV(_, _)) => true
      case _ => false
    }

    lemma OtherKind(before: Cost, r: TypeRef, v: Value, depth: nat)
      requires r < |types| && !SameKind(types[r], v)
      ensures !Accepts(before, r, v, depth)
    {
    }

    method ValidatePrimitive(p: PrimitiveType, v: Value) returns (r: Result<(), ValueError>)
      ensures r.Ok? <==> v.ScalarV? && v.kind == p && ScalarOk(principals, p, v.text)
      ensures r.Err? ==> Faulty(principals, Primitive(p), v, r.error)
    {
      if p == Empty { return Err(EmptyHasNoValue); }
      if !v.ScalarV? || v.kind != p { return Err(KindMismatch); }
      if ScalarOk(principals, p, v.text) { return Ok(()); }
      r := Err(if p == Principal then InvalidPrincipal else KindMismatch);
    }

    method ValidateLeaf(node: TypeNode, v: Value) returns (r: Result<(), ValueError>)
      requires Leaf(node, v)
      ensures r.Ok? <==> LeafOk(node, v)
      ensures r.Err? ==> Faulty(principals, node, v, r.error)
    {
      match (node, v) {
        case (Primitive(p), _) => r := ValidatePrimitive(p, v);
        case (Opt(_), OptV(_)) => r := Ok(());
        case (Service(_), ServiceV(principal)) => r := if principals(principal) then Ok(()) else Err(InvalidPrincipal);
        case (Func(_, _, _), FuncV(principal, name)) =>
          if !principals(principal) { return Err(InvalidPrincipal); }
          r := if name == [] then Err(EmptyFunctionMethod) else Ok(());
      }
    }

    lemma UnknownExplained(reference: TypeRef, v: Value, depth: nat)
      requires reference < |types| && types[reference].Variant? && v.VariantV? && v.id as nat !in TypeIds(types[reference].fields)
      ensures Explained(reference, v, depth, UnknownVariantId(v.id))
    {
      var fields := types[reference].fields;
      forall f | f in fields ensures f.id != v.id {
        var i :| 0 <= i < |fields| && fields[i] == f;
        assert TypeIds(fields)[i] == f.id;
      }
      FaultExplained(reference, v, depth, UnknownVariantId(v.id));
    }

    method ValidateVariant(fields: seq<Field>, reference: TypeRef, v: Value, depth: nat, ghost before: Cost)
      returns (r: Result<(), ValueError>)
      requires Checkable(types) && reference < |types| && types[reference] == Variant(fields) && v.VariantV?
      requires DistinctIds(fields) && (forall f :: f in fields ==> f.ty < |types|) && depth <= limits.depth
      requires Within(Spent(), limits) && Spent() == Own(before, v)
      modifies budget
      ensures Within(Spent(), limits)
      ensures r.Ok? <==> Accepts(before, reference, v, depth)
      ensures r.Ok? ==> Spent() == Plus(before, CostOf(types, reference, v))
      ensures r.Err? ==> Explained(reference, v, depth, r.error)
      decreases v, 0
    {
      hide Spent, CostOf, Checkable, Accepts, IndexOf, Explains, Inhabits, Shallow;
      WorkExplained(reference, v, depth);
      var found := Scan(v.id, TypeIds(fields));
      if found.Err? {
        VariantTooMuch(before, reference, v, depth);
        return Err(found.error);
      }
      if found.value.None? {
        VariantUnknown(before, reference, v, depth);
        UnknownExplained(reference, v, depth);
        return Err(UnknownVariantId(v.id));
      }
      var i := found.value.value;
      assert fields[i] in fields;
      VariantArm(before, reference, v, depth, i);
      r := PreflightChildren(1);
      if r.Err? {
        PreflightExplained(reference, v, depth, Spent().elements + 1);
        return;
      }
      r := ValidateNode(fields[i].ty, v.value, depth + 1);
      if r.Err? { VariantExplained(types, principals, limits, reference, v, depth, r.error, i); }
    }

    lemma NodeRefs(r: TypeRef)
      requires Checkable(types) && r < |types|
      ensures types[r].Opt? || types[r].Vec? ==> types[r].inner < |types|
      ensures types[r].Record? || types[r].Variant? ==>
                DistinctIds(types[r].fields) && forall f :: f in types[r].fields ==> f.ty < |types|
    {
      assert NodeIds(types[r]) && RefsBelow(types[r], |types|);
      if types[r].Record? || types[r].Variant? {
        assert StoredRefs(types[r]) == FieldTypes(types[r].fields);
        FieldRefs(types[r].fields, |types|);
      }
      if types[r].Opt? || types[r].Vec? { assert types[r].inner in StoredRefs(types[r]); }
    }

    lemma KindExplained(reference: TypeRef, v: Value, depth: nat)
      requires reference < |types| && !SameKind(types[reference], v)
      ensures Explained(reference, v, depth, if types[reference].Class? then ClassHasNoValue else KindMismatch)
    {
      FaultExplained(reference, v, depth, if types[reference].Class? then ClassHasNoValue else KindMismatch);
      hide Explains;
    }

    /** `validate_node`: within the limits, exactly the values that inhabit the
        node are accepted, and they are charged exactly their cost; a refusal names a
        fault the value has or a limit it passes. */
    method ValidateNode(reference: TypeRef, v: Value, depth: nat) returns (r: Result<(), ValueError>)
      requires Checkable(types) && reference < |types| && Within(Spent(), limits)
      modifies budget
      ensures Within(Spent(), limits)
      ensures r.Ok? <==> Accepts(old(Spent()), reference, v, depth)
      ensures r.Ok? ==> Spent() == Plus(old(Spent()), CostOf(types, reference, v))
      ensures r.Err? ==> Explained(reference, v, depth, r.error)
      decreases v, 1
    {
      hide Spent, Checkable, CostOf, Accepts, VecAccepts, RecordAccepts, ScansOf, RecordCost, VecCost, ScalarOk, Explains, Inhabits, Shallow,
           Faulty;
      ghost var before := Spent();
      if depth > limits.depth {
        TooDeep(before, reference, v, depth);
        DepthExplained(reference, v, depth);
        return Err(OverLimit(ResourceLimit("value_depth", limits.depth, depth)));
      }
      OwnFits(before, reference, v, depth);
      r := ChargeElement();
      if r.Err? {
        PreflightExplained(reference, v, depth, before.elements + 1);
        return;
      }
      r := ChargeStringBytes(v);
      if r.Err? {
        BytesExplained(reference, v, depth, before.bytes + StringBytes(v));
        return;
      }
      NodeRefs(reference);
      if !SameKind(types[reference], v) {
        OtherKind(before, reference, v, depth);
        KindExplained(reference, v, depth);
        return Err(if types[reference].Class? then ClassHasNoValue else KindMismatch);
      }
      if Leaf(types[reference], v) {
        LeafArm(before, reference, v, depth);
        r := ValidateLeaf(types[reference], v);
        if r.Err? { FaultExplained(reference, v, depth, r.error); }
        return;
      }
      match types[reference] {
        case Opt(inner) =>
          OptArm(before, reference, v, depth);
          r := PreflightChildren(1);
          if r.Err? {
            PreflightExplained(reference, v, depth, Spent().elements + 1);
            return;
          }
          r := ValidateNode(inner, v.some.value, depth + 1);
          if r.Err? { OptExplained(types, principals, limits, reference, v, depth, r.error); }
        case Vec(inner) =>
          VecArm(before, reference, v, depth);
          r := ValidateVec(inner, v, depth, reference);
        case Record(fields) =>
          RecordArm(before, reference, v, depth);
          r := ValidateRecord(fields, v, depth, reference);
        case Variant(fields) =>
          r := ValidateVariant(fields, reference, v, depth, before);
      }
    }

    lemma TooDeep(before: Cost, r: TypeRef, v: Value, depth: nat)
      requires depth > limits.depth
      ensures !Accepts(before, r, v, depth)
    {
    }

    lemma OwnFits(before: Cost, r: TypeRef, v: Value, depth: nat)
      ensures !Within(Own(before, v), limits) ==> !Accepts(before, r, v, depth)
    {
      OwnWithin(types, r, v);
    }

  }

  predicate Above(id: nat, previous: Option<nat>) { previous.None? || id > previous.value }

  /** The identifiers up to the last selected one, in ascending order. */
  ghost predicate Selecting(ids: seq<nat>, output: seq<nat>, previous: Option<nat>) {
    && (forall i, j :: 0 <= i < j < |output| ==> output[i] < output[j])
    && (forall id :: id in output <==> id in ids && !Above(id, previous))
    && (previous.Some? ==> output != [] && previous.value == output[|output| - 1])
    && (previous.None? ==> output == [])
  }

  lemma SelectionStarts(ids: seq<nat>)
    ensures Selecting(ids, [], None)
  {
  }

  lemma NextSelected(ids: seq<nat>, output: seq<nat>, previous: Option<nat>, id: nat)
    requires Selecting(ids, output, previous) && id in ids && Above(id, previous)
    requires forall j :: 0 <= j < |ids| && Above(ids[j], previous) ==> id <= ids[j]
    ensures Selecting(ids, output + [id], Some(id))
  {
    forall x | x in ids && Above(x, previous) ensures id <= x {
      var j :| 0 <= j < |ids| && ids[j] == x;
    }
  }

  /** The rounds selection takes: one for every distinct identifier, and one
      that finds nothing if there are repetitions. */
  ghost function Rounds(ids: seq<nat>): nat {
    var distinct := |MembersOf(ids)|;
    if distinct < |ids| then distinct + 1 else |ids|
  }

  ghost function SelectionWork(ids: seq<nat>): nat { Times(Rounds(ids), |ids|) }

  lemma RoundFits(ids: seq<nat>, output: seq<nat>, previous: Option<nat>)
    requires Selecting(ids, output, previous) && |output| < |ids|
    ensures Times(|output| + 1, |ids|) == Times(|output|, |ids|) + |ids| <= SelectionWork(ids)
  {
    DistinctWithin(output, MembersOf(ids));
    assert |output| + 1 <= Rounds(ids);
    hide Times, Rounds, Selecting;
    OneMore(|output|, |ids|);
    TimesGrows(|output| + 1, Rounds(ids), |ids|);
  }

  /** A round that finds nothing is the last: everything was selected. */
  lemma LastRound(ids: seq<nat>, output: seq<nat>, previous: Option<nat>)
    requires Selecting(ids, output, previous) && |output| < |ids|
    requires forall j :: 0 <= j < |ids| ==> !Above(ids[j], previous)
    ensures (forall i, j :: 0 <= i < j < |output| ==> output[i] < output[j]) && forall id :: id in output <==> id in ids
    ensures SelectionWork(ids) == Times(|output|, |ids|) + |ids|
  {
    assert forall id :: id in output <==> id in ids;
    DistinctWithin(output, MembersOf(ids));
    assert MembersOf(ids) == MembersOf(output);
    MembersCount(output);
    assert Rounds(ids) == |output| + 1;
    hide Times;
    OneMore(|output|, |ids|);
  }

  /** As many distinct members as entries are all members. */
  lemma EveryRound(ids: seq<nat>, output: seq<nat>, previous: Option<nat>)
    requires Selecting(ids, output, previous) && |output| == |ids|
    ensures (forall i, j :: 0 <= i < j < |output| ==> output[i] < output[j]) && forall id :: id in output <==> id in ids
    ensures SelectionWork(ids) == Times(|ids|, |ids|)
  {
    forall id | id in ids ensures id in output {
      if id !in output { PigeonHole(output + [id], ids); }
    }
    DistinctWithin(output, MembersOf(ids));
    assert Rounds(ids) == |ids|;
  }

  lemma {:induction false} FirstAt(id: nat, listed: seq<nat>, i: nat)
    requires i < |listed| && id !in listed[..i]
    ensures if listed[i] == id then IndexOf(listed, id) == i else i < ScanCost(id, listed)
    ensures i < ScanCost(id, listed)
  {
    if i > 0 {
      assert listed[0] in listed[..i];
      forall x | x in listed[1..][..i - 1] ensures x in listed[..i] {
        var j :| 0 <= j < i - 1 && listed[1..][j] == x;
        assert listed[..i][j + 1] == x;
      }
      FirstAt(id, listed[1..], i - 1);
    }
  }

  lemma ScanWorkStep(wanted: seq<nat>, listed: seq<nat>, i: nat)
    requires i < |wanted|
    ensures ScanWork(wanted[..i + 1], listed) == ScanWork(wanted[..i], listed) + ScanCost(wanted[i], listed)
  {
    assert wanted[..i + 1][..i] == wanted[..i];
  }

  lemma {:induction false} ScanWorkGrows(wanted: seq<nat>, listed: seq<nat>, i: nat)
    requires i <= |wanted|
    ensures ScanWork(wanted[..i], listed) <= ScanWork(wanted, listed)
  {
    if i == |wanted| {
      assert wanted[..i] == wanted;
    } else {
      assert wanted[..|wanted| - 1][..i] == wanted[..i];
      ScanWorkGrows(wanted[..|wanted| - 1], listed, i);
    }
  }

  lemma {:induction false} PairWorkGrows(m: nat, n: nat)
    requires m <= n
    ensures PairWork(m) <= PairWork(n)
  {
    if m < n { PairWorkGrows(m, n - 1); }
  }

  // ----- sums of costs -----

  lemma OwnElement(types: Types, r: TypeRef, v: Value)
    ensures CostOf(types, r, v).elements >= 1
  {
  }

  lemma {:induction false} VecCostElements(types: Types, inner: TypeRef, v: Value, k: nat)
    requires v.VecV? && k <= |v.values|
    ensures VecCost(types, inner, v, k).elements >= k
  {
    hide CostOf;
    if k > 0 {
      VecCostElements(types, inner, v, k - 1);
      OwnElement(types, inner, v.values[k - 1]);
    }
  }

  ghost predicate NoMore(a: Cost, b: Cost) {
    a.elements <= b.elements && a.bytes <= b.bytes && a.work <= b.work
  }

  lemma {:induction false} VecCostGrows(types: Types, inner: TypeRef, v: Value, k: nat, n: nat)
    requires v.VecV? && k <= n <= |v.values|
    ensures NoMore(VecCost(types, inner, v, k), VecCost(types, inner, v, n))
    decreases n
  {
    hide CostOf;
    if k < n { VecCostGrows(types, inner, v, k, n - 1); }
  }

  lemma FieldsOnce(fields: seq<Field>)
    requires DistinctIds(fields)
    ensures NoDuplicates(TypeIds(fields))
  {
  }

  /** As many distinct members as entries are all the entries. */
  lemma FullCover(s: seq<nat>, t: seq<nat>)
    requires NoDuplicates(s) && |s| == |t| && forall x :: x in s ==> x in t
    ensures forall x :: x in t ==> x in s
  {
    forall x | x in t ensures x in s {
      if x !in s { PigeonHole(s + [x], t); }
    }
  }

  /** Passing a limit early is passing it in the end. */
  lemma OverBudget(base: Cost, c: Cost, n: nat, d: Cost, total: Cost, limits: ValueLimits)
    requires NoMore(Plus(c, Plus(Work(n), d)), total)
    ensures Plus(Plus(Plus(base, c), Work(n)), d) == Plus(base, Plus(c, Plus(Work(n), d)))
    ensures Plus(base, c).work + n > limits.work ==> !Within(Plus(base, total), limits)
    ensures !Within(Plus(Plus(Plus(base, c), Work(n)), d), limits) ==> !Within(Plus(base, total), limits)
  {
  }

  lemma RecordCostStep(types: Types, fields: seq<Field>, v: Value, k: nat)
    requires v.RecordV? && k < |fields| && fields[k].id as nat in ValueIds(v.fields)
    ensures var i := IndexOf(ValueIds(v.fields), fields[k].id as nat);
            RecordCost(types, fields, v, k + 1)
            == Plus(RecordCost(types, fields, v, k), Plus(Work(i + 1), CostOf(types, fields[k].ty, v.fields[i].value)))
  {
  }

  lemma {:induction false} RecordCostElements(types: Types, fields: seq<Field>, v: Value, k: nat)
    requires v.RecordV? && k <= |fields| && forall id :: id in TypeIds(fields) ==> id in ValueIds(v.fields)
    ensures RecordCost(types, fields, v, k).elements >= k
  {
    hide CostOf;
    if k > 0 {
      RecordCostElements(types, fields, v, k - 1);
      assert TypeIds(fields)[k - 1] in TypeIds(fields);
      OwnElement(types, fields[k - 1].ty, v.fields[IndexOf(ValueIds(v.fields), fields[k - 1].id as nat)].value);
    }
  }

  lemma {:induction false} RecordCostGrows(types: Types, fields: seq<Field>, v: Value, k: nat, n: nat)
    requires v.RecordV? && k <= n <= |fields|
    ensures NoMore(RecordCost(types, fields, v, k), RecordCost(types, fields, v, n))
    decreases n
  {
    hide CostOf;
    if k < n { RecordCostGrows(types, fields, v, k, n - 1); }
  }

  lemma OwnWithin(types: Types, r: TypeRef, v: Value)
    ensures NoMore(Cost(1, StringBytes(v), 0), CostOf(types, r, v))
  {
  }

  lemma RecordCostIs(types: Types, r: TypeRef, v: Value)
    requires r < |types| && types[r].Record? && v.RecordV?
    ensures CostOf(types, r, v) == Plus(Plus(Cost(1, 0, 0),
                                             Work(PairWork(|v.fields|) + ScanWork(TypeIds(types[r].fields), ValueIds(v.fields)))),
                                        RecordCost(types, types[r].fields, v, |types[r].fields|))
  {
    hide PairWork, ScanWork, RecordCost;
  }

  lemma VariantCostIs(types: Types, r: TypeRef, v: Value, i: nat)
    requires r < |types| && types[r].Variant? && v.VariantV?
    requires v.id as nat in TypeIds(types[r].fields) && i == IndexOf(TypeIds(types[r].fields), v.id as nat)
    ensures CostOf(types, r, v) == Plus(Plus(Cost(1, 0, 0), Work(i + 1)), CostOf(types, types[r].fields[i].ty, v.value))
  {
  }

  // ----- typing and depth, one level -----

  lemma VecTyping(types: Types, principals: Bytes.Text -> bool, r: TypeRef, v: Value)
    requires r < |types| && types[r].Vec? && v.VecV?
    ensures Inhabits(types, principals, r, v) <==>
            forall i :: 0 <= i < |v.values| ==> Inhabits(types, principals, types[r].inner, v.values[i])
  {
  }

  lemma VecShallow(v: Value, room: nat)
    requires v.VecV?
    ensures Shallow(v, room) <==> v.values == [] || (room > 0 && forall i :: 0 <= i < |v.values| ==> Shallow(v.values[i], room - 1))
  {
  }

  lemma RecordTyping(types: Types, principals: Bytes.Text -> bool, r: TypeRef, v: Value)
    requires r < |types| && types[r].Record? && v.RecordV?
    ensures Inhabits(types, principals, r, v) <==>
            && NoDuplicates(ValueIds(v.fields))
            && (forall id :: id in TypeIds(types[r].fields) <==> id in ValueIds(v.fields))
            && forall i, j :: 0 <= i < |types[r].fields| && 0 <= j < |v.fields| && types[r].fields[i].id == v.fields[j].id ==>
                 Inhabits(types, principals, types[r].fields[i].ty, v.fields[j].value)
  {
  }

  lemma RecordShallow(v: Value, room: nat)
    requires v.RecordV?
    ensures Shallow(v, room) <==>
            v.fields == [] || (room > 0 && forall i :: 0 <= i < |v.fields| ==> Shallow(v.fields[i].value, room - 1))
  {
  }
}
