/** What a record costs to check: its own comparisons come to `(3n^2 + n) / 2`,
    whatever the order of its fields in the type and in the value. */
module RecordWork {
  import opened Bytes
  import opened Sorting
  import opened TypeGraph
  import opened Values
  import opened ValueErrors
  import opened ValueChecking

  function Sum(s: seq<nat>): nat {
    if s == [] then 0 else s[0] + Sum(s[1..])
  }

  lemma {:induction false} SumInsert(x: nat, s: seq<nat>)
    ensures Sum(Insert(RefLe, x, s)) == x + Sum(s)
  {
    if s == [] || RefLe(x, s[0]) {
    } else {
      SumInsert(x, s[1..]);
    }
  }

  lemma {:induction false} SumSort(s: seq<nat>)
    ensures Sum(Sort(RefLe, s)) == Sum(s)
  {
    if s != [] {
      SumSort(s[1..]);
      SumInsert(s[0], Sort(RefLe, s[1..]));
    }
  }

  lemma {:induction false} SumOfSame(s: seq<nat>, t: seq<nat>)
    requires multiset(s) == multiset(t)
    ensures Sum(s) == Sum(t)
  {
    RefOrder();
    SortOfPermutation(RefLe, s, t);
    SumSort(s);
    SumSort(t);
  }

  lemma {:induction false} SumSnoc(s: seq<nat>, x: nat)
    ensures Sum(s + [x]) == Sum(s) + x
  {
    if s == [] {
      assert [] + [x] == [x];
    } else {
      assert (s + [x])[1..] == s[1..] + [x];
      SumSnoc(s[1..], x);
    }
  }

  lemma {:induction false} SumUpTo(n: nat)
    ensures 2 * Sum(UpTo(n)) == n * n - n
  {
    if n > 0 {
      SumUpTo(n - 1);
      assert UpTo(n) == UpTo(n - 1) + [n - 1];
      SumSnoc(UpTo(n - 1), n - 1);
    }
  }

  /** Where each wanted identifier is listed. */
  function Positions(wanted: seq<nat>, listed: seq<nat>): (r: seq<nat>)
    requires forall id :: id in wanted ==> id in listed
    ensures |r| == |wanted|
    ensures forall i :: 0 <= i < |r| ==> wanted[i] in listed && r[i] == IndexOf(listed, wanted[i])
  {
    seq(|wanted|, i requires 0 <= i < |wanted| => assert wanted[i] in wanted; IndexOf(listed, wanted[i]))
  }

  lemma {:induction false} ScanWorkIsSum(wanted: seq<nat>, listed: seq<nat>)
    requires forall id :: id in wanted ==> id in listed
    ensures ScanWork(wanted, listed) == Sum(Positions(wanted, listed)) + |wanted|
  {
    if wanted != [] {
      var rest := wanted[..|wanted| - 1];
      assert forall id :: id in rest ==> id in wanted;
      ScanWorkIsSum(rest, listed);
      assert wanted[|wanted| - 1] in wanted;
      assert Positions(wanted, listed) == Positions(rest, listed) + [IndexOf(listed, wanted[|wanted| - 1])];
      SumSnoc(Positions(rest, listed), IndexOf(listed, wanted[|wanted| - 1]));
    }
  }

  /** Finding every listed identifier once finds every place once. */
  lemma PositionsPermute(wanted: seq<nat>, listed: seq<nat>)
    requires NoDuplicates(wanted) && NoDuplicates(listed) && forall id :: id in wanted <==> id in listed
    ensures |wanted| == |listed| && multiset(Positions(wanted, listed)) == multiset(UpTo(|wanted|))
    ensures forall p :: p in Positions(wanted, listed) ==> p < |listed|
  {
    PigeonHole(wanted, listed);
    PigeonHole(listed, wanted);
    var n, p := |wanted|, Positions(wanted, listed);
    forall i, j | 0 <= i < j < n ensures p[i] != p[j] {
      assert listed[p[i]] == wanted[i] && listed[p[j]] == wanted[j];
    }
    forall x ensures x in p <==> x in UpTo(n) {
      if x in p { assert UpTo(n)[x] == x; }
      if x in UpTo(n) {
        var i := IndexOf(wanted, listed[x]);
        IndexOfUnique(listed, x);
        assert p[i] == x;
      }
    }
    assert NoDuplicates(UpTo(n));
    SameMembersSameMultiset(p, UpTo(n));
  }

  /** Finding every listed identifier once costs the same in every order. */
  lemma FullScanWork(wanted: seq<nat>, listed: seq<nat>)
    requires NoDuplicates(wanted) && NoDuplicates(listed) && forall id :: id in wanted <==> id in listed
    ensures |wanted| == |listed|
    ensures 2 * ScanWork(wanted, listed) == |wanted| * |wanted| + |wanted|
  {
    PositionsPermute(wanted, listed);
    var n, p := |wanted|, Positions(wanted, listed);
    SumOfSame(p, UpTo(n));
    SumUpTo(n);
    ScanWorkIsSum(wanted, listed);
  }

  lemma {:induction false} PairWorkIs(n: nat)
    ensures 2 * PairWork(n) == n * n - n
  {
    if n > 0 { PairWorkIs(n - 1); }
  }

  /** The comparisons charged by the values of the first `k` type fields. */
  ghost function PartsWork(types: Types, fields: seq<Field>, v: Value, k: nat): nat
    requires v.RecordV? && k <= |fields|
  {
    if k == 0 then 0
    else
      PartsWork(types, fields, v, k - 1)
      + if fields[k - 1].id as nat in ValueIds(v.fields) then
          CostOf(types, fields[k - 1].ty, v.fields[IndexOf(ValueIds(v.fields), fields[k - 1].id as nat)].value).work
        else 0
  }

  lemma {:induction false} RecordCostSplits(types: Types, fields: seq<Field>, v: Value, k: nat)
    requires v.RecordV? && k <= |fields| && forall id :: id in TypeIds(fields) ==> id in ValueIds(v.fields)
    ensures RecordCost(types, fields, v, k).work
            == ScanWork(TypeIds(fields)[..k], ValueIds(v.fields)) + PartsWork(types, fields, v, k)
  {
    hide CostOf, IndexOf;
    if k > 0 {
      RecordCostSplits(types, fields, v, k - 1);
      assert TypeIds(fields)[k - 1] in TypeIds(fields);
      RecordCostStep(types, fields, v, k - 1);
      ScanWorkStep(TypeIds(fields), ValueIds(v.fields), k - 1);
    }
  }

  /** The work of a record that inhabits its type: `(3n^2 + n) / 2` comparisons
      of its own, and what its field values charge. */
  lemma RecordWorkIs(types: Types, principals: Bytes.Text -> bool, r: TypeRef, v: Value)
    requires r < |types| && types[r].Record? && v.RecordV? && DistinctIds(types[r].fields)
    requires Inhabits(types, principals, r, v)
    ensures var n := |v.fields|;
            2 * CostOf(types, r, v).work == 3 * n * n + n + 2 * PartsWork(types, types[r].fields, v, |types[r].fields|)
  {
    var fields := types[r].fields;
    RecordTyping(types, principals, r, v);
    hide Inhabits, CostOf, RecordCost, PartsWork, ScanWork, PairWork;
    RecordWorkParts(types, r, v);
    OwnScans(fields, v);
    AddUp(|v.fields|, PairWork(|v.fields|), ScanWork(TypeIds(fields), ValueIds(v.fields)), PartsWork(types, fields, v, |fields|));
  }

  lemma RecordWorkParts(types: Types, r: TypeRef, v: Value)
    requires r < |types| && types[r].Record? && v.RecordV?
    requires forall id :: id in TypeIds(types[r].fields) ==> id in ValueIds(v.fields)
    ensures var fields := types[r].fields;
            CostOf(types, r, v).work
            == PairWork(|v.fields|) + 2 * ScanWork(TypeIds(fields), ValueIds(v.fields)) + PartsWork(types, fields, v, |fields|)
  {
    var fields := types[r].fields;
    RecordCostIs(types, r, v);
    RecordCostSplits(types, fields, v, |fields|);
    assert TypeIds(fields)[..|fields|] == TypeIds(fields);
    hide CostOf, RecordCost, PartsWork, ScanWork, PairWork;
  }

  lemma OwnScans(fields: seq<Field>, v: Value)
    requires v.RecordV? && DistinctIds(fields) && NoDuplicates(ValueIds(v.fields))
    requires forall id :: id in TypeIds(fields) <==> id in ValueIds(v.fields)
    ensures |fields| == |v.fields|
    ensures 2 * PairWork(|v.fields|) == |v.fields| * |v.fields| - |v.fields|
    ensures 2 * ScanWork(TypeIds(fields), ValueIds(v.fields)) == |v.fields| * |v.fields| + |v.fields|
  {
    FieldsOnce(fields);
    FullScanWork(TypeIds(fields), ValueIds(v.fields));
    PairWorkIs(|v.fields|);
  }

  lemma AddUp(n: nat, pairs: nat, scans: nat, parts: nat)
    requires 2 * pairs == n * n - n && 2 * scans == n * n + n
    ensures 2 * (pairs + 2 * scans + parts) == 3 * n * n + n + 2 * parts
  {
    var square := n * n;
    assert 3 * n * n == 3 * square;
  }

  lemma WidestSquare(n: nat)
    ensures 3 * n * n + n <= 2 * 10_000_000 <==> n <= 2581
  {
    if n <= 2581 {
      assert n * n <= 2581 * 2581;
      assert 3 * n * n == 3 * (n * n);
    } else {
      assert n * n >= 2582 * 2582;
      assert 3 * n * n == 3 * (n * n);
    }
  }

  /** The default limits on host values. */
  const DEFAULT_LIMITS := ValueLimits(256, 1_000_000, 16 * 1024 * 1024, 10_000_000)

  /** Under the default limits and a fresh budget, a record whose values charge
      no comparisons, and which the other limits admit, is accepted up to 2581
      fields and refused from 2582 on. */
  lemma WidestRecord(check: ValueCheck, r: TypeRef, v: Value)
    requires check.limits == DEFAULT_LIMITS
    requires r < |check.types| && check.types[r].Record? && v.RecordV? && DistinctIds(check.types[r].fields)
    requires Inhabits(check.types, check.principals, r, v)
    requires PartsWork(check.types, check.types[r].fields, v, |check.types[r].fields|) == 0
    ensures var cost := CostOf(check.types, r, v);
            check.Accepts(Work(0), r, v, 0) <==>
              && Shallow(v, 256) && cost.elements <= 1_000_000 && cost.bytes <= 16 * 1024 * 1024
              && |v.fields| <= 2581
  {
    hide Inhabits, CostOf, Shallow, PartsWork;
    RecordWorkIs(check.types, check.principals, r, v);
    WidestSquare(|v.fields|);
  }

  // ----- the widest record there is -----

  /** A record type of `n` fields, all of type `null`, and its one value. */
  function NullRecordTypes(n: nat): Types
    requires n <= U32_LIMIT
  { [Record(seq(n, i requires 0 <= i < n => Field(i, 1))), Primitive(Null)] }

  function NullRecord(n: nat): (v: Value)
    requires n <= U32_LIMIT
    ensures v.RecordV? && |v.fields| == n
    ensures forall i :: 0 <= i < n ==> v.fields[i] == FieldValue(i, ScalarV(Null, []))
  { RecordV(seq(n, i requires 0 <= i < n => FieldValue(i, ScalarV(Null, [])))) }

  lemma NullCost(types: Types, v: Value)
    requires |types| == 2 && types[1] == Primitive(Null) && v == ScalarV(Null, [])
    ensures CostOf(types, 1, v) == Cost(1, 0, 0)
  {
  }

  lemma {:induction false} NullRecordCosts(n: nat, k: nat)
    requires k <= n <= U32_LIMIT
    ensures var types := NullRecordTypes(n);
            && PartsWork(types, types[0].fields, NullRecord(n), k) == 0
            && RecordCost(types, types[0].fields, NullRecord(n), k).elements == k
            && RecordCost(types, types[0].fields, NullRecord(n), k).bytes == 0
  {
    var types, v := NullRecordTypes(n), NullRecord(n);
    NullCost(types, ScalarV(Null, []));
    hide CostOf;
    if k > 0 {
      NullRecordCosts(n, k - 1);
      assert ValueIds(v.fields)[k - 1] == k - 1;
      IndexOfUnique(ValueIds(v.fields), k - 1);
    }
  }

  lemma NullRecordInhabits(n: nat, principals: Bytes.Text -> bool)
    requires n <= U32_LIMIT
    ensures Inhabits(NullRecordTypes(n), principals, 0, NullRecord(n)) && Shallow(NullRecord(n), 256)
  {
    var types, v := NullRecordTypes(n), NullRecord(n);
    forall id ensures id in TypeIds(types[0].fields) <==> id in ValueIds(v.fields) {
      if 0 <= id < n { assert TypeIds(types[0].fields)[id] == id == ValueIds(v.fields)[id]; }
    }
  }

  lemma NullRecordCost(n: nat)
    requires n <= U32_LIMIT
    ensures var cost := CostOf(NullRecordTypes(n), 0, NullRecord(n)); cost.elements == n + 1 && cost.bytes == 0
  {
    NullRecordCosts(n, n);
    RecordCostIs(NullRecordTypes(n), 0, NullRecord(n));
    hide CostOf, RecordCost, PartsWork, PairWork, ScanWork;
  }

  /** A record of nulls is accepted up to 2581 fields and refused from 2582. */
  lemma NullRecordFits(check: ValueCheck, n: nat)
    requires n <= U32_LIMIT && check.types == NullRecordTypes(n) && check.limits == DEFAULT_LIMITS
    ensures check.Accepts(Work(0), 0, NullRecord(n), 0) <==> n <= 2581
  {
    var types, v := NullRecordTypes(n), NullRecord(n);
    assert |types| == 2 && types[0].Record? && |types[0].fields| == n && DistinctIds(types[0].fields);
    hide Inhabits, Shallow, CostOf, RecordCost, PartsWork, PairWork, ScanWork, NullRecordTypes, DistinctIds;
    NullRecordInhabits(n, check.principals);
    NullRecordCosts(n, n);
    NullRecordCost(n);
    WidestRecord(check, 0, v);
  }
}
