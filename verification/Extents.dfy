/** The extent every host value carries, its levels and its size, computed from
    those of its parts in 32-bit saturating arithmetic when it is built. */
module Extents {
  import opened Bytes
  import opened Wrappers
  import opened TypeGraph
  import opened Budgets
  import opened Values
  import opened ValueErrors
  import opened ValueChecking
  import opened ValueMeasures

  datatype Extent = Extent(depth: u32, elements: u32)

  const MOST: u32 := 0xffff_ffff

  function Capped(n: nat): u32 { if n < MOST then n else MOST }

  /** `saturating_add`. */
  function Added(a: u32, b: u32): u32 { Capped(a + b) }

  lemma CapsAdd(a: nat, b: nat)
    ensures Added(Capped(a), Capped(b)) == Capped(a + b)
  {
  }

  // ----- what the extent measures -----

  /** The greatest number of levels below a value. */
  ghost function Deepest(v: Value): nat
    decreases v, 1
  { if Nested(v) == [] then 0 else 1 + DeepestOf(v, Nested(v)) }

  ghost function DeepestOf(v: Value, parts: seq<Value>): nat
    requires Inner(v, parts) && parts != []
    decreases v, 0, |parts|
  {
    if |parts| == 1 then Deepest(parts[0])
    else Greater(Deepest(parts[0]), DeepestOf(v, parts[1..]))
  }

  function Greater(a: nat, b: nat): nat { if a < b then b else a }

  lemma {:induction false} DeepestPart(v: Value, parts: seq<Value>)
    requires Inner(v, parts) && parts != []
    ensures forall i :: 0 <= i < |parts| ==> Deepest(parts[i]) <= DeepestOf(v, parts)
    ensures exists i :: 0 <= i < |parts| && Deepest(parts[i]) == DeepestOf(v, parts)
    decreases |parts|
  {
    hide Deepest;
    if |parts| > 1 {
      var rest := parts[1..];
      DeepestPart(v, rest);
      forall i | 0 <= i < |parts| ensures Deepest(parts[i]) <= DeepestOf(v, parts) {
        if i > 0 { assert parts[i] == rest[i - 1]; }
      }
      var j :| 0 <= j < |rest| && Deepest(rest[j]) == DeepestOf(v, rest);
      assert parts[j + 1] == rest[j];
    } else {
      assert Deepest(parts[0]) == DeepestOf(v, parts);
    }
  }

  /** A value reaches its deepest level and none below. */
  lemma {:induction false} DeepestIsReached(v: Value, n: nat)
    ensures Reaches(v, n) <==> n <= Deepest(v)
    decreases v
  {
    var parts := Nested(v);
    forall i | 0 <= i < |parts| && n > 0 ensures Reaches(parts[i], n - 1) <==> n - 1 <= Deepest(parts[i]) {
      DeepestIsReached(parts[i], n - 1);
    }
    hide Nested;
    if n > 0 && parts != [] { DeepestPart(v, parts); }
  }

  // ----- the accumulator -----

  /** The extents a list of parts adds up to: the greatest depth, if there is a
      part, and the number of elements so far. */
  ghost function Gathered(parts: seq<Extent>): (r: (Option<u32>, u32)) {
    if parts == [] then (None, 1)
    else
      var last, front := parts[|parts| - 1], Gathered(parts[..|parts| - 1]);
      (Some(if front.0.Some? && front.0.value > last.depth then front.0.value else last.depth), Added(front.1, last.elements))
  }

  ghost function Enclosed(parts: seq<Extent>): Extent {
    var g := Gathered(parts);
    Extent(if g.0.None? then 0 else Added(g.0.value, 1), g.1)
  }

  /** `Extent::enclosing`. */
  method Enclosing(parts: seq<Extent>) returns (e: Extent)
    ensures e == Enclosed(parts)
  {
    var deepest: Option<u32> := None;
    var elements: u32 := 1;
    for i := 0 to |parts|
      invariant Gathered(parts[..i]) == (deepest, elements)
    {
      assert parts[..i + 1][..i] == parts[..i];
      deepest := Some(if deepest.Some? && deepest.value > parts[i].depth then deepest.value else parts[i].depth);
      elements := Added(elements, parts[i].elements);
    }
    assert parts[..|parts|] == parts;
    e := Extent(if deepest.None? then 0 else Added(deepest.value, 1), elements);
  }

  // ----- extents are measures -----

  /** The extent of a value: its levels and its size, up to the greatest 32-bit
      number. */
  ghost function ExtentOf(v: Value): Extent { Extent(Capped(Deepest(v)), Capped(Count(v))) }

  ghost function ExtentsOf(parts: seq<Value>): (r: seq<Extent>)
    ensures |r| == |parts| && forall i :: 0 <= i < |r| ==> r[i] == ExtentOf(parts[i])
  { seq(|parts|, i requires 0 <= i < |parts| => ExtentOf(parts[i])) }

  lemma {:induction false} CountsLast(v: Value, parts: seq<Value>, last: Value)
    requires Inner(v, parts) && last < v
    ensures Inner(v, parts + [last]) && Counts(v, parts + [last]) == Counts(v, parts) + Count(last)
  {
    hide Count;
    var all := parts + [last];
    if parts == [] {
      assert all[1..] == [] && Counts(v, []) == 0;
    } else {
      assert all[1..] == parts[1..] + [last];
      CountsLast(v, parts[1..], last);
    }
  }

  /** The greatest depth of some parts, in the order they are gathered. */
  ghost function DeepestFront(parts: seq<Value>): nat
    requires parts != []
  {
    var n := |parts| - 1;
    if n == 0 then Deepest(parts[0]) else Greater(DeepestFront(parts[..n]), Deepest(parts[n]))
  }

  lemma {:induction false} DeepestFrontIs(v: Value, parts: seq<Value>)
    requires Inner(v, parts) && parts != []
    ensures DeepestFront(parts) == DeepestOf(v, parts)
  {
    DeepestPart(v, parts);
    DeepestFrontPart(parts);
    hide Deepest, DeepestOf, DeepestFront;
    var i :| 0 <= i < |parts| && Deepest(parts[i]) == DeepestOf(v, parts);
    var j :| 0 <= j < |parts| && Deepest(parts[j]) == DeepestFront(parts);
  }

  lemma {:induction false} DeepestFrontPart(parts: seq<Value>)
    requires parts != []
    ensures forall i :: 0 <= i < |parts| ==> Deepest(parts[i]) <= DeepestFront(parts)
    ensures exists i :: 0 <= i < |parts| && Deepest(parts[i]) == DeepestFront(parts)
  {
    hide Deepest;
    var n := |parts| - 1;
    if n > 0 {
      DeepestFrontPart(parts[..n]);
      var j :| 0 <= j < n && Deepest(parts[..n][j]) == DeepestFront(parts[..n]);
      assert parts[j] == parts[..n][j];
      forall i | 0 <= i < |parts| ensures Deepest(parts[i]) <= DeepestFront(parts) {
        if i < n { assert parts[i] == parts[..n][i]; }
      }
    } else {
      assert Deepest(parts[0]) == DeepestFront(parts);
    }
  }

  lemma {:induction false} GatheredIs(v: Value, parts: seq<Value>)
    requires Inner(v, parts)
    ensures Gathered(ExtentsOf(parts))
            == (if parts == [] then None else Some(Capped(DeepestFront(parts))), Capped(1 + Counts(v, parts)))
  {
    hide Deepest, Count, Counts, DeepestFront, Capped, Added, Gathered;
    if parts == [] {
      NothingGathered(v);
    } else {
      var n := |parts| - 1;
      var front, last := parts[..n], parts[n];
      assert parts == front + [last];
      GatheredIs(v, front);
      CountsLast(v, front, last);
      LastGathered(parts);
      CapsAdd(1 + Counts(v, front), Count(last));
      if n > 0 { CapsGreater(DeepestFront(front), Deepest(last)); }
    }
  }

  lemma NothingGathered(v: Value)
    ensures ExtentsOf([]) == [] && Gathered([]) == (None, 1) && Counts(v, []) == 0 && Capped(1) == 1
  {
  }

  lemma LastGathered(parts: seq<Value>)
    requires parts != []
    ensures var n := |parts| - 1;
            var front, last := Gathered(ExtentsOf(parts[..n])), ExtentOf(parts[n]);
            && Gathered(ExtentsOf(parts))
               == (Some(if front.0.Some? && front.0.value > last.depth then front.0.value else last.depth), Added(front.1, last.elements))
            && DeepestFront(parts) == if n == 0 then Deepest(parts[n]) else Greater(DeepestFront(parts[..n]), Deepest(parts[n]))
  {
    hide Deepest, Count, Capped, Added;
    var n := |parts| - 1;
    assert ExtentsOf(parts)[..n] == ExtentsOf(parts[..n]);
  }

  lemma CapsGreater(a: nat, b: nat)
    ensures Capped(Greater(a, b)) == if Capped(a) > Capped(b) then Capped(a) else Capped(b)
  {
  }

  /** A value's extent is what its parts' extents enclose. */
  lemma ExtentFromParts(v: Value)
    ensures ExtentOf(v) == Enclosed(ExtentsOf(Nested(v)))
  {
    hide Nested, Gathered, DeepestFront, Counts, DeepestOf, Capped, Added;
    GatheredIs(v, Nested(v));
    MeasuresOf(v);
    if Nested(v) != [] {
      DeepestFrontIs(v, Nested(v));
      CapsAdd(DeepestOf(v, Nested(v)), 1);
    }
    CapsOne();
  }

  lemma MeasuresOf(v: Value)
    ensures Count(v) == 1 + Counts(v, Nested(v))
    ensures Deepest(v) == if Nested(v) == [] then 0 else 1 + DeepestOf(v, Nested(v))
  {
    hide Nested;
  }

  lemma CapsOne()
    ensures Capped(0) == 0 && Capped(1) == 1
  {
  }

  // ----- building within limits -----

  /** `HostValue::bounded`: a container is built from parts that carry their
      extents exactly when its own extent fits. */
  method Bounded(v: Value, parts: seq<Extent>, limits: ValueLimits) returns (r: Result<Extent, BudgetError>)
    requires parts == ExtentsOf(Nested(v))
    ensures r.Ok? <==> Capped(Deepest(v)) <= limits.depth && Capped(Count(v)) <= limits.elements
    ensures r.Ok? ==> r.value == ExtentOf(v)
    ensures r.Err? ==>
              r.error == if Capped(Deepest(v)) > limits.depth then ResourceLimit("value_depth", limits.depth, Capped(Deepest(v)))
                         else ResourceLimit("value_elements", limits.elements, Capped(Count(v)))
  {
    hide Deepest, Count, Enclosed, Capped;
    var extent := Enclosing(parts);
    ExtentFromParts(v);
    if extent.depth > limits.depth { return Err(ResourceLimit("value_depth", limits.depth, extent.depth)); }
    if extent.elements > limits.elements { return Err(ResourceLimit("value_elements", limits.elements, extent.elements)); }
    r := Ok(extent);
  }

  /** Below the greatest 32-bit number, what can be built within the limits is
      what has no more levels and values than they allow, so every value that
      checking accepts can be built. */
  lemma AcceptedCanBeBuilt(check: ValueCheck, r: TypeRef, v: Value)
    requires WellFielded(check.types) && check.limits.depth < MOST && check.limits.elements < MOST
    ensures Capped(Deepest(v)) <= check.limits.depth && Capped(Count(v)) <= check.limits.elements
            <==> (forall n: nat :: Reaches(v, n) ==> n <= check.limits.depth) && Count(v) <= check.limits.elements
    ensures check.Accepts(Work(0), r, v, 0) ==> Capped(Deepest(v)) <= check.limits.depth && Capped(Count(v)) <= check.limits.elements
  {
    AcceptedByMeasure(check, r, v);
    forall n: nat ensures Reaches(v, n) <==> n <= Deepest(v) { DeepestIsReached(v, n); }
    assert Reaches(v, Deepest(v));
    hide Reaches, Deepest, Count, Inhabits, CostOf, AllText;
  }
}
