/** Host values, what it means for one to inhabit a node of a type arena, and
    what checking it costs. */
module Values {
  import opened Bytes
  import opened Sorting
  import opened Wrappers
  import opened TypeGraph

  datatype FieldValue = FieldValue(id: u32, value: Value)

  /** `ScalarV` is a value of a primitive kind with the text it is written as;
      kinds that are not written as text carry the empty text. */
  datatype Value =
    | ScalarV(kind: PrimitiveType, text: Bytes.Text)
    | OptV(some: Option<Value>)
    | VecV(values: seq<Value>)
    | RecordV(fields: seq<FieldValue>)
    | VariantV(id: u32, value: Value)
    | ServiceV(principal: Bytes.Text)
    | FuncV(principal: Bytes.Text, method_: Bytes.Text)

  // ----- scalars, as ASCII -----

  predicate Digit(c: nat) { 48 <= c <= 57 }

  const ZERO: seq<nat> := [48]

  const MINUS: nat := 45

  predicate CanonicalNat(s: seq<nat>) {
    s == ZERO || (s != [] && s[0] != 48 && forall c :: c in s ==> Digit(c))
  }

  predicate CanonicalInt(s: Bytes.Text) {
    if s != [] && s[0] == MINUS then s[1..] != ZERO && CanonicalNat(s[1..]) else CanonicalNat(s)
  }

  predicate CanonicalHex(s: Bytes.Text, length: nat) {
    |s| == length && forall c :: c in s ==> Digit(c) || 97 <= c <= 102
  }

  /** The number digits write in base ten. */
  function Number(s: seq<nat>): nat
    requires forall c :: c in s ==> Digit(c)
  {
    if s == [] then 0
    else
      assert forall c :: c in s[..|s| - 1] ==> c in s;
      assert Digit(s[|s| - 1]);
      10 * Number(s[..|s| - 1]) + (s[|s| - 1] - 48)
  }

  predicate InNat64(s: Bytes.Text)
    requires CanonicalNat(s)
  { Number(s) < 0x1_0000_0000_0000_0000 }

  predicate InInt64(s: Bytes.Text)
    requires CanonicalInt(s)
  {
    if s != [] && s[0] == MINUS then Number(s[1..]) <= 0x8000_0000_0000_0000 else Number(s) < 0x8000_0000_0000_0000
  }

  /** `validate_primitive` on a value of the right kind. */
  predicate ScalarOk(principals: Bytes.Text -> bool, kind: PrimitiveType, text: Bytes.Text) {
    match kind
    case Nat => CanonicalNat(text)
    case Int => CanonicalInt(text)
    case Nat64 => CanonicalNat(text) && InNat64(text)
    case Int64 => CanonicalInt(text) && InInt64(text)
    case Float32 => CanonicalHex(text, 8)
    case Float64 => CanonicalHex(text, 16)
    case Principal => principals(text)
    case Empty => false
    case _ => true
  }

  // ----- typing -----

  function ValueIds(fields: seq<FieldValue>): (r: seq<nat>)
    ensures |r| == |fields| && forall i :: 0 <= i < |r| ==> r[i] == fields[i].id
  { seq(|fields|, i requires 0 <= i < |fields| => fields[i].id as nat) }

  function TypeIds(fields: seq<Field>): (r: seq<nat>)
    ensures |r| == |fields| && forall i :: 0 <= i < |r| ==> r[i] == fields[i].id
  { seq(|fields|, i requires 0 <= i < |fields| => fields[i].id as nat) }

  /** The value inhabits the node. A record matches its type's fields one to
      one by identifier; a variant names one of them. */
  ghost predicate Inhabits(types: Types, principals: Bytes.Text -> bool, r: TypeRef, v: Value)
    decreases v
  {
    r < |types| &&
    match (types[r], v)
    case (Primitive(p), ScalarV(kind, text)) => p == kind && ScalarOk(principals, kind, text)
    case (Opt(inner), OptV(some)) => some.Some? ==> Inhabits(types, principals, inner, some.value)
    case (Vec(inner), VecV(values)) => forall i :: 0 <= i < |values| ==> Inhabits(types, principals, inner, values[i])
    case (Record(fields), RecordV(values)) =>
      && NoDuplicates(ValueIds(values))
      && (forall id :: id in TypeIds(fields) <==> id in ValueIds(values))
      && forall i, j :: 0 <= i < |fields| && 0 <= j < |values| && fields[i].id == values[j].id ==>
           Inhabits(types, principals, fields[i].ty, values[j].value)
    case (Variant(fields), VariantV(id, x)) =>
      exists i :: 0 <= i < |fields| && fields[i].id == id && Inhabits(types, principals, fields[i].ty, x)
    case (Service(_), ServiceV(principal)) => principals(principal)
    case (Func(_, _, _), FuncV(principal, name)) => principals(principal) && name != []
    case _ => false
  }

  // ----- cost -----

  datatype Cost = Cost(elements: nat, bytes: nat, work: nat)

  function Plus(a: Cost, b: Cost): Cost {
    Cost(a.elements + b.elements, a.bytes + b.bytes, a.work + b.work)
  }

  function Work(n: nat): Cost { Cost(0, 0, n) }

  /** A value nests no deeper than the room there is. */
  ghost predicate Shallow(v: Value, room: nat)
    decreases v
  {
    match v
    case OptV(some) => some.Some? ==> room > 0 && Shallow(some.value, room - 1)
    case VecV(values) => values == [] || (room > 0 && forall i :: 0 <= i < |values| ==> Shallow(values[i], room - 1))
    case RecordV(fields) => fields == [] || (room > 0 && forall i :: 0 <= i < |fields| ==> Shallow(fields[i].value, room - 1))
    case VariantV(_, x) => room > 0 && Shallow(x, room - 1)
    case _ => true
  }

  /** `value_string_bytes`. */
  function StringBytes(v: Value): nat {
    match v
    case ScalarV(_, text) => |text|
    case ServiceV(principal) => |principal|
    case FuncV(principal, name) => |principal| + |name|
    case _ => 0
  }

  /** The comparisons that find an identifier in a list, or show it missing. */
  function ScanCost(id: nat, listed: seq<nat>): nat {
    if id in listed then IndexOf(listed, id) + 1 else |listed|
  }

  /** The comparisons that find every wanted identifier among the listed ones,
      scanning from the start each time. */
  function ScanWork(wanted: seq<nat>, listed: seq<nat>): nat {
    if wanted == [] then 0
    else
      ScanWork(wanted[..|wanted| - 1], listed) + ScanCost(wanted[|wanted| - 1], listed)
  }

  /** The comparisons of all pairs of a list. */
  function PairWork(n: nat): nat {
    if n == 0 then 0 else PairWork(n - 1) + n - 1
  }

  /** What checking a value against a node it inhabits costs. */
  ghost function CostOf(types: Types, r: TypeRef, v: Value): Cost
    decreases v, 1
  {
    var own := Cost(1, StringBytes(v), 0);
    if r >= |types| then own
    else
      match (types[r], v)
      case (Opt(inner), OptV(some)) => if some.Some? then Plus(own, CostOf(types, inner, some.value)) else own
      case (Vec(inner), VecV(values)) => Plus(own, VecCost(types, inner, v, |values|))
      case (Record(fields), RecordV(values)) =>
        Plus(Plus(own, Work(PairWork(|values|) + ScanWork(TypeIds(fields), ValueIds(values)))),
             RecordCost(types, fields, v, |fields|))
      case (Variant(fields), VariantV(id, x)) =>
        if id in TypeIds(fields) then
          var i := IndexOf(TypeIds(fields), id);
          Plus(Plus(own, Work(i + 1)), CostOf(types, fields[i].ty, x))
        else own
      case _ => own
  }

  ghost function VecCost(types: Types, inner: TypeRef, v: Value, k: nat): Cost
    requires v.VecV? && k <= |v.values|
    decreases v, 0, k
  {
    if k == 0 then Work(0)
    else
      Plus(VecCost(types, inner, v, k - 1), CostOf(types, inner, v.values[k - 1]))
  }

  /** Looking up and checking the values of the first `k` type fields. */
  ghost function RecordCost(types: Types, fields: seq<Field>, v: Value, k: nat): Cost
    requires v.RecordV? && k <= |fields|
    decreases v, 0, k
  {
    if k == 0 then Work(0)
    else
      var ids := ValueIds(v.fields);
      var id := fields[k - 1].id as nat;
      if id in ids then
        var i := IndexOf(ids, id);
        assert v.fields[i] < v;
        Plus(RecordCost(types, fields, v, k - 1), Plus(Work(i + 1), CostOf(types, fields[k - 1].ty, v.fields[i].value)))
      else RecordCost(types, fields, v, k - 1)
  }
}
