/** Why a host value is refused: what each refusal says about the value, the
    node it was checked against and the limits. */
module ValueErrors {
  import opened Bytes
  import opened Wrappers
  import opened TypeGraph
  import opened Budgets
  import opened Values

  datatype ValueLimits = ValueLimits(depth: nat, elements: nat, bytes: nat, work: nat)

  function ElementCounter(): string { "value_elements" }

  function ByteCounter(): string { "value_bytes" }

  function WorkCounter(): string { "canonicalization_work" }

  lemma CountersDiffer()
    ensures ElementCounter() != ByteCounter() && ElementCounter() != WorkCounter() && ByteCounter() != WorkCounter()
  {
    assert |ElementCounter()| == 14 && |ByteCounter()| == 11 && |WorkCounter()| == 21;
  }

  datatype ValueError =
    | OverLimit(error: BudgetError)
    | DuplicateHostField(id: nat)
    | FieldSetMismatch(expected: seq<nat>, found: seq<nat>)
    | UnknownVariantId(id: nat)
    | EmptyFunctionMethod
    | InvalidPrincipal
    | ClassHasNoValue
    | EmptyHasNoValue
    | KindMismatch

  /** The identifiers listed once each in ascending order. */
  ghost predicate Listing(output: seq<nat>, ids: seq<nat>) {
    && (forall i, j :: 0 <= i < j < |output| ==> output[i] < output[j])
    && forall id :: id in output <==> id in ids
  }

  /** The node asks for another constructor of values than the value's. */
  ghost predicate OtherConstructor(node: TypeNode, v: Value) {
    match node
    case Primitive(p) => !v.ScalarV? || v.kind != p
    case Opt(_) => !v.OptV?
    case Vec(_) => !v.VecV?
    case Record(_) => !v.RecordV?
    case Variant(_) => !v.VariantV?
    case Service(_) => !v.ServiceV?
    case Func(_, _, _) => !v.FuncV?
    case Class(_, _) => true
  }

  /** The fault lies with the value itself, not with one inside it. */
  ghost predicate Faulty(principals: Bytes.Text -> bool, node: TypeNode, v: Value, e: ValueError) {
    match e
    case OverLimit(_) => false
    case DuplicateHostField(id) =>
      node.Record? && v.RecordV? && exists i, j :: 0 <= i < j < |v.fields| && v.fields[i].id == id == v.fields[j].id
    case FieldSetMismatch(expected, found) =>
      && node.Record? && v.RecordV? && NoTwins(v.fields)
      && Listing(expected, TypeIds(node.fields)) && Listing(found, ValueIds(v.fields)) && expected != found
    case UnknownVariantId(id) =>
      node.Variant? && v.VariantV? && v.id as nat == id && forall f :: f in node.fields ==> f.id as nat != id
    case EmptyFunctionMethod => node.Func? && v.FuncV? && principals(v.principal) && v.method_ == []
    case InvalidPrincipal =>
      || (node.Service? && v.ServiceV? && !principals(v.principal))
      || (node.Func? && v.FuncV? && !principals(v.principal))
      || (node == Primitive(Principal) && v.ScalarV? && v.kind == Principal && !principals(v.text))
    case ClassHasNoValue => node.Class?
    case EmptyHasNoValue => node == Primitive(Empty)
    case KindMismatch =>
      && !node.Class? && node != Primitive(Empty)
      && (OtherConstructor(node, v) || (node.Primitive? && v.ScalarV? && v.kind != Principal && !ScalarOk(principals, v.kind, v.text)))
  }

  ghost predicate NoTwins(fields: seq<FieldValue>) {
    forall i, j :: 0 <= i < j < |fields| ==> fields[i].id != fields[j].id
  }

  /** Somewhere in the value lies a fault of this kind, at the node the types
      give that place. */
  ghost predicate Blames(types: Types, principals: Bytes.Text -> bool, r: TypeRef, v: Value, e: ValueError)
    decreases v
  {
    r < |types| &&
    (Faulty(principals, types[r], v, e) ||
     match (types[r], v)
     case (Opt(inner), OptV(some)) => some.Some? && Blames(types, principals, inner, some.value, e)
     case (Vec(inner), VecV(values)) => exists i :: 0 <= i < |values| && Blames(types, principals, inner, values[i], e)
     case (Record(fields), RecordV(values)) =>
       exists i, j :: 0 <= i < |fields| && 0 <= j < |values| && fields[i].id == values[j].id
                      && Blames(types, principals, fields[i].ty, values[j].value, e)
     case (Variant(fields), VariantV(id, x)) =>
       exists i :: 0 <= i < |fields| && fields[i].id == id && Blames(types, principals, fields[i].ty, x, e)
     case _ => false)
  }

  /** A counter is named with its limit and what went past it; one comparison or
      one level too many is exactly one past. */
  ghost predicate PastLimit(limits: ValueLimits, e: BudgetError) {
    || (e.resource == "value_depth" && e.limit == limits.depth && e.observed > limits.depth)
    || (e.resource == ElementCounter() && e.limit == limits.elements && e.observed > limits.elements)
    || (e.resource == ByteCounter() && e.limit == limits.bytes && e.observed > limits.bytes)
    || (e.resource == WorkCounter() && e.limit == limits.work && e.observed == limits.work + 1)
  }

  lemma DepthIsNoCounter()
    ensures ElementCounter() != "value_depth" && ByteCounter() != "value_depth" && WorkCounter() != "value_depth"
  {
    assert |"value_depth"| == 11 && ByteCounter()[6] != "value_depth"[6];
    assert |ElementCounter()| == 14 && |WorkCounter()| == 21;
  }

  /** What a refusal of a value at a depth says. */
  ghost predicate Explains(types: Types, principals: Bytes.Text -> bool, limits: ValueLimits,
                           r: TypeRef, v: Value, depth: nat, e: ValueError) {
    match e
    case OverLimit(error) =>
      && PastLimit(limits, error)
      && (error.resource == "value_depth" ==>
            && (depth > limits.depth || !Shallow(v, limits.depth - depth))
            && (depth <= limits.depth + 1 ==> error.observed == limits.depth + 1))
    case _ => Blames(types, principals, r, v, e)
  }

  /** A refusal of a value inside is one of the value around it. */
  lemma OptExplained(types: Types, principals: Bytes.Text -> bool, limits: ValueLimits, r: TypeRef, v: Value, depth: nat, e: ValueError)
    requires r < |types| && types[r].Opt? && v.OptV? && v.some.Some? && depth <= limits.depth
    requires Explains(types, principals, limits, types[r].inner, v.some.value, depth + 1, e)
    ensures Explains(types, principals, limits, r, v, depth, e)
  {
    hide PastLimit, Faulty;
  }

  lemma VecExplained(types: Types, principals: Bytes.Text -> bool, limits: ValueLimits, r: TypeRef, v: Value, depth: nat, e: ValueError,
                     i: nat)
    requires r < |types| && types[r].Vec? && v.VecV? && i < |v.values| && depth <= limits.depth
    requires Explains(types, principals, limits, types[r].inner, v.values[i], depth + 1, e)
    ensures Explains(types, principals, limits, r, v, depth, e)
  {
    hide PastLimit, Faulty;
  }

  lemma RecordExplained(types: Types, principals: Bytes.Text -> bool, limits: ValueLimits, r: TypeRef, v: Value, depth: nat, e: ValueError,
                        i: nat, j: nat)
    requires r < |types| && types[r].Record? && v.RecordV? && depth <= limits.depth
    requires i < |types[r].fields| && j < |v.fields| && types[r].fields[i].id == v.fields[j].id
    requires Explains(types, principals, limits, types[r].fields[i].ty, v.fields[j].value, depth + 1, e)
    ensures Explains(types, principals, limits, r, v, depth, e)
  {
    hide PastLimit, Faulty;
  }

  lemma VariantExplained(types: Types, principals: Bytes.Text -> bool, limits: ValueLimits, r: TypeRef, v: Value, depth: nat, e: ValueError,
                         i: nat)
    requires r < |types| && types[r].Variant? && v.VariantV? && depth <= limits.depth
    requires i < |types[r].fields| && types[r].fields[i].id == v.id
    requires Explains(types, principals, limits, types[r].fields[i].ty, v.value, depth + 1, e)
    ensures Explains(types, principals, limits, r, v, depth, e)
  {
    hide PastLimit, Faulty;
  }

  /** A value with a fault does not inhabit its node. */
  lemma {:induction false} BlamedDoesNotInhabit(types: Types, principals: Bytes.Text -> bool, r: TypeRef, v: Value, e: ValueError)
    requires Blames(types, principals, r, v, e)
    requires forall i :: 0 <= i < |types| ==> (types[i].Record? || types[i].Variant? ==> DistinctIds(types[i].fields))
    ensures !Inhabits(types, principals, r, v)
    decreases v
  {
    if Faulty(principals, types[r], v, e) {
      FaultyDoesNotInhabit(types, principals, r, v, e);
    } else {
      hide Faulty, DistinctIds;
      match (types[r], v)
      case (Opt(inner), OptV(some)) => BlamedDoesNotInhabit(types, principals, inner, some.value, e);
      case (Vec(inner), VecV(values)) =>
        var i :| 0 <= i < |values| && Blames(types, principals, inner, values[i], e);
        BlamedDoesNotInhabit(types, principals, inner, values[i], e);
      case (Record(fields), RecordV(values)) =>
        var i, j :| 0 <= i < |fields| && 0 <= j < |values| && fields[i].id == values[j].id
                    && Blames(types, principals, fields[i].ty, values[j].value, e);
        BlamedDoesNotInhabit(types, principals, fields[i].ty, values[j].value, e);
      case (Variant(fields), VariantV(id, x)) =>
        var i :| 0 <= i < |fields| && fields[i].id == id && Blames(types, principals, fields[i].ty, x, e);
        BlamedDoesNotInhabit(types, principals, fields[i].ty, x, e);
        OneCase(fields, i);
    }
  }

  lemma OneCase(fields: seq<Field>, i: nat)
    requires i < |fields| && DistinctIds(fields)
    ensures forall j :: 0 <= j < |fields| && fields[j].id == fields[i].id ==> j == i
  {
  }

  lemma FaultyDoesNotInhabit(types: Types, principals: Bytes.Text -> bool, r: TypeRef, v: Value, e: ValueError)
    requires r < |types| && Faulty(principals, types[r], v, e)
    ensures !Inhabits(types, principals, r, v)
  {
    if v.ScalarV? { EmptyAndPrincipal(principals, v.text); }
    hide ScalarOk;
    if e.DuplicateHostField? {
      var i, j :| 0 <= i < j < |v.fields| && v.fields[i].id == e.id == v.fields[j].id;
      assert ValueIds(v.fields)[i] == ValueIds(v.fields)[j];
    }
    if e.FieldSetMismatch? {
      if forall id :: id in TypeIds(types[r].fields) <==> id in ValueIds(v.fields) {
        OneListing(e.expected, e.found);
      }
    }
    if e.UnknownVariantId? {
      forall i | 0 <= i < |types[r].fields| ensures types[r].fields[i].id != v.id {
        assert types[r].fields[i] in types[r].fields;
      }
    }
  }

  lemma EmptyAndPrincipal(principals: Bytes.Text -> bool, text: Bytes.Text)
    ensures !ScalarOk(principals, Empty, text) && ScalarOk(principals, Principal, text) == principals(text)
  {
  }

  lemma FirstIsListed(b: seq<nat>)
    ensures b == [] || b[0] in b
  {
  }

  lemma {:induction false} OneListing(a: seq<nat>, b: seq<nat>)
    requires (forall i, j :: 0 <= i < j < |a| ==> a[i] < a[j]) && (forall i, j :: 0 <= i < j < |b| ==> b[i] < b[j])
    requires forall id :: id in a <==> id in b
    ensures a == b
  {
    if a == [] {
      FirstIsListed(b);
    } else {
      var n, m := |a| - 1, |b| - 1;
      assert a[n] in b && b != [] && b[m] in a;
      assert a[n] == b[m];
      forall id ensures id in a[..n] <==> id in b[..m] {
        if id in a[..n] { assert id in a && id != a[n]; }
        if id in b[..m] { assert id in b && id != b[m]; }
      }
      OneListing(a[..n], b[..m]);
      assert a == a[..n] + [a[n]] && b == b[..m] + [b[m]];
    }
  }
}
