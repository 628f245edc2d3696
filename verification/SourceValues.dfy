/** The values of a source type, and that a value is checked against a lowered
    or canonical contract exactly as the source types it. */
module SourceValues {
  import opened Bytes
  import opened Sorting
  import opened Wrappers
  import opened TypeGraph
  import opened Meaning
  import opened CandidTypes
  import opened ArenaSteps
  import opened Compiling
  import opened LoweredMeaning
  import opened CanonicalForm
  import opened Values
  import opened ValueErrors
  import opened ValueChecking
  import opened Decimals
  import ValueMeanings

  predicate LabelledTypeField(fields: seq<TypeField>, id: u32) { exists g :: g in fields && g.id == id }

  predicate LabelledValue(values: seq<FieldValue>, id: u32) { exists k :: 0 <= k < |values| && values[k].id == id }

  /** The value is one of the source type: aliases are followed, texts spell
      numbers of their kind, a record has a value for each of its fields and no
      other, a variant for one of its cases. */
  ghost predicate HasValue(env: Environment, principals: Bytes.Text -> bool, p: Type, v: Value)
    decreases v
  {
    var t := Denotation(env, p);
    t.Ok? &&
    match (t.value, v)
    case (PrimT(kind), ScalarV(k, text)) => k == kind && Spells(principals, k, text)
    case (OptT(inner), OptV(some)) => some.Some? ==> HasValue(env, principals, inner, some.value)
    case (VecT(inner), VecV(values)) => forall k :: 0 <= k < |values| ==> HasValue(env, principals, inner, values[k])
    case (RecordT(fields), RecordV(values)) =>
      && NoTwins(values)
      && (forall id: u32 :: LabelledTypeField(fields, id) <==> LabelledValue(values, id))
      && forall g, k :: g in fields && 0 <= k < |values| && g.id == values[k].id ==> HasValue(env, principals, g.ty, values[k].value)
    case (VariantT(fields), VariantV(id, x)) => exists g :: g in fields && g.id == id && HasValue(env, principals, g.ty, x)
    case (ServiceT(_), ServiceV(principal)) => principals(principal)
    case (FuncT(_, _, _), FuncV(principal, name)) => principals(principal) && name != []
    case _ => false
  }

  // ----- one node -----

  ghost predicate TypedAlike(env: Environment, types: Types, principals: Bytes.Text -> bool, p: Type, r: TypeRef, v: Value) {
    HasValue(env, principals, p, v) <==> Inhabits(types, principals, r, v)
  }

  /** The field of the type that a field of the node was lowered from. */
  lemma FieldFrom(env: Environment, a: Arena, types: Types, r: nat, f: Field) returns (g: TypeField)
    requires Finished(env, a, types) && r < |types| && (types[r].Record? || types[r].Variant?) && f in types[r].fields
    ensures r < |a.owner| && (a.owner[r].RecordT? || a.owner[r].VariantT?)
    ensures g in a.owner[r].fields && g.id == f.id && Denotes(env, a, g.ty, f.ty)
  {
    var p := EdgeToPart(env, a, types, r, FieldLabel(f.id), f.ty);
    g := TypeField(f.id, p);
    hide Finished, Denotes;
  }

  /** The field of the node that a field of the type was lowered to. */
  lemma FieldTo(env: Environment, a: Arena, types: Types, r: nat, g: TypeField) returns (f: Field)
    requires Finished(env, a, types) && r < |types| && r < |a.owner|
    requires (a.owner[r].RecordT? || a.owner[r].VariantT?) && g in a.owner[r].fields
    ensures (types[r].Record? || types[r].Variant?) && f in types[r].fields && f.id == g.id && Denotes(env, a, g.ty, f.ty)
  {
    var y := PartToEdge(env, a, types, r, FieldLabel(g.id), g.ty);
    f := Field(g.id, y);
    hide Finished, Denotes;
  }

  lemma InnerFrom(env: Environment, a: Arena, types: Types, r: nat)
    requires Finished(env, a, types) && r < |types| && (types[r].Opt? || types[r].Vec?)
    ensures r < |a.owner| && (a.owner[r].OptT? || a.owner[r].VecT?) && Denotes(env, a, a.owner[r].inner, types[r].inner)
  {
    var p := EdgeToPart(env, a, types, r, InnerLabel, types[r].inner);
    hide Finished, Denotes;
  }

  /** Nodes and types of one kind. */
  lemma KindsAre(t: Type, node: TypeNode)
    requires KindOfType(t) == Some(KindOf(node))
    ensures node.Primitive? <==> t.PrimT?
    ensures node.Primitive? ==> node.primitive == t.primitive
    ensures (node.Opt? <==> t.OptT?) && (node.Vec? <==> t.VecT?) && (node.Record? <==> t.RecordT?) && (node.Variant? <==> t.VariantT?)
    ensures (node.Func? <==> t.FuncT?) && (node.Service? <==> t.ServiceT?) && (node.Class? <==> t.ClassT?)
  {
  }

  lemma NodeIds(fields: seq<Field>, id: nat)
    ensures id in TypeIds(fields) <==> exists f :: f in fields && f.id as nat == id
  {
    forall f | f in fields ensures f.id as nat in TypeIds(fields) {
      var k :| 0 <= k < |fields| && fields[k] == f;
      assert TypeIds(fields)[k] == f.id as nat;
    }
  }

  lemma ValueLabels(values: seq<FieldValue>, id: u32)
    ensures id as nat in ValueIds(values) <==> LabelledValue(values, id)
  {
    if LabelledValue(values, id) {
      var k :| 0 <= k < |values| && values[k].id == id;
      assert ValueIds(values)[k] == id as nat;
    }
  }

  lemma SameFieldLabels(env: Environment, a: Arena, types: Types, r: nat, id: u32)
    requires Finished(env, a, types) && r < |types| && types[r].Record? && r < |a.owner| && a.owner[r].RecordT?
    ensures id as nat in TypeIds(types[r].fields) <==> LabelledTypeField(a.owner[r].fields, id)
  {
    NodeIds(types[r].fields, id);
    hide Finished, Denotes;
    if id as nat in TypeIds(types[r].fields) {
      var f :| f in types[r].fields && f.id as nat == id;
      var g := FieldFrom(env, a, types, r, f);
    }
    if LabelledTypeField(a.owner[r].fields, id) {
      var g :| g in a.owner[r].fields && g.id == id;
      var f := FieldTo(env, a, types, r, g);
    }
  }

  /** The parts of a value are typed alike wherever a node and a type stand for
      each other. */
  ghost predicate PartsAlike(env: Environment, a: Arena, types: Types, principals: Bytes.Text -> bool, x: Value) {
    forall p: Type, r: TypeRef :: Denotes(env, a, p, r) ==> TypedAlike(env, types, principals, p, r, x)
  }

  lemma SmallId(fields: seq<Field>, values: seq<FieldValue>, id: nat) returns (small: u32)
    requires id in TypeIds(fields) || id in ValueIds(values)
    ensures small as nat == id
  {
    if id in TypeIds(fields) {
      var i :| 0 <= i < |fields| && TypeIds(fields)[i] == id;
      small := fields[i].id;
    } else {
      var i :| 0 <= i < |values| && ValueIds(values)[i] == id;
      small := values[i].id;
    }
  }

  lemma FieldSetsAlike(env: Environment, a: Arena, types: Types, r: nat, values: seq<FieldValue>)
    requires Finished(env, a, types) && r < |types| && types[r].Record? && r < |a.owner| && a.owner[r].RecordT?
    ensures (forall id :: id in TypeIds(types[r].fields) <==> id in ValueIds(values))
            <==> forall id: u32 :: LabelledTypeField(a.owner[r].fields, id) <==> LabelledValue(values, id)
  {
    forall id: u32
      ensures id as nat in TypeIds(types[r].fields) <==> LabelledTypeField(a.owner[r].fields, id)
      ensures id as nat in ValueIds(values) <==> LabelledValue(values, id)
    {
      SameFieldLabels(env, a, types, r, id);
      ValueLabels(values, id);
    }
    hide Finished, LabelledTypeField, LabelledValue;
    if forall id: u32 :: LabelledTypeField(a.owner[r].fields, id) <==> LabelledValue(values, id) {
      forall id ensures id in TypeIds(types[r].fields) <==> id in ValueIds(values) {
        if id in TypeIds(types[r].fields) || id in ValueIds(values) {
          var small: u32 := SmallId(types[r].fields, values, id);
          assert LabelledTypeField(a.owner[r].fields, small) <==> LabelledValue(values, small);
        }
      }
    }
  }

  lemma NoTwinsIs(values: seq<FieldValue>)
    ensures NoTwins(values) <==> NoDuplicates(ValueIds(values))
  {
    var ids := ValueIds(values);
    assert forall i :: 0 <= i < |ids| ==> ids[i] == values[i].id as nat;
  }

  lemma RecordTyped(env: Environment, a: Arena, types: Types, principals: Bytes.Text -> bool, p: Type, r: nat, v: Value)
    requires Finished(env, a, types) && r < |types| && types[r].Record? && v.RecordV? && r < |a.owner| && a.owner[r].RecordT?
    requires Denotes(env, a, p, r) && forall k :: 0 <= k < |v.fields| ==> PartsAlike(env, a, types, principals, v.fields[k].value)
    ensures TypedAlike(env, types, principals, p, r, v)
  {
    RecordTyping(types, principals, r, v);
    RecordHas(env, principals, p, a.owner[r], v);
    FieldSetsAlike(env, a, types, r, v.fields);
    NoTwinsIs(v.fields);
    hide Finished, Denotes, Inhabits, HasValue, NoTwins, NoDuplicates, LabelledTypeField, LabelledValue, PartsAlike;
    if Inhabits(types, principals, r, v) { FieldsHave(env, a, types, principals, r, v.fields); }
    if HasValue(env, principals, p, v) { FieldsInhabit(env, a, types, principals, r, v.fields); }
  }

  lemma FieldsInhabit(env: Environment, a: Arena, types: Types, principals: Bytes.Text -> bool, r: nat, values: seq<FieldValue>)
    requires Finished(env, a, types) && r < |types| && types[r].Record? && r < |a.owner| && a.owner[r].RecordT?
    requires forall k :: 0 <= k < |values| ==> PartsAlike(env, a, types, principals, values[k].value)
    requires forall g, k :: g in a.owner[r].fields && 0 <= k < |values| && g.id == values[k].id ==>
               HasValue(env, principals, g.ty, values[k].value)
    ensures forall i, j :: 0 <= i < |types[r].fields| && 0 <= j < |values| && types[r].fields[i].id == values[j].id ==>
              Inhabits(types, principals, types[r].fields[i].ty, values[j].value)
  {
    hide Finished, Denotes, Inhabits, HasValue, PartsAlike;
    var fields := types[r].fields;
    forall i, j | 0 <= i < |fields| && 0 <= j < |values| && fields[i].id == values[j].id
      ensures Inhabits(types, principals, fields[i].ty, values[j].value)
    {
      var g := FieldFrom(env, a, types, r, fields[i]);
      PartAlike(env, a, types, principals, g.ty, fields[i].ty, values[j].value);
    }
  }

  lemma FieldsHave(env: Environment, a: Arena, types: Types, principals: Bytes.Text -> bool, r: nat, values: seq<FieldValue>)
    requires Finished(env, a, types) && r < |types| && types[r].Record? && r < |a.owner| && a.owner[r].RecordT?
    requires forall k :: 0 <= k < |values| ==> PartsAlike(env, a, types, principals, values[k].value)
    requires forall i, j :: 0 <= i < |types[r].fields| && 0 <= j < |values| && types[r].fields[i].id == values[j].id ==>
               Inhabits(types, principals, types[r].fields[i].ty, values[j].value)
    ensures forall g, k :: g in a.owner[r].fields && 0 <= k < |values| && g.id == values[k].id ==>
              HasValue(env, principals, g.ty, values[k].value)
  {
    hide Finished, Denotes, Inhabits, HasValue, PartsAlike;
    forall g, k | g in a.owner[r].fields && 0 <= k < |values| && g.id == values[k].id
      ensures HasValue(env, principals, g.ty, values[k].value)
    {
      var f := FieldTo(env, a, types, r, g);
      var i :| 0 <= i < |types[r].fields| && types[r].fields[i] == f;
      PartAlike(env, a, types, principals, g.ty, f.ty, values[k].value);
    }
  }

  lemma PartAlike(env: Environment, a: Arena, types: Types, principals: Bytes.Text -> bool, p: Type, r: TypeRef, x: Value)
    requires PartsAlike(env, a, types, principals, x) && Denotes(env, a, p, r)
    ensures HasValue(env, principals, p, x) <==> Inhabits(types, principals, r, x)
  {
    hide Denotes, HasValue, Inhabits;
    assert TypedAlike(env, types, principals, p, r, x);
  }

  lemma RecordHas(env: Environment, principals: Bytes.Text -> bool, p: Type, t: Type, v: Value)
    requires Denotation(env, p) == Ok(t) && t.RecordT? && v.RecordV?
    ensures HasValue(env, principals, p, v) <==>
            && NoTwins(v.fields)
            && (forall id: u32 :: LabelledTypeField(t.fields, id) <==> LabelledValue(v.fields, id))
            && forall g, k :: g in t.fields && 0 <= k < |v.fields| && g.id == v.fields[k].id ==>
                 HasValue(env, principals, g.ty, v.fields[k].value)
  {
    hide Denotation, Spells;
  }

  lemma VariantTyped(env: Environment, a: Arena, types: Types, principals: Bytes.Text -> bool, p: Type, r: nat, v: Value)
    requires Finished(env, a, types) && r < |types| && types[r].Variant? && v.VariantV? && r < |a.owner| && a.owner[r].VariantT?
    requires Denotes(env, a, p, r) && PartsAlike(env, a, types, principals, v.value)
    ensures TypedAlike(env, types, principals, p, r, v)
  {
    VariantHas(env, principals, p, a.owner[r], v);
    VariantIs(types, principals, r, v);
    hide Finished, Denotes, Inhabits, HasValue, PartsAlike;
    if HasValue(env, principals, p, v) {
      var g :| g in a.owner[r].fields && g.id == v.id && HasValue(env, principals, g.ty, v.value);
      var f := FieldTo(env, a, types, r, g);
      PartAlike(env, a, types, principals, g.ty, f.ty, v.value);
    }
    if Inhabits(types, principals, r, v) {
      var f :| f in types[r].fields && f.id == v.id && Inhabits(types, principals, f.ty, v.value);
      var g := FieldFrom(env, a, types, r, f);
      PartAlike(env, a, types, principals, g.ty, f.ty, v.value);
    }
  }

  lemma VariantHas(env: Environment, principals: Bytes.Text -> bool, p: Type, t: Type, v: Value)
    requires Denotation(env, p) == Ok(t) && t.VariantT? && v.VariantV?
    ensures HasValue(env, principals, p, v) <==> exists g :: g in t.fields && g.id == v.id && HasValue(env, principals, g.ty, v.value)
  {
    hide Denotation, Spells;
  }

  lemma VariantIs(types: Types, principals: Bytes.Text -> bool, r: TypeRef, v: Value)
    requires r < |types| && types[r].Variant? && v.VariantV?
    ensures Inhabits(types, principals, r, v) <==>
            exists f :: f in types[r].fields && f.id == v.id && Inhabits(types, principals, f.ty, v.value)
  {
    if f :| f in types[r].fields && f.id == v.id && Inhabits(types, principals, f.ty, v.value) {
      var i :| 0 <= i < |types[r].fields| && types[r].fields[i] == f;
    }
    if Inhabits(types, principals, r, v) {
      var i: nat :| i < |types[r].fields| && types[r].fields[i].id == v.id && Inhabits(types, principals, types[r].fields[i].ty, v.value);
      assert types[r].fields[i] in types[r].fields;
    }
  }

  lemma VecTyped(env: Environment, a: Arena, types: Types, principals: Bytes.Text -> bool, p: Type, r: nat, v: Value)
    requires Finished(env, a, types) && r < |types| && types[r].Vec? && v.VecV? && r < |a.owner| && a.owner[r].VecT?
    requires Denotes(env, a, p, r) && forall k :: 0 <= k < |v.values| ==> PartsAlike(env, a, types, principals, v.values[k])
    ensures TypedAlike(env, types, principals, p, r, v)
  {
    InnerFrom(env, a, types, r);
    VecTyping(types, principals, r, v);
    VecHas(env, principals, p, a.owner[r], v);
    hide Finished, Denotes, Inhabits, HasValue, PartsAlike;
    forall k | 0 <= k < |v.values|
      ensures HasValue(env, principals, a.owner[r].inner, v.values[k]) <==> Inhabits(types, principals, types[r].inner, v.values[k])
    {
      PartAlike(env, a, types, principals, a.owner[r].inner, types[r].inner, v.values[k]);
    }
  }

  lemma VecHas(env: Environment, principals: Bytes.Text -> bool, p: Type, t: Type, v: Value)
    requires Denotation(env, p) == Ok(t) && t.VecT? && v.VecV?
    ensures HasValue(env, principals, p, v) <==> forall k :: 0 <= k < |v.values| ==> HasValue(env, principals, t.inner, v.values[k])
  {
    hide Denotation, Spells;
  }

  lemma FlatTyped(env: Environment, types: Types, principals: Bytes.Text -> bool, p: Type, t: Type, r: nat, v: Value)
    requires r < |types| && Denotation(env, p) == Ok(t) && KindOfType(t) == Some(KindOf(types[r]))
    requires !(t.VecT? && v.VecV?) && !(t.RecordT? && v.RecordV?) && !(t.VariantT? && v.VariantV?)
    requires t.OptT? && v.OptV? && v.some.Some? ==>
               (HasValue(env, principals, t.inner, v.some.value) <==> Inhabits(types, principals, types[r].inner, v.some.value))
    ensures TypedAlike(env, types, principals, p, r, v)
  {
    KindsAre(t, types[r]);
    if v.ScalarV? { ScalarIs(principals, v.kind, v.text); }
    hide Denotation, Spells, ScalarOk, KindOf, KindOfType;
  }

  /** A value is one of a source type exactly when it inhabits the node the type
      was lowered to. */
  lemma {:induction false} ValuesLowered(env: Environment, a: Arena, types: Types, principals: Bytes.Text -> bool,
                                         p: Type, r: TypeRef, v: Value)
    requires Finished(env, a, types) && Denotes(env, a, p, r) && |types| == |a.owner|
    ensures TypedAlike(env, types, principals, p, r, v)
    decreases v, 0
  {
    OwnerIs(env, a, types, p, r);
    SameKind(env, a, types, r);
    var t := a.owner[r];
    KindsAre(t, types[r]);
    hide Finished, Denotes, TypedAlike, KindOf, KindOfType, PartsAlike;
    if t.VecT? && v.VecV? {
      forall k | 0 <= k < |v.values| ensures PartsAlike(env, a, types, principals, v.values[k]) {
        AllAlike(env, a, types, principals, v.values[k]);
      }
      VecTyped(env, a, types, principals, p, r, v);
    } else if t.RecordT? && v.RecordV? {
      forall k | 0 <= k < |v.fields| ensures PartsAlike(env, a, types, principals, v.fields[k].value) {
        AllAlike(env, a, types, principals, v.fields[k].value);
      }
      RecordTyped(env, a, types, principals, p, r, v);
    } else if t.VariantT? && v.VariantV? {
      AllAlike(env, a, types, principals, v.value);
      VariantTyped(env, a, types, principals, p, r, v);
    } else {
      if t.OptT? && v.OptV? && v.some.Some? {
        InnerFrom(env, a, types, r);
        AllAlike(env, a, types, principals, v.some.value);
        PartAlike(env, a, types, principals, t.inner, types[r].inner, v.some.value);
      }
      FlatTyped(env, types, principals, p, t, r, v);
    }
  }

  lemma OwnerIs(env: Environment, a: Arena, types: Types, p: Type, r: TypeRef)
    requires Denotes(env, a, p, r) && |types| == |a.owner|
    ensures r < |types| && Denotation(env, p) == Ok(a.owner[r])
  {
  }

  lemma AllAlike(env: Environment, a: Arena, types: Types, principals: Bytes.Text -> bool, x: Value)
    requires Finished(env, a, types) && |types| == |a.owner|
    ensures PartsAlike(env, a, types, principals, x)
    decreases x, 1
  {
    hide Finished, Denotes, TypedAlike;
    forall p: Type, r: TypeRef | Denotes(env, a, p, r) ensures TypedAlike(env, types, principals, p, r, x) {
      ValuesLowered(env, a, types, principals, p, r, x);
    }
  }

  // ----- whole contracts -----

  /** From source to validation: a value is one of a declared source type exactly
      when it inhabits the declaration's node in the contract, and exactly when
      it inhabits that node's place in the canonical contract. */
  lemma DeclaredValues(env: Environment, names: seq<Bytes.Text>, ty: Option<Type>, a: Arena, c: Contract, x: Declaration,
                       principals: Bytes.Text -> bool, v: Value)
    requires LoweredFrom(env, names, ty, a, c) && x in c.declarations && ValidContract(c)
    ensures x.ty < |c.types| && OldToNew(c)[x.ty] < |CanonicalOf(c).types|
    ensures HasValue(env, principals, VarT(x.name), v) <==> Inhabits(c.types, principals, x.ty, v)
    ensures HasValue(env, principals, VarT(x.name), v) <==>
            Inhabits(CanonicalOf(c).types, principals, OldToNew(c)[x.ty], v)
  {
    DeclaredNode(env, names, ty, a, c, x);
    FinishedTypes(env, names, ty, a, c);
    SameCounts(env, a, c.types);
    OwnerIs(env, a, c.types, VarT(x.name), x.ty);
    hide LoweredFrom, Finished, Denotes, Inhabits, HasValue, ValidContract, CanonicalOf, OldToNew;
    ValuesLowered(env, a, c.types, principals, VarT(x.name), x.ty, v);
    ValueMeanings.CanonicalKeepsValues(c, x.ty, principals, v);
  }

  lemma FinishedTypes(env: Environment, names: seq<Bytes.Text>, ty: Option<Type>, a: Arena, c: Contract)
    requires LoweredFrom(env, names, ty, a, c)
    ensures Finished(env, a, c.types)
  {
  }
}
