/** Nodes of the same meaning have the same values, so checking a value against
    the canonical contract is checking it against the one it came from. */
module ValueMeanings {
  import opened Bytes
  import opened Sorting
  import opened Wrappers
  import opened TypeGraph
  import opened Meaning
  import opened CanonicalForm
  import opened Values
  import opened ValueErrors
  import opened ValueChecking

  /** Fields that match by identifier with types of the same values. */
  ghost predicate SameValues(a: Types, b: Types, principals: Bytes.Text -> bool, fa: seq<Field>, fb: seq<Field>, x: Value) {
    forall f, g :: f in fa && g in fb && f.id == g.id ==>
      (Inhabits(a, principals, f.ty, x) <==> Inhabits(b, principals, g.ty, x))
  }

  lemma IdsOfFields(fields: seq<Field>)
    ensures forall id: nat :: id in TypeIds(fields) <==> exists f :: f in fields && f.id as nat == id
    ensures forall id: u32 :: id in FieldIds(fields) <==> exists f :: f in fields && f.id == id
  {
    forall f | f in fields ensures f.id as nat in TypeIds(fields) && f.id in FieldIds(fields) {
      var k :| 0 <= k < |fields| && fields[k] == f;
      assert TypeIds(fields)[k] == f.id as nat && FieldIds(fields)[k] == f.id;
    }
  }

  /** The values of a record are typed the same by fields that match. */
  lemma RecordCarries(a: Types, b: Types, principals: Bytes.Text -> bool, fa: seq<Field>, fb: seq<Field>, values: seq<FieldValue>)
    requires forall id :: id in FieldIds(fa) ==> id in FieldIds(fb)
    requires forall id :: id in FieldIds(fb) ==> id in FieldIds(fa)
    requires forall k :: 0 <= k < |values| ==> SameValues(a, b, principals, fa, fb, values[k].value)
    requires forall i, k :: 0 <= i < |fa| && 0 <= k < |values| && fa[i].id == values[k].id ==>
               Inhabits(a, principals, fa[i].ty, values[k].value)
    ensures forall i, k :: 0 <= i < |fb| && 0 <= k < |values| && fb[i].id == values[k].id ==>
              Inhabits(b, principals, fb[i].ty, values[k].value)
  {
    IdsOfFields(fa);
    IdsOfFields(fb);
    hide Inhabits;
    forall i, k | 0 <= i < |fb| && 0 <= k < |values| && fb[i].id == values[k].id
      ensures Inhabits(b, principals, fb[i].ty, values[k].value)
    {
      assert fb[i] in fb && fb[i].id in FieldIds(fa);
      var f :| f in fa && f.id == fb[i].id;
      var m :| 0 <= m < |fa| && fa[m] == f;
      assert SameValues(a, b, principals, fa, fb, values[k].value);
    }
  }

  lemma RecordSame(a: Types, i: TypeRef, b: Types, j: TypeRef, principals: Bytes.Text -> bool, v: Value)
    requires i < |a| && j < |b| && a[i].Record? && b[j].Record? && v.RecordV?
    requires forall id :: id in FieldIds(a[i].fields) <==> id in FieldIds(b[j].fields)
    requires forall k :: 0 <= k < |v.fields| ==> SameValues(a, b, principals, a[i].fields, b[j].fields, v.fields[k].value)
    ensures Inhabits(a, principals, i, v) <==> Inhabits(b, principals, j, v)
  {
    hide Inhabits, SameValues, NoDuplicates;
    RecordTyping(a, principals, i, v);
    RecordTyping(b, principals, j, v);
    SameTypeIds(a[i].fields, b[j].fields);
    if Inhabits(a, principals, i, v) { RecordCarries(a, b, principals, a[i].fields, b[j].fields, v.fields); }
    if Inhabits(b, principals, j, v) {
      forall k | 0 <= k < |v.fields| ensures SameValues(b, a, principals, b[j].fields, a[i].fields, v.fields[k].value) {
        Swapped(a, b, principals, a[i].fields, b[j].fields, v.fields[k].value);
      }
      RecordCarries(b, a, principals, b[j].fields, a[i].fields, v.fields);
    }
  }

  lemma SameTypeIds(fa: seq<Field>, fb: seq<Field>)
    requires forall id :: id in FieldIds(fa) <==> id in FieldIds(fb)
    ensures forall id :: id in TypeIds(fa) <==> id in TypeIds(fb)
  {
    IdsOfFields(fa);
    IdsOfFields(fb);
    forall id: nat ensures id in TypeIds(fa) <==> id in TypeIds(fb) {
      if exists f :: f in fa && f.id as nat == id {
        var f :| f in fa && f.id as nat == id;
        assert f.id in FieldIds(fa);
      }
      if exists f :: f in fb && f.id as nat == id {
        var f :| f in fb && f.id as nat == id;
        assert f.id in FieldIds(fb);
      }
    }
  }

  lemma VariantCarries(a: Types, i: TypeRef, b: Types, j: TypeRef, principals: Bytes.Text -> bool, v: Value)
    requires i < |a| && j < |b| && a[i].Variant? && b[j].Variant? && v.VariantV?
    requires forall id :: id in FieldIds(a[i].fields) ==> id in FieldIds(b[j].fields)
    requires SameValues(a, b, principals, a[i].fields, b[j].fields, v.value) && Inhabits(a, principals, i, v)
    ensures Inhabits(b, principals, j, v)
  {
    var fa, fb := a[i].fields, b[j].fields;
    var k := CaseOf(a, i, principals, v);
    hide Inhabits;
    IdsOfFields(fa);
    IdsOfFields(fb);
    assert fa[k] in fa && fa[k].id in FieldIds(fb);
    var g :| g in fb && g.id == v.id;
    var m :| 0 <= m < |fb| && fb[m] == g;
    CaseTyped(b, j, principals, v, m);
  }

  lemma CaseOf(types: Types, r: TypeRef, principals: Bytes.Text -> bool, v: Value) returns (k: nat)
    requires r < |types| && types[r].Variant? && v.VariantV? && Inhabits(types, principals, r, v)
    ensures k < |types[r].fields| && types[r].fields[k].id == v.id && Inhabits(types, principals, types[r].fields[k].ty, v.value)
  {
    k :| 0 <= k < |types[r].fields| && types[r].fields[k].id == v.id && Inhabits(types, principals, types[r].fields[k].ty, v.value);
  }

  lemma CaseTyped(types: Types, r: TypeRef, principals: Bytes.Text -> bool, v: Value, k: nat)
    requires r < |types| && types[r].Variant? && v.VariantV? && k < |types[r].fields| && types[r].fields[k].id == v.id
    requires Inhabits(types, principals, types[r].fields[k].ty, v.value)
    ensures Inhabits(types, principals, r, v)
  {
  }

  lemma VecSame(a: Types, i: TypeRef, b: Types, j: TypeRef, principals: Bytes.Text -> bool, v: Value)
    requires i < |a| && j < |b| && a[i].Vec? && b[j].Vec? && v.VecV?
    requires forall k :: 0 <= k < |v.values| ==>
               (Inhabits(a, principals, a[i].inner, v.values[k]) <==> Inhabits(b, principals, b[j].inner, v.values[k]))
    ensures Inhabits(a, principals, i, v) <==> Inhabits(b, principals, j, v)
  {
    VecTyping(a, principals, i, v);
    VecTyping(b, principals, j, v);
    hide Inhabits;
  }

  lemma FlatSame(a: Types, i: TypeRef, b: Types, j: TypeRef, principals: Bytes.Text -> bool, v: Value)
    requires i < |a| && j < |b| && KindOf(a[i]) == KindOf(b[j])
    requires a[i].Opt? && v.OptV? && v.some.Some? ==>
               (Inhabits(a, principals, a[i].inner, v.some.value) <==> Inhabits(b, principals, b[j].inner, v.some.value))
    requires !(a[i].Vec? && v.VecV?) && !(a[i].Record? && v.RecordV?) && !(a[i].Variant? && v.VariantV?)
    ensures Inhabits(a, principals, i, v) <==> Inhabits(b, principals, j, v)
  {
    hide ScalarOk;
  }

  /** Bisimilar nodes have the same values. */
  lemma {:induction false} RelatedSame(a: Types, i: TypeRef, b: Types, j: TypeRef, related: set<(TypeRef, TypeRef)>,
                                       principals: Bytes.Text -> bool, v: Value)
    requires Bisimulation(a, b, related) && (i, j) in related
    ensures Inhabits(a, principals, i, v) <==> Inhabits(b, principals, j, v)
    decreases v, 0
  {
    hide Inhabits, SameValues, Matches, FieldsMatch;
    var p := (i, j);
    assert p.0 < |a| && p.1 < |b| && Matches(a[p.0], b[p.1], related);
    KindsAgree(a[i], b[j], related);
    if a[i].Vec? && v.VecV? {
      InnerAgrees(a[i], b[j], related);
      var inner := a[i].inner;
      forall k | 0 <= k < |v.values|
        ensures Inhabits(a, principals, inner, v.values[k]) <==> Inhabits(b, principals, b[j].inner, v.values[k])
      {
        RelatedSame(a, inner, b, b[j].inner, related, principals, v.values[k]);
      }
      VecSame(a, i, b, j, principals, v);
    } else if a[i].Record? && v.RecordV? {
      FieldEdges(a[i], b[j], related);
      MatchedIds(a[i].fields, b[j].fields, related);
      forall k | 0 <= k < |v.fields| ensures SameValues(a, b, principals, a[i].fields, b[j].fields, v.fields[k].value) {
        FieldsSame(a, b, related, principals, a[i].fields, b[j].fields, v.fields[k].value);
      }
      RecordSame(a, i, b, j, principals, v);
    } else if a[i].Variant? && v.VariantV? {
      FieldEdges(a[i], b[j], related);
      MatchedIds(a[i].fields, b[j].fields, related);
      FieldsSame(a, b, related, principals, a[i].fields, b[j].fields, v.value);
      Swapped(a, b, principals, a[i].fields, b[j].fields, v.value);
      if Inhabits(a, principals, i, v) { VariantCarries(a, i, b, j, principals, v); }
      if Inhabits(b, principals, j, v) { VariantCarries(b, j, a, i, principals, v); }
    } else {
      if a[i].Opt? && v.OptV? && v.some.Some? {
        InnerAgrees(a[i], b[j], related);
        RelatedSame(a, a[i].inner, b, b[j].inner, related, principals, v.some.value);
      }
      FlatSame(a, i, b, j, principals, v);
    }
  }

  lemma FieldsSame(a: Types, b: Types, related: set<(TypeRef, TypeRef)>, principals: Bytes.Text -> bool,
                   fa: seq<Field>, fb: seq<Field>, x: Value)
    requires Bisimulation(a, b, related) && FieldsMatch(fa, fb, related)
    ensures SameValues(a, b, principals, fa, fb, x)
    decreases x, 1
  {
    hide Inhabits, Bisimulation;
    forall f, g | f in fa && g in fb && f.id == g.id
      ensures Inhabits(a, principals, f.ty, x) <==> Inhabits(b, principals, g.ty, x)
    {
      RelatedSame(a, f.ty, b, g.ty, related, principals, x);
    }
  }

  lemma Swapped(a: Types, b: Types, principals: Bytes.Text -> bool, fa: seq<Field>, fb: seq<Field>, x: Value)
    requires SameValues(a, b, principals, fa, fb, x)
    ensures SameValues(b, a, principals, fb, fa, x)
  {
    hide Inhabits;
  }

  lemma KindsAgree(a: TypeNode, b: TypeNode, related: set<(TypeRef, TypeRef)>)
    requires Matches(a, b, related)
    ensures KindOf(a) == KindOf(b)
  {
  }

  lemma InnerAgrees(a: TypeNode, b: TypeNode, related: set<(TypeRef, TypeRef)>)
    requires Matches(a, b, related) && (a.Opt? || a.Vec?)
    ensures (b.Opt? || b.Vec?) && (a.inner, b.inner) in related
  {
    assert Edge(a, InnerLabel, a.inner) && Edge(b, InnerLabel, b.inner);
  }

  lemma MatchedIds(fa: seq<Field>, fb: seq<Field>, related: set<(TypeRef, TypeRef)>)
    requires FieldsMatch(fa, fb, related)
    ensures forall id :: id in FieldIds(fa) <==> id in FieldIds(fb)
  {
  }

  lemma SameMeaningSameValues(a: Types, i: TypeRef, b: Types, j: TypeRef, principals: Bytes.Text -> bool, v: Value)
    requires Bisimilar(a, i, b, j)
    ensures Inhabits(a, principals, i, v) <==> Inhabits(b, principals, j, v)
  {
    var related: set<(TypeRef, TypeRef)> :| Bisimulation(a, b, related) && (i, j) in related;
    RelatedSame(a, i, b, j, related, principals, v);
  }

  /** A value inhabits a node of a contract exactly when it inhabits the node's
      place in the canonical contract. */
  lemma CanonicalKeepsValues(c: Contract, i: TypeRef, principals: Bytes.Text -> bool, v: Value)
    requires ValidContract(c) && i < |c.types|
    ensures OldToNew(c)[i] < |CanonicalOf(c).types|
    ensures Inhabits(c.types, principals, i, v) <==> Inhabits(CanonicalOf(c).types, principals, OldToNew(c)[i], v)
  {
    hide CanonicalOf, OldToNew, Inhabits, ValidContract, Bisimilar;
    CanonicalMeansTheSame(c);
    SameMeaningSameValues(c.types, i, CanonicalOf(c).types, OldToNew(c)[i], principals, v);
  }
}
