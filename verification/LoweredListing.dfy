/** The order in which lowering lists fields and methods. */
module LoweredListing {
  import opened Bytes
  import opened Sorting
  import opened Wrappers
  import opened TypeGraph
  import opened CandidTypes
  import opened ArenaSteps
  import opened Compiling
  import opened CanonicalListing
  import opened LoweredMeaning

  lemma FieldsListed(fields: seq<Field>)
    requires DistinctIds(Sort(FieldLe, fields))
    ensures PartsAscend(Record(Sort(FieldLe, fields))) && PartsAscend(Variant(Sort(FieldLe, fields)))
  {
    FieldOrder();
    SortSorts(FieldLe, fields);
    var s := Sort(FieldLe, fields);
    hide Sort;
    forall i, j | 0 <= i < j < |s| ensures s[i].id < s[j].id { assert FieldLe(s[i], s[j]); }
  }

  lemma MethodsListed(methods: seq<ServiceMethod>)
    requires DistinctNames(Sort(MethodLe, methods))
    ensures PartsAscend(Service(Sort(MethodLe, methods)))
  {
    MethodOrder();
    SortSorts(MethodLe, methods);
    var s := Sort(MethodLe, methods);
    hide Sort;
    forall i, j | 0 <= i < j < |s|
      ensures s[i].id < s[j].id || (s[i].id == s[j].id && Before(s[i].name, s[j].name))
    {
      assert MethodLe(s[i], s[j]);
      LexIsBefore(s[i].name, s[j].name);
    }
  }

  /** A node of a valid lowered contract lists its fields by identifier and its
      methods by identifier and then name. */
  lemma NodeListed(env: Environment, a: Arena, types: Types, r: nat)
    requires Finished(env, a, types) && r < |types| && ValidLocally(types[r])
    ensures PartsAscend(types[r])
  {
    assert a.nodes[r] == Some(types[r]);
    assert FilledAt(env, a, r);
    var t, refs := a.owner[r], a.refs[r];
    hide Consistent, Filled, Finished, FilledAt, PartsOk, PartsAscend, Sort;
    if t.RecordT? || t.VariantT? {
      PartsCount(env, a, Parts(t), refs);
      FieldsListed(LoweredFields(t.fields, refs));
    } else if t.ServiceT? {
      PartsCount(env, a, Parts(t), refs);
      MethodsListed(LoweredMethods(t.methods, refs));
    } else {
      NothingListed(types[r]);
    }
  }

  lemma NothingListed(node: TypeNode)
    requires !node.Record? && !node.Variant? && !node.Service?
    ensures PartsAscend(node)
  {
  }

  lemma LoweredAscends(env: Environment, names: seq<Bytes.Text>, ty: Option<Type>, a: Arena, c: Contract)
    requires LoweredFrom(env, names, ty, a, c) && ValidContract(c)
    ensures forall r :: 0 <= r < |c.types| ==> PartsAscend(c.types[r])
    ensures forall i :: 0 <= i < |names| ==> i < |c.declarations| && c.declarations[i].name == names[i]
  {
    hide Finished, PartsAscend, Reachable, ActorOf;
    forall r | 0 <= r < |c.types| ensures PartsAscend(c.types[r]) {
      assert ValidNode(c.types, r);
      NodeListed(env, a, c.types, r);
    }
  }
}
