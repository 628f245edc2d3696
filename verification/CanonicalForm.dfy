/** What the canonical form is worth: it is a valid contract that means what
    its source means, equivalent contracts and only they share it, and
    canonicalizing it again changes nothing. */
module CanonicalForm {
  import opened Sorting
  import opened Wrappers
  import opened TypeGraph
  import opened Meaning
  import opened Partition
  import opened Quotient
  import opened Images
  import opened Canonical
  import opened Budgets

  // ----- both passes are images -----

  lemma MappedDeclarationMembers(ds: seq<Declaration>, to: seq<TypeRef>)
    requires forall d :: d in ds ==> d.ty < |to|
    ensures forall i :: 0 <= i < |ds| ==> ds[i].ty < |to|
    ensures forall d :: d in ds ==> Declaration(d.name, to[d.ty]) in MapDeclarations(ds, to)
    ensures forall e :: e in MapDeclarations(ds, to) ==> exists d :: d in ds && e == Declaration(d.name, to[d.ty])
  {
    forall i | 0 <= i < |ds| ensures ds[i].ty < |to| { assert ds[i] in ds; }
    var es := MapDeclarations(ds, to);
    forall d | d in ds ensures Declaration(d.name, to[d.ty]) in es {
      var i :| 0 <= i < |ds| && ds[i] == d;
      assert es[i] == Declaration(d.name, to[d.ty]);
    }
    forall e | e in es ensures exists d :: d in ds && e == Declaration(d.name, to[d.ty]) {
      var i :| 0 <= i < |es| && es[i] == e;
      assert ds[i] in ds;
    }
  }

  ghost predicate DistinctDeclared(ds: seq<Declaration>) {
    forall i, j :: 0 <= i < j < |ds| ==> ds[i].name != ds[j].name
  }

  lemma PermutedDeclarations(ds: seq<Declaration>, to: seq<TypeRef>, es: seq<Declaration>)
    requires DistinctDeclared(ds) && forall d :: d in ds ==> d.ty < |to|
    requires forall i :: 0 <= i < |ds| ==> ds[i].ty < |to|
    requires multiset(es) == multiset(MapDeclarations(ds, to))
    ensures DeclarationsImage(ds, to, es)
  {
    var ms := MapDeclarations(ds, to);
    MappedDeclarationMembers(ds, to);
    assert NoDuplicates(ms);
    CountsKeepNoDuplicates(ms, es);
    forall e ensures e in es <==> e in ms { assert e in multiset(es) <==> e in multiset(ms); }
    forall i, j | 0 <= i < j < |es| ensures es[i].name != es[j].name {
      assert es[i] in ms && es[j] in ms;
      var k :| 0 <= k < |ms| && ms[k] == es[i];
      var l :| 0 <= l < |ms| && ms[l] == es[j];
    }
  }

  lemma QuotientContract(c: Contract)
    requires ValidContract(c)
    ensures ContractImage(c, SemanticClassesOf(c.types), QuotientOf(c), FirstMembers(c.types))
    ensures ValidContract(QuotientOf(c)) && Minimal(QuotientOf(c).types)
    ensures QuotientOf(c).types == QTypes(c.types)
  {
    hide Image, ValidArena, SemanticClassesOf, QuotientTypes, Reachable;
    QuotientIsImage(c.types);
    ContractTargets(c);
    PermutedDeclarations(c.declarations, SemanticClassesOf(c.types), MapDeclarations(c.declarations, SemanticClassesOf(c.types)));
    ImageContractValid(c, SemanticClassesOf(c.types), QuotientOf(c), FirstMembers(c.types));
    ImageIsMinimal(c.types, SemanticClassesOf(c.types), QuotientOf(c).types, FirstMembers(c.types));
  }

  lemma ValidIsIndexable(c: Contract)
    requires ValidContract(c)
    ensures Indexable(c)
  {
    ContractTargets(c);
  }

  /** Old and new numbers are inverse to each other. */
  lemma NumbersInvert(c: Contract)
    requires Indexable(c)
    ensures |NewNumbers(c)| == |CanonicalOrder(c)| == |c.types|
    ensures forall i: nat :: i < |c.types| ==> NewNumbers(c)[i] < |c.types| && CanonicalOrder(c)[NewNumbers(c)[i]] == i
    ensures forall k: nat :: k < |c.types| ==> CanonicalOrder(c)[k] < |c.types| && NewNumbers(c)[CanonicalOrder(c)[k]] == k
  {
    hide Closed;
    OrderIsPermutation(c);
    OrderInRange(c);
    var order := CanonicalOrder(c);
    forall k: nat | k < |order| ensures NewNumbers(c)[order[k]] == k {
      IndexOfUnique(order, k);
    }
  }

  lemma IndexedIsImage(q: Contract)
    requires ValidContract(q) && Minimal(q.types)
    ensures Indexable(q)
    ensures Image(q.types, NewNumbers(q), IndexedTypes(q), CanonicalOrder(q))
  {
    hide NewNumbers, CanonicalOrder, RemapNode, Unfold, ValidNode;
    ValidIsIndexable(q);
    NumbersInvert(q);
    OrderInRange(q);
    var to, order := NewNumbers(q), CanonicalOrder(q);
    forall i: nat, j: nat | i < |q.types| && j < |q.types| ensures to[i] == to[j] <==> Same(q.types, i, q.types, j) {
      if to[i] == to[j] { assert order[to[i]] == i && order[to[j]] == j; }
    }
  }

  lemma IndexedContract(q: Contract)
    requires ValidContract(q) && Minimal(q.types)
    ensures Indexable(q)
    ensures ContractImage(q, NewNumbers(q), IndexedOf(q), CanonicalOrder(q))
    ensures ValidContract(IndexedOf(q)) && Minimal(IndexedOf(q).types)
  {
    hide Image, ValidArena, NewNumbers, CanonicalOrder, IndexedTypes, Reachable;
    IndexedIsImage(q);
    var to := NewNumbers(q);
    DeclarationOrder();
    SortSorts(DeclarationLe, MapDeclarations(q.declarations, to));
    PermutedDeclarations(q.declarations, to, IndexedOf(q).declarations);
    ImageContractValid(q, to, IndexedOf(q), CanonicalOrder(q));
    ImageIsMinimal(q.types, to, IndexedOf(q).types, CanonicalOrder(q));
  }

  // ----- the canonical form -----

  /** The canonical form of a valid contract. */
  ghost function CanonicalOf(c: Contract): Contract
    requires ValidContract(c)
  {
    QuotientContract(c);
    ValidIsIndexable(QuotientOf(c));
    IndexedOf(QuotientOf(c))
  }

  function Compose(first: seq<TypeRef>, second: seq<TypeRef>): (r: seq<TypeRef>)
    requires forall i :: 0 <= i < |first| ==> first[i] < |second|
    ensures |r| == |first| && forall i :: 0 <= i < |first| ==> r[i] == second[first[i]]
  { seq(|first|, i requires 0 <= i < |first| => second[first[i]]) }

  lemma ClassesNumbered(c: Contract)
    requires ValidContract(c)
    ensures Indexable(QuotientOf(c)) && |NewNumbers(QuotientOf(c))| == |QTypes(c.types)|
    ensures forall i :: 0 <= i < |c.types| ==> SemanticClassesOf(c.types)[i] < |QTypes(c.types)|
  {
    hide Reachable, Minimal, SemanticClassesOf, Image, NewNumbers;
    QuotientContract(c);
    ValidIsIndexable(QuotientOf(c));
    forall i: nat | i < |c.types| ensures SemanticClassesOf(c.types)[i] < |QTypes(c.types)| { ClassInQuotient(c.types, i); }
  }

  /** Where canonicalization sends every input node. */
  ghost function OldToNew(c: Contract): (to: seq<TypeRef>)
    requires ValidContract(c)
    ensures |to| == |c.types|
  {
    ClassesNumbered(c);
    Compose(SemanticClassesOf(c.types), NewNumbers(QuotientOf(c)))
  }

  /** `canonicalize_with_mapping_unchecked`, without the identity hashes. */
  method Canonicalize(c: Contract, budget: Budget, maxWork: nat)
    returns (r: Result<(Contract, seq<TypeRef>), BudgetError>)
    requires ValidContract(c)
    modifies budget
    ensures r.Ok? ==> r.value == (CanonicalOf(c), OldToNew(c))
    ensures r.Ok? <==> old(budget.Consumed(WORK)) + (StableRound(c.types) + 2) * SignatureRoundWork(c.types)
                       + ReindexWork(QuotientOf(c)) <= maxWork
  {
    hide ReindexWork, SignatureRoundWork, StableRound, IndexedOf, QuotientOf, NewNumbers, SemanticClassesOf, Reachable;
    ClassesNumbered(c);
    var quotient := QuotientSemanticNodes(c, budget, maxWork);
    if quotient.Err? { return Err(quotient.error); }
    var indexed := CanonicalizeIndexed(quotient.value.0, budget, maxWork);
    if indexed.Err? { return Err(indexed.error); }
    var classes, numbers := quotient.value.1, indexed.value.1;
    r := Ok((indexed.value.0, Compose(classes, numbers)));
  }

  /** The canonical form is valid and minimal, and every node goes to a node of
      the same meaning. */
  lemma CanonicalMeansTheSame(c: Contract)
    requires ValidContract(c)
    ensures ValidContract(CanonicalOf(c)) && Minimal(CanonicalOf(c).types)
    ensures forall i: nat :: i < |c.types| ==>
              OldToNew(c)[i] < |CanonicalOf(c).types| && Bisimilar(c.types, i, CanonicalOf(c).types, OldToNew(c)[i])
  {
    hide Image, Reachable, Minimal, SemanticClassesOf, QuotientOf, NewNumbers, IndexedOf, CanonicalOrder, ValidNode;
    var q, classes := QuotientOf(c), SemanticClassesOf(c.types);
    ClassesNumbered(c);
    QuotientContract(c);
    IndexedContract(q);
    var d, to := CanonicalOf(c), NewNumbers(q);
    forall i: nat | i < |c.types|
      ensures OldToNew(c)[i] < |d.types| && Bisimilar(c.types, i, d.types, OldToNew(c)[i])
    {
      ImageMeansSame(c.types, classes, q.types, FirstMembers(c.types), i);
      ImageMeansSame(q.types, to, d.types, CanonicalOrder(q), classes[i]);
      SameTransitive(d.types, to[classes[i]], q.types, classes[i], c.types, i);
      SameSymmetric(c.types, d.types);
      BisimilarIsSame(c.types, i, d.types, OldToNew(c)[i]);
    }
  }

  /** Two input nodes go to one canonical node exactly when they are bisimilar. */
  lemma MappingIsBisimilarity(c: Contract, i: nat, j: nat)
    requires ValidContract(c) && i < |c.types| && j < |c.types|
    ensures OldToNew(c)[i] == OldToNew(c)[j] <==> Bisimilar(c.types, i, c.types, j)
  {
    hide Image, Reachable, ValidNode, QuotientOf, NewNumbers, CanonicalOrder, SemanticClassesOf;
    var q, classes := QuotientOf(c), SemanticClassesOf(c.types);
    ClassesNumbered(c);
    QuotientContract(c);
    NumbersInvert(q);
    assert CanonicalOrder(q)[OldToNew(c)[i]] == classes[i] && CanonicalOrder(q)[OldToNew(c)[j]] == classes[j];
    ClassesAreBisimilarity(c.types, i, j);
  }
}
