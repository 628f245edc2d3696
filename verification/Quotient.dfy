/** Collapsing every class of bisimilar nodes into one node. The quotient has
    the meaning of the arena it came from, no two of its nodes mean the same,
    and it depends only on what the arena means. */
module Quotient {
  import opened Bytes
  import opened Sorting
  import opened Wrappers
  import opened TypeGraph
  import opened Signatures
  import opened Meaning
  import opened Partition
  import opened Budgets
  import opened Images

  // ----- class numbers carry across arenas -----

  /** Every node of one arena has a node of the same meaning in the other. */
  ghost predicate Covered(a: Types, b: Types)
    requires ValidArena(a) && ValidArena(b)
  {
    forall i :: 0 <= i < |a| ==> HasTwin(a, i, b)
  }

  ghost predicate HasTwin(a: Types, i: TypeRef, b: Types)
    requires Closed(a) && Closed(b) && i < |a|
  {
    exists j: nat :: j < |b| && Same(a, i, b, j)
  }

  ghost predicate Agree(a: Types, ca: seq<nat>, b: Types, cb: seq<nat>)
    requires ValidArena(a) && ValidArena(b) && ClassesFor(a, ca) && ClassesFor(b, cb)
  {
    forall i, j :: 0 <= i < |a| && 0 <= j < |b| && Same(a, i, b, j) ==> ca[i] == cb[j]
  }

  lemma SameIds(sa: seq<seq<byte>>, sb: seq<seq<byte>>, i: nat, j: nat)
    requires forall x :: x in sa <==> x in sb
    requires i < |sa| && j < |sb| && sa[i] == sb[j]
    ensures AssignIds(sa)[i] == AssignIds(sb)[j]
  {
    LexOrder();
    KeysOfSameMembers(LexLe, sa, sb);
  }

  lemma LocalSame(a: Types, b: Types, i: nat, j: nat)
    requires ValidArena(a) && ValidArena(b) && i < |a| && j < |b| && Same(a, i, b, j)
    ensures LocalSignatures(a)[i] == LocalSignatures(b)[j]
  {
    SameStep(a, i, b, j);
    NodeFacts(a, i);
    NodeFacts(b, j);
    LocalSignatureInjective(a[i], b[j]);
  }

  lemma RefinedSame(a: Types, ca: seq<nat>, b: Types, cb: seq<nat>, i: nat, j: nat)
    requires ValidArena(a) && ValidArena(b) && ClassesFor(a, ca) && ClassesFor(b, cb) && Agree(a, ca, b, cb)
    requires i < |a| && j < |b| && Same(a, i, b, j)
    ensures RefinedSignatures(a, ca)[i] == RefinedSignatures(b, cb)[j]
  {
    SameStep(a, i, b, j);
    NodeFacts(a, i);
    NodeFacts(b, j);
    ClassFits(a, ca, i);
    ClassFits(b, cb, j);
    var ka, kb := ClassesOf(a[i], ca), ClassesOf(b[j], cb);
    forall k | 0 <= k < |ka| ensures ka[k] == kb[k] {
      assert Same(a, SortedChildren(a[i])[k], b, SortedChildren(b[j])[k]);
    }
    RefinedSignatureInjective(a[i], ca[i], ca, b[j], cb[j], cb);
  }

  ghost predicate Carries(a: Types, sa: seq<seq<byte>>, b: Types, sb: seq<seq<byte>>)
    requires ValidArena(a) && ValidArena(b) && |sa| == |a| && |sb| == |b|
  {
    forall i, j :: 0 <= i < |a| && 0 <= j < |b| && Same(a, i, b, j) ==> sa[i] == sb[j]
  }

  lemma LocalCarries(a: Types, b: Types)
    requires ValidArena(a) && ValidArena(b)
    ensures Carries(a, LocalSignatures(a), b, LocalSignatures(b))
  {
    forall i, j | 0 <= i < |a| && 0 <= j < |b| && Same(a, i, b, j) ensures LocalSignatures(a)[i] == LocalSignatures(b)[j] {
      LocalSame(a, b, i, j);
    }
  }

  lemma RefinedCarries(a: Types, ca: seq<nat>, b: Types, cb: seq<nat>)
    requires ValidArena(a) && ValidArena(b) && ClassesFor(a, ca) && ClassesFor(b, cb) && Agree(a, ca, b, cb)
    ensures Carries(a, RefinedSignatures(a, ca), b, RefinedSignatures(b, cb))
  {
    forall i, j | 0 <= i < |a| && 0 <= j < |b| && Same(a, i, b, j)
      ensures RefinedSignatures(a, ca)[i] == RefinedSignatures(b, cb)[j]
    {
      RefinedSame(a, ca, b, cb, i, j);
    }
  }

  lemma CarriedMembers(a: Types, sa: seq<seq<byte>>, b: Types, sb: seq<seq<byte>>)
    requires ValidArena(a) && ValidArena(b) && |sa| == |a| && |sb| == |b|
    requires Covered(a, b) && Carries(a, sa, b, sb)
    ensures forall x :: x in sa ==> x in sb
  {
    forall x | x in sa ensures x in sb {
      var i :| 0 <= i < |sa| && sa[i] == x;
      assert HasTwin(a, i, b);
      var j: nat :| j < |b| && Same(a, i, b, j);
      assert sa[i] == sb[j];
    }
  }

  lemma CarriedIds(a: Types, sa: seq<seq<byte>>, b: Types, sb: seq<seq<byte>>)
    requires ValidArena(a) && ValidArena(b) && |sa| == |a| && |sb| == |b|
    requires Covered(a, b) && Covered(b, a) && Carries(a, sa, b, sb)
    ensures forall i, j :: 0 <= i < |a| && 0 <= j < |b| && Same(a, i, b, j) ==> AssignIds(sa)[i] == AssignIds(sb)[j]
  {
    CarriedMembers(a, sa, b, sb);
    SameSymmetric(a, b);
    CarriedMembers(b, sb, a, sa);
    forall i, j | 0 <= i < |a| && 0 <= j < |b| && Same(a, i, b, j) ensures AssignIds(sa)[i] == AssignIds(sb)[j] {
      SameIds(sa, sb, i, j);
    }
  }

  /** Round by round, nodes of the same meaning have the same class number in
      both arenas. */
  lemma {:induction false} RoundsAgree(a: Types, b: Types, k: nat)
    requires ValidArena(a) && ValidArena(b) && Covered(a, b) && Covered(b, a)
    ensures Agree(a, Round(a, k), b, Round(b, k))
  {
    hide Covered, AssignIds;
    if k == 0 {
      LocalCarries(a, b);
      CarriedIds(a, LocalSignatures(a), b, LocalSignatures(b));
      RoundFirst(a);
      RoundFirst(b);
    } else {
      RoundsAgree(a, b, k - 1);
      var ca, cb := Round(a, k - 1), Round(b, k - 1);
      RefinedCarries(a, ca, b, cb);
      CarriedIds(a, RefinedSignatures(a, ca), b, RefinedSignatures(b, cb));
      RoundNext(a, k - 1);
      RoundNext(b, k - 1);
    }
  }

  lemma SplitsCarry(a: Types, ca: seq<nat>, na: seq<nat>, b: Types, cb: seq<nat>, nb: seq<nat>)
    requires ValidArena(a) && ValidArena(b) && Covered(a, b)
    requires ClassesFor(a, ca) && ClassesFor(b, cb) && Agree(a, ca, b, cb)
    requires ClassesFor(a, na) && ClassesFor(b, nb) && Agree(a, na, b, nb)
    requires Split(ca, na)
    ensures Split(cb, nb)
  {
    var i, j :| 0 <= i < |ca| && 0 <= j < |ca| && ca[i] == ca[j] && na[i] != na[j];
    assert HasTwin(a, i, b) && HasTwin(a, j, b);
    var x: nat :| x < |b| && Same(a, i, b, x);
    var y: nat :| y < |b| && Same(a, j, b, y);
    assert cb[x] == cb[y] && nb[x] != nb[y];
  }

  lemma SplitsAgree(a: Types, b: Types, k: nat)
    requires ValidArena(a) && ValidArena(b) && Covered(a, b) && Covered(b, a) && SplitAfter(a, k)
    ensures SplitAfter(b, k)
  {
    RoundsAgree(a, b, k);
    RoundsAgree(a, b, k + 1);
    RoundNext(a, k);
    RoundNext(b, k);
    hide Covered, Agree, Round, Split, SplitAfter;
    SplitsCarry(a, Round(a, k), Round(a, k + 1), b, Round(b, k), Round(b, k + 1));
  }

  lemma StableAgree(a: Types, b: Types)
    requires ValidArena(a) && ValidArena(b) && Covered(a, b) && Covered(b, a)
    ensures StableRound(a) == StableRound(b)
  {
    hide Covered, SplitAfter, StableFrom;
    StableIsFirst(a, 0);
    StableIsFirst(b, 0);
    var s, t := StableRound(a), StableRound(b);
    if s < t { SplitsAgree(b, a, s); }
    if t < s { SplitsAgree(a, b, t); }
  }

  /** Nodes of the same meaning in two mutually covering arenas get the same
      final class number. */
  lemma ClassesCarry(a: Types, b: Types)
    requires ValidArena(a) && ValidArena(b) && Covered(a, b) && Covered(b, a)
    ensures Agree(a, SemanticClassesOf(a), b, SemanticClassesOf(b))
  {
    hide Covered, Agree, Round, StableFrom;
    StableAgree(a, b);
    RoundsAgree(a, b, StableRound(a) + 1);
  }

  // ----- the quotient arena -----

  /** One past the largest class number. */
  function ClassCount(classes: seq<nat>): (r: nat)
    ensures forall c :: c in classes ==> c < r
    ensures classes != [] ==> r > 0 && r - 1 in classes
    ensures classes == [] ==> r == 0
  {
    if classes == [] then 0
    else
      var rest, last := ClassCount(classes[..|classes| - 1]), classes[|classes| - 1];
      assert classes == classes[..|classes| - 1] + [last];
      if last < rest then rest else last + 1
  }

  ghost predicate Dense(classes: seq<nat>) {
    forall k: nat :: k < ClassCount(classes) ==> k in classes
  }

  /** Numbers that fill a range below the count of something are dense. */
  lemma FilledIsDense(classes: seq<nat>, bound: nat)
    requires forall i :: 0 <= i < |classes| ==> classes[i] < bound
    requires forall k :: 0 <= k < bound ==> k in classes
    ensures Dense(classes) && ClassCount(classes) <= bound
  {
    if classes != [] { assert ClassCount(classes) - 1 in classes; }
  }

  /** What the last round numbers. */
  ghost function FinalSignatures(types: Types): (r: seq<seq<byte>>)
    requires ValidArena(types)
    ensures |r| == |types|
  { RefinedSignatures(types, Round(types, StableRound(types))) }

  lemma FinalIds(types: Types)
    requires ValidArena(types)
    ensures SemanticClassesOf(types) == AssignIds(FinalSignatures(types))
  {
    hide Round, RefinedSignatures, StableRound, AssignIds, ValidArena;
    RoundNext(types, StableRound(types));
  }

  lemma FinalClassesDense(types: Types)
    requires ValidArena(types)
    ensures Dense(SemanticClassesOf(types)) && ClassCount(SemanticClassesOf(types)) <= |types|
  {
    hide SemanticClassesOf, FinalSignatures, AssignIds, Keys, Dense, ClassCount, ValidArena;
    FinalIds(types);
    IdsAreDense(FinalSignatures(types));
    FilledIsDense(AssignIds(FinalSignatures(types)), |Keys(LexLe, FinalSignatures(types))|);
  }

  function QuotientTypes(types: Types, classes: seq<nat>): (r: Types)
    requires Closed(types) && |classes| == |types| && Dense(classes)
    ensures |r| == ClassCount(classes)
    ensures forall k: nat :: k < |r| ==>
              k in classes && RefsBelow(types[IndexOf(classes, k)], |classes|)
              && r[k] == RemapNode(types[IndexOf(classes, k)], classes)
  {
    seq(ClassCount(classes), (k: nat) requires k < ClassCount(classes) =>
      assert k in classes; RemapNode(types[IndexOf(classes, k)], classes))
  }

  ghost predicate TargetsBelow(declarations: seq<Declaration>, actor: Option<Actor>, bound: nat) {
    && (forall i :: 0 <= i < |declarations| ==> declarations[i].ty < bound)
    && (actor.Some? ==> actor.value.target < bound)
  }

  function MapDeclarations(declarations: seq<Declaration>, to: seq<TypeRef>): (r: seq<Declaration>)
    requires forall i :: 0 <= i < |declarations| ==> declarations[i].ty < |to|
    ensures |r| == |declarations|
    ensures forall i :: 0 <= i < |r| ==> r[i] == Declaration(declarations[i].name, to[declarations[i].ty])
  {
    seq(|declarations|, i requires 0 <= i < |declarations| => Declaration(declarations[i].name, to[declarations[i].ty]))
  }

  function MapActor(actor: Option<Actor>, to: seq<TypeRef>): Option<Actor>
    requires actor.Some? ==> actor.value.target < |to|
  {
    match actor
    case None => None
    case Some(ServiceActor(t)) => Some(ServiceActor(to[t]))
    case Some(ClassActor(t)) => Some(ClassActor(to[t]))
  }

  lemma ContractTargets(c: Contract)
    requires ValidContract(c)
    ensures TargetsBelow(c.declarations, c.actor, |c.types|)
  {
    forall i | 0 <= i < |c.declarations| ensures c.declarations[i].ty < |c.types| {
      assert c.declarations[i] in c.declarations;
    }
  }

  ghost function QuotientOf(c: Contract): (q: Contract)
    requires ValidContract(c)
  {
    var classes := SemanticClassesOf(c.types);
    FinalClassesDense(c.types);
    ContractTargets(c);
    Contract(QuotientTypes(c.types, classes), MapDeclarations(c.declarations, classes), MapActor(c.actor, classes))
  }

  /** `quotient_semantic_nodes`: classes, the first member of each class as its
      representative, and everything rewritten to class numbers. */
  method QuotientSemanticNodes(c: Contract, budget: Budget, maxWork: nat)
    returns (r: Result<(Contract, seq<TypeRef>), BudgetError>)
    requires ValidContract(c)
    modifies budget
    ensures r.Ok? ==> r.value == (QuotientOf(c), SemanticClassesOf(c.types))
    ensures r.Ok? <==> old(budget.Consumed(WORK)) + (StableRound(c.types) + 2) * SignatureRoundWork(c.types) <= maxWork
    ensures r.Ok? ==> budget.Consumed(WORK)
                      == old(budget.Consumed(WORK)) + (StableRound(c.types) + 2) * SignatureRoundWork(c.types)
    ensures forall other :: other != WORK ==> budget.Consumed(other) == old(budget.Consumed(other))
  {
    hide SemanticClassesOf, ValidNode, RemapNode, SignatureRoundWork, StableRound;
    var result := SemanticClasses(c.types, budget, maxWork);
    if result.Err? { return Err(result.error); }
    var classes := result.value;
    FinalClassesDense(c.types);
    ContractTargets(c);
    var representatives := Representatives(classes);
    var types := RewrittenNodes(c.types, classes, representatives);
    r := Ok((Contract(types, MapDeclarations(c.declarations, classes), MapActor(c.actor, classes)), classes));
  }

  /** The representatives, with every reference replaced by its class. */
  method RewrittenNodes(types: Types, classes: seq<nat>, representatives: seq<nat>) returns (r: Types)
    requires Closed(types) && |classes| == |types| && Dense(classes) && |representatives| == ClassCount(classes)
    requires forall k: nat :: k < |representatives| ==> k in classes && representatives[k] == IndexOf(classes, k)
    ensures r == QuotientTypes(types, classes)
  {
    hide RemapNode, Dense, ClassCount;
    r := [];
    for k := 0 to |representatives|
      invariant |r| == k
      invariant forall i :: 0 <= i < k ==> r[i] == QuotientTypes(types, classes)[i]
    {
      r := r + [RemapNode(types[representatives[k]], classes)];
    }
    assert r == QuotientTypes(types, classes);
  }

  /** The first member of every class. */
  method Representatives(classes: seq<nat>) returns (result: seq<nat>)
    requires Dense(classes)
    ensures |result| == ClassCount(classes)
    ensures forall k: nat :: k < |result| ==> k in classes && result[k] == IndexOf(classes, k)
  {
    var found: seq<Option<nat>> := seq(ClassCount(classes), _ => None);
    for index := 0 to |classes|
      invariant |found| == ClassCount(classes)
      invariant forall k: nat :: k < |found| ==> (found[k].Some? <==> k in classes[..index])
      invariant forall k: nat :: k < |found| && found[k].Some? ==> found[k].value == IndexOf(classes[..index], k)
    {
      ghost var before := classes[..index];
      assert classes[..index + 1] == before + [classes[index]];
      assert classes[index] in classes;
      if found[classes[index]].None? {
        FirstIsNew(before, classes[index]);
        found := found[classes[index] := Some(index)];
      }
      forall k: nat | k < |found| && found[k].Some? ensures found[k].value == IndexOf(classes[..index + 1], k) {
        if k in before { FirstStays(before, classes[index], k); }
      }
    }
    assert classes[..|classes|] == classes;
    result := seq(|found|, k requires 0 <= k < |found| && found[k].Some? => found[k].value);
  }

  lemma {:induction false} FirstStays(s: seq<nat>, x: nat, k: nat)
    requires k in s
    ensures IndexOf(s + [x], k) == IndexOf(s, k)
  {
    if s[0] != k {
      assert (s + [x])[1..] == s[1..] + [x];
      FirstStays(s[1..], x, k);
    }
  }

  lemma {:induction false} FirstIsNew(s: seq<nat>, x: nat)
    requires x !in s
    ensures IndexOf(s + [x], x) == |s|
  {
    if s != [] {
      assert (s + [x])[1..] == s[1..] + [x];
      FirstIsNew(s[1..], x);
    }
  }

  // ----- what the quotient means -----

  ghost function QTypes(types: Types): (q: Types)
    requires ValidArena(types)
    ensures |q| == ClassCount(SemanticClassesOf(types)) <= |types|
  {
    FinalClassesDense(types);
    QuotientTypes(types, SemanticClassesOf(types))
  }

  ghost function FirstMembers(types: Types): (r: seq<TypeRef>)
    requires ValidArena(types)
    ensures |r| == |QTypes(types)|
    ensures forall k: nat :: k < |r| ==> k in SemanticClassesOf(types) && r[k] == IndexOf(SemanticClassesOf(types), k)
  {
    FinalClassesDense(types);
    var classes := SemanticClassesOf(types);
    seq(ClassCount(classes), (k: nat) requires k < ClassCount(classes) => assert k in classes; IndexOf(classes, k))
  }

  lemma ClassInQuotient(types: Types, i: nat)
    requires ValidArena(types) && i < |types|
    ensures SemanticClassesOf(types)[i] < |QTypes(types)|
  {
    assert SemanticClassesOf(types)[i] in SemanticClassesOf(types);
  }

  /** The quotient is the image of the arena under the class numbers. */
  lemma QuotientIsImage(types: Types)
    requires ValidArena(types)
    ensures Image(types, SemanticClassesOf(types), QTypes(types), FirstMembers(types))
  {
    hide SemanticClassesOf, ValidNode, RemapNode, QTypes;
    var classes := SemanticClassesOf(types);
    forall i: nat | i < |types| ensures classes[i] < |QTypes(types)| { ClassInQuotient(types, i); }
    forall i: nat, j: nat | i < |types| && j < |types| ensures classes[i] == classes[j] <==> Same(types, i, types, j) {
      ClassesAreMeanings(types, i, j);
    }
    forall k: nat | k < |QTypes(types)|
      ensures FirstMembers(types)[k] < |types| && classes[FirstMembers(types)[k]] == k
      ensures RefsBelow(types[FirstMembers(types)[k]], |classes|)
      ensures QTypes(types)[k] == RemapNode(types[FirstMembers(types)[k]], classes)
    {
      QuotientNodeIs(types, k);
    }
  }

  lemma QuotientNodeIs(types: Types, k: nat)
    requires ValidArena(types) && k < |QTypes(types)|
    ensures var classes := SemanticClassesOf(types);
            && k in classes
            && RefsBelow(types[IndexOf(classes, k)], |classes|)
            && QTypes(types)[k] == RemapNode(types[IndexOf(classes, k)], classes)
  {
    FinalClassesDense(types);
  }
}
