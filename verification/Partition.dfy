/** Partition refinement: signatures become class numbers, rounds split classes
    until none splits, and the result is the greatest bisimulation. */
module Partition {
  import opened Bytes
  import opened Sorting
  import opened Wrappers
  import opened TypeGraph
  import opened Signatures
  import opened Meaning
  import opened Budgets

  // ----- class numbers -----

  /** A signature's class is its position among the sorted distinct ones. */
  function AssignIds(signatures: seq<seq<byte>>): (ids: seq<nat>)
    ensures |ids| == |signatures|
  {
    LexOrder();
    KeysAreTheMembers(LexLe, signatures);
    seq(|signatures|, i requires 0 <= i < |signatures| => IndexOf(Keys(LexLe, signatures), signatures[i]))
  }

  lemma IdsAgree(signatures: seq<seq<byte>>, i: nat, j: nat)
    requires i < |signatures| && j < |signatures|
    ensures AssignIds(signatures)[i] == AssignIds(signatures)[j] <==> signatures[i] == signatures[j]
  {
    LexOrder();
    KeysAreTheMembers(LexLe, signatures);
  }

  /** Class numbers are exactly `0 .. |keys|`. */
  lemma IdsAreDense(signatures: seq<seq<byte>>)
    ensures var ids, keys := AssignIds(signatures), Keys(LexLe, signatures);
            && |keys| <= |signatures|
            && (forall i :: 0 <= i < |ids| ==> ids[i] < |keys|)
            && forall k :: 0 <= k < |keys| ==> k in ids
  {
    LexOrder();
    KeysAreTheMembers(LexLe, signatures);
    var ids, keys := AssignIds(signatures), Keys(LexLe, signatures);
    PigeonHole(keys, signatures);
    forall k | 0 <= k < |keys| ensures k in ids {
      var i := IndexOf(signatures, keys[k]);
      IndexOfUnique(keys, k);
      assert ids[i] == k;
    }
  }

  lemma KeysGrow(signatures: seq<seq<byte>>, n: nat)
    requires n < |signatures|
    ensures Keys(LexLe, signatures[..n + 1]) == InsertKey(LexLe, Keys(LexLe, signatures[..n]), signatures[n])
  {
    assert signatures[..n + 1][..n] == signatures[..n];
  }

  lemma KeysHold(signatures: seq<seq<byte>>)
    ensures Keys(LexLe, []) == [] && NoDuplicates(Keys(LexLe, signatures))
    ensures forall x :: x in Keys(LexLe, signatures) <==> x in signatures
  {
    LexOrder();
    KeysAreTheMembers(LexLe, signatures);
  }

  /** `assign_partition_ids`: fill the map with every signature, number its
      entries in key order, then look every signature up. */
  method AssignPartitionIds(signatures: seq<seq<byte>>) returns (result: seq<nat>)
    ensures result == AssignIds(signatures)
  {
    hide Keys, InsertKey, IndexOf;
    KeysHold(signatures);
    var keys: seq<seq<byte>> := [];
    for n := 0 to |signatures|
      invariant keys == Keys(LexLe, signatures[..n])
    {
      KeysGrow(signatures, n);
      keys := InsertKey(LexLe, keys, signatures[n]);
    }
    assert signatures[..|signatures|] == signatures;
    var ids := NumberKeys(keys);
    result := [];
    for n := 0 to |signatures|
      invariant |result| == n
      invariant forall i :: 0 <= i < n ==> result[i] == IndexOf(keys, signatures[i])
    {
      assert signatures[n] in signatures;
      result := result + [ids[signatures[n]]];
    }
  }

  method NumberKeys(keys: seq<seq<byte>>) returns (ids: map<seq<byte>, nat>)
    requires NoDuplicates(keys)
    ensures forall x :: x in keys ==> x in ids && ids[x] == IndexOf(keys, x)
  {
    ids := map[];
    for index := 0 to |keys|
      invariant forall k :: 0 <= k < index ==> keys[k] in ids && ids[keys[k]] == k
    {
      ids := ids[keys[index] := index];
    }
    forall x | x in keys ensures x in ids && ids[x] == IndexOf(keys, x) {
      assert keys[IndexOf(keys, x)] == x;
    }
  }

  ghost predicate Split(previous: seq<nat>, next: seq<nat>)
    requires |previous| == |next|
  {
    exists i, j :: 0 <= i < |previous| && 0 <= j < |previous| && previous[i] == previous[j] && next[i] != next[j]
  }

  /** `partition_was_split`: whether two members of one class now differ. */
  method PartitionWasSplit(previous: seq<nat>, next: seq<nat>) returns (split: bool)
    requires |previous| == |next|
    ensures split <==> Split(previous, next)
  {
    var first: map<nat, nat> := map[];
    for n := 0 to |previous|
      invariant forall c :: c in first <==> c in previous[..n]
      invariant forall i :: 0 <= i < n ==> previous[i] in first && first[previous[i]] == next[i]
    {
      assert previous[..n + 1] == previous[..n] + [previous[n]];
      if previous[n] !in first {
        first := first[previous[n] := next[n]];
      } else if first[previous[n]] != next[n] {
        var i := IndexOf(previous[..n], previous[n]);
        assert previous[i] == previous[n] && next[i] != next[n];
        return true;
      }
    }
    return false;
  }

  // ----- rounds -----

  ghost predicate ClassesFor(types: Types, classes: seq<nat>) {
    |classes| == |types| && forall c :: c in classes ==> c < |types|
  }

  lemma NodeFacts(types: Types, i: nat)
    requires ValidArena(types) && i < |types|
    ensures ValidLocally(types[i]) && RefsBelow(types[i], |types|)
  {
    assert ValidNode(types, i);
  }

  function LocalSignatures(types: Types): (r: seq<seq<byte>>)
    requires ValidArena(types)
    ensures |r| == |types|
    ensures forall i :: 0 <= i < |types| ==> ValidLocally(types[i]) && r[i] == LocalSignature(types[i])
  {
    assert forall i :: 0 <= i < |types| ==> ValidLocally(types[i]) by {
      forall i | 0 <= i < |types| ensures ValidLocally(types[i]) { NodeFacts(types, i); }
    }
    seq(|types|, i requires 0 <= i < |types| => LocalSignature(types[i]))
  }

  lemma ClassFits(types: Types, classes: seq<nat>, i: nat)
    requires ValidArena(types) && ClassesFor(types, classes) && i < |types|
    ensures classes[i] < |types|
  {
    assert classes[i] in classes;
  }

  function RefinedSignatures(types: Types, classes: seq<nat>): (r: seq<seq<byte>>)
    requires ValidArena(types) && ClassesFor(types, classes)
    ensures |r| == |types|
    ensures forall i :: 0 <= i < |types| ==>
              ValidLocally(types[i]) && RefsBelow(types[i], |types|) && classes[i] < U32_LIMIT
              && r[i] == RefinedSignature(types[i], classes[i], classes)
  {
    assert forall i :: 0 <= i < |types| ==>
        ValidLocally(types[i]) && RefsBelow(types[i], |types|) && classes[i] < U32_LIMIT by {
      forall i | 0 <= i < |types| ensures ValidLocally(types[i]) && RefsBelow(types[i], |types|) && classes[i] < U32_LIMIT {
        NodeFacts(types, i);
        ClassFits(types, classes, i);
      }
    }
    seq(|types|, i requires 0 <= i < |types| => RefinedSignature(types[i], classes[i], classes))
  }

  /** The signatures of round `k`, round zero being the local ones. */
  ghost function RoundSignatures(types: Types, k: nat): (r: seq<seq<byte>>)
    requires ValidArena(types)
    ensures |r| == |types|
    decreases k, 0
  {
    if k == 0 then LocalSignatures(types) else RefinedSignatures(types, Round(types, k - 1))
  }

  /** The class numbers after round `k`. */
  ghost function Round(types: Types, k: nat): (classes: seq<nat>)
    requires ValidArena(types)
    ensures ClassesFor(types, classes)
    decreases k, 1
  {
    var ids := AssignIds(RoundSignatures(types, k));
    IdsAreDense(RoundSignatures(types, k));
    ids
  }

  ghost function RoundCount(types: Types, k: nat): nat
    requires ValidArena(types)
  {
    |Keys(LexLe, RoundSignatures(types, k))|
  }

  lemma RefinedAgree(types: Types, classes: seq<nat>, i: nat, j: nat)
    requires ValidArena(types) && ClassesFor(types, classes) && i < |types| && j < |types|
    ensures RefsBelow(types[i], |classes|) && RefsBelow(types[j], |classes|)
    ensures var next := AssignIds(RefinedSignatures(types, classes));
            next[i] == next[j] <==>
            && classes[i] == classes[j]
            && ShapeOf(types[i]) == ShapeOf(types[j])
            && ClassesOf(types[i], classes) == ClassesOf(types[j], classes)
  {
    NodeFacts(types, i);
    NodeFacts(types, j);
    ClassFits(types, classes, i);
    ClassFits(types, classes, j);
    IdsAgree(RefinedSignatures(types, classes), i, j);
    RefinedSignatureInjective(types[i], classes[i], classes, types[j], classes[j], classes);
  }

  ghost predicate Alike(types: Types, i: nat, j: nat, n: nat)
    requires ValidArena(types) && i < |types| && j < |types|
  { Unfold(types, i, n) == Unfold(types, j, n) }

  ghost predicate Knows(types: Types, classes: seq<nat>, n: nat)
    requires ValidArena(types) && ClassesFor(types, classes)
  {
    forall i, j :: 0 <= i < |types| && 0 <= j < |types| ==> (classes[i] == classes[j] <==> Alike(types, i, j, n))
  }

  lemma ClassesOfAgree(types: Types, classes: seq<nat>, i: nat, j: nat, n: nat)
    requires ValidArena(types) && ClassesFor(types, classes) && i < |types| && j < |types| && Knows(types, classes, n)
    ensures RefsBelow(types[i], |classes|) && RefsBelow(types[j], |classes|)
    ensures Unfold(types, i, n + 1) == Unfold(types, j, n + 1) <==>
            ShapeOf(types[i]) == ShapeOf(types[j]) && ClassesOf(types[i], classes) == ClassesOf(types[j], classes)
  {
    NodeFacts(types, i);
    NodeFacts(types, j);
    UnfoldStep(types, i, types, j, n);
    var ki, kj := SortedChildren(types[i]), SortedChildren(types[j]);
    var ci, cj := ClassesOf(types[i], classes), ClassesOf(types[j], classes);
    assert |ci| == |ki| && |cj| == |kj|;
    if |ki| == |kj| {
      forall m | 0 <= m < |ki| ensures ci[m] == cj[m] <==> Unfold(types, ki[m], n) == Unfold(types, kj[m], n) {
        assert ci[m] == classes[ki[m]] && cj[m] == classes[kj[m]];
        assert classes[ki[m]] == classes[kj[m]] <==> Alike(types, ki[m], kj[m], n);
      }
      if forall m :: 0 <= m < |ki| ==> Unfold(types, ki[m], n) == Unfold(types, kj[m], n) {
        assert ci == cj;
      }
      if ci == cj {
        forall m | 0 <= m < |ki| ensures Unfold(types, ki[m], n) == Unfold(types, kj[m], n) {
          assert ci[m] == cj[m];
        }
      }
    }
  }

  /** A refinement step learns one more level. */
  lemma RefinementKnows(types: Types, classes: seq<nat>, n: nat)
    requires ValidArena(types) && ClassesFor(types, classes) && Knows(types, classes, n)
    ensures ClassesFor(types, AssignIds(RefinedSignatures(types, classes)))
    ensures Knows(types, AssignIds(RefinedSignatures(types, classes)), n + 1)
  {
    var next := AssignIds(RefinedSignatures(types, classes));
    IdsAreDense(RefinedSignatures(types, classes));
    forall i, j | 0 <= i < |types| && 0 <= j < |types| ensures next[i] == next[j] <==> Alike(types, i, j, n + 1) {
      RefinedAgree(types, classes, i, j);
      ClassesOfAgree(types, classes, i, j, n);
      assert classes[i] == classes[j] <==> Alike(types, i, j, n);
      if Alike(types, i, j, n + 1) { UnfoldShorter(types, i, types, j, n); }
    }
  }

  lemma RoundZero(types: Types, i: nat, j: nat)
    requires ValidArena(types) && i < |types| && j < |types|
    ensures Round(types, 0)[i] == Round(types, 0)[j] <==> Unfold(types, i, 1) == Unfold(types, j, 1)
  {
    NodeFacts(types, i);
    NodeFacts(types, j);
    IdsAgree(LocalSignatures(types), i, j);
    LocalSignatureInjective(types[i], types[j]);
    ChildrenFitShape(types[i]);
    ChildrenFitShape(types[j]);
    UnfoldStep(types, i, types, j, 0);
    assert forall x :: 0 <= x < |types| ==> Unfold(types, x, 0) == Cut;
  }

  /** The class numbers of round `k` know exactly the unfoldings to depth
      `k + 1`. */
  lemma {:induction false} RoundMeaning(types: Types, k: nat)
    requires ValidArena(types)
    ensures Knows(types, Round(types, k), k + 1)
  {
    if k == 0 {
      forall i, j | 0 <= i < |types| && 0 <= j < |types|
        ensures Round(types, 0)[i] == Round(types, 0)[j] <==> Alike(types, i, j, 1)
      {
        RoundZero(types, i, j);
      }
    } else {
      RoundMeaning(types, k - 1);
      RefinementKnows(types, Round(types, k - 1), k);
      assert Round(types, k) == AssignIds(RefinedSignatures(types, Round(types, k - 1)));
    }
  }

  // ----- the loop ends, and where -----

  lemma RoundsRefine(types: Types, k: nat, i: nat, j: nat)
    requires ValidArena(types) && i < |types| && j < |types|
    requires Round(types, k + 1)[i] == Round(types, k + 1)[j]
    ensures Round(types, k)[i] == Round(types, k)[j]
  {
    RefinedAgree(types, Round(types, k), i, j);
  }

  function Picks(a: seq<seq<byte>>, b: seq<seq<byte>>, ka: seq<seq<byte>>): (r: seq<seq<byte>>)
    requires |a| == |b| && forall x :: x in ka ==> x in a
    ensures |r| == |ka| && forall k :: 0 <= k < |r| ==> ka[k] in a && r[k] == b[IndexOf(a, ka[k])]
  {
    seq(|ka|, k requires 0 <= k < |ka| => assert ka[k] in a; b[IndexOf(a, ka[k])])
  }

  ghost predicate Refines(a: seq<seq<byte>>, b: seq<seq<byte>>) {
    |a| == |b| && forall x, y :: 0 <= x < |a| && 0 <= y < |a| && b[x] == b[y] ==> a[x] == a[y]
  }

  lemma PicksDistinct(a: seq<seq<byte>>, b: seq<seq<byte>>, ka: seq<seq<byte>>, e: nat)
    requires Refines(a, b) && NoDuplicates(ka) && forall x :: x in ka ==> x in a
    requires e < |a| && b[e] != b[IndexOf(a, a[e])]
    ensures NoDuplicates(Picks(a, b, ka) + [b[e]])
    ensures forall x :: x in Picks(a, b, ka) + [b[e]] ==> x in b
  {
    var all := Picks(a, b, ka) + [b[e]];
    forall x, y | 0 <= x < y < |all| ensures all[x] != all[y] {
      var i := IndexOf(a, ka[x]);
      assert a[i] == ka[x];
      if y < |ka| {
        var j := IndexOf(a, ka[y]);
        assert a[j] == ka[y];
      } else {
        assert a[i] == a[e] || b[i] != b[e];
      }
    }
  }

  /** A split leaves strictly more distinct values than there were. */
  lemma SplitCounts(a: seq<seq<byte>>, b: seq<seq<byte>>, i: nat, j: nat)
    requires Refines(a, b) && i < |a| && j < |a| && a[i] == a[j] && b[i] != b[j]
    ensures |Keys(LexLe, a)| < |Keys(LexLe, b)|
  {
    LexOrder();
    KeysAreTheMembers(LexLe, a);
    KeysAreTheMembers(LexLe, b);
    var first := IndexOf(a, a[i]);
    var extra := if b[first] == b[i] then j else i;
    PicksDistinct(a, b, Keys(LexLe, a), extra);
    PigeonHole(Picks(a, b, Keys(LexLe, a)) + [b[extra]], Keys(LexLe, b));
  }

  lemma SignaturesRefine(types: Types, k: nat)
    requires ValidArena(types)
    ensures Refines(RoundSignatures(types, k), RoundSignatures(types, k + 1))
  {
    var a, b := RoundSignatures(types, k), RoundSignatures(types, k + 1);
    forall x, y | 0 <= x < |a| && 0 <= y < |a| && b[x] == b[y] ensures a[x] == a[y] {
      IdsAgree(a, x, y);
      IdsAgree(b, x, y);
      RoundsRefine(types, k, x, y);
    }
  }

  lemma SplitRaisesCount(types: Types, k: nat)
    requires ValidArena(types) && SplitAfter(types, k)
    ensures RoundCount(types, k) < RoundCount(types, k + 1) <= |types|
  {
    var a, b := RoundSignatures(types, k), RoundSignatures(types, k + 1);
    var i, j :| 0 <= i < |types| && 0 <= j < |types|
                && Round(types, k)[i] == Round(types, k)[j] && Round(types, k + 1)[i] != Round(types, k + 1)[j];
    SignaturesRefine(types, k);
    IdsAgree(a, i, j);
    IdsAgree(b, i, j);
    SplitCounts(a, b, i, j);
    IdsAreDense(b);
  }

  ghost predicate SplitAfter(types: Types, k: nat)
    requires ValidArena(types)
  { Split(Round(types, k), Round(types, k + 1)) }

  /** The first round from `k` on that the next round does not split. */
  ghost function StableFrom(types: Types, k: nat): nat
    requires ValidArena(types)
    decreases |types| - RoundCount(types, k)
  {
    if SplitAfter(types, k) then
      SplitRaisesCount(types, k);
      StableFrom(types, k + 1)
    else k
  }

  lemma {:induction false} StableIsFirst(types: Types, k: nat)
    requires ValidArena(types)
    ensures k <= StableFrom(types, k) && !SplitAfter(types, StableFrom(types, k))
    ensures forall m :: k <= m < StableFrom(types, k) ==> SplitAfter(types, m)
    decreases |types| - RoundCount(types, k)
  {
    hide SplitAfter, RoundCount;
    if SplitAfter(types, k) {
      SplitRaisesCount(types, k);
      StableIsFirst(types, k + 1);
    }
  }

  ghost function StableRound(types: Types): nat
    requires ValidArena(types)
  { StableFrom(types, 0) }

  /** The classes refinement answers with: the numbers of the last round, one
      past the first stable one. */
  ghost function SemanticClassesOf(types: Types): (classes: seq<nat>)
    requires ValidArena(types)
    ensures ClassesFor(types, classes)
  { Round(types, StableRound(types) + 1) }

  lemma CountStarts(types: Types)
    requires ValidArena(types) && types != []
    ensures 0 < RoundCount(types, 0)
  {
    IdsAreDense(RoundSignatures(types, 0));
    assert AssignIds(RoundSignatures(types, 0))[0] < RoundCount(types, 0);
  }

  lemma {:induction false} CountGrows(types: Types, k: nat)
    requires ValidArena(types) && types != [] && k <= StableRound(types)
    ensures k < RoundCount(types, k)
  {
    hide SplitAfter, RoundCount;
    if k == 0 {
      CountStarts(types);
    } else {
      StableIsFirst(types, 0);
      CountGrows(types, k - 1);
      SplitRaisesCount(types, k - 1);
    }
  }

  /** The fixpoint is reached before as many rounds as there are nodes. */
  lemma StableBound(types: Types)
    requires ValidArena(types)
    ensures types == [] ==> StableRound(types) == 0
    ensures types != [] ==> StableRound(types) < |types|
  {
    if types != [] {
      CountGrows(types, StableRound(types));
      IdsAreDense(RoundSignatures(types, StableRound(types)));
    }
  }

  ghost predicate Settled(types: Types, r: nat)
    requires ValidArena(types)
  {
    forall x, y :: 0 <= x < |types| && 0 <= y < |types| && Alike(types, x, y, r) ==> Alike(types, x, y, r + 1)
  }

  /** Once one more level tells no more nodes apart, no deeper level does. */
  lemma {:induction false} StableUnfolds(types: Types, r: nat, i: nat, j: nat, n: nat)
    requires ValidArena(types) && i < |types| && j < |types|
    requires Settled(types, r) && Alike(types, i, j, r)
    ensures Alike(types, i, j, r + n)
    decreases n
  {
    hide Unfold, ValidNode, SortedChildren, ShapeOf;
    if n > 0 {
      var m := r + n - 1;
      assert Alike(types, i, j, r + 1);
      UnfoldStep(types, i, types, j, r);
      forall k | 0 <= k < |SortedChildren(types[i])|
        ensures Unfold(types, SortedChildren(types[i])[k], m) == Unfold(types, SortedChildren(types[j])[k], m)
      {
        assert Alike(types, SortedChildren(types[i])[k], SortedChildren(types[j])[k], r);
        StableUnfolds(types, r, SortedChildren(types[i])[k], SortedChildren(types[j])[k], n - 1);
        assert Alike(types, SortedChildren(types[i])[k], SortedChildren(types[j])[k], m);
      }
      UnfoldStep(types, i, types, j, m);
    }
  }

  lemma {:induction false} SameUpTo(types: Types, i: nat, j: nat, r: nat, n: nat)
    requires ValidArena(types) && i < |types| && j < |types| && n <= r
    requires Unfold(types, i, r) == Unfold(types, j, r)
    ensures Unfold(types, i, n) == Unfold(types, j, n)
    decreases r - n
  {
    hide Unfold, ValidNode;
    if n < r {
      UnfoldShorter(types, i, types, j, r - 1);
      SameUpTo(types, i, j, r - 1, n);
    }
  }

  lemma UnsplitSettles(types: Types, a: seq<nat>, b: seq<nat>, n: nat)
    requires ValidArena(types) && ClassesFor(types, a) && ClassesFor(types, b)
    requires Knows(types, a, n) && Knows(types, b, n + 1) && !Split(a, b)
    ensures Settled(types, n)
  {
    forall x, y | 0 <= x < |types| && 0 <= y < |types| ensures Alike(types, x, y, n) ==> Alike(types, x, y, n + 1) {
      assert a[x] == a[y] <==> Alike(types, x, y, n);
      assert b[x] == b[y] <==> Alike(types, x, y, n + 1);
    }
  }

  lemma StableMeans(types: Types, a: seq<nat>, b: seq<nat>, r: nat, i: nat, j: nat)
    requires ValidArena(types) && ClassesFor(types, a) && ClassesFor(types, b) && i < |types| && j < |types|
    requires Knows(types, a, r) && Knows(types, b, r + 1) && !Split(a, b)
    ensures b[i] == b[j] <==> Same(types, i, types, j)
  {
    assert b[i] == b[j] <==> Alike(types, i, j, r + 1);
    if b[i] == b[j] {
      UnsplitSettles(types, a, b, r);
      UnfoldShorter(types, i, types, j, r);
      forall n: nat ensures Unfold(types, i, n) == Unfold(types, j, n) {
        StableUnfolds(types, r, i, j, n);
        SameUpTo(types, i, j, r + n, n);
      }
    }
  }

  lemma RoundFirst(types: Types)
    requires ValidArena(types)
    ensures Round(types, 0) == AssignIds(LocalSignatures(types))
  {
  }

  lemma RoundNext(types: Types, k: nat)
    requires ValidArena(types)
    ensures Round(types, k + 1) == AssignIds(RefinedSignatures(types, Round(types, k)))
    ensures SplitAfter(types, k) <==> Split(Round(types, k), Round(types, k + 1))
  {
  }

  lemma FinalRounds(types: Types)
    requires ValidArena(types)
    ensures Closed(types)
    ensures SemanticClassesOf(types) == Round(types, StableFrom(types, 0) + 1)
    ensures !SplitAfter(types, StableFrom(types, 0))
  {
    hide SplitAfter, Round, StableFrom;
    StableIsFirst(types, 0);
  }

  /** Two nodes are in one final class exactly when they mean the same. */
  lemma ClassesAreMeanings(types: Types, i: nat, j: nat)
    requires ValidArena(types) && i < |types| && j < |types|
    ensures SemanticClassesOf(types)[i] == SemanticClassesOf(types)[j] <==> Same(types, i, types, j)
  {
    hide *;
    FinalRounds(types);
    var s := StableFrom(types, 0);
    RoundMeaning(types, s);
    RoundMeaning(types, s + 1);
    RoundNext(types, s);
    StableMeans(types, Round(types, s), Round(types, s + 1), s + 1, i, j);
  }

  /** The final partition is the greatest bisimulation: two nodes share a class
      exactly when some bisimulation relates them. */
  lemma ClassesAreBisimilarity(types: Types, i: nat, j: nat)
    requires ValidArena(types) && i < |types| && j < |types|
    ensures SemanticClassesOf(types)[i] == SemanticClassesOf(types)[j] <==> Bisimilar(types, i, types, j)
  {
    ClassesAreMeanings(types, i, j);
    BisimilarIsSame(types, i, types, j);
  }

  // ----- the loop -----

  /** The work one round of signatures is charged. */
  function SignatureRoundWork(types: Types): nat {
    if types == [] then 0
    else SignatureRoundWork(types[..|types| - 1]) + NodeWork(types[|types| - 1])
  }

  function NodeWork(node: TypeNode): nat {
    match node
    case Primitive(_) => 1 + 2
    case Opt(_) => 1 + 1 + 1
    case Vec(_) => 1 + 1 + 1
    case Record(fields) => 1 + |fields| + |fields| * 4 + SortComparisonWork(|fields|)
    case Variant(fields) => 1 + |fields| + |fields| * 4 + SortComparisonWork(|fields|)
    case Func(args, results, _) => 1 + |args| + |results| + 10
    case Service(methods) => 1 + |methods| + NameBytes(methods) + SortComparisonWork(|methods|)
    case Class(init, _) => 1 + |init| + 1 + 5
  }

  function NameBytes(methods: seq<ServiceMethod>): nat {
    if methods == [] then 0
    else NameBytes(methods[..|methods| - 1]) + 4 + |methods[|methods| - 1].name|
  }

  function BitLength(n: nat): nat {
    if n == 0 then 0 else 1 + BitLength(n / 2)
  }

  function SortComparisonWork(length: nat): nat {
    if length < 2 then 0 else length * BitLength(length - 1)
  }

  const WORK := "canonicalization_work"

  /** `semantic_classes`: one charge for the local signatures and one for every
      refinement. It answers with the classes exactly when the budget covers
      all of them, and otherwise refuses at the first charge past the limit. */
  method SemanticClasses(types: Types, budget: Budget, maxWork: nat) returns (r: Result<seq<nat>, BudgetError>)
    requires ValidArena(types)
    modifies budget
    ensures r.Ok? ==> r.value == SemanticClassesOf(types)
    ensures r.Ok? <==> old(budget.Consumed(WORK)) + (StableRound(types) + 2) * SignatureRoundWork(types) <= maxWork
    ensures r.Ok? ==> budget.Consumed(WORK)
                      == old(budget.Consumed(WORK)) + (StableRound(types) + 2) * SignatureRoundWork(types)
    ensures forall other :: other != WORK ==> budget.Consumed(other) == old(budget.Consumed(other))
  {
    hide AssignIds, Round, Split, SplitAfter, StableFrom, SignatureRoundWork, ValidArena;
    var roundWork := SignatureRoundWork(types);
    RoundFirst(types);
    ghost var before := budget.Consumed(WORK);
    ghost var k := 0;
    StableIsFirst(types, 0);
    ghost var last := StableRound(types);
    WorkGrows(roundWork, 1, last + 2);
    var charged := budget.Charge(WORK, maxWork, roundWork);
    if charged.Err? { return Err(charged.error); }
    var classes := AssignPartitionIds(LocalSignatures(types));
    while true
      invariant k <= last && classes == Round(types, k)
      invariant budget.Consumed(WORK) == before + (k + 1) * roundWork
      invariant forall other :: other != WORK ==> budget.Consumed(other) == old(budget.Consumed(other))
      decreases last - k
    {
      WorkGrows(roundWork, k + 2, last + 2);
      charged := budget.Charge(WORK, maxWork, roundWork);
      if charged.Err? { return Err(charged.error); }
      var next := AssignPartitionIds(RefinedSignatures(types, classes));
      RoundNext(types, k);
      var split := PartitionWasSplit(classes, next);
      if !split { return Ok(next); }
      classes := next;
      k := k + 1;
    }
  }

  lemma WorkGrows(work: nat, m: nat, n: nat)
    requires 1 <= m <= n
    ensures m * work == (m - 1) * work + work
    ensures m * work <= n * work
  {
  }
}
