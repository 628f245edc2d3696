/** Sorting by a total order, and the sorted distinct keys of an ordered map.
    A total order decides every tie, so the sorted rearrangement is unique and
    the algorithm behind a library sort does not matter. */
module Sorting {

  ghost predicate TotalOrder<T(!new)>(le: (T, T) -> bool) {
    && (forall a, b :: le(a, b) || le(b, a))
    && (forall a, b :: le(a, b) && le(b, a) ==> a == b)
    && (forall a, b, c :: le(a, b) && le(b, c) ==> le(a, c))
  }

  ghost predicate Sorted<T(!new)>(le: (T, T) -> bool, s: seq<T>) {
    forall i, j :: 0 <= i < j < |s| ==> le(s[i], s[j])
  }

  ghost predicate NoDuplicates<T(!new)>(s: seq<T>) {
    forall i, j :: 0 <= i < j < |s| ==> s[i] != s[j]
  }

  function Insert<T>(le: (T, T) -> bool, x: T, s: seq<T>): seq<T> {
    if s == [] || le(x, s[0]) then [x] + s else [s[0]] + Insert(le, x, s[1..])
  }

  function Sort<T>(le: (T, T) -> bool, s: seq<T>): seq<T> {
    if s == [] then [] else Insert(le, s[0], Sort(le, s[1..]))
  }

  lemma {:induction false} InsertMultiset<T>(le: (T, T) -> bool, x: T, s: seq<T>)
    ensures multiset(Insert(le, x, s)) == multiset{x} + multiset(s)
  {
    if s == [] || le(x, s[0]) {
    } else {
      InsertMultiset(le, x, s[1..]);
      assert s == [s[0]] + s[1..];
    }
  }

  lemma {:induction false} InsertSorted<T(!new)>(le: (T, T) -> bool, x: T, s: seq<T>)
    requires TotalOrder(le) && Sorted(le, s)
    ensures Sorted(le, Insert(le, x, s))
  {
    if s == [] || le(x, s[0]) {
    } else {
      InsertSorted(le, x, s[1..]);
      InsertMultiset(le, x, s[1..]);
      var r := Insert(le, x, s[1..]);
      forall j | 0 <= j < |r| ensures le(s[0], r[j]) {
        assert r[j] in multiset(r);
        if r[j] != x { assert r[j] in s[1..]; }
      }
    }
  }

  /** Sorting permutes its input and puts it in order. */
  lemma {:induction false} SortSorts<T(!new)>(le: (T, T) -> bool, s: seq<T>)
    requires TotalOrder(le)
    ensures Sorted(le, Sort(le, s)) && multiset(Sort(le, s)) == multiset(s) && |Sort(le, s)| == |s|
  {
    hide Insert, Sorted, TotalOrder;
    if s == [] {
      NothingSorted(le);
    } else {
      SortSorts(le, s[1..]);
      InsertSorted(le, s[0], Sort(le, s[1..]));
      InsertMultiset(le, s[0], Sort(le, s[1..]));
      assert s == [s[0]] + s[1..];
    }
    SameLength(Sort(le, s), s);
  }

  lemma NothingSorted<T(!new)>(le: (T, T) -> bool)
    ensures Sorted(le, [])
  {
  }

  lemma SameLength<T>(a: seq<T>, b: seq<T>)
    requires multiset(a) == multiset(b)
    ensures |a| == |b|
  {
    assert |multiset(a)| == |a| && |multiset(b)| == |b|;
  }

  /** The sorted rearrangement of a multiset is unique. */
  lemma {:induction false} SortedUnique<T(!new)>(le: (T, T) -> bool, a: seq<T>, b: seq<T>)
    requires TotalOrder(le) && Sorted(le, a) && Sorted(le, b)
    requires multiset(a) == multiset(b)
    ensures a == b
  {
    SameLength(a, b);
    if a != [] {
      LeastFirst(le, a, b);
      LeastFirst(le, b, a);
      hide Sorted;
      WithoutFirst(a, b);
      assert a == [a[0]] + a[1..] && b == [b[0]] + b[1..];
      SortedUnique(le, a[1..], b[1..]);
    }
  }

  lemma LeastFirst<T(!new)>(le: (T, T) -> bool, a: seq<T>, b: seq<T>)
    requires TotalOrder(le) && Sorted(le, a) && multiset(a) == multiset(b) && a != [] && b != []
    ensures le(a[0], b[0]) && Sorted(le, a[1..])
  {
    assert b[0] in multiset(a);
    var i :| 0 <= i < |a| && a[i] == b[0];
    assert i == 0 || le(a[0], a[i]);
  }

  lemma WithoutFirst<T>(a: seq<T>, b: seq<T>)
    requires multiset(a) == multiset(b) && a != [] && b != [] && a[0] == b[0]
    ensures multiset(a[1..]) == multiset(b[1..])
  {
    assert a == [a[0]] + a[1..] && b == [b[0]] + b[1..];
    assert multiset(a[1..]) == multiset(a) - multiset{a[0]};
    assert multiset(b[1..]) == multiset(b) - multiset{b[0]};
  }

  lemma SortOfPermutation<T(!new)>(le: (T, T) -> bool, a: seq<T>, b: seq<T>)
    requires TotalOrder(le) && multiset(a) == multiset(b)
    ensures Sort(le, a) == Sort(le, b)
  {
    SortSorts(le, a);
    SortSorts(le, b);
    SortedUnique(le, Sort(le, a), Sort(le, b));
  }

  lemma {:induction false} SameMembersSameMultiset<T(!new)>(a: seq<T>, b: seq<T>)
    requires NoDuplicates(a) && NoDuplicates(b)
    requires forall x :: x in a <==> x in b
    ensures multiset(a) == multiset(b)
  {
    forall x ensures multiset(a)[x] == multiset(b)[x] {
      CountOnce(a, x);
      CountOnce(b, x);
    }
  }

  lemma {:induction false} CountOnce<T(!new)>(s: seq<T>, x: T)
    requires NoDuplicates(s)
    ensures multiset(s)[x] == if x in s then 1 else 0
  {
    if s != [] {
      assert s == [s[0]] + s[1..];
      CountOnce(s[1..], x);
      if x == s[0] { assert x !in s[1..]; }
    }
  }

  lemma {:induction false} CountsKeepNoDuplicates<T(!new)>(a: seq<T>, b: seq<T>)
    requires multiset(a) == multiset(b) && NoDuplicates(a)
    ensures NoDuplicates(b)
  {
    forall i, j | 0 <= i < j < |b| ensures b[i] != b[j] {
      CountOnce(a, b[i]);
      assert b == b[..j] + [b[j]] + b[j + 1..];
      assert b[i] == b[..j][i];
      assert multiset(b)[b[i]] == multiset(b[..j])[b[i]] + multiset{b[j]}[b[i]] + multiset(b[j + 1..])[b[i]];
    }
  }

  /** Adding a key to the keys of an ordered map. */
  function InsertKey<T(==)>(le: (T, T) -> bool, keys: seq<T>, x: T): seq<T> {
    if keys == [] then [x]
    else if keys[0] == x then keys
    else if le(x, keys[0]) then [x] + keys
    else [keys[0]] + InsertKey(le, keys[1..], x)
  }

  /** The keys, in order, of an ordered map holding every element of `s`. */
  function Keys<T(==)>(le: (T, T) -> bool, s: seq<T>): seq<T> {
    if s == [] then [] else InsertKey(le, Keys(le, s[..|s| - 1]), s[|s| - 1])
  }

  lemma KeyBefore<T(!new)>(le: (T, T) -> bool, keys: seq<T>, x: T)
    requires TotalOrder(le) && Sorted(le, keys) && NoDuplicates(keys)
    requires keys != [] && x != keys[0] && le(x, keys[0])
    ensures Sorted(le, [x] + keys) && NoDuplicates([x] + keys)
    ensures forall y :: y in [x] + keys <==> y in keys || y == x
  {
    forall i | 0 <= i < |keys| ensures le(x, keys[i]) && x != keys[i] {
      assert i == 0 || le(keys[0], keys[i]);
    }
  }

  lemma KeyInFront<T(!new)>(le: (T, T) -> bool, x: T, keys: seq<T>)
    requires Sorted(le, keys) && NoDuplicates(keys) && forall y :: y in keys ==> le(x, y) && y != x
    ensures Sorted(le, [x] + keys) && NoDuplicates([x] + keys)
    ensures forall y :: y in [x] + keys <==> y == x || y in keys
  {
    assert forall i :: 0 <= i < |keys| ==> keys[i] in keys;
  }

  lemma SplitKeys<T(!new)>(le: (T, T) -> bool, keys: seq<T>)
    requires Sorted(le, keys) && NoDuplicates(keys) && keys != []
    ensures Sorted(le, keys[1..]) && NoDuplicates(keys[1..])
    ensures forall y :: y in keys <==> y == keys[0] || y in keys[1..]
    ensures forall y :: y in keys[1..] ==> le(keys[0], y) && y != keys[0]
  {
    forall y | y in keys[1..] ensures le(keys[0], y) && y != keys[0] {
      var i :| 0 <= i < |keys[1..]| && keys[1..][i] == y;
      assert keys[i + 1] == y;
    }
    assert keys == [keys[0]] + keys[1..];
  }

  lemma {:induction false} InsertKeyKeeps<T(!new)>(le: (T, T) -> bool, keys: seq<T>, x: T)
    requires TotalOrder(le) && Sorted(le, keys) && NoDuplicates(keys)
    ensures var r := InsertKey(le, keys, x);
            Sorted(le, r) && NoDuplicates(r) && forall y :: y in r <==> y in keys || y == x
  {
    if keys == [] || keys[0] == x {
    } else if le(x, keys[0]) {
      KeyBefore(le, keys, x);
    } else {
      SplitKeys(le, keys);
      InsertKeyKeeps(le, keys[1..], x);
      assert le(keys[0], x);
      hide Sorted, NoDuplicates;
      KeyInFront(le, keys[0], InsertKey(le, keys[1..], x));
    }
  }

  lemma {:induction false} KeysAreTheMembers<T(!new)>(le: (T, T) -> bool, s: seq<T>)
    requires TotalOrder(le)
    ensures var k := Keys(le, s); Sorted(le, k) && NoDuplicates(k) && forall x :: x in k <==> x in s
  {
    if s != [] {
      KeysAreTheMembers(le, s[..|s| - 1]);
      InsertKeyKeeps(le, Keys(le, s[..|s| - 1]), s[|s| - 1]);
      assert s == s[..|s| - 1] + [s[|s| - 1]];
    }
  }

  /** The ordered keys depend only on which elements occur. */
  lemma KeysOfSameMembers<T(!new)>(le: (T, T) -> bool, a: seq<T>, b: seq<T>)
    requires TotalOrder(le) && forall x :: x in a <==> x in b
    ensures Keys(le, a) == Keys(le, b)
  {
    KeysAreTheMembers(le, a);
    KeysAreTheMembers(le, b);
    SameMembersSameMultiset(Keys(le, a), Keys(le, b));
    SortedUnique(le, Keys(le, a), Keys(le, b));
  }

  /** The position of a key. */
  function IndexOf<T(==)>(s: seq<T>, x: T): (r: nat)
    requires x in s
    ensures r < |s| && s[r] == x
  {
    if s[0] == x then 0 else 1 + IndexOf(s[1..], x)
  }

  lemma {:induction false} IndexOfUnique<T(!new)>(s: seq<T>, i: nat)
    requires NoDuplicates(s) && i < |s|
    ensures IndexOf(s, s[i]) == i
  {
    assert s[IndexOf(s, s[i])] == s[i];
  }

  /** A list without repetitions is no longer than any list holding its
      members. */
  lemma {:induction false} PigeonHole<T(!new)>(s: seq<T>, t: seq<T>)
    requires NoDuplicates(s) && forall x :: x in s ==> x in t
    ensures |s| <= |t|
  {
    if s != [] {
      assert s[0] in s;
      var i := IndexOf(t, s[0]);
      var rest := t[..i] + t[i + 1..];
      forall x | x in s[1..] ensures x in rest {
        assert x in s && x != s[0];
        var j := IndexOf(t, x);
        assert j < i ==> rest[j] == x;
        assert j > i ==> rest[j - 1] == x;
      }
      PigeonHole(s[1..], rest);
    }
  }

  /** The numbers below a bound, in order. */
  function UpTo(n: nat): (r: seq<nat>)
    ensures |r| == n && forall i :: 0 <= i < n ==> r[i] == i
  { seq(n, (i: nat) => i) }
}
