/** How many members finite sets have. */
module Counting {
  import opened Sorting

  lemma {:induction false} SubsetSize<T>(a: set<T>, b: set<T>)
    requires a <= b
    ensures |a| <= |b|
  {
    if a != {} {
      var x :| x in a;
      SubsetSize(a - {x}, b - {x});
    }
  }

  /** A list without repetitions is no longer than a set holding its members. */
  lemma {:induction false} DistinctWithin<T(!new)>(s: seq<T>, t: set<T>)
    requires NoDuplicates(s) && forall x :: x in s ==> x in t
    ensures |s| <= |t|
  {
    if s != [] {
      assert s[0] in s;
      forall x | x in s[1..] ensures x in t - {s[0]} { assert x in s; }
      DistinctWithin(s[1..], t - {s[0]});
    }
  }

  ghost function MembersOf<T>(s: seq<T>): set<T> { set x | x in s }

  lemma {:induction false} MembersCount<T>(s: seq<T>)
    ensures |MembersOf(s)| <= |s|
  {
    if s != [] {
      MembersCount(s[1..]);
      assert MembersOf(s) == MembersOf(s[1..]) + {s[0]};
    }
  }

  /** A product, by name, so that proofs can keep its arithmetic apart. */
  ghost function Times(m: nat, n: nat): nat { m * n }

  lemma OneMore(m: nat, n: nat)
    ensures Times(m + 1, n) == Times(m, n) + n && Times(0, n) == 0
  {
  }

  lemma TimesGrows(k: nat, m: nat, n: nat)
    requires k <= m
    ensures Times(k, n) <= Times(m, n)
  {
  }

  ghost function TwoTo(n: nat): nat { if n == 0 then 1 else 2 * TwoTo(n - 1) }

  ghost function Subsets(t: set<nat>): set<set<nat>> { set a: set<nat> | a <= t }

  ghost function Image<A, B>(s: set<A>, f: A -> B): set<B> { set x | x in s :: f(x) }

  lemma {:induction false} ImageSize<A, B>(s: set<A>, f: A -> B)
    ensures |Image(s, f)| <= |s|
  {
    if s != {} {
      var x :| x in s;
      ImageSize(s - {x}, f);
      assert Image(s, f) == Image(s - {x}, f) + {f(x)};
    }
  }

  ghost function Added(s: set<set<nat>>, x: nat): set<set<nat>> { Image(s, (a: set<nat>) => a + {x}) }

  lemma SubsetsSplit(t: set<nat>, x: nat)
    requires x in t
    ensures Subsets(t) <= Subsets(t - {x}) + Added(Subsets(t - {x}), x)
  {
    var add := (a: set<nat>) => a + {x};
    forall a | a in Subsets(t) ensures a in Subsets(t - {x}) + Added(Subsets(t - {x}), x) {
      if x in a { assert a - {x} in Subsets(t - {x}) && a == add(a - {x}); }
    }
  }

  lemma OnlyEmptySubset()
    ensures Subsets({}) <= {{}}
  {
    forall a | a in Subsets({}) ensures a == {} { }
  }

  lemma {:induction false} SubsetsCount(t: set<nat>)
    ensures |Subsets(t)| <= TwoTo(|t|)
  {
    hide Subsets, Image;
    if t == {} {
      OnlyEmptySubset();
      SubsetSize(Subsets(t), {{}});
    } else {
      var x :| x in t;
      var rest := t - {x};
      SubsetsCount(rest);
      SubsetsSplit(t, x);
      ImageSize(Subsets(rest), (a: set<nat>) => a + {x});
      SubsetSize(Subsets(t), Subsets(rest) + Added(Subsets(rest), x));
    }
  }
}
