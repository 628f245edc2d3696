/** Walks along aliases, from a name to the name it is declared as, and what
    following them comes to: the type at the end, a name that is not bound, or
    the first name met twice. */
module AliasWalks {
  import opened Bytes
  import opened Counting
  import opened Sorting
  import opened Wrappers
  import opened CandidTypes

  /** Every name but the last is an alias of the next. */
  ghost predicate AliasWalk(env: Environment, p: seq<Bytes.Text>) {
    p != [] && forall i :: 0 <= i < |p| - 1 ==> p[i] in env && env[p[i]] == VarT(p[i + 1])
  }

  ghost predicate WalksTo(env: Environment, name: Bytes.Text, p: seq<Bytes.Text>, end: Bytes.Text) {
    AliasWalk(env, p) && p[0] == name && p[|p| - 1] == end
  }

  predicate Bound(env: Environment, name: Bytes.Text) { name in env && !env[name].VarT? }

  /** A walk from the name ends at a name bound to a type that is no alias. */
  ghost predicate LeadsTo(env: Environment, name: Bytes.Text, end: Bytes.Text) {
    Bound(env, end) && exists p :: WalksTo(env, name, p, end)
  }

  /** A walk from the name ends at a name that is not bound. */
  ghost predicate LeadsNowhere(env: Environment, name: Bytes.Text, end: Bytes.Text) {
    end !in env && exists p :: WalksTo(env, name, p, end)
  }

  /** The last name is the first that the walk meets twice. */
  ghost predicate MeetsTwice(p: seq<Bytes.Text>) {
    p != [] && NoDuplicates(p[..|p| - 1]) && p[|p| - 1] in p[..|p| - 1]
  }

  ghost predicate RunsInCircle(env: Environment, name: Bytes.Text, twice: Bytes.Text) {
    exists p :: WalksTo(env, name, p, twice) && MeetsTwice(p)
  }

  // ----- walks are determined by where they start -----

  lemma {:induction false} OneWay(env: Environment, p: seq<Bytes.Text>, q: seq<Bytes.Text>, k: nat)
    requires AliasWalk(env, p) && AliasWalk(env, q) && p[0] == q[0] && k < |p| && k < |q|
    ensures p[k] == q[k]
  {
    if k > 0 { OneWay(env, p, q, k - 1); }
  }

  /** Past a name met twice the walk repeats. */
  lemma {:induction false} Repeats(env: Environment, p: seq<Bytes.Text>, i: nat, j: nat, k: nat)
    requires AliasWalk(env, p) && i < j <= k < |p| && p[i] == p[j]
    ensures p[k] == p[k - (j - i)]
  {
    if k > j { Repeats(env, p, i, j, k - 1); }
  }

  predicate DeadEnd(env: Environment, name: Bytes.Text) { name !in env || !env[name].VarT? }

  /** A walk that meets a name twice reaches no dead end. */
  lemma CircleNeverEnds(env: Environment, p: seq<Bytes.Text>, q: seq<Bytes.Text>)
    requires AliasWalk(env, p) && AliasWalk(env, q) && p[0] == q[0] && MeetsTwice(p)
    ensures !DeadEnd(env, q[|q| - 1])
  {
    var j, k := |p| - 1, |q| - 1;
    var i :| 0 <= i < j && p[..j][i] == p[j];
    if k < j {
      OneWay(env, p, q, k);
      assert env[p[k]] == VarT(p[k + 1]);
    } else {
      OneWay(env, p, q, i);
      OneWay(env, p, q, j);
      Repeats(env, q, i, j, k);
      var m := k - (j - i);
      assert env[q[m]] == VarT(q[m + 1]);
    }
  }

  lemma OneDeadEnd(env: Environment, p: seq<Bytes.Text>, q: seq<Bytes.Text>)
    requires AliasWalk(env, p) && AliasWalk(env, q) && p[0] == q[0]
    requires DeadEnd(env, p[|p| - 1]) && DeadEnd(env, q[|q| - 1])
    ensures p[|p| - 1] == q[|q| - 1]
  {
    var k := if |p| < |q| then |p| - 1 else |q| - 1;
    OneWay(env, p, q, k);
    if k < |p| - 1 { StepsOn(env, p, k); }
    if k < |q| - 1 { StepsOn(env, q, k); }
  }

  lemma StepsOn(env: Environment, p: seq<Bytes.Text>, k: nat)
    requires AliasWalk(env, p) && k < |p| - 1
    ensures !DeadEnd(env, p[k])
  {
    assert env[p[k]] == VarT(p[k + 1]);
  }

  lemma OneMeeting(env: Environment, p: seq<Bytes.Text>, q: seq<Bytes.Text>)
    requires AliasWalk(env, p) && AliasWalk(env, q) && p[0] == q[0] && MeetsTwice(p) && MeetsTwice(q)
    ensures p[|p| - 1] == q[|q| - 1]
  {
    NoSooner(env, p, q);
    NoSooner(env, q, p);
    OneWay(env, p, q, |p| - 1);
  }

  lemma NoSooner(env: Environment, p: seq<Bytes.Text>, q: seq<Bytes.Text>)
    requires AliasWalk(env, p) && AliasWalk(env, q) && p[0] == q[0] && MeetsTwice(p) && MeetsTwice(q)
    ensures |q| <= |p|
  {
    var j := |p| - 1;
    var i :| 0 <= i < j && p[..j][i] == p[j];
    if j < |q| {
      OneWay(env, p, q, i);
      OneWay(env, p, q, j);
      if j < |q| - 1 { DistinctBefore(q, i, j); }
    }
  }

  lemma DistinctBefore(q: seq<Bytes.Text>, i: nat, j: nat)
    requires MeetsTwice(q) && i < j < |q| - 1
    ensures q[i] != q[j]
  {
    assert q[..|q| - 1][i] == q[i] && q[..|q| - 1][j] == q[j];
  }

  // ----- what following aliases comes to -----

  /** The walk the result comes from, continuing one over the names seen. */
  lemma {:induction false} ResultWalk(env: Environment, p: seq<Bytes.Text>) returns (r: seq<Bytes.Text>)
    requires AliasWalk(env, p) && NoDuplicates(p[..|p| - 1])
    ensures AliasWalk(env, r) && r[0] == p[0]
    ensures match Terminal(env, p[|p| - 1], MembersOf(p[..|p| - 1]))
            case Ok(t) => r[|r| - 1] == t && Bound(env, t)
            case Err(UnboundName(n)) => r[|r| - 1] == n && n !in env
            case Err(AliasCycle(n)) => r[|r| - 1] == n && MeetsTwice(r)
            case Err(_) => false
    decreases env.Keys - MembersOf(p[..|p| - 1])
  {
    var name, seen := p[|p| - 1], MembersOf(p[..|p| - 1]);
    if name !in seen && name in env && env[name].VarT? {
      var longer := p + [env[name].name];
      assert longer[..|longer| - 1] == p == p[..|p| - 1] + [name];
      assert MembersOf(p) == seen + {name};
      assert name in env.Keys - seen && name !in env.Keys - (seen + {name});
      r := ResultWalk(env, longer);
    } else {
      r := p;
    }
  }

  /** Following aliases ends at the one type a walk of aliases leads to, or names
      the one name without a type it leads to, or the first name it meets
      twice. */
  lemma AliasesResolve(env: Environment, name: Bytes.Text, n: Bytes.Text)
    ensures Terminal(env, name, {}) == Ok(n) <==> LeadsTo(env, name, n)
    ensures Terminal(env, name, {}) == Err(UnboundName(n)) <==> LeadsNowhere(env, name, n)
    ensures Terminal(env, name, {}) == Err(AliasCycle(n)) <==> RunsInCircle(env, name, n)
  {
    assert MembersOf([name][..0]) == {};
    var r := ResultWalk(env, [name]);
    hide Terminal, AliasWalk, MeetsTwice;
    assert WalksTo(env, name, r, r[|r| - 1]);
    forall p, end | WalksTo(env, name, p, end) && DeadEnd(env, end)
      ensures r[|r| - 1] == end && !MeetsTwice(r)
    {
      if MeetsTwice(r) { CircleNeverEnds(env, r, p); }
      OneDeadEnd(env, r, p);
    }
    forall p, end | WalksTo(env, name, p, end) && MeetsTwice(p)
      ensures MeetsTwice(r) && r[|r| - 1] == end
    {
      if !MeetsTwice(r) { CircleNeverEnds(env, p, r); }
      OneMeeting(env, r, p);
    }
  }

  // ----- types -----

  /** The type is a name that leads to one that is not bound. */
  ghost predicate Unnamed(env: Environment, t: Type, n: Bytes.Text) { t.VarT? && LeadsNowhere(env, t.name, n) }

  /** The type is a name whose aliases meet a name twice. */
  ghost predicate Circular(env: Environment, t: Type, n: Bytes.Text) { t.VarT? && RunsInCircle(env, t.name, n) }

  /** What a type stands for, or why it stands for nothing, by walks. */
  lemma TypeResolves(env: Environment, t: Type, u: Type, n: Bytes.Text)
    ensures Denotation(env, t) == Ok(u) <==>
            if t.VarT? then exists m :: LeadsTo(env, t.name, m) && env[m] == u else t == u
    ensures Denotation(env, t) == Err(UnboundName(n)) <==> Unnamed(env, t, n)
    ensures Denotation(env, t) == Err(AliasCycle(n)) <==> Circular(env, t, n)
  {
    if t.VarT? {
      AliasesResolve(env, t.name, n);
      forall m ensures Terminal(env, t.name, {}) == Ok(m) <==> LeadsTo(env, t.name, m) { AliasesResolve(env, t.name, m); }
      hide Terminal, LeadsNowhere, RunsInCircle, LeadsTo;
    }
  }
}
