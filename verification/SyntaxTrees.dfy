/** Parsed types as trees. What the flat arena of expressions mentions, how large
    it is and how deep it expands are read off the trees, constructor by
    constructor, and agree with the walks over the arena. */
module SyntaxTrees {
  import opened Sorting
  import opened Wrappers
  import opened DepthWalk

  datatype Tree =
    | PrimTree
    | PrincipalTree
    | VarTree(name: string)
    | OptTree(inner: Tree)
    | VecTree(inner: Tree)
    | RecordTree(fields: seq<Tree>)
    | VariantTree(fields: seq<Tree>)
    | FuncTree(args: seq<Tree>, rets: seq<Tree>)
    | ServTree(methods: seq<Tree>)
    | ClassTree(init: seq<Tree>, service: Tree)

  /** Declarations by distinct names, and the actor types. */
  datatype Program = Program(names: seq<string>, bodies: seq<Tree>, actors: seq<Tree>)

  // ----- the trees of an arena -----

  lemma PartBelow(b: Bundle, x: nat, y: nat)
    requires WellFormed(b) && x < |b.nodes| && y in Parts(b.nodes[x])
    ensures y < x
  {
    var m :| 0 <= m < |Parts(b.nodes[x])| && Parts(b.nodes[x])[m] == y;
  }

  /** Everything listed is a part of the expression. */
  ghost predicate Listed(b: Bundle, x: nat, xs: seq<nat>) {
    x < |b.nodes| && forall i :: 0 <= i < |xs| ==> xs[i] in Parts(b.nodes[x])
  }

  /** The tree an expression is the root of. */
  ghost function TreeOf(b: Bundle, x: nat): Tree
    requires WellFormed(b) && x < |b.nodes|
    decreases x, 1
  {
    match b.nodes[x]
    case PrimT => PrimTree
    case PrincipalT => PrincipalTree
    case VarT(name) => VarTree(name)
    case OptT(inner) => OptTree(TreesOf(b, x, [inner])[0])
    case VecT(inner) => VecTree(TreesOf(b, x, [inner])[0])
    case RecordT(fields) => RecordTree(TreesOf(b, x, fields))
    case VariantT(fields) => VariantTree(TreesOf(b, x, fields))
    case FuncT(args, rets) => FuncTree(TreesOf(b, x, args), TreesOf(b, x, rets))
    case ServT(methods) => ServTree(TreesOf(b, x, methods))
    case ClassT(init, service) => ClassTree(TreesOf(b, x, init), TreesOf(b, x, [service])[0])
  }

  ghost function TreesOf(b: Bundle, x: nat, xs: seq<nat>): (ts: seq<Tree>)
    requires WellFormed(b) && Listed(b, x, xs)
    ensures |ts| == |xs|
    ensures forall i :: 0 <= i < |xs| ==> xs[i] < |b.nodes| && ts[i] == TreeOf(b, xs[i])
    decreases x, 0
  {
    assert forall i :: 0 <= i < |xs| ==> xs[i] < x by {
      forall i | 0 <= i < |xs| ensures xs[i] < x { PartBelow(b, x, xs[i]); }
    }
    seq(|xs|, i requires 0 <= i < |xs| => TreeOf(b, xs[i]))
  }

  ghost function ProgramOf(b: Bundle): Program
    requires WellFormed(b)
  {
    Program(b.names, seq(|b.bodies|, i requires 0 <= i < |b.bodies| => TreeOf(b, b.bodies[i])),
            seq(|b.actors|, i requires 0 <= i < |b.actors| => TreeOf(b, b.actors[i])))
  }

  // ----- what trees say -----

  /** The names a type mentions. */
  ghost function NamesIn(t: Tree): set<string>
    decreases t
  {
    match t
    case PrimTree => {}
    case PrincipalTree => {}
    case VarTree(name) => {name}
    case OptTree(inner) => NamesIn(inner)
    case VecTree(inner) => NamesIn(inner)
    case RecordTree(fields) => NamesInAll(fields)
    case VariantTree(fields) => NamesInAll(fields)
    case FuncTree(args, rets) => NamesInAll(args) + NamesInAll(rets)
    case ServTree(methods) => NamesInAll(methods)
    case ClassTree(init, service) => NamesInAll(init) + NamesIn(service)
  }

  ghost function NamesInAll(ts: seq<Tree>): set<string>
    decreases ts
  {
    if ts == [] then {} else NamesIn(ts[0]) + NamesInAll(ts[1..])
  }

  /** How many constructors a type is made of. */
  ghost function SizeOf(t: Tree): nat
    decreases t
  {
    match t
    case PrimTree => 1
    case PrincipalTree => 1
    case VarTree(_) => 1
    case OptTree(inner) => 1 + SizeOf(inner)
    case VecTree(inner) => 1 + SizeOf(inner)
    case RecordTree(fields) => 1 + SizeOfAll(fields)
    case VariantTree(fields) => 1 + SizeOfAll(fields)
    case FuncTree(args, rets) => 1 + SizeOfAll(args) + SizeOfAll(rets)
    case ServTree(methods) => 1 + SizeOfAll(methods)
    case ClassTree(init, service) => 1 + SizeOfAll(init) + SizeOf(service)
  }

  ghost function SizeOfAll(ts: seq<Tree>): nat
    decreases ts
  {
    if ts == [] then 0 else SizeOf(ts[0]) + SizeOfAll(ts[1..])
  }

  function Larger(m: nat, n: nat): nat { if m < n then n else m }

  ghost function Indices(n: nat): set<nat> { set j | j in UpTo(n) }

  /** How far a type nests below its root when declared names are replaced by
      their types, each at most once on the way down. */
  ghost function Height(p: Program, t: Tree, active: set<nat>): nat
    decreases Indices(|p.bodies|) - active, t
  {
    match t
    case PrimTree => 0
    case PrincipalTree => 0
    case VarTree(name) =>
      if name in p.names && IndexOf(p.names, name) < |p.bodies| && IndexOf(p.names, name) !in active then
        var j := IndexOf(p.names, name);
        assert UpTo(|p.bodies|)[j] == j;
        assert j in Indices(|p.bodies|) - active && j !in Indices(|p.bodies|) - (active + {j});
        Height(p, p.bodies[j], active + {j})
      else 0
    case OptTree(inner) => 1 + Height(p, inner, active)
    case VecTree(inner) => 1 + Height(p, inner, active)
    case RecordTree(fields) => Tallest(p, fields, active)
    case VariantTree(fields) => Tallest(p, fields, active)
    case FuncTree(args, rets) => Larger(Tallest(p, args, active), Tallest(p, rets, active))
    case ServTree(methods) => Tallest(p, methods, active)
    case ClassTree(init, service) => Larger(Tallest(p, init, active), 1 + Height(p, service, active))
  }

  /** One more than the tallest of several types, or nothing. */
  ghost function Tallest(p: Program, ts: seq<Tree>, active: set<nat>): nat
    decreases Indices(|p.bodies|) - active, ts
  {
    if ts == [] then 0 else Larger(1 + Height(p, ts[0], active), Tallest(p, ts[1..], active))
  }

  /** Some declared type or actor nests deeper than the limit. */
  ghost predicate NestsDeeper(p: Program, limit: nat) {
    || (exists i :: 0 <= i < |p.bodies| && Height(p, p.bodies[i], {}) > limit)
    || exists i :: 0 <= i < |p.actors| && Height(p, p.actors[i], {}) > limit
  }

  // ----- one expression, by its parts -----

  lemma AllListed(b: Bundle, x: nat)
    requires WellFormed(b) && x < |b.nodes|
    ensures Listed(b, x, Parts(b.nodes[x]))
  {
  }

  lemma TreesOfBoth(b: Bundle, x: nat, xs: seq<nat>, ys: seq<nat>)
    requires WellFormed(b) && Listed(b, x, xs + ys)
    ensures Listed(b, x, xs) && Listed(b, x, ys)
    ensures TreesOf(b, x, xs + ys) == TreesOf(b, x, xs) + TreesOf(b, x, ys)
  {
    hide TreeOf, TreesOf, WellFormed, Parts;
    assert forall i :: 0 <= i < |xs| ==> xs[i] == (xs + ys)[i];
    assert forall i :: 0 <= i < |ys| ==> ys[i] == (xs + ys)[|xs| + i];
  }

  lemma {:induction false} NamesInBoth(ts: seq<Tree>, us: seq<Tree>)
    ensures NamesInAll(ts + us) == NamesInAll(ts) + NamesInAll(us)
  {
    hide NamesIn;
    if ts == [] {
      assert ts + us == us;
    } else {
      assert (ts + us)[1..] == ts[1..] + us;
      NamesInBoth(ts[1..], us);
    }
  }

  lemma {:induction false} SizeOfBoth(ts: seq<Tree>, us: seq<Tree>)
    ensures SizeOfAll(ts + us) == SizeOfAll(ts) + SizeOfAll(us)
  {
    hide SizeOf;
    if ts == [] {
      assert ts + us == us;
    } else {
      assert (ts + us)[1..] == ts[1..] + us;
      SizeOfBoth(ts[1..], us);
    }
  }

  lemma {:induction false} TallestOfBoth(p: Program, ts: seq<Tree>, us: seq<Tree>, active: set<nat>)
    ensures Tallest(p, ts + us, active) == Larger(Tallest(p, ts, active), Tallest(p, us, active))
    decreases |ts|
  {
    hide Height;
    if ts == [] {
      assert ts + us == us;
    } else {
      assert (ts + us)[1..] == ts[1..] + us;
      TallestOfBoth(p, ts[1..], us, active);
    }
  }

  lemma OneTree(p: Program, t: Tree, active: set<nat>)
    ensures NamesInAll([t]) == NamesIn(t) && SizeOfAll([t]) == SizeOf(t) && Tallest(p, [t], active) == 1 + Height(p, t, active)
  {
    assert [t][1..] == [];
    hide NamesIn, SizeOf, Height;
  }

  /** The tree says what the trees of some expressions say. */
  ghost predicate SaysOf(p: Program, t: Tree, ts: seq<Tree>, active: set<nat>) {
    && NamesIn(t) == NamesInAll(ts) && SizeOf(t) == 1 + SizeOfAll(ts)
    && Height(p, t, active) == Tallest(p, ts, active)
  }

  lemma InnerSays(p: Program, t: Tree, ts: seq<Tree>, active: set<nat>)
    requires |ts| == 1 && (t == OptTree(ts[0]) || t == VecTree(ts[0]))
    ensures SaysOf(p, t, ts, active)
  {
    OneTree(p, ts[0], active);
    assert ts == [ts[0]];
    hide NamesInAll, SizeOfAll, Tallest;
  }

  lemma FuncSays(p: Program, ts: seq<Tree>, us: seq<Tree>, active: set<nat>)
    ensures SaysOf(p, FuncTree(ts, us), ts + us, active)
  {
    NamesInBoth(ts, us);
    SizeOfBoth(ts, us);
    TallestOfBoth(p, ts, us, active);
    hide NamesInAll, SizeOfAll, Tallest;
  }

  lemma ClassSays(p: Program, ts: seq<Tree>, us: seq<Tree>, active: set<nat>)
    requires |ts| == 1
    ensures SaysOf(p, ClassTree(us, ts[0]), ts + us, active)
  {
    OneTree(p, ts[0], active);
    assert ts == [ts[0]];
    NamesInBoth(ts, us);
    SizeOfBoth(ts, us);
    TallestOfBoth(p, ts, us, active);
    hide NamesInAll, SizeOfAll, Tallest;
  }

  /** What a tree says is what the trees of its parts say. */
  lemma ByParts(b: Bundle, x: nat, p: Program, active: set<nat>)
    requires WellFormed(b) && x < |b.nodes| && !b.nodes[x].VarT?
    ensures Listed(b, x, Parts(b.nodes[x]))
    ensures SaysOf(p, TreeOf(b, x), TreesOf(b, x, Parts(b.nodes[x])), active)
  {
    hide *;
    AllListed(b, x);
    TreeIs(b, x);
    match b.nodes[x]
    case FuncT(args, rets) =>
      TreesOfBoth(b, x, args, rets);
      FuncSays(p, TreesOf(b, x, args), TreesOf(b, x, rets), active);
    case ClassT(init, service) =>
      TreesOfBoth(b, x, [service], init);
      ClassSays(p, TreesOf(b, x, [service]), TreesOf(b, x, init), active);
    case OptT(inner) => InnerSays(p, TreeOf(b, x), TreesOf(b, x, [inner]), active);
    case VecT(inner) => InnerSays(p, TreeOf(b, x), TreesOf(b, x, [inner]), active);
    case PrimT => NothingSays(p, TreesOf(b, x, []), active);
    case PrincipalT => NothingSays(p, TreesOf(b, x, []), active);
    case RecordT(fields) => ListSays(p, TreesOf(b, x, fields), active);
    case VariantT(fields) => ListSays(p, TreesOf(b, x, fields), active);
    case ServT(methods) => ListSays(p, TreesOf(b, x, methods), active);
  }

  lemma ListSays(p: Program, ts: seq<Tree>, active: set<nat>)
    ensures SaysOf(p, RecordTree(ts), ts, active) && SaysOf(p, VariantTree(ts), ts, active) && SaysOf(p, ServTree(ts), ts, active)
  {
    hide NamesInAll, SizeOfAll, Tallest;
  }

  /** The tree of an expression and the parts it is made of. */
  lemma TreeIs(b: Bundle, x: nat)
    requires WellFormed(b) && x < |b.nodes|
    ensures b.nodes[x].PrimT? ==> Parts(b.nodes[x]) == [] && TreeOf(b, x) == PrimTree
    ensures b.nodes[x].PrincipalT? ==> Parts(b.nodes[x]) == [] && TreeOf(b, x) == PrincipalTree
    ensures b.nodes[x].OptT? || b.nodes[x].VecT? ==>
              Parts(b.nodes[x]) == [b.nodes[x].inner] && Listed(b, x, [b.nodes[x].inner])
              && TreeOf(b, x) == (if b.nodes[x].OptT? then OptTree(TreesOf(b, x, [b.nodes[x].inner])[0])
                                  else VecTree(TreesOf(b, x, [b.nodes[x].inner])[0]))
    ensures b.nodes[x].RecordT? || b.nodes[x].VariantT? ==>
              Parts(b.nodes[x]) == b.nodes[x].fields && Listed(b, x, b.nodes[x].fields)
              && TreeOf(b, x) == (if b.nodes[x].RecordT? then RecordTree(TreesOf(b, x, b.nodes[x].fields))
                                  else VariantTree(TreesOf(b, x, b.nodes[x].fields)))
    ensures b.nodes[x].FuncT? ==>
              Parts(b.nodes[x]) == b.nodes[x].args + b.nodes[x].rets && Listed(b, x, b.nodes[x].args) && Listed(b, x, b.nodes[x].rets)
              && TreeOf(b, x) == FuncTree(TreesOf(b, x, b.nodes[x].args), TreesOf(b, x, b.nodes[x].rets))
    ensures b.nodes[x].ServT? ==>
              Parts(b.nodes[x]) == b.nodes[x].methods && Listed(b, x, b.nodes[x].methods)
              && TreeOf(b, x) == ServTree(TreesOf(b, x, b.nodes[x].methods))
    ensures b.nodes[x].ClassT? ==>
              Parts(b.nodes[x]) == [b.nodes[x].service] + b.nodes[x].init && Listed(b, x, b.nodes[x].init)
              && Listed(b, x, [b.nodes[x].service])
              && TreeOf(b, x) == ClassTree(TreesOf(b, x, b.nodes[x].init), TreesOf(b, x, [b.nodes[x].service])[0])
  {
    hide WellFormed, TreesOf;
  }

  lemma NothingSays(p: Program, ts: seq<Tree>, active: set<nat>)
    requires ts == []
    ensures SaysOf(p, PrimTree, ts, active) && SaysOf(p, PrincipalTree, ts, active)
  {
  }

  // ----- names and sizes -----

  lemma {:induction false} NamesOfTrees(ts: seq<Tree>, n: string)
    ensures n in NamesInAll(ts) <==> exists i :: 0 <= i < |ts| && n in NamesIn(ts[i])
  {
    hide NamesIn;
    if ts != [] {
      NamesOfTrees(ts[1..], n);
      assert forall i :: 0 < i < |ts| ==> ts[i] == ts[1..][i - 1];
    }
  }

  /** The names of a tree are those of the variables within its expression. */
  lemma {:induction false} NamesAreWithin(b: Bundle, x: nat, n: string)
    requires WellFormed(b) && x < |b.nodes|
    ensures n in NamesIn(TreeOf(b, x)) <==> exists y :: y in Within(b, x) && y < |b.nodes| && b.nodes[y] == VarT(n)
    decreases x
  {
    var parts := Parts(b.nodes[x]);
    forall m | 0 <= m < |parts|
      ensures n in NamesIn(TreeOf(b, parts[m])) <==>
              exists y :: y in Within(b, parts[m]) && y < |b.nodes| && b.nodes[y] == VarT(n)
    {
      NamesAreWithin(b, parts[m], n);
    }
    if !b.nodes[x].VarT? {
      ByParts(b, x, Program([], [], []), {});
      NamesOfTrees(TreesOf(b, x, parts), n);
    }
  }

  /** A declaration mentions another exactly when the other's name occurs in its
      type. */
  lemma MentionsAreNames(b: Bundle, i: nat, j: nat)
    requires WellFormed(b)
    ensures Mentions(b, i, j) <==> i < |b.names| && j < |b.names| && b.names[j] in NamesIn(ProgramOf(b).bodies[i])
  {
    if i < |b.names| && j < |b.names| {
      NamesAreWithin(b, b.bodies[i], b.names[j]);
      IndexOfUnique(b.names, j);
    }
  }

  lemma {:induction false} SizesAgree(b: Bundle, x: nat)
    requires WellFormed(b) && x < |b.nodes|
    ensures SizeOf(TreeOf(b, x)) == Size(b, x)
    decreases x, 1
  {
    if !b.nodes[x].VarT? {
      ByParts(b, x, Program([], [], []), {});
      SizesOfAllAgree(b, x, Parts(b.nodes[x]));
    }
  }

  lemma {:induction false} SizesOfAllAgree(b: Bundle, x: nat, xs: seq<nat>)
    requires WellFormed(b) && Listed(b, x, xs)
    ensures forall i :: 0 <= i < |xs| ==> xs[i] < x
    ensures SizeOfAll(TreesOf(b, x, xs)) == SizeAll(b, x, xs)
    decreases x, 0, |xs|
  {
    forall i | 0 <= i < |xs| ensures xs[i] < x { PartBelow(b, x, xs[i]); }
    if xs != [] {
      var n := |xs| - 1;
      assert xs == xs[..n] + [xs[n]];
      TreesOfBoth(b, x, xs[..n], [xs[n]]);
      SizeOfBoth(TreesOf(b, x, xs[..n]), TreesOf(b, x, [xs[n]]));
      assert TreesOf(b, x, [xs[n]]) == [TreeOf(b, xs[n])];
      OneTree(Program([], [], []), TreeOf(b, xs[n]), {});
      SizesOfAllAgree(b, x, xs[..n]);
      SizesAgree(b, xs[n]);
    }
  }

  // ----- expansion -----

  ghost function HeightAt(b: Bundle, s: State): nat
    requires WellFormed(b) && s.node < |b.nodes|
  { Height(ProgramOf(b), TreeOf(b, s.node), s.active) }

  lemma {:induction false} TallestIs(p: Program, ts: seq<Tree>, active: set<nat>)
    ensures forall i :: 0 <= i < |ts| ==> 1 + Height(p, ts[i], active) <= Tallest(p, ts, active)
    ensures Tallest(p, ts, active) > 0 ==>
              exists i :: 0 <= i < |ts| && Tallest(p, ts, active) == 1 + Height(p, ts[i], active)
    decreases |ts|
  {
    hide Height;
    if ts != [] {
      TallestIs(p, ts[1..], active);
      assert forall i :: 0 < i < |ts| ==> ts[i] == ts[1..][i - 1];
      if Tallest(p, ts, active) > 1 + Height(p, ts[0], active) {
        var i :| 0 <= i < |ts[1..]| && Tallest(p, ts[1..], active) == 1 + Height(p, ts[1..][i], active);
        assert ts[i + 1] == ts[1..][i];
      }
    }
  }

  /** A step of the expansion leads no deeper than the height allows, and some
      step leads as deep. */
  lemma StepHeight(b: Bundle, s: State)
    requires WellFormed(b) && s.node < |b.nodes|
    ensures forall t :: t in Successors(b, AllNames(b), s) ==>
              t.node < |b.nodes| && t.depth + HeightAt(b, t) <= s.depth + HeightAt(b, s)
    ensures HeightAt(b, s) > 0 ==>
              exists t :: t in Successors(b, AllNames(b), s) && t.node < |b.nodes|
                          && t.depth + HeightAt(b, t) == s.depth + HeightAt(b, s)
  {
    forall t | t in Successors(b, AllNames(b), s) ensures t.node < |b.nodes| { SuccessorInRange(b, AllNames(b), s, t); }
    if b.nodes[s.node].VarT? { VariableStep(b, s); } else { PartStep(b, s); }
  }

  lemma VariableStep(b: Bundle, s: State)
    requires WellFormed(b) && s.node < |b.nodes| && b.nodes[s.node].VarT?
    ensures forall t :: t in Successors(b, AllNames(b), s) ==>
              t.node < |b.nodes| && t.depth + HeightAt(b, t) == s.depth + HeightAt(b, s)
    ensures HeightAt(b, s) > 0 ==> Successors(b, AllNames(b), s) != []
  {
    var p := ProgramOf(b);
    assert |p.bodies| == |b.names| && p.names == b.names;
  }

  lemma PartStep(b: Bundle, s: State)
    requires WellFormed(b) && s.node < |b.nodes| && !b.nodes[s.node].VarT?
    ensures forall t :: t in Successors(b, AllNames(b), s) ==>
              t.node < |b.nodes| && t.depth + HeightAt(b, t) <= s.depth + HeightAt(b, s)
    ensures HeightAt(b, s) > 0 ==>
              exists t :: t in Successors(b, AllNames(b), s) && t.node < |b.nodes|
                          && t.depth + HeightAt(b, t) == s.depth + HeightAt(b, s)
  {
    var p, parts, next := ProgramOf(b), Parts(b.nodes[s.node]), Successors(b, AllNames(b), s);
    ByParts(b, s.node, p, s.active);
    hide WellFormed, NamesIn, SizeOf;
    var ts := TreesOf(b, s.node, parts);
    TallestIs(p, ts, s.active);
    assert |next| == |parts| && forall m :: 0 <= m < |parts| ==> next[m] == State(parts[m], s.depth + 1, s.active);
    hide Height, TreeOf, TreesOf, Tallest, Successors, WellFormed, ProgramOf, NamesIn, SizeOf;
    if HeightAt(b, s) > 0 {
      var i :| 0 <= i < |ts| && Tallest(p, ts, s.active) == 1 + Height(p, ts[i], s.active);
      assert next[i] in next;
    }
  }

  lemma {:induction false} PathHeight(b: Bundle, q: seq<State>, i: nat)
    requires WellFormed(b) && Expansion(b, AllNames(b), q) && i < |q|
    ensures q[i].node < |b.nodes| && q[i].depth + HeightAt(b, q[i]) <= HeightAt(b, q[0])
  {
    hide HeightAt, Successors;
    if i == 0 {
      RootIsBare(b, q[0]);
    } else {
      PathHeight(b, q, i - 1);
      StepHeight(b, q[i - 1]);
      assert q[i - 1 + 1] in Successors(b, AllNames(b), q[i - 1]);
    }
  }

  lemma Extended(b: Bundle, q: seq<State>, t: State)
    requires WellFormed(b) && Expansion(b, AllNames(b), q) && t in Successors(b, AllNames(b), q[|q| - 1])
    ensures Expansion(b, AllNames(b), q + [t])
  {
    var s := q[|q| - 1];
    SuccessorInRange(b, AllNames(b), s, t);
    hide Successors;
    var r := q + [t];
    forall i | 0 <= i < |r| - 1 ensures r[i + 1] in Successors(b, AllNames(b), r[i]) {
      if i < |q| - 1 { assert q[i + 1] in Successors(b, AllNames(b), q[i]); }
    }
  }

  /** Each step leaves less height, or fewer names to enter. */
  lemma StepShrinks(b: Bundle, s: State, t: State)
    requires WellFormed(b) && s.node < |b.nodes| && t.node < |b.nodes| && t in Successors(b, AllNames(b), s)
    requires t.depth + HeightAt(b, t) == s.depth + HeightAt(b, s)
    ensures HeightAt(b, t) < HeightAt(b, s) || (HeightAt(b, t) == HeightAt(b, s) && AllNames(b) - t.active < AllNames(b) - s.active)
  {
    hide HeightAt;
    if b.nodes[s.node].VarT? {
      var j := Resolve(b, b.nodes[s.node].name).value;
      assert j in AllNames(b) - s.active && j !in AllNames(b) - t.active;
    }
  }

  /** From every state reached the expansion goes as deep as its height. */
  lemma {:induction false} HeightReached(b: Bundle, q: seq<State>) returns (r: seq<State>)
    requires WellFormed(b) && Expansion(b, AllNames(b), q)
    ensures q[|q| - 1].node < |b.nodes| && r != []
    ensures Expansion(b, AllNames(b), r) && r[|r| - 1].depth == q[|q| - 1].depth + HeightAt(b, q[|q| - 1])
    decreases HeightAt(b, q[|q| - 1]), AllNames(b) - q[|q| - 1].active
  {
    var s := q[|q| - 1];
    hide HeightAt, Successors, WellFormed, AllNames;
    if HeightAt(b, s) == 0 {
      r := q;
    } else {
      StepHeight(b, s);
      var t :| t in Successors(b, AllNames(b), s) && t.node < |b.nodes| && t.depth + HeightAt(b, t) == s.depth + HeightAt(b, s);
      Extended(b, q, t);
      StepShrinks(b, s, t);
      r := HeightReached(b, q + [t]);
    }
  }

  /** The roots of the expansion are the declared types and the actors. */
  lemma RootHeights(b: Bundle, limit: nat)
    requires WellFormed(b)
    ensures forall s :: s in RootStates(b) ==> s.node < |b.nodes| && s.depth == 0 && s.active == {}
    ensures (exists s :: s in RootStates(b) && s.node < |b.nodes| && HeightAt(b, s) > limit) <==> NestsDeeper(ProgramOf(b), limit)
  {
    hide *;
    RootsAre(b);
    RootHeightsAre(b);
    var p, roots := ProgramOf(b), RootStates(b);
    ProgramCounts(b);
    if s :| s in roots && s.node < |b.nodes| && HeightAt(b, s) > limit {
      var k :| 0 <= k < |roots| && roots[k] == s;
      if k < |b.bodies| { SomeNests(p, limit, k, true); } else { SomeNests(p, limit, k - |b.bodies|, false); }
    }
    if NestsDeeper(p, limit) {
      var i, body := WhichNests(p, limit);
      if body { assert roots[i] in roots; } else { assert roots[|b.bodies| + i] in roots; }
    }
  }

  lemma ProgramCounts(b: Bundle)
    requires WellFormed(b)
    ensures |ProgramOf(b).bodies| == |b.bodies| && |ProgramOf(b).actors| == |b.actors|
  {
  }

  lemma SomeNests(p: Program, limit: nat, i: nat, body: bool)
    requires if body then i < |p.bodies| && Height(p, p.bodies[i], {}) > limit else i < |p.actors| && Height(p, p.actors[i], {}) > limit
    ensures NestsDeeper(p, limit)
  {
    hide Height;
  }

  lemma WhichNests(p: Program, limit: nat) returns (i: nat, body: bool)
    requires NestsDeeper(p, limit)
    ensures if body then i < |p.bodies| && Height(p, p.bodies[i], {}) > limit else i < |p.actors| && Height(p, p.actors[i], {}) > limit
  {
    hide Height;
    if j :| 0 <= j < |p.bodies| && Height(p, p.bodies[j], {}) > limit {
      i, body := j, true;
    } else {
      var j :| 0 <= j < |p.actors| && Height(p, p.actors[j], {}) > limit;
      i, body := j, false;
    }
  }

  lemma RootHeightsAre(b: Bundle)
    requires WellFormed(b)
    ensures var p, roots := ProgramOf(b), RootStates(b);
            && |roots| == |b.bodies| + |b.actors| && |p.bodies| == |b.bodies| && |p.actors| == |b.actors|
            && (forall s :: s in roots ==> s.node < |b.nodes| && s.depth == 0 && s.active == {})
            && (forall i :: 0 <= i < |b.bodies| ==> Height(p, p.bodies[i], {}) == HeightAt(b, roots[i]))
            && forall i :: 0 <= i < |b.actors| ==> Height(p, p.actors[i], {}) == HeightAt(b, roots[|b.bodies| + i])
  {
    RootsAre(b);
    hide WellFormed, Height, TreeOf, RootStates;
    var p, roots := ProgramOf(b), RootStates(b);
    forall s | s in roots ensures s.node < |b.nodes| && s.depth == 0 && s.active == {} {
      var k :| 0 <= k < |roots| && roots[k] == s;
      if k >= |b.bodies| { assert roots[|b.bodies| + (k - |b.bodies|)] == s; }
    }
  }

  lemma RootsAre(b: Bundle)
    requires WellFormed(b)
    ensures |RootStates(b)| == |b.bodies| + |b.actors|
    ensures forall i :: 0 <= i < |b.bodies| ==> RootStates(b)[i] == State(b.bodies[i], 0, {}) && b.bodies[i] < |b.nodes|
    ensures forall i :: 0 <= i < |b.actors| ==> RootStates(b)[|b.bodies| + i] == State(b.actors[i], 0, {}) && b.actors[i] < |b.nodes|
    ensures forall s :: s in RootStates(b) ==> s.node < |b.nodes| && s.depth == 0 && s.active == {}
  {
    forall s | s in RootStates(b) ensures s.node < |b.nodes| && s.depth == 0 && s.active == {} { RootIsBare(b, s); }
  }

  /** The expansion that tracks every name goes too deep exactly when some type
      nests too deep, its names replaced by their types. */
  lemma TooDeepIsHeight(b: Bundle, limit: nat)
    requires WellFormed(b)
    ensures TooDeep(b, AllNames(b), limit) <==> NestsDeeper(ProgramOf(b), limit)
  {
    RootHeights(b, limit);
    hide HeightAt, Successors, WellFormed, NestsDeeper, RootStates, AllNames;
    if TooDeep(b, AllNames(b), limit) {
      var q: seq<State> :| Expansion(b, AllNames(b), q) && q != [] && q[|q| - 1].depth > limit;
      PathHeight(b, q, |q| - 1);
    }
    if s :| s in RootStates(b) && s.node < |b.nodes| && HeightAt(b, s) > limit {
      assert Expansion(b, AllNames(b), [s]);
      var r := HeightReached(b, [s]);
    }
  }
}
