/** The cycle rule on what the generator renders: the walks it starts for a
    contract's declarations and actor, and that it refuses a contract exactly
    when one of them never ends. */
module RenderedCycles {
  import opened Bytes
  import opened Sorting
  import opened Wrappers
  import opened Walks
  import opened TypeGraph
  import opened CycleRule

  /** What the omission analysis found: the declarations and methods that are
      not emitted, and the nodes something omitted lies under. */
  datatype Omissions = Omissions(declarations: set<Bytes.Text>, methods: set<Bytes.Text>, tainted: set<TypeRef>)

  type Declared = map<TypeRef, Bytes.Text>

  /** `actor` in ASCII. */
  const ACTOR: Bytes.Text := [97, 99, 116, 111, 114]

  /** `actor_service`: the actor's service, or the service its class makes. */
  function ActorService(c: Contract): Option<TypeRef> {
    match c.actor
    case None => None
    case Some(ServiceActor(target)) => Some(target)
    case Some(ClassActor(target)) =>
      if target < |c.types| && c.types[target].Class? then Some(c.types[target].service) else Some(target)
  }

  /** A node declared first under another name is rendered as that name. */
  predicate Alias(declared: Declared, r: TypeRef, own: Bytes.Text) { r in declared && declared[r] != own }

  function MethodsOf(c: Contract, service: TypeRef): seq<ServiceMethod> {
    if service < |c.types| && c.types[service].Service? then c.types[service].methods else []
  }

  // ----- what is rendered -----

  /** The node's own structure mentions another node; a class is never rendered
      as a whole. */
  ghost predicate Mentions(node: TypeNode, x: TypeRef) {
    match node
    case Primitive(_) => false
    case Opt(inner) => inner == x
    case Vec(inner) => inner == x
    case Record(fields) => exists f :: f in fields && f.ty == x
    case Variant(fields) => exists f :: f in fields && f.ty == x
    case Func(args, results, _) => x in args || x in results
    case Service(methods) => exists m :: m in methods && m.function_ == x
    case Class(_, _) => false
  }

  /** Rendering a node's structure expands it, or, if it is declared, what it
      mentions. */
  ghost predicate Opens(c: Contract, declared: Declared, r: TypeRef, s: TypeRef) {
    r < |c.types| && if r in declared then Mentions(c.types[r], s) else s == r
  }

  ghost predicate ByDeclaration(c: Contract, declared: Declared, omitted: Omissions, s: TypeRef) {
    exists d :: d in c.declarations && d.name !in omitted.declarations && !Alias(declared, d.ty, d.name)
                && Opens(c, declared, d.ty, s)
  }

  ghost predicate Survives(c: Contract, service: TypeRef, omitted: Omissions, m: ServiceMethod) {
    m in MethodsOf(c, service) && m.name !in omitted.methods
  }

  ghost predicate ByService(c: Contract, declared: Declared, omitted: Omissions, service: TypeRef, s: TypeRef) {
    if service in omitted.tainted then exists m :: Survives(c, service, omitted, m) && m.function_ == s
    else !Alias(declared, service, ACTOR) && Opens(c, declared, service, s)
  }

  ghost predicate BySignature(c: Contract, declared: Declared, omitted: Omissions, service: TypeRef, s: TypeRef) {
    exists m :: Survives(c, service, omitted, m) && Opens(c, declared, m.function_, s)
  }

  /** The generator starts expanding an undeclared node. */
  ghost predicate Starts(c: Contract, declared: Declared, omitted: Omissions, s: TypeRef) {
    && s !in declared
    && (ByDeclaration(c, declared, omitted, s)
        || (ActorService(c).Some?
            && (ByService(c, declared, omitted, ActorService(c).value, s)
                || BySignature(c, declared, omitted, ActorService(c).value, s))))
  }

  /** One undeclared node inside another. */
  ghost function Expansions(c: Contract, declared: Declared): Edges {
    set u: nat, w: nat | u < |c.types| && w < |c.types| && u !in declared && w !in declared && Mentions(c.types[u], w) :: (u, w)
  }

  /** Nodes expanded in place, each inside the one before. */
  ghost predicate Rendered(c: Contract, declared: Declared, omitted: Omissions, p: seq<TypeRef>) {
    p != [] && Starts(c, declared, omitted, p[0]) && Walk(Expansions(c, declared), p)
  }

  ghost predicate NoDeeper(c: Contract, declared: Declared, omitted: Omissions, n: nat) {
    forall p :: Rendered(c, declared, omitted, p) ==> |p| <= n
  }

  /** No expansion goes deeper than some bound. */
  ghost predicate RenderingEnds(c: Contract, declared: Declared, omitted: Omissions) {
    exists n: nat :: NoDeeper(c, declared, omitted, n)
  }

  // ----- the roots -----

  /** The references a valid contract holds. */
  ghost predicate InBounds(c: Contract) {
    && Closed(c.types)
    && (forall d :: d in c.declarations ==> d.ty < |c.types|)
    && (c.actor.Some? ==> c.actor.value.target < |c.types|)
  }

  function BodyRoot(declared: Declared, r: TypeRef, own: Bytes.Text): seq<Root> {
    if Alias(declared, r, own) then [] else [Structure(r)]
  }

  function DeclarationRoots(declarations: seq<Declaration>, declared: Declared, omitted: Omissions): seq<Root> {
    if declarations == [] then []
    else
      var n := |declarations| - 1;
      var d := declarations[n];
      DeclarationRoots(declarations[..n], declared, omitted)
      + if d.name in omitted.declarations then [] else BodyRoot(declared, d.ty, d.name)
  }

  /** The functions of the methods that are emitted. */
  function Surviving(methods: seq<ServiceMethod>, omitted: Omissions): seq<TypeRef> {
    if methods == [] then []
    else
      var n := |methods| - 1;
      Surviving(methods[..n], omitted) + if methods[n].name in omitted.methods then [] else [methods[n].function_]
  }

  function Named(refs: seq<TypeRef>): (r: seq<Root>)
    ensures |r| == |refs|
  { seq(|refs|, i requires 0 <= i < |refs| => ByName(refs[i])) }

  function Structures(refs: seq<TypeRef>): (r: seq<Root>)
    ensures |r| == |refs|
  { seq(|refs|, i requires 0 <= i < |refs| => Structure(refs[i])) }

  function ServiceRoots(c: Contract, declared: Declared, omitted: Omissions): seq<Root> {
    if ActorService(c).None? then []
    else
      var service := ActorService(c).value;
      var functions := Surviving(MethodsOf(c, service), omitted);
      (if service in omitted.tainted then Named(functions) else BodyRoot(declared, service, ACTOR)) + Structures(functions)
  }

  /** `roots`: the walks `Generator::module` starts, in its order. */
  method CollectRoots(c: Contract, declared: Declared, omitted: Omissions) returns (roots: seq<Root>)
    ensures roots == DeclarationRoots(c.declarations, declared, omitted) + ServiceRoots(c, declared, omitted)
  {
    hide Alias, ActorService, MethodsOf;
    roots := [];
    for n := 0 to |c.declarations|
      invariant roots == DeclarationRoots(c.declarations[..n], declared, omitted)
    {
      assert c.declarations[..n + 1][..n] == c.declarations[..n];
      var d := c.declarations[n];
      if d.name !in omitted.declarations {
        if !Alias(declared, d.ty, d.name) { roots := roots + [Structure(d.ty)]; }
      }
    }
    assert c.declarations[..|c.declarations|] == c.declarations;
    var service := ActorService(c);
    if service.None? { return; }
    var functions := SurvivingMethods(MethodsOf(c, service.value), omitted);
    hide DeclarationRoots, Surviving;
    roots := roots + if service.value in omitted.tainted then Named(functions) else BodyRoot(declared, service.value, ACTOR);
    roots := roots + Structures(functions);
  }

  method SurvivingMethods(methods: seq<ServiceMethod>, omitted: Omissions) returns (functions: seq<TypeRef>)
    ensures functions == Surviving(methods, omitted)
  {
    functions := [];
    for n := 0 to |methods|
      invariant functions == Surviving(methods[..n], omitted)
    {
      assert methods[..n + 1][..n] == methods[..n];
      if methods[n].name !in omitted.methods { functions := functions + [methods[n].function_]; }
    }
    assert methods[..|methods|] == methods;
  }

  // ----- roots start what is rendered -----

  lemma {:induction false} DeclarationRootsAre(declarations: seq<Declaration>, declared: Declared, omitted: Omissions)
    ensures forall root :: root in DeclarationRoots(declarations, declared, omitted) <==>
              root.Structure? && exists d :: d in declarations && d.ty == root.target && d.name !in omitted.declarations
                                             && !Alias(declared, d.ty, d.name)
  {
    if declarations != [] {
      var n := |declarations| - 1;
      DeclarationRootsAre(declarations[..n], declared, omitted);
      assert declarations == declarations[..n] + [declarations[n]];
    }
  }

  lemma {:induction false} SurvivingAre(methods: seq<ServiceMethod>, omitted: Omissions)
    ensures forall r :: r in Surviving(methods, omitted) <==> exists m :: m in methods && m.function_ == r && m.name !in omitted.methods
  {
    if methods != [] {
      var n := |methods| - 1;
      SurvivingAre(methods[..n], omitted);
      assert methods == methods[..n] + [methods[n]];
    }
  }

  lemma ListedRoots(refs: seq<TypeRef>)
    ensures forall root :: root in Named(refs) <==> root.ByName? && root.target in refs
    ensures forall root :: root in Structures(refs) <==> root.Structure? && root.target in refs
  {
    forall r | r in refs ensures ByName(r) in Named(refs) && Structure(r) in Structures(refs) {
      var i :| 0 <= i < |refs| && refs[i] == r;
      assert Named(refs)[i] == ByName(r) && Structures(refs)[i] == Structure(r);
    }
  }

  lemma MentionsAreChildren(node: TypeNode, x: TypeRef)
    ensures x in Children(node) <==> Mentions(node, x)
  {
    match node
    case Record(fields) => FieldMention(fields, x);
    case Variant(fields) => FieldMention(fields, x);
    case Service(methods) => MethodMention(methods, x);
    case _ =>
  }

  lemma FieldMention(fields: seq<Field>, x: TypeRef)
    ensures x in FieldTypes(fields) <==> exists f :: f in fields && f.ty == x
  {
    if f :| f in fields && f.ty == x {
      var i :| 0 <= i < |fields| && fields[i] == f;
      assert FieldTypes(fields)[i] == x;
    }
    if x in FieldTypes(fields) {
      var i :| 0 <= i < |fields| && FieldTypes(fields)[i] == x;
      assert fields[i] in fields;
    }
  }

  lemma MethodMention(methods: seq<ServiceMethod>, x: TypeRef)
    ensures x in MethodFunctions(methods) <==> exists m :: m in methods && m.function_ == x
  {
    if m :| m in methods && m.function_ == x {
      var i :| 0 <= i < |methods| && methods[i] == m;
      assert MethodFunctions(methods)[i] == x;
    }
    if x in MethodFunctions(methods) {
      var i :| 0 <= i < |methods| && MethodFunctions(methods)[i] == x;
      assert methods[i] in methods;
    }
  }

  lemma StructureStarts(c: Contract, declared: Declared, t: TypeRef, s: TypeRef)
    requires t < |c.types|
    ensures StartsAt(ChildLists(c.types), declared.Keys, Structure(t), s) <==> s !in declared && Opens(c, declared, t, s)
  {
    MentionsAreChildren(c.types[t], s);
    hide Mentions, Children;
  }

  function RootsOf(c: Contract, declared: Declared, omitted: Omissions): seq<Root> {
    DeclarationRoots(c.declarations, declared, omitted) + ServiceRoots(c, declared, omitted)
  }

  /** Every root is in range. */
  lemma RootsInRange(c: Contract, declared: Declared, omitted: Omissions)
    requires InBounds(c)
    ensures forall i :: 0 <= i < |RootsOf(c, declared, omitted)| ==> RootsOf(c, declared, omitted)[i].target < |c.types|
  {
    DeclarationRootsAre(c.declarations, declared, omitted);
    hide DeclarationRoots, ServiceRoots;
    ServiceRootsInRange(c, declared, omitted);
    var roots := RootsOf(c, declared, omitted);
    forall i | 0 <= i < |roots| ensures roots[i].target < |c.types| {
      assert roots[i] in DeclarationRoots(c.declarations, declared, omitted) || roots[i] in ServiceRoots(c, declared, omitted);
    }
  }

  lemma ServiceInRange(c: Contract)
    requires InBounds(c)
    ensures ActorService(c).Some? ==> ActorService(c).value < |c.types|
    ensures ActorService(c).Some? ==> forall m :: m in MethodsOf(c, ActorService(c).value) ==> m.function_ < |c.types|
  {
    if c.actor.Some? && c.types[c.actor.value.target].Class? {
      assert RefsBelow(c.types[c.actor.value.target], |c.types|);
      assert c.types[c.actor.value.target].service in StoredRefs(c.types[c.actor.value.target]);
    }
    if ActorService(c).Some? {
      var service := ActorService(c).value;
      assert RefsBelow(c.types[service], |c.types|);
      if c.types[service].Service? {
        assert StoredRefs(c.types[service]) == MethodFunctions(c.types[service].methods);
        MethodRefs(c.types[service].methods, |c.types|);
      }
    }
  }

  lemma ServiceRootsInRange(c: Contract, declared: Declared, omitted: Omissions)
    requires InBounds(c)
    ensures forall root :: root in ServiceRoots(c, declared, omitted) ==> root.target < |c.types|
  {
    ServiceInRange(c);
    hide InBounds, ActorService, MethodsOf;
    if ActorService(c).Some? {
      var methods := MethodsOf(c, ActorService(c).value);
      SurvivingAre(methods, omitted);
      ListedRoots(Surviving(methods, omitted));
      hide Surviving, Named, Structures;
    }
  }

  /** The starts of the roots are the starts of the rendering. */
  lemma RootsStart(c: Contract, declared: Declared, omitted: Omissions, s: TypeRef)
    requires InBounds(c)
    ensures (exists root :: root in RootsOf(c, declared, omitted) && StartsAt(ChildLists(c.types), declared.Keys, root, s))
            <==> Starts(c, declared, omitted, s)
  {
    DeclarationRootsStart(c, declared, omitted, s);
    ServiceRootsStart(c, declared, omitted, s);
    hide InBounds, StartsAt, ByDeclaration, ByService, BySignature, DeclarationRoots, ServiceRoots, ActorService;
    var first, second := DeclarationRoots(c.declarations, declared, omitted), ServiceRoots(c, declared, omitted);
    assert forall root :: root in RootsOf(c, declared, omitted) <==> root in first || root in second;
    if ActorService(c).None? { NoServiceRoots(c, declared, omitted); }
    NoDeclaredStart(c, declared, s);
  }

  lemma NoDeclaredStart(c: Contract, declared: Declared, s: TypeRef)
    ensures forall root :: StartsAt(ChildLists(c.types), declared.Keys, root, s) ==> s !in declared
  {
  }

  lemma NoServiceRoots(c: Contract, declared: Declared, omitted: Omissions)
    requires ActorService(c).None?
    ensures ServiceRoots(c, declared, omitted) == []
  {
  }

  lemma DeclarationRootsStart(c: Contract, declared: Declared, omitted: Omissions, s: TypeRef)
    requires InBounds(c)
    ensures (exists root :: root in DeclarationRoots(c.declarations, declared, omitted)
                            && StartsAt(ChildLists(c.types), declared.Keys, root, s))
            <==> s !in declared && ByDeclaration(c, declared, omitted, s)
  {
    DeclarationRootsAre(c.declarations, declared, omitted);
    forall t: TypeRef | t < |c.types|
      ensures StartsAt(ChildLists(c.types), declared.Keys, Structure(t), s) <==> s !in declared && Opens(c, declared, t, s)
    {
      StructureStarts(c, declared, t, s);
    }
    hide StartsAt, Opens, Alias, DeclarationRoots, ChildLists;
    if s !in declared && ByDeclaration(c, declared, omitted, s) {
      var d :| d in c.declarations && d.name !in omitted.declarations && !Alias(declared, d.ty, d.name) && Opens(c, declared, d.ty, s);
      assert Structure(d.ty) in DeclarationRoots(c.declarations, declared, omitted);
    }
    if root :| root in DeclarationRoots(c.declarations, declared, omitted) && StartsAt(ChildLists(c.types), declared.Keys, root, s) {
      var d :| d in c.declarations && d.ty == root.target && d.name !in omitted.declarations && !Alias(declared, d.ty, d.name);
    }
  }

  lemma NameStarts(c: Contract, declared: Declared, t: TypeRef, s: TypeRef)
    ensures StartsAt(ChildLists(c.types), declared.Keys, ByName(t), s) <==> s !in declared && s == t
  {
  }

  lemma ServiceRootsStart(c: Contract, declared: Declared, omitted: Omissions, s: TypeRef)
    requires InBounds(c)
    ensures ActorService(c).Some? ==>
              ((exists root :: root in ServiceRoots(c, declared, omitted) && StartsAt(ChildLists(c.types), declared.Keys, root, s))
               <==> s !in declared && (ByService(c, declared, omitted, ActorService(c).value, s)
                                       || BySignature(c, declared, omitted, ActorService(c).value, s)))
  {
    ServiceInRange(c);
    hide InBounds;
    if ActorService(c).Some? {
      var service := ActorService(c).value;
      var functions := Surviving(MethodsOf(c, service), omitted);
      SurvivingAre(MethodsOf(c, service), omitted);
      hide ActorService, MethodsOf, Surviving;
      assert forall r :: r in functions <==> exists m :: Survives(c, service, omitted, m) && m.function_ == r;
      hide Survives;
      assert ServiceRoots(c, declared, omitted)
             == (if service in omitted.tainted then Named(functions) else BodyRoot(declared, service, ACTOR)) + Structures(functions);
      forall r | r in functions ensures r < |c.types| { SurvivorInRange(c, service, omitted, r); }
      BodyStart(c, declared, omitted, service, functions, s);
      SignatureStart(c, declared, omitted, service, functions, s);
    }
  }

  lemma SurvivorInRange(c: Contract, service: TypeRef, omitted: Omissions, r: TypeRef)
    requires forall m :: m in MethodsOf(c, service) ==> m.function_ < |c.types|
    requires exists m :: Survives(c, service, omitted, m) && m.function_ == r
    ensures r < |c.types|
  {
  }

  lemma SignatureStart(c: Contract, declared: Declared, omitted: Omissions, service: TypeRef, functions: seq<TypeRef>, s: TypeRef)
    requires forall r :: r in functions <==> exists m :: Survives(c, service, omitted, m) && m.function_ == r
    requires forall r :: r in functions ==> r < |c.types|
    ensures (exists root :: root in Structures(functions) && StartsAt(ChildLists(c.types), declared.Keys, root, s))
            <==> s !in declared && BySignature(c, declared, omitted, service, s)
  {
    ListedRoots(functions);
    forall t: TypeRef | t < |c.types|
      ensures StartsAt(ChildLists(c.types), declared.Keys, Structure(t), s) <==> s !in declared && Opens(c, declared, t, s)
    {
      StructureStarts(c, declared, t, s);
    }
    hide StartsAt, Opens, ChildLists, Survives, Structures;
    if s !in declared && BySignature(c, declared, omitted, service, s) {
      var m :| Survives(c, service, omitted, m) && Opens(c, declared, m.function_, s);
      assert m.function_ in functions;
      assert Structure(m.function_) in Structures(functions);
    }
  }

  lemma BodyStart(c: Contract, declared: Declared, omitted: Omissions, service: TypeRef, functions: seq<TypeRef>, s: TypeRef)
    requires service < |c.types|
    requires forall r :: r in functions <==> exists m :: Survives(c, service, omitted, m) && m.function_ == r
    ensures var roots := if service in omitted.tainted then Named(functions) else BodyRoot(declared, service, ACTOR);
            (exists root :: root in roots && StartsAt(ChildLists(c.types), declared.Keys, root, s))
            <==> s !in declared && ByService(c, declared, omitted, service, s)
  {
    if service in omitted.tainted {
      ListedRoots(functions);
      forall t: TypeRef ensures StartsAt(ChildLists(c.types), declared.Keys, ByName(t), s) <==> s !in declared && s == t {
        NameStarts(c, declared, t, s);
      }
      hide StartsAt, Opens, ChildLists, Survives, Named, Alias;
      if s !in declared && ByService(c, declared, omitted, service, s) { assert ByName(s) in Named(functions); }
    } else {
      StructureStarts(c, declared, service, s);
      hide StartsAt, Opens, ChildLists, Survives, Named, Alias;
      if s !in declared && ByService(c, declared, omitted, service, s) {
        assert Structure(service) in BodyRoot(declared, service, ACTOR);
      }
    }
  }

  // ----- the check -----

  lemma ExpansionsAre(c: Contract, declared: Declared)
    requires Closed(c.types)
    ensures Expansions(c, declared) == Expanded(ChildLists(c.types), declared.Keys)
  {
    var lists := ChildLists(c.types);
    forall u: nat, w: nat ensures (u, w) in Expansions(c, declared) <==> (u, w) in Expanded(lists, declared.Keys) {
      ExpandedEdge(lists, declared.Keys, u, w);
      if u < |c.types| {
        MentionsAreChildren(c.types[u], w);
        if w in Children(c.types[u]) { ChildrenBelow(c.types, u, w); }
      }
      hide Mentions, Children, Expanded;
    }
  }

  lemma ChildrenBelow(types: Types, u: nat, w: nat)
    requires Closed(types) && u < |types| && w in Children(types[u])
    ensures w < |types|
  {
  }

  /** Through a node on a cycle there are walks of every length. */
  lemma {:induction false} LongWalk(e: Edges, s: nat, v: nat, n: nat) returns (q: seq<nat>)
    requires Reach(e, s, v) && OnCycle(e, v)
    ensures Walk(e, q) && |q| > n && q[0] == s && q[|q| - 1] == v
  {
    if n == 0 {
      q :| Walk(e, q) && q != [] && q[0] == s && q[|q| - 1] == v;
    } else {
      var front := LongWalk(e, s, v, n - 1);
      var p :| Walk(e, p) && |p| >= 2 && p[0] == v && p[|p| - 1] == v;
      q := front + p[1..];
      assert forall i :: |front| - 1 <= i < |q| ==> q[i] == p[i - (|front| - 1)];
      forall i | 0 <= i < |q| - 1 ensures (q[i], q[i + 1]) in e {
        if i < |front| - 1 {
          assert (front[i], front[i + 1]) in e;
        } else {
          var k := i - (|front| - 1);
          assert (p[k], p[k + 1]) in e;
        }
      }
    }
  }

  lemma RootListed(roots: seq<Root>, i: nat)
    requires i < |roots|
    ensures roots[i] in roots
  {
  }

  /** After success every rendered walk is as short as the finished list. */
  lemma FinishedBounds(c: Contract, declared: Declared, omitted: Omissions, finished: seq<nat>)
    requires InBounds(c)
    requires NoDuplicates(finished) && Descends(Expansions(c, declared), finished)
    requires forall s: nat :: Starts(c, declared, omitted, s) ==> s in finished
    ensures RenderingEnds(c, declared, omitted)
  {
    var e := Expansions(c, declared);
    hide Starts, Expansions, Descends, InBounds;
    forall p | Rendered(c, declared, omitted, p) ensures |p| <= |finished| { DescentBounds(e, finished, p[0]); }
    assert NoDeeper(c, declared, omitted, |finished|);
  }

  /** A start that reaches a cycle renders without end. */
  lemma NeverEnds(c: Contract, declared: Declared, omitted: Omissions, s: nat, v: nat)
    requires Starts(c, declared, omitted, s) && Reach(Expansions(c, declared), s, v) && OnCycle(Expansions(c, declared), v)
    ensures !RenderingEnds(c, declared, omitted)
  {
    hide Starts, Expansions, Reach, OnCycle;
    forall n: nat ensures !NoDeeper(c, declared, omitted, n) {
      var q := LongWalk(Expansions(c, declared), s, v, n);
      assert Rendered(c, declared, omitted, q);
    }
  }

  /** `check` on a contract: it succeeds exactly when every expansion the
      generator starts ends, and otherwise names an undeclared node that one
      of them reaches and comes back to. */
  method CheckRendering(c: Contract, declared: Declared, omitted: Omissions) returns (r: Result<(), UndeclaredCycle>)
    requires InBounds(c)
    ensures r.Ok? <==> RenderingEnds(c, declared, omitted)
    ensures r.Err? ==> OnCycle(Expansions(c, declared), r.error.reference)
                       && exists s: TypeRef :: Starts(c, declared, omitted, s) && Reach(Expansions(c, declared), s, r.error.reference)
  {
    hide DeclarationRoots, ServiceRoots, Expanded, Expansions, Starts, StartsAt, Reach, OnCycle, Descends, RenderingEnds, ChildLists;
    var roots := CollectRoots(c, declared, omitted);
    assert roots == RootsOf(c, declared, omitted);
    RootsInRange(c, declared, omitted);
    ghost var finished;
    r, finished := Check(c.types, declared.Keys, roots);
    ExpansionsAre(c, declared);
    forall s: nat
      ensures (exists root :: root in roots && StartsAt(ChildLists(c.types), declared.Keys, root, s)) <==> Starts(c, declared, omitted, s)
    {
      RootsStart(c, declared, omitted, s);
    }
    if r.Ok? {
      forall s: nat | Starts(c, declared, omitted, s) ensures s in finished {
        ghost var root :| root in roots && StartsAt(ChildLists(c.types), declared.Keys, root, s);
        ghost var i :| 0 <= i < |roots| && roots[i] == root;
      }
      FinishedBounds(c, declared, omitted, finished);
    } else {
      ghost var i, s: nat :| 0 <= i < |roots| && StartsAt(ChildLists(c.types), declared.Keys, roots[i], s)
                             && Reach(Expanded(ChildLists(c.types), declared.Keys), s, r.error.reference);
      RootListed(roots, i);
      NeverEnds(c, declared, omitted, s, r.error.reference);
    }
  }
}
