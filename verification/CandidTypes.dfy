/** Checked Candid types over an environment of named types, as the upstream
    checker hands them over. */
module CandidTypes {
  import opened Bytes
  import opened Wrappers
  import opened TypeGraph
  import opened Meaning

  datatype TypeField = TypeField(id: u32, ty: Type)

  datatype TypeMethod = TypeMethod(name: Bytes.Text, ty: Type)

  /** `OtherT` stands for the types that cannot come from a source document. */
  datatype Type =
    | VarT(name: Bytes.Text)
    | PrimT(primitive: PrimitiveType)
    | OptT(inner: Type)
    | VecT(inner: Type)
    | RecordT(fields: seq<TypeField>)
    | VariantT(fields: seq<TypeField>)
    | FuncT(args: seq<Type>, rets: seq<Type>, modes: seq<MethodMode>)
    | ServiceT(methods: seq<TypeMethod>)
    | ClassT(init: seq<Type>, service: Type)
    | OtherT

  type Environment = map<Bytes.Text, Type>

  datatype LowerError =
    | UnboundName(name: Bytes.Text)
    | AliasCycle(name: Bytes.Text)
    | TooManyModes
    | UnsupportedType
    | ArenaFull
    | NotAnActor
    | OptOnlyCycle(name: Bytes.Text)
    | UnnamedOptCycle

  /** The types a type is directly made of, in listed order. */
  function Parts(t: Type): seq<Type> {
    match t
    case OptT(inner) => [inner]
    case VecT(inner) => [inner]
    case RecordT(fields) => seq(|fields|, i requires 0 <= i < |fields| => fields[i].ty)
    case VariantT(fields) => seq(|fields|, i requires 0 <= i < |fields| => fields[i].ty)
    case FuncT(args, rets, _) => args + rets
    case ServiceT(methods) => seq(|methods|, i requires 0 <= i < |methods| => methods[i].ty)
    case ClassT(init, service) => init + [service]
    case _ => []
  }

  lemma PartIsSmaller(t: Type, i: nat)
    requires i < |Parts(t)|
    ensures Parts(t)[i] < t
  {
    match t
    case RecordT(fields) => assert fields[i] < t;
    case VariantT(fields) => assert fields[i] < t;
    case ServiceT(methods) => assert methods[i] < t;
    case FuncT(args, rets, _) => if i < |args| { assert args[i] < t; } else { assert rets[i - |args|] < t; }
    case ClassT(init, service) => if i < |init| { assert init[i] < t; }
    case _ =>
  }

  /** A type and everything it is made of. */
  ghost function Subterms(t: Type): set<Type>
    decreases t
  {
    assert forall i: nat :: i < |Parts(t)| ==> Parts(t)[i] < t by {
      forall i: nat | i < |Parts(t)| ensures Parts(t)[i] < t { PartIsSmaller(t, i); }
    }
    {t} + set i: nat, s: Type | i < |Parts(t)| && s in Subterms(Parts(t)[i]) :: s
  }

  lemma {:induction false} SubtermParts(u: Type, t: Type, i: nat)
    requires t in Subterms(u) && i < |Parts(t)|
    ensures Parts(t)[i] in Subterms(u)
    decreases u
  {
    if t == u {
      PartIsSmaller(u, i);
      assert Parts(u)[i] in Subterms(Parts(u)[i]);
    } else {
      var j: nat :| j < |Parts(u)| && t in Subterms(Parts(u)[j]);
      PartIsSmaller(u, j);
      SubtermParts(Parts(u)[j], t, i);
    }
  }

  /** Every type that occurs in an environment and its actor. */
  ghost function Occurring(env: Environment, actor: Option<Type>): set<Type> {
    (set n, t | n in env && t in Subterms(env[n]) :: t) + if actor.Some? then Subterms(actor.value) else {}
  }

  /** How many constructors a type is made of. */
  ghost function TypeSize(t: Type): nat
    decreases t, 1
  {
    1 + PartsSize(t, |Parts(t)|)
  }

  ghost function PartsSize(t: Type, k: nat): nat
    requires k <= |Parts(t)|
    decreases t, 0, k
  {
    if k == 0 then 0
    else
      PartIsSmaller(t, k - 1);
      PartsSize(t, k - 1) + TypeSize(Parts(t)[k - 1])
  }

  lemma {:induction false} PartSizeWithin(t: Type, k: nat, i: nat)
    requires i < k <= |Parts(t)|
    ensures TypeSize(Parts(t)[i]) <= PartsSize(t, k)
  {
    if i < k - 1 { PartSizeWithin(t, k - 1, i); }
  }

  lemma PartIsShorter(t: Type, i: nat)
    requires i < |Parts(t)|
    ensures TypeSize(Parts(t)[i]) < TypeSize(t)
  {
    PartSizeWithin(t, |Parts(t)|, i);
  }

  // ----- names -----

  /** Following aliases from a name to the name of a type that is not an alias. */
  function Terminal(env: Environment, name: Bytes.Text, seen: set<Bytes.Text>): (r: Result<Bytes.Text, LowerError>)
    ensures r.Ok? ==> r.value in env && !env[r.value].VarT?
    ensures r.Err? ==> r.error.UnboundName? || r.error.AliasCycle?
    decreases env.Keys - seen
  {
    if name in seen then Err(AliasCycle(name))
    else if name !in env then Err(UnboundName(name))
    else if env[name].VarT? then
      assert name in env.Keys - seen && name !in env.Keys - (seen + {name});
      Terminal(env, env[name].name, seen + {name})
    else Ok(name)
  }

  /** What a type stands for once its own aliases are followed. */
  function Denotation(env: Environment, t: Type): (r: Result<Type, LowerError>)
    ensures r.Ok? ==> !r.value.VarT?
    ensures r.Err? ==> r.error.UnboundName? || r.error.AliasCycle?
  {
    match t
    case VarT(name) =>
      var terminal := Terminal(env, name, {});
      if terminal.Ok? then Ok(env[terminal.value]) else Err(terminal.error)
    case _ => Ok(t)
  }

  lemma {:induction false} TerminalOfTerminal(env: Environment, name: Bytes.Text, seen: set<Bytes.Text>)
    requires Terminal(env, name, seen).Ok?
    ensures Terminal(env, Terminal(env, name, seen).value, {}) == Ok(Terminal(env, name, seen).value)
    decreases env.Keys - seen
  {
    if env[name].VarT? {
      assert name in env.Keys - seen && name !in env.Keys - (seen + {name});
      TerminalOfTerminal(env, env[name].name, seen + {name});
    }
  }

  // ----- edges of types -----

  function KindOfType(t: Type): Option<Kind> {
    match t
    case PrimT(p) => Some(PrimitiveKind(p))
    case OptT(_) => Some(OptKind)
    case VecT(_) => Some(VecKind)
    case RecordT(_) => Some(RecordKind)
    case VariantT(_) => Some(VariantKind)
    case FuncT(args, rets, modes) => Some(FuncKind(|args|, |rets|, if modes == [] then Update else modes[0]))
    case ServiceT(_) => Some(ServiceKind)
    case ClassT(init, _) => Some(ClassKind(|init|))
    case _ => None
  }

  /** The type under a label of a type. */
  ghost predicate TypeEdge(t: Type, name: Label, part: Type) {
    match name
    case InnerLabel => (t.OptT? || t.VecT?) && t.inner == part
    case FieldLabel(id) => (t.RecordT? || t.VariantT?) && TypeField(id, part) in t.fields
    case MethodLabel(text) => t.ServiceT? && TypeMethod(text, part) in t.methods
    case ArgumentLabel(i) => t.FuncT? && i < |t.args| && t.args[i] == part
    case ResultLabel(i) => t.FuncT? && i < |t.rets| && t.rets[i] == part
    case InitLabel(i) => t.ClassT? && i < |t.init| && t.init[i] == part
    case ServiceLabel => t.ClassT? && t.service == part
  }

  ghost predicate TypeHasLabel(t: Type, name: Label) {
    exists part :: TypeEdge(t, name, part)
  }

  /** Two types agree on their kind and labels, and equal labels lead to types
      that stand for related types. */
  ghost predicate TypesMatch(e: Environment, t: Type, f: Environment, u: Type, related: set<(Type, Type)>) {
    && KindOfType(t).Some? && KindOfType(t) == KindOfType(u)
    && (forall l :: TypeHasLabel(t, l) <==> TypeHasLabel(u, l))
    && forall l, p, q :: TypeEdge(t, l, p) && TypeEdge(u, l, q) ==> StandFor(e, p, f, q, related)
  }

  ghost predicate StandFor(e: Environment, p: Type, f: Environment, q: Type, related: set<(Type, Type)>) {
    && Denotation(e, p).Ok? && Denotation(f, q).Ok?
    && (Denotation(e, p).value, Denotation(f, q).value) in related
  }

  ghost predicate TypeBisimulation(e: Environment, f: Environment, related: set<(Type, Type)>) {
    forall x :: x in related ==> TypesMatch(e, x.0, f, x.1, related)
  }

  /** Two types mean the same Candid type: aliases are followed, recursion is
      unfolded, and the listing order of fields and methods does not count. */
  ghost predicate SameCandidType(e: Environment, t: Type, f: Environment, u: Type) {
    exists related: set<(Type, Type)> :: TypeBisimulation(e, f, related) && StandFor(e, t, f, u, related)
  }
}
