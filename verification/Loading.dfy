/** The import loader: a stack of requests, each with its chain of importing
    sources, over resolved units that are loaded once. */
module Loading {
  import opened Wrappers
  import opened Sorting
  import opened Budgets
  import opened SourceIds

  datatype ImportKind = TypeImport | ServiceImport

  datatype Import = Import(spelling: string, target: string, kind: ImportKind)

  datatype Unit = Unit(name: string, source: string, imports: seq<Import>, includeActor: bool)

  datatype Request = Request(id: string, includeActor: bool, depth: nat, ancestors: seq<string>)

  datatype LoadLimits = LoadLimits(
    importDepth: nat, importEdges: nat, sources: nat, sourceBytes: nat, bundleBytes: nat, sourceIdBytes: nat)

  datatype LoadError =
    | Unresolved(code: string)
    | Unparsed(code: string)
    | BadId(reason: IdError)
    | NonCanonicalId(id: string)
    | IdentityMismatch(expected: string, found: string)
    | ImportCycle(id: string)
    | OverLimit(error: BudgetError)

  /** A resolver that always gives the same answers, and the checks and parse of
      one source text, which yield its imports in order. */
  datatype World = World(
    identify: (Option<string>, string) -> Result<string, string>,
    fetch: string -> Result<(string, string), string>,
    parse: string -> Result<seq<(string, ImportKind)>, string>)

  /** The loader's variables and its share of the budget. */
  datatype Progress = Progress(units: seq<Unit>, pending: seq<Request>, sources: nat, bytes: nat, edges: nat)

  function CharBytes(c: char): nat {
    if c < '\U{80}' then 1 else if c < '\U{800}' then 2 else if c < '\U{10000}' then 3 else 4
  }

  /** The length of a text in UTF-8. */
  function ByteLength(s: string): nat {
    if s == "" then 0 else CharBytes(s[0]) + ByteLength(s[1..])
  }

  function ValidateId(id: string): (r: Result<string, LoadError>)
    ensures r.Ok? ==> r.value == id && Parse(id) == Ok(id)
  {
    var parsed := Parse(id);
    if parsed.Err? then Err(BadId(parsed.error))
    else if parsed.value != id then Err(NonCanonicalId(id))
    else Ok(id)
  }

  function Names(units: seq<Unit>): (r: seq<string>)
    ensures |r| == |units| && forall i :: 0 <= i < |r| ==> r[i] == units[i].name
  { seq(|units|, i requires 0 <= i < |units| => units[i].name) }

  function OverBy(resource: string, limit: nat, observed: nat): LoadError {
    OverLimit(ResourceLimit(resource, limit, observed))
  }

  /** `accept_source`: per-source limit, then the cumulative ones, then the
      length of the identifier. */
  function Accept(limits: LoadLimits, p: Progress, id: string, source: string): (q: Result<Progress, LoadError>)
    ensures q.Ok? ==> q.value.units == p.units && q.value.pending == p.pending && q.value.edges == p.edges
    ensures q.Ok? ==> q.value.sources == p.sources + 1 <= limits.sources
  {
    var size := ByteLength(source);
    if size > limits.sourceBytes then Err(OverBy("source_bytes", limits.sourceBytes, size))
    else if p.sources + 1 > limits.sources then Err(OverBy("sources", limits.sources, p.sources + 1))
    else if p.bytes + size > limits.bundleBytes then Err(OverBy("bundle_bytes", limits.bundleBytes, p.bytes + size))
    else if ByteLength(id) > limits.sourceIdBytes then Err(OverBy("source_id_bytes", limits.sourceIdBytes, ByteLength(id)))
    else Ok(p.(sources := p.sources + 1, bytes := p.bytes + size))
  }

  function IdentifyValid(w: World, from: Option<string>, spelling: string): Result<string, LoadError> {
    var id := w.identify(from, spelling);
    if id.Err? then Err(Unresolved(id.error)) else ValidateId(id.value)
  }

  /** The targets of the imports of a source, in order, up to the first that
      cannot be identified. */
  function Identify(w: World, from: string, imports: seq<(string, ImportKind)>): (r: Result<seq<Import>, LoadError>)
    ensures r.Ok? ==> |r.value| == |imports|
  {
    if imports == [] then Ok([])
    else
      var target := IdentifyValid(w, Some(from), imports[0].0);
      if target.Err? then Err(target.error)
      else
        var rest := Identify(w, from, imports[1..]);
        if rest.Err? then rest else Ok([Import(imports[0].0, target.value, imports[0].1)] + rest.value)
  }

  /** The requests of a source's imports, pushed so that the first is on top. */
  function Requests(imports: seq<Import>, depth: nat, ancestors: seq<string>): (r: seq<Request>)
    ensures |r| == |imports|
    ensures forall i :: 0 <= i < |r| ==>
              var m := imports[|imports| - 1 - i];
              r[i] == Request(m.target, m.kind.ServiceImport?, depth, ancestors)
  {
    seq(|imports|, i requires 0 <= i < |imports| =>
      var m := imports[|imports| - 1 - i];
      Request(m.target, m.kind.ServiceImport?, depth, ancestors))
  }

  /** Parsing an accepted source and identifying what it imports. */
  function ReadImports(w: World, limits: LoadLimits, p: Progress, r: Request, id: string, source: string)
    : (q: Result<Progress, LoadError>)
    ensures q.Ok? ==> q.value.sources == p.sources
  {
    var parsed := w.parse(source);
    if parsed.Err? then Err(Unparsed(parsed.error))
    else if p.edges + |parsed.value| > limits.importEdges then
      Err(OverBy("import_edges", limits.importEdges, p.edges + |parsed.value|))
    else
      var imports := Identify(w, id, parsed.value);
      if imports.Err? then Err(imports.error)
      else
        Ok(p.(
           units := p.units + [Unit(id, source, imports.value, r.includeActor)],
           pending := p.pending + Requests(imports.value, r.depth + 1, r.ancestors + [id]),
           edges := p.edges + |parsed.value|))
  }

  /** Loading a source that was not loaded before. */
  function Open(w: World, limits: LoadLimits, p: Progress, r: Request): (q: Result<Progress, LoadError>)
    ensures q.Ok? ==> q.value.sources == p.sources + 1 <= limits.sources
  {
    var resolved := w.fetch(r.id);
    if resolved.Err? then Err(Unresolved(resolved.error))
    else
      var (id, source) := resolved.value;
      var valid := ValidateId(id);
      if valid.Err? then Err(valid.error)
      else if id != r.id then Err(IdentityMismatch(r.id, id))
      else
        var accepted := Accept(limits, p, id, source);
        if accepted.Err? then accepted else ReadImports(w, limits, accepted.value, r, id, source)
  }

  function MarkActor(units: seq<Unit>, i: nat, actor: bool): seq<Unit>
    requires i < |units|
  {
    units[i := units[i].(includeActor := units[i].includeActor || actor)]
  }

  /** One turn of the loop. */
  function Step(w: World, limits: LoadLimits, p: Progress): (q: Result<Progress, LoadError>)
    requires p.pending != []
    ensures q.Ok? ==>
              || p.sources < q.value.sources <= limits.sources
              || (q.value.sources == p.sources && |q.value.pending| < |p.pending|)
  {
    var r := p.pending[|p.pending| - 1];
    var rest := p.(pending := p.pending[..|p.pending| - 1]);
    if r.depth > limits.importDepth then Err(OverBy("import_depth", limits.importDepth, r.depth))
    else if r.id in r.ancestors then Err(ImportCycle(r.id))
    else if r.id in Names(p.units) then Ok(rest.(units := MarkActor(p.units, IndexOf(Names(p.units), r.id), r.includeActor)))
    else Open(w, limits, rest, r)
  }

  ghost function Room(limits: LoadLimits, p: Progress): nat {
    if p.sources <= limits.sources then limits.sources - p.sources else 0
  }

  /** The loop. */
  function Run(w: World, limits: LoadLimits, p: Progress): Result<Progress, LoadError>
    decreases Room(limits, p), |p.pending|
  {
    if p.pending == [] then Ok(p)
    else
      var next := Step(w, limits, p);
      if next.Err? then next else Run(w, limits, next.value)
  }

  /** The first import spelling over the identifier limit. */
  function LongSpelling(limits: LoadLimits, spellings: seq<string>): Option<string> {
    if spellings == [] then None
    else if ByteLength(spellings[0]) > limits.sourceIdBytes then Some(spellings[0])
    else LongSpelling(limits, spellings[1..])
  }

  function SpellingsOf(imports: seq<Import>): (r: seq<string>)
    ensures |r| == |imports|
  { seq(|imports|, i requires 0 <= i < |imports| => imports[i].spelling) }

  function Spellings(units: seq<Unit>): seq<string> {
    if units == [] then [] else SpellingsOf(units[0].imports) + Spellings(units[1..])
  }

  function Started(id: string, sources: nat, bytes: nat, edges: nat): Progress {
    Progress([], [Request(id, true, 0, [])], sources, bytes, edges)
  }

  function Finish(limits: LoadLimits, p: Progress, id: string): Result<(seq<Unit>, string), LoadError> {
    var long := LongSpelling(limits, Spellings(p.units));
    if long.Some? then Err(OverBy("source_id_bytes", limits.sourceIdBytes, ByteLength(long.value)))
    else Ok((p.units, id))
  }

  /** Loading an entry with a budget already used so far. */
  function Load(w: World, limits: LoadLimits, entry: string, sources: nat, bytes: nat, edges: nat)
    : Result<(seq<Unit>, string), LoadError>
  {
    var id := IdentifyValid(w, None, entry);
    if id.Err? then Err(id.error)
    else
      var done := Run(w, limits, Started(id.value, sources, bytes, edges));
      if done.Err? then Err(done.error) else Finish(limits, done.value, id.value)
  }

  // ----- what is charged -----

  function BytesOf(units: seq<Unit>): nat {
    if units == [] then 0 else BytesOf(units[..|units| - 1]) + ByteLength(units[|units| - 1].source)
  }

  function EdgesOf(units: seq<Unit>): nat {
    if units == [] then 0 else EdgesOf(units[..|units| - 1]) + |units[|units| - 1].imports|
  }

  lemma {:induction false} MarkKeepsSums(units: seq<Unit>, i: nat, actor: bool)
    requires i < |units|
    ensures BytesOf(MarkActor(units, i, actor)) == BytesOf(units) && EdgesOf(MarkActor(units, i, actor)) == EdgesOf(units)
  {
    var n, marked := |units| - 1, MarkActor(units, i, actor);
    if i == n {
      assert marked[..n] == units[..n];
    } else {
      assert marked[..n] == MarkActor(units[..n], i, actor) && marked[n] == units[n];
      MarkKeepsSums(units[..n], i, actor);
    }
  }

  /** From one progress to a later one, the counters moved by what was loaded. */
  ghost predicate PaidFor(p: Progress, q: Progress) {
    && q.sources - p.sources == |q.units| - |p.units|
    && q.bytes - p.bytes == BytesOf(q.units) - BytesOf(p.units)
    && q.edges - p.edges == EdgesOf(q.units) - EdgesOf(p.units)
  }

  /** Loading a source pays for the one unit it adds. */
  lemma OpenPays(w: World, limits: LoadLimits, p: Progress, r: Request)
    requires Open(w, limits, p, r).Ok?
    ensures PaidFor(p, Open(w, limits, p, r).value)
  {
    var (id, source) := w.fetch(r.id).value;
    ReadPays(w, limits, Accept(limits, p, id, source).value, r, id, source);
    hide ReadImports, ByteLength, ValidateId, BytesOf, EdgesOf;
  }

  lemma ReadPays(w: World, limits: LoadLimits, p: Progress, r: Request, id: string, source: string)
    requires ReadImports(w, limits, p, r, id, source).Ok?
    ensures var q := ReadImports(w, limits, p, r, id, source).value;
            && q.sources == p.sources && q.bytes == p.bytes && |q.units| == |p.units| + 1
            && BytesOf(q.units) == BytesOf(p.units) + ByteLength(source)
            && q.edges - p.edges == EdgesOf(q.units) - EdgesOf(p.units)
  {
    hide Identify, Requests, ByteLength;
    var q := ReadImports(w, limits, p, r, id, source).value;
    assert q.units[..|q.units| - 1] == p.units;
  }

  lemma StepPays(w: World, limits: LoadLimits, p: Progress)
    requires p.pending != [] && Step(w, limits, p).Ok?
    ensures PaidFor(p, Step(w, limits, p).value)
  {
    var r, rest := p.pending[|p.pending| - 1], p.pending[..|p.pending| - 1];
    if r.id in Names(p.units) {
      MarkKeepsSums(p.units, IndexOf(Names(p.units), r.id), r.includeActor);
    } else {
      OpenPays(w, limits, p.(pending := rest), r);
    }
    hide Open, Names, BytesOf, EdgesOf;
  }

  /** A successful run charges one source for every unit, the bytes of their
      texts and all their imports. */
  lemma {:induction false} RunPays(w: World, limits: LoadLimits, p: Progress)
    requires Run(w, limits, p).Ok?
    ensures PaidFor(p, Run(w, limits, p).value) && Run(w, limits, p).value.pending == []
    decreases Room(limits, p), |p.pending|
  {
    hide Step, BytesOf, EdgesOf;
    if p.pending != [] {
      StepPays(w, limits, p);
      RunPays(w, limits, Step(w, limits, p).value);
    }
  }

  // ----- the loop itself -----

  function SpentBy(units: seq<Unit>, pending: seq<Request>, budget: Budget): Progress
    reads budget
  {
    Progress(units, pending, budget.Consumed("sources"), budget.Consumed("bundle_bytes"), budget.Consumed("import_edges"))
  }

  method AcceptSource(limits: LoadLimits, budget: Budget, id: string, source: string,
                      ghost units: seq<Unit>, ghost pending: seq<Request>)
    returns (r: Result<(), LoadError>)
    modifies budget
    ensures match Accept(limits, old(SpentBy(units, pending, budget)), id, source)
            case Ok(p) => r.Ok? && SpentBy(units, pending, budget) == p
            case Err(e) => r == Err(e)
  {
    var size := ByteLength(source);
    if size > limits.sourceBytes { return Err(OverBy("source_bytes", limits.sourceBytes, size)); }
    var counted := budget.Charge("sources", limits.sources, 1);
    if counted.Err? { return Err(OverLimit(counted.error)); }
    var weighed := budget.Charge("bundle_bytes", limits.bundleBytes, size);
    if weighed.Err? { return Err(OverLimit(weighed.error)); }
    if ByteLength(id) > limits.sourceIdBytes {
      return Err(OverBy("source_id_bytes", limits.sourceIdBytes, ByteLength(id)));
    }
    r := Ok(());
  }

  method IdentifyAll(w: World, from: string, imports: seq<(string, ImportKind)>)
    returns (r: Result<seq<Import>, LoadError>)
    ensures r == Identify(w, from, imports)
  {
    hide IdentifyValid;
    var found: seq<Import> := [];
    ghost var whole := Identify(w, from, imports);
    assert imports[0..] == imports && (whole.Ok? ==> found + whole.value == whole.value);
    for i := 0 to |imports|
      invariant match Identify(w, from, imports[i..])
                case Ok(rest) => Identify(w, from, imports) == Ok(found + rest)
                case Err(e) => Identify(w, from, imports) == Err(e)
    {
      assert imports[i..][0] == imports[i] && imports[i..][1..] == imports[i + 1..];
      var target := IdentifyValid(w, Some(from), imports[i].0);
      if target.Err? { return Err(target.error); }
      ghost var rest := Identify(w, from, imports[i + 1..]);
      ghost var next := Import(imports[i].0, target.value, imports[i].1);
      assert rest.Ok? ==> found + ([next] + rest.value) == found + [next] + rest.value;
      found := found + [Import(imports[i].0, target.value, imports[i].1)];
    }
    assert found + [] == found;
    r := Ok(found);
  }

  /** The index of every loaded source. */
  ghost predicate Indexed(units: seq<Unit>, indexes: map<string, nat>) {
    && (forall id :: id in indexes <==> id in Names(units))
    && forall id :: id in Names(units) ==> indexes[id] == IndexOf(Names(units), id)
  }

  lemma {:induction false} IndexOfFirst(s: seq<string>, t: seq<string>, x: string)
    requires x in s
    ensures IndexOf(s + t, x) == IndexOf(s, x)
  {
    assert (s + t)[0] == s[0];
    if s[0] != x {
      assert (s + t)[1..] == s[1..] + t;
      IndexOfFirst(s[1..], t, x);
    }
  }

  lemma {:induction false} IndexOfLast(s: seq<string>, x: string)
    requires x !in s
    ensures IndexOf(s + [x], x) == |s|
  {
    if s != [] {
      assert (s + [x])[0] == s[0] && (s + [x])[1..] == s[1..] + [x];
      IndexOfLast(s[1..], x);
    }
  }

  lemma IndexedOpen(units: seq<Unit>, indexes: map<string, nat>, u: Unit)
    requires Indexed(units, indexes) && u.name !in Names(units)
    ensures Indexed(units + [u], indexes[u.name := |units|])
  {
    assert Names(units + [u]) == Names(units) + [u.name];
    forall id | id in Names(units) ensures IndexOf(Names(units) + [u.name], id) == IndexOf(Names(units), id) {
      IndexOfFirst(Names(units), [u.name], id);
    }
    IndexOfLast(Names(units), u.name);
  }

  /** Parsing an accepted source: the new unit and its requests. */
  method OpenAccepted(w: World, limits: LoadLimits, budget: Budget, request: Request, id: string, source: string,
                    ghost units: seq<Unit>, ghost pending: seq<Request>)
    returns (r: Result<(Unit, seq<Request>), LoadError>)
    modifies budget
    ensures match ReadImports(w, limits, old(SpentBy(units, pending, budget)), request, id, source)
            case Ok(q) =>
              r.Ok? && r.value.0.name == id && SpentBy(units + [r.value.0], pending + r.value.1, budget) == q
            case Err(e) => r == Err(e)
  {
    hide Identify, Requests;
    var parsed := w.parse(source);
    if parsed.Err? { return Err(Unparsed(parsed.error)); }
    var charged := budget.Charge("import_edges", limits.importEdges, |parsed.value|);
    if charged.Err? { return Err(OverLimit(charged.error)); }
    var imports := IdentifyAll(w, id, parsed.value);
    if imports.Err? { return Err(imports.error); }
    r := Ok((Unit(id, source, imports.value, request.includeActor),
             Requests(imports.value, request.depth + 1, request.ancestors + [id])));
  }

  /** Loading a source not loaded before: the new unit and its requests. */
  method OpenSource(w: World, limits: LoadLimits, budget: Budget, request: Request,
                    ghost units: seq<Unit>, ghost pending: seq<Request>)
    returns (r: Result<(Unit, seq<Request>), LoadError>)
    modifies budget
    ensures match Open(w, limits, old(SpentBy(units, pending, budget)), request)
            case Ok(q) =>
              r.Ok? && r.value.0.name == request.id && SpentBy(units + [r.value.0], pending + r.value.1, budget) == q
            case Err(e) => r == Err(e)
  {
    hide Accept, ReadImports, ValidateId;
    var resolved := w.fetch(request.id);
    if resolved.Err? { return Err(Unresolved(resolved.error)); }
    var (id, source) := resolved.value;
    var valid := ValidateId(id);
    if valid.Err? { return Err(valid.error); }
    if id != request.id { return Err(IdentityMismatch(request.id, id)); }
    var accepted := AcceptSource(limits, budget, id, source, units, pending);
    if accepted.Err? { return Err(accepted.error); }
    r := OpenAccepted(w, limits, budget, request, id, source, units, pending);
  }

  method CheckSpellings(limits: LoadLimits, spellings: seq<string>) returns (long: Option<string>)
    ensures long == LongSpelling(limits, spellings)
  {
    assert spellings[0..] == spellings;
    for i := 0 to |spellings|
      invariant LongSpelling(limits, spellings) == LongSpelling(limits, spellings[i..])
    {
      assert spellings[i..][0] == spellings[i] && spellings[i..][1..] == spellings[i + 1..];
      if ByteLength(spellings[i]) > limits.sourceIdBytes { return Some(spellings[i]); }
    }
    long := None;
  }

  /** `load_source_units_with_resolver`. */
  method LoadSourceUnits(w: World, limits: LoadLimits, budget: Budget, entry: string)
    returns (r: Result<(seq<Unit>, string), LoadError>)
    modifies budget
    ensures r == Load(w, limits, entry, old(budget.Consumed("sources")), old(budget.Consumed("bundle_bytes")),
                      old(budget.Consumed("import_edges")))
    ensures r.Ok? ==>
              && budget.Consumed("sources") == old(budget.Consumed("sources")) + |r.value.0|
              && budget.Consumed("bundle_bytes") == old(budget.Consumed("bundle_bytes")) + BytesOf(r.value.0)
              && budget.Consumed("import_edges") == old(budget.Consumed("import_edges")) + EdgesOf(r.value.0)
  {
    hide Open, ByteLength, ValidateId, Spellings, LongSpelling, Indexed, Requests, Names;
    var entryId := IdentifyValid(w, None, entry);
    if entryId.Err? { return Err(entryId.error); }
    var units: seq<Unit> := [];
    var indexes: map<string, nat> := map[];
    var pending := [Request(entryId.value, true, 0, [])];
    ghost var result := Run(w, limits, SpentBy(units, pending, budget));
    IndexedEmpty();
    ghost var start := SpentBy(units, pending, budget);
    while pending != []
      invariant Indexed(units, indexes)
      invariant Run(w, limits, SpentBy(units, pending, budget)) == result
      decreases Room(limits, SpentBy(units, pending, budget)), |pending|
    {
      ghost var before := SpentBy(units, pending, budget);
      var request := pending[|pending| - 1];
      pending := pending[..|pending| - 1];
      ghost var next := Step(w, limits, before);
      if request.depth > limits.importDepth {
        return Err(OverBy("import_depth", limits.importDepth, request.depth));
      }
      if request.id in request.ancestors { return Err(ImportCycle(request.id)); }
      IndexedFinds(units, indexes, request.id);
      if request.id in indexes {
        var i := indexes[request.id];
        IndexedMarks(units, indexes, i, request.includeActor);
        units := MarkActor(units, i, request.includeActor);
      } else {
        var loaded := OpenSource(w, limits, budget, request, units, pending);
        if loaded.Err? { return Err(loaded.error); }
        var (unit, requests) := loaded.value;
        IndexedOpen(units, indexes, unit);
        indexes := indexes[unit.name := |units|];
        units := units + [unit];
        pending := pending + requests;
      }
      assert next == Ok(SpentBy(units, pending, budget));
    }
    RunPays(w, limits, start);
    var long := CheckSpellings(limits, Spellings(units));
    if long.Some? { return Err(OverBy("source_id_bytes", limits.sourceIdBytes, ByteLength(long.value))); }
    r := Ok((units, entryId.value));
  }

  lemma IndexedEmpty()
    ensures Indexed([], map[])
  {
  }

  lemma IndexedFinds(units: seq<Unit>, indexes: map<string, nat>, id: string)
    requires Indexed(units, indexes)
    ensures id in indexes <==> id in Names(units)
    ensures id in Names(units) ==> indexes[id] == IndexOf(Names(units), id) < |units|
  {
  }

  lemma IndexedMarks(units: seq<Unit>, indexes: map<string, nat>, i: nat, actor: bool)
    requires Indexed(units, indexes) && i < |units|
    ensures Names(MarkActor(units, i, actor)) == Names(units)
    ensures Indexed(MarkActor(units, i, actor), indexes)
  {
    assert Names(MarkActor(units, i, actor)) == Names(units);
  }
}
