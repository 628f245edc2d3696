/** Replaying a compilation from its recorded sources and imports: the recorded
    bundle always makes a resolver, whose entry is the original one and from
    which the same units load in the same order. */
module Replay {
  import opened Wrappers
  import opened Sorting
  import opened SourceIds
  import opened Loading
  import opened LoadedGraph
  import opened LoadedUnits

  datatype SourceFile = SourceFile(name: string, source: string)

  datatype ImportRecord = ImportRecord(from: string, spelling: string, to: string)

  datatype SourceInfo = SourceInfo(sources: seq<SourceFile>, imports: seq<ImportRecord>)

  datatype BundleError =
    | InvalidName(index: nat)
    | DuplicateName(index: nat)
    | InvalidImport(index: nat)
    | SourceMissing(index: nat)
    | AmbiguousImport(index: nat)
    | EntryMissing
    | EntryAmbiguous

  /** The resolver rebuilt from a record. */
  datatype Bundle = Bundle(entry: string, sources: map<string, string>, imports: map<(string, string), string>)

  // ----- when a record makes a resolver -----

  predicate CanonicalName(name: string) { Parse(name) == Ok(name) }

  ghost predicate Recorded(info: SourceInfo, name: string) {
    exists i :: 0 <= i < |info.sources| && info.sources[i].name == name
  }

  /** The first sources have canonical names, each its own. */
  ghost predicate SourcesUpTo(info: SourceInfo, n: nat)
    requires n <= |info.sources|
  {
    && (forall i :: 0 <= i < n ==> CanonicalName(info.sources[i].name))
    && forall i, j :: 0 <= i < j < n ==> info.sources[i].name != info.sources[j].name
  }

  ghost predicate SourcesOk(info: SourceInfo) { SourcesUpTo(info, |info.sources|) }

  ghost predicate ImportOk(info: SourceInfo, m: ImportRecord) {
    CanonicalName(m.from) && CanonicalName(m.to) && Recorded(info, m.from) && Recorded(info, m.to)
  }

  ghost predicate ImportsUpTo(info: SourceInfo, n: nat)
    requires n <= |info.imports|
  {
    (forall k :: 0 <= k < n ==> ImportOk(info, info.imports[k])) && Unambiguous(info, n)
  }

  ghost predicate ImportsOk(info: SourceInfo) { ImportsUpTo(info, |info.imports|) }

  /** One spelling in one source. */
  function KeyOf(m: ImportRecord): (string, string) { (m.from, m.spelling) }

  ghost predicate Clash(m: ImportRecord, n: ImportRecord) { KeyOf(m) == KeyOf(n) && m.to != n.to }

  ghost predicate Unambiguous(info: SourceInfo, n: nat)
    requires n <= |info.imports|
  {
    forall k, l :: 0 <= k < l < n ==> !Clash(info.imports[k], info.imports[l])
  }

  /** A recorded source that no recorded import leads to. */
  ghost predicate IsRoot(info: SourceInfo, name: string) {
    Recorded(info, name) && forall k :: 0 <= k < |info.imports| ==> info.imports[k].to != name
  }

  ghost predicate Describes(info: SourceInfo, sources: map<string, string>, n: nat)
    requires n <= |info.sources|
  {
    && (forall i :: 0 <= i < n ==> info.sources[i].name in sources && sources[info.sources[i].name] == info.sources[i].source)
    && forall name :: name in sources ==> exists i :: 0 <= i < n && info.sources[i].name == name
  }

  ghost predicate Held(m: ImportRecord, imports: map<(string, string), string>, imported: set<string>) {
    KeyOf(m) in imports && imports[KeyOf(m)] == m.to && m.to in imported
  }

  ghost predicate DescribesImports(info: SourceInfo, imports: map<(string, string), string>, imported: set<string>, n: nat)
    requires n <= |info.imports|
  {
    && (forall k :: 0 <= k < n ==> Held(info.imports[k], imports, imported))
    && (forall key :: key in imports ==> FromRecord(info, n, key))
    && forall to :: to in imported ==> Imported(info, n, to)
  }

  ghost predicate FromRecord(info: SourceInfo, n: nat, key: (string, string))
    requires n <= |info.imports|
  {
    exists k :: 0 <= k < n && KeyOf(info.imports[k]) == key
  }

  ghost predicate Imported(info: SourceInfo, n: nat, to: string)
    requires n <= |info.imports|
  {
    exists k :: 0 <= k < n && info.imports[k].to == to
  }

  /** The bundle holds the record, and its entry is the only root. */
  ghost predicate Bundles(info: SourceInfo, b: Bundle) {
    && SourcesOk(info) && ImportsOk(info)
    && Describes(info, b.sources, |info.sources|)
    && (exists imported :: DescribesImports(info, b.imports, imported, |info.imports|))
    && forall name :: IsRoot(info, name) <==> name == b.entry
  }

  ghost predicate Reason(info: SourceInfo, e: BundleError) {
    match e
    case InvalidName(i) => i < |info.sources| && !CanonicalName(info.sources[i].name)
    case DuplicateName(j) => exists i :: 0 <= i < j < |info.sources| && info.sources[i].name == info.sources[j].name
    case InvalidImport(k) =>
      k < |info.imports| && (!CanonicalName(info.imports[k].from) || !CanonicalName(info.imports[k].to))
    case SourceMissing(k) =>
      k < |info.imports| && (!Recorded(info, info.imports[k].from) || !Recorded(info, info.imports[k].to))
    case AmbiguousImport(l) => exists k :: 0 <= k < l < |info.imports| && Clash(info.imports[k], info.imports[l])
    case EntryMissing => forall name :: !IsRoot(info, name)
    case EntryAmbiguous => exists a, b :: a != b && IsRoot(info, a) && IsRoot(info, b)
  }

  /** Nothing before the named source, import or entry gives a reason, nor does
      an earlier check of the same one. */
  ghost predicate NothingBefore(info: SourceInfo, e: BundleError) {
    match e
    case InvalidName(i) => i < |info.sources| && SourcesUpTo(info, i)
    case DuplicateName(i) => i < |info.sources| && SourcesUpTo(info, i) && CanonicalName(info.sources[i].name)
    case InvalidImport(k) => k < |info.imports| && SourcesOk(info) && ImportsUpTo(info, k)
    case SourceMissing(k) =>
      k < |info.imports| && SourcesOk(info) && ImportsUpTo(info, k)
      && CanonicalName(info.imports[k].from) && CanonicalName(info.imports[k].to)
    case AmbiguousImport(k) =>
      k < |info.imports| && SourcesOk(info) && ImportsUpTo(info, k) && ImportOk(info, info.imports[k])
    case EntryMissing => SourcesOk(info) && ImportsOk(info)
    case EntryAmbiguous => SourcesOk(info) && ImportsOk(info)
  }

  ghost predicate FirstReason(info: SourceInfo, e: BundleError) {
    Reason(info, e) && NothingBefore(info, e)
  }

  /** Good records up to and including one reason for refusing it. */
  lemma SourceReasonIsBad(info: SourceInfo, e: BundleError)
    requires Reason(info, e) && NothingBefore(info, e) && (e.InvalidName? || e.DuplicateName?)
    ensures e.index < |info.sources| && SourcesUpTo(info, e.index) && !SourcesUpTo(info, e.index + 1)
  {
  }

  lemma ImportReasonIsBad(info: SourceInfo, e: BundleError)
    requires Reason(info, e) && NothingBefore(info, e) && (e.InvalidImport? || e.SourceMissing? || e.AmbiguousImport?)
    ensures SourcesOk(info) && e.index < |info.imports| && ImportsUpTo(info, e.index) && !ImportsUpTo(info, e.index + 1)
  {
    hide Clash, CanonicalName, Recorded;
  }

  lemma SourcesShrink(info: SourceInfo, m: nat, n: nat)
    requires m <= n <= |info.sources| && SourcesUpTo(info, n)
    ensures SourcesUpTo(info, m)
  {
  }

  lemma ImportsShrink(info: SourceInfo, m: nat, n: nat)
    requires m <= n <= |info.imports| && ImportsUpTo(info, n)
    ensures ImportsUpTo(info, m)
  {
  }

  /** How far a refused record is good: sources, then imports, then roots. */
  lemma SameIndex(info: SourceInfo, e: BundleError, f: BundleError)
    requires FirstReason(info, e) && FirstReason(info, f)
    ensures (e.InvalidName? || e.DuplicateName?) <==> (f.InvalidName? || f.DuplicateName?)
    ensures (e.EntryMissing? || e.EntryAmbiguous?) <==> (f.EntryMissing? || f.EntryAmbiguous?)
    ensures !e.EntryMissing? && !e.EntryAmbiguous? ==> e.index == f.index
  {
    hide Reason, NothingBefore, SourcesUpTo, ImportsUpTo;
    var n, m := |info.sources|, |info.imports|;
    Refuses(info, e);
    Refuses(info, f);
    if e.InvalidName? || e.DuplicateName? {
      if f.InvalidName? || f.DuplicateName? {
        if e.index < f.index { SourcesShrink(info, e.index + 1, f.index); }
        if f.index < e.index { SourcesShrink(info, f.index + 1, e.index); }
      } else {
        SourcesShrink(info, e.index + 1, n);
      }
    } else if f.InvalidName? || f.DuplicateName? {
      SourcesShrink(info, f.index + 1, n);
    } else if !e.EntryMissing? && !e.EntryAmbiguous? {
      if f.EntryMissing? || f.EntryAmbiguous? {
        ImportsShrink(info, e.index + 1, m);
      } else {
        if e.index < f.index { ImportsShrink(info, e.index + 1, f.index); }
        if f.index < e.index { ImportsShrink(info, f.index + 1, e.index); }
      }
    } else if !f.EntryMissing? && !f.EntryAmbiguous? {
      ImportsShrink(info, f.index + 1, m);
    }
  }

  lemma Refuses(info: SourceInfo, e: BundleError)
    requires Reason(info, e) && NothingBefore(info, e)
    ensures e.InvalidName? || e.DuplicateName? ==>
              e.index < |info.sources| && SourcesUpTo(info, e.index) && !SourcesUpTo(info, e.index + 1)
    ensures e.InvalidImport? || e.SourceMissing? || e.AmbiguousImport? ==>
              && SourcesOk(info) && e.index < |info.imports|
              && ImportsUpTo(info, e.index) && !ImportsUpTo(info, e.index + 1)
    ensures e.EntryMissing? || e.EntryAmbiguous? ==> SourcesOk(info) && ImportsOk(info)
  {
    if e.InvalidName? || e.DuplicateName? { SourceReasonIsBad(info, e); }
    if e.InvalidImport? || e.SourceMissing? || e.AmbiguousImport? { ImportReasonIsBad(info, e); }
    assert e.EntryMissing? || e.EntryAmbiguous? ==> SourcesOk(info) && ImportsOk(info);
    hide Reason, NothingBefore, SourcesUpTo, ImportsUpTo, SourcesOk, ImportsOk;
  }

  /** A record is refused for one reason only: the first. */
  lemma OneFirstReason(info: SourceInfo, e: BundleError, f: BundleError)
    requires FirstReason(info, e) && FirstReason(info, f)
    ensures e == f
  {
    SameIndex(info, e, f);
    hide SourcesUpTo, ImportsUpTo, SourcesOk, ImportsOk, IsRoot, Clash;
  }

  // ----- SourceBundleResolver::new -----

  method CollectSources(info: SourceInfo) returns (r: Result<map<string, string>, BundleError>)
    ensures match r
            case Ok(sources) => SourcesOk(info) && Describes(info, sources, |info.sources|)
            case Err(e) => FirstReason(info, e)
  {
    hide Parse;
    var sources: map<string, string> := map[];
    for i := 0 to |info.sources|
      invariant Describes(info, sources, i)
      invariant forall j :: 0 <= j < i ==> CanonicalName(info.sources[j].name)
      invariant forall j, k :: 0 <= j < k < i ==> info.sources[j].name != info.sources[k].name
    {
      var file := info.sources[i];
      if !CanonicalName(file.name) { return Err(InvalidName(i)); }
      if file.name in sources { return Err(DuplicateName(i)); }
      sources := sources[file.name := file.source];
    }
    r := Ok(sources);
  }

  method CollectImports(info: SourceInfo, sources: map<string, string>)
    returns (r: Result<(map<(string, string), string>, set<string>), BundleError>)
    requires Describes(info, sources, |info.sources|)
    ensures match r
            case Ok((imports, imported)) => ImportsOk(info) && DescribesImports(info, imports, imported, |info.imports|)
            case Err(e) => Reason(info, e) && (SourcesOk(info) ==> NothingBefore(info, e))
  {
    hide CanonicalName, Describes, Recorded, Held, FromRecord, Imported, KeyOf, Clash;
    var imports: map<(string, string), string> := map[];
    var imported: set<string> := {};
    for k := 0 to |info.imports|
      invariant DescribesImports(info, imports, imported, k)
      invariant forall l :: 0 <= l < k ==> ImportOk(info, info.imports[l])
      invariant Unambiguous(info, k)
    {
      var m := info.imports[k];
      if !CanonicalName(m.from) || !CanonicalName(m.to) { return Err(InvalidImport(k)); }
      RecordedIsHeld(info, sources, m.from);
      RecordedIsHeld(info, sources, m.to);
      if m.from !in sources || m.to !in sources { return Err(SourceMissing(k)); }
      var key := KeyOf(m);
      if key in imports && imports[key] != m.to {
        ClashFound(info, imports, imported, k);
        return Err(AmbiguousImport(k));
      }
      ImportAdded(info, imports, imported, k);
      imports := imports[key := m.to];
      imported := imported + {m.to};
    }
    r := Ok((imports, imported));
  }

  lemma RecordedIsHeld(info: SourceInfo, sources: map<string, string>, name: string)
    requires Describes(info, sources, |info.sources|)
    ensures name in sources <==> Recorded(info, name)
  {
  }

  /** A spelling already recorded with another target. */
  lemma ClashFound(info: SourceInfo, imports: map<(string, string), string>, imported: set<string>, k: nat)
    requires k < |info.imports| && DescribesImports(info, imports, imported, k)
    requires var m := info.imports[k]; KeyOf(m) in imports && imports[KeyOf(m)] != m.to
    ensures Reason(info, AmbiguousImport(k))
  {
    var m := info.imports[k];
    assert FromRecord(info, k, KeyOf(m));
    var j :| 0 <= j < k && KeyOf(info.imports[j]) == KeyOf(m);
    hide KeyOf;
    assert Held(info.imports[j], imports, imported);
    assert Clash(info.imports[j], info.imports[k]);
  }

  lemma ImportAdded(info: SourceInfo, imports: map<(string, string), string>, imported: set<string>, k: nat)
    requires k < |info.imports| && DescribesImports(info, imports, imported, k) && Unambiguous(info, k)
    requires var m := info.imports[k]; KeyOf(m) !in imports || imports[KeyOf(m)] == m.to
    ensures var m := info.imports[k]; DescribesImports(info, imports[KeyOf(m) := m.to], imported + {m.to}, k + 1)
    ensures Unambiguous(info, k + 1)
  {
    hide KeyOf;
    var m := info.imports[k];
    var more, seen := imports[KeyOf(m) := m.to], imported + {m.to};
    forall j | 0 <= j < k + 1 ensures Held(info.imports[j], more, seen) && !Clash(info.imports[j], m) {
      if j < k { assert Held(info.imports[j], imports, imported); }
    }
    forall key | key in more ensures FromRecord(info, k + 1, key) {
      if key != KeyOf(m) {
        assert FromRecord(info, k, key);
        var j :| 0 <= j < k && KeyOf(info.imports[j]) == key;
      }
    }
    forall to | to in seen ensures Imported(info, k + 1, to) {
      if to != m.to {
        assert Imported(info, k, to);
        var j :| 0 <= j < k && info.imports[j].to == to;
      }
    }
  }

  method NewResolver(info: SourceInfo) returns (r: Result<Bundle, BundleError>)
    ensures match r
            case Ok(b) => Bundles(info, b)
            case Err(e) => FirstReason(info, e)
  {
    hide SourcesOk, ImportsOk, Describes, DescribesImports, IsRoot, Reason, NothingBefore, Bundles;
    var collected := CollectSources(info);
    if collected.Err? { return Err(collected.error); }
    var sources := collected.value;
    var edges := CollectImports(info, sources);
    if edges.Err? { return Err(edges.error); }
    var (imports, imported) := edges.value;
    RootsAre(info, sources, imports, imported);
    var roots := set id | id in sources && id !in imported;
    assert forall name :: IsRoot(info, name) <==> name in roots;
    if roots == {} {
      NoEntry(info, roots);
      RecordWasGood(info, EntryMissing);
      return Err(EntryMissing);
    }
    var entry :| entry in roots;
    if roots != {entry} {
      SecondEntry(info, roots, entry);
      RecordWasGood(info, EntryAmbiguous);
      return Err(EntryAmbiguous);
    }
    r := Ok(Bundle(entry, sources, imports));
    OneEntry(info, r.value, imported, roots);
  }

  lemma RecordWasGood(info: SourceInfo, e: BundleError)
    requires SourcesOk(info) && ImportsOk(info) && (e.EntryMissing? || e.EntryAmbiguous?)
    ensures NothingBefore(info, e)
  {
  }

  lemma NoEntry(info: SourceInfo, roots: set<string>)
    requires roots == {} && forall name :: IsRoot(info, name) <==> name in roots
    ensures Reason(info, EntryMissing)
  {
    hide IsRoot;
  }

  lemma SecondEntry(info: SourceInfo, roots: set<string>, entry: string)
    requires roots != {entry} && entry in roots && forall name :: IsRoot(info, name) <==> name in roots
    ensures Reason(info, EntryAmbiguous)
  {
    hide IsRoot;
    assert exists other :: other in roots && other != entry;
  }

  lemma OneEntry(info: SourceInfo, b: Bundle, imported: set<string>, roots: set<string>)
    requires SourcesOk(info) && ImportsOk(info) && Describes(info, b.sources, |info.sources|)
    requires DescribesImports(info, b.imports, imported, |info.imports|)
    requires roots == {b.entry} && forall name :: IsRoot(info, name) <==> name in roots
    ensures Bundles(info, b)
  {
    hide IsRoot, SourcesOk, ImportsOk, Describes, DescribesImports;
  }

  lemma RootsAre(info: SourceInfo, sources: map<string, string>, imports: map<(string, string), string>, imported: set<string>)
    requires Describes(info, sources, |info.sources|) && DescribesImports(info, imports, imported, |info.imports|)
    ensures forall name :: IsRoot(info, name) <==> name in sources && name !in imported
  {
    forall name ensures IsRoot(info, name) <==> name in sources && name !in imported {
      RecordedIsHeld(info, sources, name);
      if name in imported {
        var k :| 0 <= k < |info.imports| && info.imports[k].to == name;
      }
    }
  }

  // ----- the record of a load -----

  function SourceFiles(units: seq<Unit>): (r: seq<SourceFile>)
    ensures |r| == |units| && forall i :: 0 <= i < |r| ==> r[i] == SourceFile(units[i].name, units[i].source)
  { seq(|units|, i requires 0 <= i < |units| => SourceFile(units[i].name, units[i].source)) }

  ghost predicate ImportOf(units: seq<Unit>, m: ImportRecord) {
    exists i, k :: 0 <= i < |units| && 0 <= k < |units[i].imports| && m == RecordOf(units[i], k)
  }

  function RecordOf(u: Unit, k: nat): ImportRecord
    requires k < |u.imports|
  {
    ImportRecord(u.name, u.imports[k].spelling, u.imports[k].target)
  }

  /** The record lists the sources and imports of the units, in any order. */
  ghost predicate RecordsUnits(info: SourceInfo, units: seq<Unit>) {
    && multiset(info.sources) == multiset(SourceFiles(units))
    && forall m :: m in info.imports <==> ImportOf(units, m)
  }

  lemma RecordedUnits(info: SourceInfo, units: seq<Unit>, name: string)
    requires RecordsUnits(info, units)
    ensures Recorded(info, name) <==> name in Names(units)
  {
    hide ImportOf;
    if Recorded(info, name) {
      var i :| 0 <= i < |info.sources| && info.sources[i].name == name;
      assert info.sources[i] in multiset(info.sources);
      var j :| 0 <= j < |units| && SourceFiles(units)[j] == info.sources[i];
      assert Names(units)[j] == name;
    }
    if name in Names(units) {
      var j := IndexOf(Names(units), name);
      assert SourceFiles(units)[j] in multiset(SourceFiles(units));
      assert SourceFiles(units)[j] in multiset(info.sources);
      var i :| 0 <= i < |info.sources| && info.sources[i] == SourceFiles(units)[j];
      assert info.sources[i].name == name;
    }
  }

  lemma FilesNamedOnce(units: seq<Unit>)
    requires NoDuplicates(Names(units))
    ensures NoDuplicates(SourceFiles(units))
    ensures forall x, y :: x in SourceFiles(units) && y in SourceFiles(units) && x.name == y.name ==> x == y
  {
    var files := SourceFiles(units);
    forall i, j | 0 <= i < j < |files| ensures files[i] != files[j] {
      assert Names(units)[i] != Names(units)[j];
    }
    forall x, y | x in files && y in files && x.name == y.name ensures x == y {
      var i :| 0 <= i < |files| && files[i] == x;
      var j :| 0 <= j < |files| && files[j] == y;
      assert Names(units)[i] == Names(units)[j];
      assert i == j;
    }
  }

  lemma RecordedSourcesOk(w: World, info: SourceInfo, units: seq<Unit>)
    requires RecordsUnits(info, units) && Reflects(w, units) && NoDuplicates(Names(units))
    ensures SourcesOk(info)
  {
    var files := SourceFiles(units);
    FilesNamedOnce(units);
    CountsKeepNoDuplicates(files, info.sources);
    hide ImportOf, ReadSource, Parse;
    forall i | 0 <= i < |info.sources| ensures info.sources[i] in files {
      assert info.sources[i] in multiset(info.sources) && info.sources[i] in multiset(files);
    }
    forall i | 0 <= i < |info.sources| ensures CanonicalName(info.sources[i].name) {
      var j :| 0 <= j < |units| && files[j] == info.sources[i];
      assert ReadSource(w, units[j].name) == Some((units[j].source, units[j].imports));
    }
    forall i, j | 0 <= i < j < |info.sources| ensures info.sources[i].name != info.sources[j].name {
      assert info.sources[i] != info.sources[j];
    }
  }

  /** What a resolver answered for the imports of a source. */
  lemma {:induction false} IdentifiedTargets(w: World, from: string, imports: seq<(string, ImportKind)>, k: nat)
    requires Identify(w, from, imports).Ok? && k < |imports|
    ensures var m := Identify(w, from, imports).value[k];
            m.spelling == imports[k].0 && m.kind == imports[k].1 && IdentifyValid(w, Some(from), m.spelling) == Ok(m.target)
  {
    hide IdentifyValid;
    if k > 0 { IdentifiedTargets(w, from, imports[1..], k - 1); }
  }

  lemma ImportAnswered(w: World, units: seq<Unit>, i: nat, k: nat)
    requires Reflects(w, units) && i < |units| && k < |units[i].imports|
    ensures IdentifyValid(w, Some(units[i].name), units[i].imports[k].spelling) == Ok(units[i].imports[k].target)
    ensures CanonicalName(units[i].imports[k].target)
  {
    hide Parse, Identify, IdentifyValid;
    assert ReadSource(w, units[i].name) == Some((units[i].source, units[i].imports));
    var parsed := w.parse(w.fetch(units[i].name).value.1).value;
    IdentifiedTargets(w, units[i].name, parsed, k);
    AnswersAreCanonical(w, Some(units[i].name), units[i].imports[k].spelling);
  }

  lemma AnswersAreCanonical(w: World, from: Option<string>, spelling: string)
    ensures var id := IdentifyValid(w, from, spelling); id.Ok? ==> CanonicalName(id.value)
  {
    hide Parse;
  }

  lemma RecordedImport(w: World, info: SourceInfo, units: seq<Unit>, m: ImportRecord)
    requires RecordsUnits(info, units) && Reflects(w, units) && ClosedImports(units) && m in info.imports
    ensures ImportOk(info, m) && EdgeOf(units, m.from, m.to)
    ensures IdentifyValid(w, Some(m.from), m.spelling) == Ok(m.to)
  {
    hide Parse, IdentifyValid, ReadSource;
    assert ImportOf(units, m);
    var i, k :| 0 <= i < |units| && 0 <= k < |units[i].imports| && m == RecordOf(units[i], k);
    ImportAnswered(w, units, i, k);
    assert ReadSource(w, units[i].name) == Some((units[i].source, units[i].imports));
    assert CanonicalName(units[i].name) && CanonicalName(m.to);
    assert ImportsOf(units[i], m.to) && Names(units)[i] == m.from;
    assert EdgeOf(units, m.from, m.to) && m.to in Names(units);
    RecordedUnits(info, units, m.from);
    RecordedUnits(info, units, m.to);
  }

  lemma RecordedImportsOk(w: World, info: SourceInfo, units: seq<Unit>)
    requires RecordsUnits(info, units) && Reflects(w, units) && ClosedImports(units)
    ensures ImportsOk(info)
  {
    hide ImportOk, EdgeOf, Reflects, ClosedImports, IdentifyValid, RecordsUnits;
    forall m | m in info.imports
      ensures ImportOk(info, m) && IdentifyValid(w, Some(m.from), m.spelling) == Ok(m.to)
    {
      RecordedImport(w, info, units, m);
    }
    forall k | 0 <= k < |info.imports| ensures ImportOk(info, info.imports[k]) { assert info.imports[k] in info.imports; }
    forall k, l | 0 <= k < l < |info.imports| ensures !Clash(info.imports[k], info.imports[l]) {
      assert info.imports[k] in info.imports && info.imports[l] in info.imports;
    }
  }

  lemma RecordedRoot(w: World, info: SourceInfo, units: seq<Unit>, entry: string, name: string)
    requires RecordsUnits(info, units) && Reflects(w, units) && WellLoaded(units, entry)
    ensures IsRoot(info, name) <==> name == entry
  {
    WellLoadedParts(units, entry);
    EntryIsTheRoot(units, entry, name);
    RecordedUnits(info, units, name);
    hide EdgeOf, WellLoaded, Reflects, ImportOk;
    if y :| EdgeOf(units, y, name) {
      var m := EdgeRecorded(info, units, y, name);
      var k :| 0 <= k < |info.imports| && info.imports[k] == m;
      assert info.imports[k].to == name;
    }
    if k :| 0 <= k < |info.imports| && info.imports[k].to == name {
      assert info.imports[k] in info.imports;
      RecordedImport(w, info, units, info.imports[k]);
    }
  }

  lemma EdgeRecorded(info: SourceInfo, units: seq<Unit>, x: string, y: string) returns (m: ImportRecord)
    requires RecordsUnits(info, units) && EdgeOf(units, x, y)
    ensures m in info.imports && m.to == y
  {
    var i: nat :| i < |units| && units[i].name == x && ImportsOf(units[i], y);
    var k: nat :| k < |units[i].imports| && units[i].imports[k].target == y;
    m := RecordOf(units[i], k);
    assert ImportOf(units, m);
  }

  /** The record of a successful load makes a resolver, whose entry is the
      entry of the load. */
  lemma RecordMakesResolver(w: World, limits: LoadLimits, entry: string, sources: nat, bytes: nat, edges: nat, info: SourceInfo)
    requires Load(w, limits, entry, sources, bytes, edges).Ok?
    requires RecordsUnits(info, Load(w, limits, entry, sources, bytes, edges).value.0)
    ensures forall e :: !Reason(info, e)
    ensures forall b :: Bundles(info, b) ==> b.entry == Load(w, limits, entry, sources, bytes, edges).value.1
  {
    var (units, id) := Load(w, limits, entry, sources, bytes, edges).value;
    LoadIsWellLoaded(w, limits, entry, sources, bytes, edges);
    LoadReflects(w, limits, entry, sources, bytes, edges);
    WellLoadedParts(units, id);
    RecordedSourcesOk(w, info, units);
    RecordedImportsOk(w, info, units);
    hide Load, RecordsUnits, WellLoaded, Reflects, EdgeOf, CanonicalName;
    forall name ensures IsRoot(info, name) <==> name == id { RecordedRoot(w, info, units, id, name); }
    assert IsRoot(info, id);
    hide IsRoot, Recorded, Clash;
    forall e ensures !Reason(info, e) { NoReason(info, id, e); }
  }

  lemma NoReason(info: SourceInfo, id: string, e: BundleError)
    requires SourcesOk(info) && ImportsOk(info) && forall name :: IsRoot(info, name) <==> name == id
    ensures !Reason(info, e)
  {
    hide IsRoot, Recorded, CanonicalName, Clash;
    assert IsRoot(info, id);
    match e
    case InvalidImport(k) => if k < |info.imports| { assert ImportOk(info, info.imports[k]); }
    case SourceMissing(k) => if k < |info.imports| { assert ImportOk(info, info.imports[k]); }
    case _ =>
  }

  // ----- loading from the record -----

  function BundleIdentify(b: Bundle, from: Option<string>, spelling: string): Result<string, string> {
    match from
    case None =>
      var id := Parse(spelling);
      if id.Err? then Err("did_invalid_source_id")
      else if id.value == b.entry then Ok(id.value) else Err("did_source_not_found")
    case Some(source) =>
      if (source, spelling) in b.imports then Ok(b.imports[(source, spelling)]) else Err("did_source_not_found")
  }

  function BundleFetch(b: Bundle, limits: LoadLimits, id: string): Result<(string, string), string> {
    if id !in b.sources then Err("did_source_not_found")
    else if ByteLength(b.sources[id]) > limits.sourceBytes then Err("resource_limit_exceeded")
    else Ok((id, b.sources[id]))
  }

  /** The resolver a record becomes, with the same parser. */
  function BundleWorld(b: Bundle, limits: LoadLimits, parse: string -> Result<seq<(string, ImportKind)>, string>): World {
    World((from, spelling) => BundleIdentify(b, from, spelling), id => BundleFetch(b, limits, id), parse)
  }

  /** A resolver that answers for one unit as it was loaded. */
  ghost predicate AnswersFor(v: World, u: Unit) {
    && v.fetch(u.name) == Ok((u.name, u.source))
    && forall k :: 0 <= k < |u.imports| ==> v.identify(Some(u.name), u.imports[k].spelling) == Ok(u.imports[k].target)
  }

  ghost predicate Answers(v: World, units: seq<Unit>) {
    forall i :: 0 <= i < |units| ==> AnswersFor(v, units[i])
  }

  /** The same unit, whether or not its actor is kept. */
  predicate SameSource(u: Unit, v: Unit) {
    u.name == v.name && u.source == v.source && u.imports == v.imports
  }

  ghost predicate Keeps(before: seq<Unit>, after: seq<Unit>) {
    |before| <= |after| && forall i :: 0 <= i < |before| ==> SameSource(before[i], after[i])
  }

  lemma {:induction false} RunKeepsUnits(w: World, limits: LoadLimits, p: Progress)
    requires Run(w, limits, p).Ok?
    ensures Keeps(p.units, Run(w, limits, p).value.units)
    decreases Room(limits, p), |p.pending|
  {
    hide Open, Names;
    if p.pending != [] {
      var r := p.pending[|p.pending| - 1];
      var next := Step(w, limits, p).value;
      if r.id !in Names(p.units) {
        var u := OpenAdds(w, limits, p.(pending := p.pending[..|p.pending| - 1]), r);
      }
      RunKeepsUnits(w, limits, next);
    }
  }

  lemma {:induction false} IdentifyAgain(w: World, v: World, from: string, imports: seq<(string, ImportKind)>)
    requires Identify(w, from, imports).Ok?
    requires var found := Identify(w, from, imports).value;
             forall k :: 0 <= k < |found| ==> v.identify(Some(from), found[k].spelling) == Ok(found[k].target)
    ensures Identify(v, from, imports) == Identify(w, from, imports)
  {
    hide ValidateId;
    if imports != [] {
      var found := Identify(w, from, imports).value;
      var rest := Identify(w, from, imports[1..]).value;
      assert found[0].spelling == imports[0].0;
      forall k | 0 <= k < |rest| ensures v.identify(Some(from), rest[k].spelling) == Ok(rest[k].target) {
        assert found[k + 1] == rest[k];
      }
      IdentifyAgain(w, v, from, imports[1..]);
      AnswerAgain(w, v, Some(from), imports[0].0);
    }
  }

  lemma AnswerAgain(w: World, v: World, from: Option<string>, spelling: string)
    requires IdentifyValid(w, from, spelling).Ok?
    requires v.identify(from, spelling) == Ok(IdentifyValid(w, from, spelling).value)
    ensures IdentifyValid(v, from, spelling) == IdentifyValid(w, from, spelling)
  {
  }

  lemma OpenedUnit(w: World, limits: LoadLimits, p: Progress, r: Request, u: Unit)
    requires Open(w, limits, p, r).Ok? && Open(w, limits, p, r).value.units == p.units + [u]
    ensures w.fetch(r.id) == Ok((u.name, u.source)) && u.name == r.id
    ensures w.parse(u.source).Ok? && Identify(w, u.name, w.parse(u.source).value) == Ok(u.imports)
  {
    hide Accept, Identify, ValidateId, Requests;
    var (id, source) := w.fetch(r.id).value;
    assert Open(w, limits, p, r).value.units[|p.units|] == u;
    assert u.name == id && u.source == source && w.fetch(r.id).value == (id, source);
  }

  lemma ReadDepends(w: World, v: World, limits: LoadLimits, p: Progress, r: Request, id: string, source: string)
    requires v.parse == w.parse
    requires w.parse(source).Ok? ==> Identify(v, id, w.parse(source).value) == Identify(w, id, w.parse(source).value)
    ensures ReadImports(v, limits, p, r, id, source) == ReadImports(w, limits, p, r, id, source)
  {
    hide Identify, Requests, OverBy;
  }

  lemma OpenDepends(w: World, v: World, limits: LoadLimits, p: Progress, r: Request, source: string)
    requires w.fetch(r.id) == Ok((r.id, source)) == v.fetch(r.id) && v.parse == w.parse && w.parse(source).Ok?
    requires Identify(v, r.id, w.parse(source).value) == Identify(w, r.id, w.parse(source).value)
    ensures Open(v, limits, p, r) == Open(w, limits, p, r)
  {
    hide Accept, Identify, ValidateId, ReadImports;
    var accepted := Accept(limits, p, r.id, source);
    if accepted.Ok? { ReadDepends(w, v, limits, accepted.value, r, r.id, source); }
  }

  lemma OpenAgain(w: World, v: World, limits: LoadLimits, p: Progress, r: Request, u: Unit)
    requires Open(w, limits, p, r).Ok? && v.parse == w.parse
    requires Open(w, limits, p, r).value.units == p.units + [u] && AnswersFor(v, u)
    ensures Open(v, limits, p, r) == Open(w, limits, p, r)
  {
    hide Open, Identify;
    OpenedUnit(w, limits, p, r, u);
    IdentifyAgain(w, v, u.name, w.parse(u.source).value);
    OpenDepends(w, v, limits, p, r, u.source);
  }

  /** A resolver that answers as the units were loaded repeats the whole run. */
  lemma {:induction false} RunAgain(w: World, v: World, limits: LoadLimits, p: Progress)
    requires Run(w, limits, p).Ok? && v.parse == w.parse
    requires Answers(v, Run(w, limits, p).value.units)
    ensures Run(v, limits, p) == Run(w, limits, p)
    decreases Room(limits, p), |p.pending|
  {
    hide Open, Names, AnswersFor, MarkActor;
    if p.pending != [] {
      var r := p.pending[|p.pending| - 1];
      var rest := p.(pending := p.pending[..|p.pending| - 1]);
      var next := Step(w, limits, p).value;
      if r.id !in Names(p.units) {
        var u := OpenAdds(w, limits, rest, r);
        RunKeepsUnits(w, limits, next);
        var final := Run(w, limits, p).value.units;
        assert SameSource(next.units[|p.units|], final[|p.units|]);
        SameAnswers(v, final[|p.units|], u);
        OpenAgain(w, v, limits, rest, r, u);
      }
      RunAgain(w, v, limits, next);
    }
  }

  lemma SameAnswers(v: World, u: Unit, t: Unit)
    requires AnswersFor(v, u) && SameSource(t, u)
    ensures AnswersFor(v, t)
  {
  }

  ghost predicate Fits(limits: LoadLimits, units: seq<Unit>) {
    forall i :: 0 <= i < |units| ==> ByteLength(units[i].source) <= limits.sourceBytes
  }

  lemma OpenFits(w: World, limits: LoadLimits, p: Progress, r: Request, u: Unit)
    requires Open(w, limits, p, r).Ok? && Open(w, limits, p, r).value.units == p.units + [u]
    ensures ByteLength(u.source) <= limits.sourceBytes
  {
    OpenedUnit(w, limits, p, r, u);
    OpenAccepts(w, limits, p, r);
    hide Open, ByteLength;
  }

  lemma OpenAccepts(w: World, limits: LoadLimits, p: Progress, r: Request)
    requires Open(w, limits, p, r).Ok?
    ensures w.fetch(r.id).Ok? && Accept(limits, p, r.id, w.fetch(r.id).value.1).Ok?
  {
    hide Accept, Identify, ValidateId, Requests;
  }

  lemma {:induction false} RunFits(w: World, limits: LoadLimits, p: Progress)
    requires Fits(limits, p.units) && Run(w, limits, p).Ok?
    ensures Fits(limits, Run(w, limits, p).value.units)
    decreases Room(limits, p), |p.pending|
  {
    hide Open, Names, ByteLength;
    if p.pending != [] {
      var r := p.pending[|p.pending| - 1];
      var rest := p.(pending := p.pending[..|p.pending| - 1]);
      if r.id !in Names(p.units) {
        var u := OpenAdds(w, limits, rest, r);
        OpenFits(w, limits, rest, r, u);
      }
      RunFits(w, limits, Step(w, limits, p).value);
    }
  }

  lemma BundleFetches(info: SourceInfo, units: seq<Unit>, b: Bundle, i: nat)
    requires multiset(info.sources) == multiset(SourceFiles(units)) && i < |units|
    requires Describes(info, b.sources, |info.sources|)
    ensures units[i].name in b.sources && b.sources[units[i].name] == units[i].source
  {
    var file := SourceFiles(units)[i];
    assert file in multiset(SourceFiles(units));
    assert file in multiset(info.sources);
    var j: nat :| j < |info.sources| && info.sources[j] == file;
  }

  lemma BundleResolves(info: SourceInfo, imports: map<(string, string), string>, imported: set<string>, m: ImportRecord)
    requires DescribesImports(info, imports, imported, |info.imports|) && m in info.imports
    ensures (m.from, m.spelling) in imports && imports[(m.from, m.spelling)] == m.to
  {
    hide FromRecord, Imported;
    var l :| 0 <= l < |info.imports| && info.imports[l] == m;
    assert Held(info.imports[l], imports, imported);
  }

  lemma BundleIdentifies(units: seq<Unit>, info: SourceInfo, b: Bundle, i: nat, k: nat)
    requires RecordsUnits(info, units) && Bundles(info, b) && i < |units| && k < |units[i].imports|
    ensures BundleIdentify(b, Some(units[i].name), units[i].imports[k].spelling) == Ok(units[i].imports[k].target)
  {
    var imported :| DescribesImports(info, b.imports, imported, |info.imports|);
    hide IsRoot, SourcesOk, ImportsOk, ImportOf, Describes, DescribesImports, Parse;
    ImportIsOf(units, i, k);
    BundleResolves(info, b.imports, imported, RecordOf(units[i], k));
  }

  lemma BundleAnswers(w: World, limits: LoadLimits, units: seq<Unit>, info: SourceInfo, b: Bundle, i: nat)
    requires RecordsUnits(info, units) && Fits(limits, units) && Bundles(info, b) && i < |units|
    ensures AnswersFor(BundleWorld(b, limits, w.parse), units[i])
  {
    BundleFetches(info, units, b, i);
    hide RecordsUnits, Bundles, BundleIdentify, ByteLength;
    var u, v := units[i], BundleWorld(b, limits, w.parse);
    forall k | 0 <= k < |u.imports| ensures v.identify(Some(u.name), u.imports[k].spelling) == Ok(u.imports[k].target) {
      BundleIdentifies(units, info, b, i, k);
    }
  }

  lemma ImportIsOf(units: seq<Unit>, i: nat, k: nat)
    requires i < |units| && k < |units[i].imports|
    ensures ImportOf(units, RecordOf(units[i], k))
  {
  }

  /** Replay: loading the recorded entry from the recorded bundle gives the
      same units, in the same order, with the same actors. */
  lemma ReplayGivesTheSame(w: World, limits: LoadLimits, entry: string, sources: nat, bytes: nat, edges: nat,
                           info: SourceInfo, b: Bundle)
    requires Load(w, limits, entry, sources, bytes, edges).Ok?
    requires RecordsUnits(info, Load(w, limits, entry, sources, bytes, edges).value.0) && Bundles(info, b)
    ensures Load(BundleWorld(b, limits, w.parse), limits, b.entry, sources, bytes, edges)
            == Load(w, limits, entry, sources, bytes, edges)
  {
    var (units, id) := Load(w, limits, entry, sources, bytes, edges).value;
    var v := BundleWorld(b, limits, w.parse);
    var start := Started(id, sources, bytes, edges);
    FinishKeeps(w, limits, entry, sources, bytes, edges);
    LoadIsWellLoaded(w, limits, entry, sources, bytes, edges);
    LoadReflects(w, limits, entry, sources, bytes, edges);
    WellLoadedParts(units, id);
    RunFits(w, limits, start);
    RecordMakesResolver(w, limits, entry, sources, bytes, edges, info);
    hide Run, WellLoaded, Reflects, RecordsUnits, Bundles, Fits, AnswersFor, Spellings, LongSpelling;
    forall i | 0 <= i < |units| ensures AnswersFor(v, units[i]) { BundleAnswers(w, limits, units, info, b, i); }
    RunAgain(w, v, limits, start);
    EntryAgain(w, limits, entry, b);
  }

  lemma EntryAgain(w: World, limits: LoadLimits, entry: string, b: Bundle)
    requires IdentifyValid(w, None, entry) == Ok(b.entry)
    ensures IdentifyValid(BundleWorld(b, limits, w.parse), None, b.entry) == Ok(b.entry)
  {
    AnswersAreCanonical(w, None, entry);
    hide Parse;
  }
}
