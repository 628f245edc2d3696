/** Logical source identifiers: `scheme:/path`, with the path normalized. */
module SourceIds {
  import opened Wrappers

  /** The codes of the refusals. */
  datatype IdError = InvalidSourceId | AbsoluteImportForbidden | ImportOutsideWorkspace | SourceSchemeMismatch

  // ----- text -----

  /** The pieces between separators, as `str::split` yields them. */
  function Split(s: string, sep: char): (r: seq<string>)
    ensures |r| >= 1
  {
    if s == "" then [""]
    else
      var rest := Split(s[1..], sep);
      if s[0] == sep then [""] + rest else [[s[0]] + rest[0]] + rest[1..]
  }

  function Join(parts: seq<string>, sep: char): string {
    if |parts| == 0 then "" else if |parts| == 1 then parts[0] else parts[0] + [sep] + Join(parts[1..], sep)
  }

  predicate Control(c: char) { c < ' ' || '\U{7F}' <= c <= '\U{9F}' }

  /** Where `:/` first occurs. */
  function SchemeEnd(s: string): (r: Option<nat>)
    ensures r.Some? ==> r.value + 2 <= |s| && s[r.value] == ':' && s[r.value + 1] == '/'
  {
    if |s| < 2 then None
    else if s[0] == ':' && s[1] == '/' then Some(0)
    else
      var rest := SchemeEnd(s[1..]);
      if rest.Some? then Some(rest.value + 1) else None
  }

  // ----- normalization -----

  predicate SchemeByte(c: char) { 'a' <= c <= 'z' || '0' <= c <= '9' || c == '-' }

  predicate ValidScheme(s: string) {
    |s| >= 2 && 'a' <= s[0] <= 'z' && forall i :: 0 <= i < |s| ==> SchemeByte(s[i])
  }

  /** Walking the segments of a path over the components so far. */
  function Resolve(components: seq<string>, segments: seq<string>): Result<seq<string>, IdError>
    decreases |segments|
  {
    if segments == [] then Ok(components)
    else if segments[0] == "." then Resolve(components, segments[1..])
    else if segments[0] == ".." then
      if components == [] then Err(ImportOutsideWorkspace) else Resolve(components[..|components| - 1], segments[1..])
    else if ':' in segments[0] then Err(InvalidSourceId)
    else Resolve(components + [segments[0]], segments[1..])
  }

  function NormalizedFrom(base: seq<string>, path: string): Result<string, IdError> {
    if path == "" then Err(InvalidSourceId)
    else if path[0] == '/' then Err(AbsoluteImportForbidden)
    else if '\\' in path then Err(InvalidSourceId)
    else if exists c :: c in path && Control(c) then Err(InvalidSourceId)
    else if "" in Split(path, '/') then Err(InvalidSourceId)
    else
      var components := Resolve(base, Split(path, '/'));
      if components.Err? then Err(components.error)
      else if components.value == [] then Err(InvalidSourceId)
      else Ok(Join(components.value, '/'))
  }

  /** `normalize_path`, its component stack pushed and popped in a loop. */
  method NormalizePath(base: seq<string>, path: string) returns (r: Result<string, IdError>)
    ensures r == NormalizedFrom(base, path)
  {
    if path == "" { return Err(InvalidSourceId); }
    if path[0] == '/' { return Err(AbsoluteImportForbidden); }
    if '\\' in path { return Err(InvalidSourceId); }
    if exists c :: c in path && Control(c) { return Err(InvalidSourceId); }
    var segments := Split(path, '/');
    if "" in segments { return Err(InvalidSourceId); }
    var components := base;
    for i := 0 to |segments|
      invariant Resolve(base, segments) == Resolve(components, segments[i..])
    {
      assert segments[i..][0] == segments[i] && segments[i..][1..] == segments[i + 1..];
      if segments[i] == "." {
      } else if segments[i] == ".." {
        if components == [] { return Err(ImportOutsideWorkspace); }
        components := components[..|components| - 1];
      } else if ':' in segments[i] {
        return Err(InvalidSourceId);
      } else {
        components := components + [segments[i]];
      }
    }
    if components == [] { return Err(InvalidSourceId); }
    r := Ok(Join(components, '/'));
  }

  /** `SourceId::parse`. */
  function Parse(value: string): Result<string, IdError> {
    var end := SchemeEnd(value);
    if end.Some? then
      var scheme := value[..end.value];
      if !ValidScheme(scheme) then Err(InvalidSourceId)
      else
        var path := NormalizedFrom([], value[end.value + 2..]);
        if path.Ok? then Ok(scheme + ":/" + path.value) else Err(path.error)
    else
      var path := NormalizedFrom([], value);
      if path.Ok? then Ok("memory:/" + path.value) else Err(path.error)
  }

  // ----- canonical identifiers -----

  predicate PlainSegment(s: string) {
    s != "" && s != "." && s != ".." && forall c :: c in s ==> c != '/' && c != ':' && c != '\\' && !Control(c)
  }

  predicate PlainSegments(parts: seq<string>) {
    parts != [] && forall i :: 0 <= i < |parts| ==> PlainSegment(parts[i])
  }

  /** A valid scheme and a path of segments that are not empty, `.` or `..`
      and hold no separator, colon, backslash or control character. */
  ghost predicate Canonical(id: string) {
    exists scheme, parts :: ValidScheme(scheme) && PlainSegments(parts) && id == scheme + ":/" + Join(parts, '/')
  }

  lemma {:induction false} SplitOfJoin(parts: seq<string>)
    requires parts != [] && forall i :: 0 <= i < |parts| ==> '/' !in parts[i]
    ensures Split(Join(parts, '/'), '/') == parts
  {
    if |parts| == 1 {
      SplitPlain(parts[0]);
      assert parts == [parts[0]];
    } else {
      SplitOfJoin(parts[1..]);
      SplitFront(parts[0], Join(parts[1..], '/'));
      assert parts == [parts[0]] + parts[1..];
    }
  }

  lemma {:induction false} SplitPlain(s: string)
    requires '/' !in s
    ensures Split(s, '/') == [s]
  {
    if s != "" {
      SplitPlain(s[1..]);
      assert s == [s[0]] + s[1..];
    }
  }

  lemma {:induction false} SplitFront(s: string, rest: string)
    requires '/' !in s
    ensures Split(s + ['/'] + rest, '/') == [s] + Split(rest, '/')
  {
    var whole := s + ['/'] + rest;
    if s == "" {
      assert whole[1..] == rest;
    } else {
      assert whole[1..] == s[1..] + ['/'] + rest;
      SplitFront(s[1..], rest);
      assert s == [s[0]] + s[1..];
    }
  }

  /** The pieces hold every character of the text but the separators. */
  lemma {:induction false} SplitMembers(s: string, i: nat)
    requires i < |Split(s, '/')|
    ensures forall c :: c in Split(s, '/')[i] ==> c in s && c != '/'
  {
    if s != "" {
      var rest := Split(s[1..], '/');
      if s[0] == '/' {
        if i > 0 { SplitMembers(s[1..], i - 1); }
      } else {
        SplitMembers(s[1..], i);
      }
    }
  }

  lemma {:induction false} JoinMembers(parts: seq<string>, c: char)
    requires c in Join(parts, '/')
    ensures c == '/' || exists i :: 0 <= i < |parts| && c in parts[i]
  {
    if |parts| > 1 {
      if c !in parts[0] && c != '/' {
        JoinMembers(parts[1..], c);
        var i :| 0 <= i < |parts[1..]| && c in parts[1..][i];
        assert c in parts[i + 1];
      }
    } else if |parts| == 1 {
      assert c in parts[0];
    }
  }

  /** Walking keeps the components plain. */
  lemma {:induction false} ResolveStaysPlain(components: seq<string>, segments: seq<string>)
    requires forall i :: 0 <= i < |components| ==> PlainSegment(components[i])
    requires forall i :: 0 <= i < |segments| ==>
               segments[i] != "" && forall c :: c in segments[i] ==> c != '/' && c != '\\' && !Control(c)
    requires Resolve(components, segments).Ok?
    ensures var r := Resolve(components, segments).value; forall i :: 0 <= i < |r| ==> PlainSegment(r[i])
    decreases |segments|
  {
    if segments == [] {
    } else if segments[0] == "." {
      ResolveStaysPlain(components, segments[1..]);
    } else if segments[0] == ".." {
      ResolveStaysPlain(components[..|components| - 1], segments[1..]);
    } else {
      ResolveStaysPlain(components + [segments[0]], segments[1..]);
    }
  }

  /** Plain segments are walked as they are. */
  lemma {:induction false} ResolvePlain(components: seq<string>, segments: seq<string>)
    requires forall i :: 0 <= i < |segments| ==> PlainSegment(segments[i])
    ensures Resolve(components, segments) == Ok(components + segments)
    decreases |segments|
  {
    if segments == [] {
      assert components + segments == components;
    } else {
      ResolvePlain(components + [segments[0]], segments[1..]);
      assert components + [segments[0]] + segments[1..] == components + segments;
    }
  }

  lemma NormalizedIsPlain(base: seq<string>, path: string) returns (parts: seq<string>)
    requires forall i :: 0 <= i < |base| ==> PlainSegment(base[i])
    requires NormalizedFrom(base, path).Ok?
    ensures PlainSegments(parts) && NormalizedFrom(base, path) == Ok(Join(parts, '/'))
  {
    var segments := Split(path, '/');
    forall i | 0 <= i < |segments|
      ensures segments[i] != "" && forall c :: c in segments[i] ==> c != '/' && c != '\\' && !Control(c)
    {
      assert segments[i] in segments;
      SplitMembers(path, i);
    }
    ResolveStaysPlain(base, segments);
    parts := Resolve(base, segments).value;
  }

  lemma PlainNormalizes(parts: seq<string>)
    requires PlainSegments(parts)
    ensures NormalizedFrom([], Join(parts, '/')) == Ok(Join(parts, '/'))
  {
    var path := Join(parts, '/');
    assert PlainSegment(parts[0]);
    assert |path| > 0 && path[0] == parts[0][0] && parts[0][0] in parts[0];
    forall c | c in path ensures c != '\\' && !Control(c) {
      JoinMembers(parts, c);
      if c != '/' {
        var i :| 0 <= i < |parts| && c in parts[i];
        assert PlainSegment(parts[i]);
      }
    }
    forall i | 0 <= i < |parts| ensures '/' !in parts[i] { assert PlainSegment(parts[i]); }
    SplitOfJoin(parts);
    ResolvePlain([], parts);
    assert [] + parts == parts;
  }

  lemma {:induction false} SchemeEndsAtColon(scheme: string, path: string)
    requires forall i :: 0 <= i < |scheme| ==> SchemeByte(scheme[i])
    ensures SchemeEnd(scheme + ":/" + path) == Some(|scheme|)
  {
    var s := scheme + ":/" + path;
    if scheme == "" {
      assert s[0] == ':' && s[1] == '/';
    } else {
      assert s[1..] == scheme[1..] + ":/" + path;
      SchemeEndsAtColon(scheme[1..], path);
      assert SchemeByte(s[0]);
    }
  }

  lemma CanonicalParses(scheme: string, parts: seq<string>)
    requires ValidScheme(scheme) && PlainSegments(parts)
    ensures Parse(scheme + ":/" + Join(parts, '/')) == Ok(scheme + ":/" + Join(parts, '/'))
  {
    var id := scheme + ":/" + Join(parts, '/');
    SchemeEndsAtColon(scheme, Join(parts, '/'));
    assert id[..|scheme|] == scheme && id[|scheme| + 2..] == Join(parts, '/');
    PlainNormalizes(parts);
  }

  /** What parsing accepts it makes canonical. */
  lemma ParseIsCanonical(value: string)
    requires Parse(value).Ok?
    ensures Canonical(Parse(value).value)
  {
    var end := SchemeEnd(value);
    if end.Some? {
      var parts := NormalizedIsPlain([], value[end.value + 2..]);
    } else {
      var parts := NormalizedIsPlain([], value);
      assert ValidScheme("memory");
      assert Parse(value).value == "memory" + ":/" + Join(parts, '/');
    }
  }

  /** Parsing is a projection, and its fixed points are exactly the canonical
      identifiers. */
  lemma ParseFixedPoints(value: string)
    ensures Parse(value).Ok? ==> Parse(Parse(value).value) == Parse(value)
    ensures Parse(value) == Ok(value) <==> Canonical(value)
  {
    if Parse(value).Ok? {
      ParseIsCanonical(value);
      var id := Parse(value).value;
      var scheme, parts :| ValidScheme(scheme) && PlainSegments(parts) && id == scheme + ":/" + Join(parts, '/');
      CanonicalParses(scheme, parts);
    }
    if Canonical(value) {
      var scheme, parts :| ValidScheme(scheme) && PlainSegments(parts) && value == scheme + ":/" + Join(parts, '/');
      CanonicalParses(scheme, parts);
    }
  }

  // ----- identifying an import -----

  function SchemeOf(id: string): string {
    var end := SchemeEnd(id);
    if end.Some? then id[..end.value] else ""
  }

  function TrimSlashes(s: string): string {
    if s != "" && s[0] == '/' then TrimSlashes(s[1..]) else s
  }

  function PathOf(id: string): string {
    var end := SchemeEnd(id);
    if end.Some? then TrimSlashes(id[end.value + 2..]) else ""
  }

  /** The directory an import is relative to. */
  function BaseOf(from: Option<string>): seq<string> {
    if from.None? then []
    else
      var parts := Split(PathOf(from.value), '/');
      parts[..|parts| - 1]
  }

  /** `MemoryResolver::identify`. */
  function MemoryIdentify(from: Option<string>, path: string): Result<string, IdError> {
    if from.Some? && SchemeOf(from.value) != "memory" then Err(SourceSchemeMismatch)
    else if from.None? && SchemeEnd(path).Some? then
      var id := Parse(path);
      if id.Err? then id
      else if SchemeOf(id.value) != "memory" then Err(SourceSchemeMismatch)
      else id
    else
      var normalized := NormalizedFrom(BaseOf(from), path);
      if normalized.Ok? then Ok("memory:/" + normalized.value) else Err(normalized.error)
  }

  lemma JoinStartsPlain(parts: seq<string>)
    requires PlainSegments(parts)
    ensures Join(parts, '/') != "" && Join(parts, '/')[0] != '/'
  {
    assert PlainSegment(parts[0]) && parts[0][0] in parts[0];
    assert Join(parts, '/')[0] == parts[0][0];
  }

  lemma NothingToTrim(path: string)
    requires path != "" && path[0] != '/'
    ensures TrimSlashes(path) == path
  {
  }

  lemma PathIsPlain(scheme: string, parts: seq<string>)
    requires ValidScheme(scheme) && PlainSegments(parts)
    ensures PathOf(scheme + ":/" + Join(parts, '/')) == Join(parts, '/')
  {
    var path := Join(parts, '/');
    SchemeEndsAtColon(scheme, path);
    hide Join, TrimSlashes, PlainSegments, ValidScheme;
    JoinStartsPlain(parts);
    NothingToTrim(path);
    assert (scheme + ":/" + path)[|scheme| + 2..] == path;
  }

  lemma BaseIsPlain(scheme: string, parts: seq<string>)
    requires ValidScheme(scheme) && PlainSegments(parts)
    ensures BaseOf(Some(scheme + ":/" + Join(parts, '/'))) == parts[..|parts| - 1]
  {
    forall i | 0 <= i < |parts| ensures '/' !in parts[i] { assert PlainSegment(parts[i]); }
    hide PathOf, Join, Split, PlainSegment, ValidScheme;
    PathIsPlain(scheme, parts);
    SplitOfJoin(parts);
  }

  lemma BaseOfCanonical(from: Option<string>)
    requires from.Some? ==> Canonical(from.value)
    ensures var base := BaseOf(from); forall i :: 0 <= i < |base| ==> PlainSegment(base[i])
  {
    if from.Some? {
      var scheme, parts :| ValidScheme(scheme) && PlainSegments(parts) && from.value == scheme + ":/" + Join(parts, '/');
      BaseIsPlain(scheme, parts);
    }
  }

  lemma MemoryIdIsCanonical(parts: seq<string>)
    requires PlainSegments(parts)
    ensures var id := "memory:/" + Join(parts, '/'); Canonical(id) && SchemeOf(id) == "memory"
  {
    var id := "memory" + ":/" + Join(parts, '/');
    assert ValidScheme("memory");
    SchemeEndsAtColon("memory", Join(parts, '/'));
    assert id == "memory:/" + Join(parts, '/');
  }

  /** From a canonical source, an import is identified canonically, in the
      same scheme. */
  lemma IdentifiedIsCanonical(from: Option<string>, path: string)
    requires from.Some? ==> Canonical(from.value)
    requires MemoryIdentify(from, path).Ok?
    ensures var id := MemoryIdentify(from, path).value; Canonical(id) && SchemeOf(id) == "memory"
  {
    hide Canonical, BaseOf, NormalizedFrom, PlainSegment, PlainSegments, Parse, SchemeOf, SchemeEnd, Join;
    if from.None? && SchemeEnd(path).Some? {
      ParseIsCanonical(path);
    } else {
      BaseOfCanonical(from);
      var parts := NormalizedIsPlain(BaseOf(from), path);
      MemoryIdIsCanonical(parts);
    }
  }
}
