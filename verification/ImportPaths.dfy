/** Paths as steps down and up a tree of directories: what `.` and `..` come to
    in a source identifier, and where an import leads from its importer. */
module ImportPaths {
  import opened Wrappers
  import opened SourceIds

  /** A segment of a path without separators: a name, `.` or `..`. */
  predicate Segment(s: string) { PlainSegment(s) || s == "." || s == ".." }

  predicate Segments(parts: seq<string>) { forall i :: 0 <= i < |parts| ==> Segment(parts[i]) }

  predicate Plain(parts: seq<string>) { forall i :: 0 <= i < |parts| ==> PlainSegment(parts[i]) }

  function Ups(k: nat): (r: seq<string>)
    ensures |r| == k && forall i :: 0 <= i < k ==> r[i] == ".."
  { seq(k, _ => "..") }

  // ----- walking segments -----

  /** A step down and then up changes nothing, wherever it stands. */
  lemma {:induction false} DownThenUp(components: seq<string>, pre: seq<string>, name: string, post: seq<string>)
    requires PlainSegment(name)
    ensures Resolve(components, pre + [name, ".."] + post) == Resolve(components, pre + post)
    decreases |pre|
  {
    var all, rest := pre + [name, ".."] + post, pre + post;
    if pre == [] {
      assert all[1..] == [".."] + post && all[1..][1..] == post && rest == post;
      assert (components + [name])[..|components|] == components;
    } else {
      assert all[0] == rest[0] == pre[0];
      assert all[1..] == pre[1..] + [name, ".."] + post && rest[1..] == pre[1..] + post;
      DownThenUp(components, pre[1..], name, post);
      if components != [] { DownThenUp(components[..|components| - 1], pre[1..], name, post); }
      DownThenUp(components + [pre[0]], pre[1..], name, post);
    }
  }

  /** A step that stays changes nothing, wherever it stands. */
  lemma {:induction false} StayingPut(components: seq<string>, pre: seq<string>, post: seq<string>)
    ensures Resolve(components, pre + ["."] + post) == Resolve(components, pre + post)
    decreases |pre|
  {
    var all, rest := pre + ["."] + post, pre + post;
    if pre == [] {
      assert all[1..] == post && rest == post;
    } else {
      assert all[0] == rest[0] == pre[0];
      assert all[1..] == pre[1..] + ["."] + post && rest[1..] == pre[1..] + post;
      StayingPut(components, pre[1..], post);
      if components != [] { StayingPut(components[..|components| - 1], pre[1..], post); }
      StayingPut(components + [pre[0]], pre[1..], post);
    }
  }

  /** Steps up leave as many components, and leaving the root is refused. */
  lemma {:induction false} UpThenDown(components: seq<string>, k: nat, parts: seq<string>)
    requires Plain(parts)
    ensures Resolve(components, Ups(k) + parts)
            == if k <= |components| then Ok(components[..|components| - k] + parts) else Err(ImportOutsideWorkspace)
    decreases k
  {
    if k == 0 {
      assert Ups(0) + parts == parts && components[..|components|] == components;
      ResolvePlain(components, parts);
    } else {
      assert (Ups(k) + parts)[1..] == Ups(k - 1) + parts && (Ups(k) + parts)[0] == "..";
      if components != [] {
        var above := components[..|components| - 1];
        UpThenDown(above, k - 1, parts);
        if k <= |components| { assert above[..|above| - (k - 1)] == components[..|components| - k]; }
      }
    }
  }

  // ----- paths -----

  lemma SegmentCharacters(s: string)
    requires Segment(s)
    ensures s != "" && forall c :: c in s ==> c != '/' && c != '\\' && !Control(c)
  {
  }

  /** Joined segments are a path with nothing to refuse but where it leads. */
  lemma JoinedNormalizes(base: seq<string>, parts: seq<string>)
    requires Segments(parts) && parts != []
    ensures NormalizedFrom(base, Join(parts, '/'))
            == var r := Resolve(base, parts);
               if r.Err? then Err(r.error) else if r.value == [] then Err(InvalidSourceId) else Ok(Join(r.value, '/'))
  {
    var path := Join(parts, '/');
    forall i | 0 <= i < |parts| ensures parts[i] != "" && '/' !in parts[i] { SegmentCharacters(parts[i]); }
    SplitOfJoin(parts);
    SegmentCharacters(parts[0]);
    assert path != "" && path[0] == parts[0][0] && parts[0][0] in parts[0];
    forall c | c in path ensures c != '\\' && !Control(c) {
      JoinMembers(parts, c);
      if c != '/' {
        var i :| 0 <= i < |parts| && c in parts[i];
        SegmentCharacters(parts[i]);
      }
    }
    hide Resolve, Join, Split;
  }

  /** A name followed by `..` cancels in every path. */
  lemma NameAndUpCancel(base: seq<string>, pre: seq<string>, name: string, post: seq<string>)
    requires Segments(pre) && Segments(post) && pre + post != [] && PlainSegment(name)
    ensures NormalizedFrom(base, Join(pre + [name, ".."] + post, '/')) == NormalizedFrom(base, Join(pre + post, '/'))
  {
    hide NormalizedFrom, Resolve, Join, PlainSegment;
    assert Segment(name) && Segment("..");
    DownThenUp(base, pre, name, post);
    JoinedNormalizes(base, pre + [name, ".."] + post);
    JoinedNormalizes(base, pre + post);
  }

  /** `.` means nothing in every path. */
  lemma DotMeansNothing(base: seq<string>, pre: seq<string>, post: seq<string>)
    requires Segments(pre) && Segments(post) && pre + post != []
    ensures NormalizedFrom(base, Join(pre + ["."] + post, '/')) == NormalizedFrom(base, Join(pre + post, '/'))
  {
    hide NormalizedFrom, Resolve, Join, PlainSegment;
    StayingPut(base, pre, post);
    JoinedNormalizes(base, pre + ["."] + post);
    JoinedNormalizes(base, pre + post);
  }

  /** An import leads from its importer's directory: up as many directories as it
      has `..` in front, then down its names; beyond the root it is refused. */
  lemma ImportIsRelative(dir: seq<string>, file: string, k: nat, parts: seq<string>)
    requires Plain(dir) && PlainSegment(file) && Plain(parts) && parts != []
    ensures MemoryIdentify(Some("memory" + ":/" + Join(dir + [file], '/')), Join(Ups(k) + parts, '/'))
            == if k <= |dir| then Ok("memory:/" + Join(dir[..|dir| - k] + parts, '/')) else Err(ImportOutsideWorkspace)
  {
    hide PlainSegment, ValidScheme, NormalizedFrom, Resolve, Join, SchemeOf, SchemeEnd, BaseOf;
    MemoryScheme(dir + [file]);
    BaseIsPlain("memory", dir + [file]);
    assert (dir + [file])[..|dir|] == dir;
    UpThenDown(dir, k, parts);
    UpsAreSegments(k, parts);
    JoinedNormalizes(dir, Ups(k) + parts);
  }

  lemma MemoryScheme(parts: seq<string>)
    requires PlainSegments(parts)
    ensures ValidScheme("memory") && SchemeOf("memory" + ":/" + Join(parts, '/')) == "memory"
  {
    hide Join;
    MemoryIdIsCanonical(parts);
    assert "memory" + ":/" + Join(parts, '/') == "memory:/" + Join(parts, '/');
  }

  lemma UpsAreSegments(k: nat, parts: seq<string>)
    requires Plain(parts)
    ensures Segments(Ups(k) + parts)
  {
  }

  // ----- every path -----

  /** How far a segment leads down. */
  function Descent(s: string): int { if s == ".." then -1 else if s == "." then 0 else 1 }

  function Descents(parts: seq<string>): int { if parts == [] then 0 else Descent(parts[0]) + Descents(parts[1..]) }

  /** Some way along the path it has gone up more often than there was room. */
  ghost predicate ClimbsOut(room: nat, parts: seq<string>) {
    exists k: nat :: k <= |parts| && room + Descents(parts[..k]) < 0
  }

  lemma DescentsStep(parts: seq<string>, k: nat)
    requires parts != [] && 0 < k <= |parts|
    ensures Descents(parts[..k]) == Descent(parts[0]) + Descents(parts[1..][..k - 1])
  {
    assert parts[..k][1..] == parts[1..][..k - 1];
  }

  lemma ClimbsLater(room: nat, parts: seq<string>)
    requires parts != [] && room + Descent(parts[0]) >= 0
    ensures ClimbsOut(room, parts) <==> ClimbsOut(room + Descent(parts[0]), parts[1..])
  {
    hide Descent, Descents;
    NoDescent(parts);
    if ClimbsOut(room, parts) {
      var k: nat :| k <= |parts| && room + Descents(parts[..k]) < 0;
      DescentsStep(parts, k);
    }
    var next: nat := room + Descent(parts[0]);
    if ClimbsOut(next, parts[1..]) {
      var k: nat :| k <= |parts[1..]| && next + Descents(parts[1..][..k]) < 0;
      DescentsStep(parts, k + 1);
    }
  }

  lemma NoDescent(parts: seq<string>)
    ensures Descents(parts[..0]) == 0
  {
  }

  lemma ClimbsAtOnce(parts: seq<string>)
    requires parts != [] && parts[0] == ".."
    ensures ClimbsOut(0, parts)
  {
    DescentsStep(parts, 1);
    NoDescent(parts[1..]);
  }

  /** A path is refused for leaving the root exactly when it climbs out, and
      otherwise leaves as many components as it descends. */
  lemma {:induction false} LeavingTheRoot(components: seq<string>, parts: seq<string>)
    requires Segments(parts)
    ensures var r := Resolve(components, parts);
            if ClimbsOut(|components|, parts) then r == Err(ImportOutsideWorkspace)
            else r.Ok? && |r.value| == |components| + Descents(parts)
    decreases |parts|
  {
    if parts == [] {
      assert forall k: nat :: k <= |parts| ==> parts[..k] == [];
    } else if parts[0] == ".." && components == [] {
      ClimbsAtOnce(parts);
    } else {
      ClimbsLater(|components|, parts);
      hide ClimbsOut, Descents, PlainSegment;
      assert Segment(parts[0]);
      var next := if parts[0] == "." then components else if parts[0] == ".." then components[..|components| - 1]
                  else components + [parts[0]];
      NextResolve(components, parts, next);
      LeavingTheRoot(next, parts[1..]);
      DescentsFirst(parts);
    }
  }

  lemma DescentsFirst(parts: seq<string>)
    requires parts != []
    ensures Descents(parts) == Descent(parts[0]) + Descents(parts[1..])
  {
  }

  lemma NextResolve(components: seq<string>, parts: seq<string>, next: seq<string>)
    requires parts != [] && Segment(parts[0]) && !(parts[0] == ".." && components == [])
    requires next == if parts[0] == "." then components else if parts[0] == ".." then components[..|components| - 1]
                     else components + [parts[0]]
    ensures Resolve(components, parts) == Resolve(next, parts[1..])
  {
  }

  lemma {:induction false} JoinOfSplit(s: string)
    ensures Join(Split(s, '/'), '/') == s
  {
    if s != "" {
      JoinOfSplit(s[1..]);
      var rest := Split(s[1..], '/');
      assert s == [s[0]] + s[1..];
      if s[0] == '/' {
        assert ([""] + rest)[1..] == rest;
        assert Join([""] + rest, '/') == "" + ['/'] + Join(rest, '/');
      } else {
        var parts := [[s[0]] + rest[0]] + rest[1..];
        assert parts[1..] == rest[1..];
        if |rest| > 1 { assert Join(parts, '/') == [s[0]] + rest[0] + ['/'] + Join(rest[1..], '/'); }
      }
    }
  }

  /** A way from the base that names a file: joined segments that never climb
      out and end below the root. */
  ghost predicate LeadsToFile(base: seq<string>, path: string, parts: seq<string>) {
    && parts != [] && Segments(parts) && path == Join(parts, '/')
    && !ClimbsOut(|base|, parts) && |base| + Descents(parts) > 0
  }

  lemma AcceptedSegments(base: seq<string>, path: string)
    requires NormalizedFrom(base, path).Ok?
    ensures Segments(Split(path, '/'))
  {
    var segments := Split(path, '/');
    ColonsRefused(base, segments);
    forall i | 0 <= i < |segments| ensures Segment(segments[i]) {
      SplitMembers(path, i);
      assert segments[i] in segments;
      assert segments[i] == "." || segments[i] == ".." || ':' !in segments[i];
    }
  }

  lemma {:induction false} ColonsRefused(components: seq<string>, segments: seq<string>)
    requires Resolve(components, segments).Ok?
    ensures forall i :: 0 <= i < |segments| ==> segments[i] == "." || segments[i] == ".." || ':' !in segments[i]
    decreases |segments|
  {
    if segments != [] {
      var next := if segments[0] == "." then components else if segments[0] == ".." then components[..|components| - 1]
                  else components + [segments[0]];
      ColonsRefused(next, segments[1..]);
      assert segments == [segments[0]] + segments[1..];
    }
  }

  /** Exactly the ways to a file are accepted. */
  lemma PathsAccepted(base: seq<string>, path: string)
    ensures NormalizedFrom(base, path).Ok? <==> exists parts :: LeadsToFile(base, path, parts)
  {
    hide Resolve, ClimbsOut, Descents, Join, Segments;
    if NormalizedFrom(base, path).Ok? {
      var parts := Split(path, '/');
      AcceptedSegments(base, path);
      JoinOfSplit(path);
      JoinedNormalizes(base, parts);
      LeavingTheRoot(base, parts);
      assert LeadsToFile(base, path, parts);
    }
    if exists parts :: LeadsToFile(base, path, parts) {
      var parts :| LeadsToFile(base, path, parts);
      JoinedNormalizes(base, parts);
      LeavingTheRoot(base, parts);
    }
  }

  // ----- characters -----

  const LETTERS: string := "abcdefghijklmnopqrstuvwxyz"

  const SCHEME_CHARACTERS: string := LETTERS + "0123456789-"

  lemma IsLetter(c: char)
    ensures c in LETTERS <==> 'a' <= c <= 'z'
  {
    if 'a' <= c <= 'z' {
      var i := c as int - 97;
      assert LETTERS[i] == c;
    }
  }

  lemma IsSchemeCharacter(c: char)
    ensures c in SCHEME_CHARACTERS <==> SchemeByte(c)
  {
    IsLetter(c);
    assert forall x :: x in "0123456789-" <==> '0' <= x <= '9' || x == '-' by {
      forall x ensures x in "0123456789-" <==> '0' <= x <= '9' || x == '-' {
        if '0' <= x <= '9' { assert "0123456789-"[x as int - 48] == x; }
        if x == '-' { assert "0123456789-"[10] == x; }
      }
    }
  }

  /** A scheme is at least two letters, digits and hyphens, a letter first. */
  lemma SchemesAre(s: string)
    ensures ValidScheme(s) <==> |s| >= 2 && s[0] in LETTERS && forall c :: c in s ==> c in SCHEME_CHARACTERS
  {
    forall c ensures (c in LETTERS <==> 'a' <= c <= 'z') && (c in SCHEME_CHARACTERS <==> SchemeByte(c)) {
      IsLetter(c);
      IsSchemeCharacter(c);
    }
  }

  /** The control characters are the 65 of Unicode's category Cc: the first
      32 code points, delete, and the 32 after it. */
  lemma ControlsAre(c: char)
    ensures Control(c) <==> c as int / 32 == 0 || c as int / 32 == 4 || c as int == 127
  {
  }
}
