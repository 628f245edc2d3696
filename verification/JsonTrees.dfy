/** JSON documents as trees with their text, and the positional rule: where an
    array or an object may stand. Characters stand for the bytes of the text. */
module JsonTrees {
  import opened Wrappers

  datatype Json = Scalar(text: string) | Str(raw: string) | Arr(items: Items) | Obj(members: Members)

  /** What stands between brackets; `pre` and `post` are white space. */
  datatype Items =
    | NoItems(blank: string)
    | LastItem(pre: string, value: Json, post: string)
    | MoreItems(pre: string, value: Json, post: string, rest: Items)

  /** What stands between braces; `mid` holds the colon. */
  datatype Members =
    | NoMembers(blank: string)
    | LastMember(pre: string, key: string, mid: string, value: Json, post: string)
    | MoreMembers(pre: string, key: string, mid: string, value: Json, post: string, rest: Members)

  predicate Structural(c: char) { c == '"' || c == '{' || c == '}' || c == '[' || c == ']' || c == ',' }

  /** White space, colons, numbers and literals hold none of the characters the
      scan looks at. */
  predicate Inert(s: string) { forall c :: c in s ==> !Structural(c) }

  /** The inside of a string: no quote but an escaped one. */
  predicate StringBody(raw: string) {
    if raw == "" then true
    else if raw[0] == '\\' then |raw| >= 2 && StringBody(raw[2..])
    else raw[0] != '"' && StringBody(raw[1..])
  }

  predicate ValidJson(v: Json) {
    match v
    case Scalar(text) => Inert(text)
    case Str(raw) => StringBody(raw)
    case Arr(items) => ValidItems(items)
    case Obj(members) => ValidMembers(members)
  }

  predicate ValidItems(items: Items) {
    match items
    case NoItems(blank) => Inert(blank)
    case LastItem(pre, value, post) => Inert(pre) && ValidJson(value) && Inert(post)
    case MoreItems(pre, value, post, rest) => Inert(pre) && ValidJson(value) && Inert(post) && ValidItems(rest)
  }

  predicate ValidMembers(members: Members) {
    match members
    case NoMembers(blank) => Inert(blank)
    case LastMember(pre, key, mid, value, post) =>
      Inert(pre) && StringBody(key) && Inert(mid) && ValidJson(value) && Inert(post)
    case MoreMembers(pre, key, mid, value, post, rest) =>
      Inert(pre) && StringBody(key) && Inert(mid) && ValidJson(value) && Inert(post) && ValidMembers(rest)
  }

  // ----- text -----

  function Quote(raw: string): string { "\"" + raw + "\"" }

  function Text(v: Json): string {
    match v
    case Scalar(text) => text
    case Str(raw) => Quote(raw)
    case Arr(items) => "[" + ItemsText(items) + "]"
    case Obj(members) => "{" + MembersText(members) + "}"
  }

  function ItemsText(items: Items): string {
    match items
    case NoItems(blank) => blank
    case LastItem(pre, value, post) => pre + Text(value) + post
    case MoreItems(pre, value, post, rest) => pre + Text(value) + post + "," + ItemsText(rest)
  }

  function MembersText(members: Members): string {
    match members
    case NoMembers(blank) => blank
    case LastMember(pre, key, mid, value, post) => pre + Quote(key) + mid + Text(value) + post
    case MoreMembers(pre, key, mid, value, post, rest) =>
      pre + Quote(key) + mid + Text(value) + post + "," + MembersText(rest)
  }

  // ----- the rule -----

  /** The key lists, and how a key written with an escape decodes. */
  datatype Keys = Keys(opaque_: seq<string>, decode: string -> Option<string>)

  const ARRAY_KEYS: seq<string> := [
    "types", "declarations", "fields", "methods", "args", "results", "init", "sources", "imports", "field_labels",
    "function_arguments", "actors", "docs"]

  const OBJECT_KEYS: seq<string> := [
    "identities", "producer", "actor", "contract", "extensions", "source_info", "origin", "label"]

  predicate KeyIs(k: Keys, raw: string, name: string) {
    if '\\' in raw then k.decode(raw) == Some(name) else raw == name
  }

  predicate KeyIn(k: Keys, raw: string, names: seq<string>) {
    exists i :: 0 <= i < |names| && KeyIs(k, raw, names[i])
  }

  /** Where a value stands; `ofRoot` tells whether its object is the document. */
  datatype Parent = Root | InArray | AtKey(key: string, ofRoot: bool)

  predicate ArrayAllowed(k: Keys, parent: Parent) {
    parent.AtKey? && KeyIn(k, parent.key, ARRAY_KEYS)
  }

  predicate ObjectAllowed(k: Keys, parent: Parent) {
    parent.AtKey? ==> KeyIn(k, parent.key, OBJECT_KEYS)
  }

  predicate Opaque(k: Keys, parent: Parent) {
    parent.AtKey? && parent.ofRoot && KeyIn(k, parent.key, k.opaque_)
  }

  /** The position of the first value in document order that may not stand where
      it does, for a value whose text starts at `at`. */
  function FirstBad(k: Keys, v: Json, parent: Parent, at: nat): Option<nat> {
    match v
    case Scalar(_) => None
    case Str(_) => None
    case Arr(items) =>
      if Opaque(k, parent) then None else if !ArrayAllowed(k, parent) then Some(at) else FirstBadItem(k, items, at + 1)
    case Obj(members) =>
      if Opaque(k, parent) then None
      else if !ObjectAllowed(k, parent) then Some(at)
      else FirstBadMember(k, members, parent.Root?, at + 1)
  }

  function FirstBadItem(k: Keys, items: Items, at: nat): Option<nat> {
    match items
    case NoItems(_) => None
    case LastItem(pre, value, _) => FirstBad(k, value, InArray, at + |pre|)
    case MoreItems(pre, value, post, rest) =>
      var bad := FirstBad(k, value, InArray, at + |pre|);
      if bad.Some? then bad else FirstBadItem(k, rest, at + |pre| + |Text(value)| + |post| + 1)
  }

  function FirstBadMember(k: Keys, members: Members, ofRoot: bool, at: nat): Option<nat> {
    match members
    case NoMembers(_) => None
    case LastMember(pre, key, mid, value, _) =>
      FirstBad(k, value, AtKey(key, ofRoot), at + |pre| + |Quote(key)| + |mid|)
    case MoreMembers(pre, key, mid, value, post, rest) =>
      var start := at + |pre| + |Quote(key)| + |mid|;
      var bad := FirstBad(k, value, AtKey(key, ofRoot), start);
      if bad.Some? then bad else FirstBadMember(k, rest, ofRoot, start + |Text(value)| + |post| + 1)
  }
}
