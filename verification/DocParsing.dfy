/** Doc attribute arguments: a parser that walks the text once with an explicit
    stack of open brackets. */
module DocParsing {
  import opened Wrappers

  datatype DocValue =
    | TextValue(value: string)
    | NumberValue(text: string)
    | BoolValue(truth: bool)
    | IdentValue(name: string)
    | CallValue(name: string, args: seq<DocValue>)
    | ListValue(items: seq<DocValue>)
    | RecordValue(fields: seq<DocArgument>)

  datatype DocArgument = DocArgument(key: string, value: DocValue)

  datatype DocError = Malformed | DuplicateKey | Nesting(observed: nat)

  // ----- characters -----

  predicate Blank(c: char) { c == ' ' || c == '\t' || c == '\n' }

  predicate Digit(c: char) { '0' <= c <= '9' }

  predicate Letter(c: char) { 'a' <= c <= 'z' || 'A' <= c <= 'Z' }

  predicate IdentStart(c: char) { Letter(c) || c == '_' }

  predicate IdentChar(c: char) { Letter(c) || Digit(c) || c == '_' }

  predicate HexDigit(c: char) { Digit(c) || 'a' <= c <= 'f' || 'A' <= c <= 'F' }

  function SkipSpace(s: string): (r: string)
    ensures |r| <= |s| && (r != "" ==> !Blank(r[0]))
  {
    if s != "" && Blank(s[0]) then SkipSpace(s[1..]) else s
  }

  /** How many characters at the front satisfy a test. */
  function Span(s: string, keep: char -> bool): (n: nat)
    ensures n <= |s| && (n < |s| ==> !keep(s[n])) && forall i :: 0 <= i < n ==> keep(s[i])
  {
    if s != "" && keep(s[0]) then 1 + Span(s[1..], keep) else 0
  }

  // ----- tokens: what each takes, and the rest -----

  function HexValue(c: char): nat
    requires HexDigit(c)
  {
    if Digit(c) then c as nat - '0' as nat
    else if 'a' <= c <= 'f' then c as nat - 'a' as nat + 10 else c as nat - 'A' as nat + 10
  }

  function HexNumber(s: string): nat
    requires forall i :: 0 <= i < |s| ==> HexDigit(s[i])
  {
    if s == "" then 0 else HexNumber(s[..|s| - 1]) * 16 + HexValue(s[|s| - 1])
  }

  predicate ScalarValue(n: nat) { n < 0xD800 || 0xE000 <= n < 0x11_0000 }

  /** The character hexadecimal digits name. */
  function CharOf(digits: string): Result<char, DocError>
    requires forall i :: 0 <= i < |digits| ==> HexDigit(digits[i])
  {
    if ScalarValue(HexNumber(digits)) then Ok(HexNumber(digits) as char) else Err(Malformed)
  }

  /** The braces and digits after `\u`. */
  function UnicodeEscape(s: string): (r: Result<(char, string), DocError>)
    ensures r.Ok? ==> |r.value.1| < |s|
  {
    if s == "" || s[0] != '{' then Err(Malformed)
    else
      var n := Span(s[1..], HexDigit);
      var rest := s[1..][n..];
      if n == 0 || n > 6 || rest == "" || rest[0] != '}' then Err(Malformed)
      else
        var c := CharOf(s[1..][..n]);
        if c.Ok? then Ok((c.value, rest[1..])) else Err(c.error)
  }

  /** What a one-character escape stands for. */
  function Escaped(c: char): Option<char> {
    if c == '\\' || c == '"' then Some(c)
    else if c == 'n' then Some('\n')
    else if c == 'r' then Some('\r')
    else if c == 't' then Some('\t')
    else None
  }

  /** An escape from after its backslash: the character, and the rest. */
  function EscapeAt(s: string): (r: Result<(char, string), DocError>)
    ensures r.Ok? ==> |r.value.1| < |s|
  {
    if s == "" then Err(Malformed)
    else if Escaped(s[0]).Some? then Ok((Escaped(s[0]).value, s[1..]))
    else if s[0] == 'u' then UnicodeEscape(s[1..])
    else Err(Malformed)
  }

  function Prefixed(c: char, r: Result<(string, string), DocError>): Result<(string, string), DocError> {
    if r.Ok? then Ok(([c] + r.value.0, r.value.1)) else r
  }

  /** A text value from after its opening quote: what it says, and the rest. */
  function TextRest(s: string): (r: Result<(string, string), DocError>)
    ensures r.Ok? ==> |r.value.1| < |s|
    decreases |s|
  {
    if s == "" || s[0] == '\n' then Err(Malformed)
    else if s[0] == '"' then Ok(("", s[1..]))
    else if s[0] != '\\' then Prefixed(s[0], TextRest(s[1..]))
    else
      var escape := EscapeAt(s[1..]);
      if escape.Err? then Err(escape.error) else Prefixed(escape.value.0, TextRest(escape.value.1))
  }

  function SignLength(s: string): nat { if s != "" && s[0] == '-' then 1 else 0 }

  /** The end of the sign and whole digits of the number at the front. */
  function WholeEnd(s: string): (r: Result<nat, DocError>)
    ensures r.Ok? ==> 0 < r.value <= |s|
  {
    var sign := SignLength(s);
    var whole := Span(s[sign..], Digit);
    if whole == 0 || (whole > 1 && s[sign] == '0') then Err(Malformed) else Ok(sign + whole)
  }

  /** The end of the fraction that may follow. */
  function FractionEnd(s: string, end: nat): (r: Result<nat, DocError>)
    requires end <= |s|
    ensures r.Ok? ==> end <= r.value <= |s|
  {
    if end < |s| && s[end] == '.' then
      var fraction := Span(s[end + 1..], Digit);
      if fraction == 0 then Err(Malformed) else Ok(end + 1 + fraction)
    else Ok(end)
  }

  /** How long the number at the front is, if it is one. */
  function NumberLength(s: string): (r: Result<nat, DocError>)
    ensures r.Ok? ==> 0 < r.value <= |s|
  {
    var whole := WholeEnd(s);
    if whole.Err? then whole
    else
      var end := FractionEnd(s, whole.value);
      if end.Err? then end else EndOfNumber(s, end.value)
  }

  function EndOfNumber(s: string, end: nat): (r: Result<nat, DocError>)
    requires end <= |s|
    ensures r.Ok? ==> r.value == end
  {
    if end < |s| && (IdentChar(s[end]) || s[end] == '.') then Err(Malformed) else Ok(end)
  }

  function KeyRest(s: string): (r: Result<(string, string), DocError>)
    ensures r.Ok? ==> |r.value.1| < |s|
  {
    if s != "" && s[0] == '"' then TextRest(s[1..])
    else if s != "" && IdentStart(s[0]) then
      var n := Span(s, IdentChar);
      Ok((s[..n], s[n..]))
    else Err(Malformed)
  }

  // ----- frames -----

  datatype Frame =
    | ArgumentsFrame(fields: seq<DocArgument>, keys: set<string>, key: Option<string>)
    | RecordFrame(fields: seq<DocArgument>, keys: set<string>, key: Option<string>)
    | CallFrame(name: string, values: seq<DocValue>)
    | ListFrame(values: seq<DocValue>)

  predicate Keyed(f: Frame) { f.ArgumentsFrame? || f.RecordFrame? }

  function Closer(f: Frame): char {
    match f
    case ArgumentsFrame(_, _, _) => ')'
    case CallFrame(_, _) => ')'
    case RecordFrame(_, _, _) => '}'
    case ListFrame(_) => ']'
  }

  /** The attribute's own arguments at the bottom, nothing else there, and every
      keyed frame below the top waiting for the value of its key. */
  predicate Stacked(frames: seq<Frame>) {
    && frames != [] && frames[0].ArgumentsFrame?
    && (forall i :: 0 < i < |frames| ==> !frames[i].ArgumentsFrame?)
    && forall i :: 0 <= i < |frames| - 1 && Keyed(frames[i]) ==> frames[i].key.Some?
  }

  function Top(frames: seq<Frame>): Frame
    requires frames != []
  { frames[|frames| - 1] }

  /** Ready for a value: a keyed frame on top knows the value's key. */
  predicate Ready(frames: seq<Frame>) {
    Stacked(frames) && (Keyed(Top(frames)) ==> Top(frames).key.Some?)
  }

  /** Between items: no key is pending on top. */
  predicate Between(frames: seq<Frame>) {
    Stacked(frames) && (Keyed(Top(frames)) ==> Top(frames).key.None?)
  }

  function AddTo(f: Frame, v: DocValue): Frame
    requires Keyed(f) ==> f.key.Some?
  {
    match f
    case ArgumentsFrame(fields, keys, key) => ArgumentsFrame(fields + [DocArgument(key.value, v)], keys, None)
    case RecordFrame(fields, keys, key) => RecordFrame(fields + [DocArgument(key.value, v)], keys, None)
    case CallFrame(name, values) => CallFrame(name, values + [v])
    case ListFrame(values) => ListFrame(values + [v])
  }

  /** `attach`: a finished value goes to the innermost open frame. */
  function Attach(frames: seq<Frame>, v: DocValue): (r: seq<Frame>)
    requires Ready(frames)
    ensures Between(r) && |r| == |frames|
  {
    frames[..|frames| - 1] + [AddTo(Top(frames), v)]
  }

  function WithKey(f: Frame, key: string): Frame
    requires Keyed(f)
  {
    if f.ArgumentsFrame? then ArgumentsFrame(f.fields, f.keys + {key}, Some(key))
    else RecordFrame(f.fields, f.keys + {key}, Some(key))
  }

  // ----- the machine -----

  datatype State = State(rest: string, frames: seq<Frame>, afterItem: bool)

  datatype Outcome = Done(args: seq<DocArgument>) | More(state: State)

  function Closed(f: Frame): DocValue
    requires !f.ArgumentsFrame?
  {
    match f
    case RecordFrame(fields, _, _) => RecordValue(fields)
    case CallFrame(name, values) => CallValue(name, values)
    case ListFrame(values) => ListValue(values)
  }

  /** Opening a nested bracket, within the nesting limit. */
  function Push(rest: string, frames: seq<Frame>, f: Frame, limit: nat): Result<Outcome, DocError> {
    if |frames| + 1 > limit then Err(Nesting(|frames| + 1)) else Ok(More(State(rest, frames + [f], false)))
  }

  function WordValue(word: string): DocValue {
    if word == "true" then BoolValue(true) else if word == "false" then BoolValue(false) else IdentValue(word)
  }

  /** A value, or the opening of a nested one. */
  function ValueStep(s: string, frames: seq<Frame>, limit: nat): (r: Result<Outcome, DocError>)
    requires Ready(frames)
    ensures r.Ok? ==> r.value.More? && |r.value.state.rest| < |s| && Between(r.value.state.frames)
  {
    if s == "" then Err(Malformed)
    else if s[0] == '"' then
      var text := TextRest(s[1..]);
      if text.Err? then Err(text.error)
      else Ok(More(State(text.value.1, Attach(frames, TextValue(text.value.0)), true)))
    else if s[0] == '-' || Digit(s[0]) then
      var n := NumberLength(s);
      if n.Err? then Err(n.error)
      else Ok(More(State(s[n.value..], Attach(frames, NumberValue(s[..n.value])), true)))
    else if s[0] == '[' then Push(s[1..], frames, ListFrame([]), limit)
    else if s[0] == '{' then Push(s[1..], frames, RecordFrame([], {}, None), limit)
    else if IdentStart(s[0]) then
      var n := Span(s, IdentChar);
      var after := SkipSpace(s[n..]);
      if after != "" && after[0] == '(' then Push(after[1..], frames, CallFrame(s[..n], []), limit)
      else Ok(More(State(after, Attach(frames, WordValue(s[..n])), true)))
    else Err(Malformed)
  }

  function CloseStep(s: string, frames: seq<Frame>): (r: Result<Outcome, DocError>)
    requires Between(frames) && s != ""
    ensures r.Ok? && r.value.More? ==>
              |r.value.state.rest| < |s| && Between(r.value.state.frames) && r.value.state.afterItem
  {
    var top := Top(frames);
    if top.ArgumentsFrame? then
      if SkipSpace(s[1..]) == "" then Ok(Done(top.fields)) else Err(Malformed)
    else
      Ok(More(State(s[1..], Attach(frames[..|frames| - 1], Closed(top)), true)))
  }

  /** `key =`, and the frames with the key pending. */
  function KeyStep(s: string, frames: seq<Frame>): (r: Result<(string, seq<Frame>), DocError>)
    requires Between(frames) && Keyed(Top(frames))
    ensures r.Ok? ==> |r.value.0| < |s| && Ready(r.value.1) && |r.value.1| == |frames|
  {
    var key := KeyRest(s);
    if key.Err? then Err(key.error)
    else
      var after := SkipSpace(key.value.1);
      if after == "" || after[0] != '=' then Err(Malformed)
      else if key.value.0 in Top(frames).keys then Err(DuplicateKey)
      else Ok((SkipSpace(after[1..]), frames[..|frames| - 1] + [WithKey(Top(frames), key.value.0)]))
  }

  /** An item: in a keyed frame its key first, then its value. */
  function ItemStep(s: string, frames: seq<Frame>, limit: nat): (r: Result<Outcome, DocError>)
    requires Between(frames)
    ensures r.Ok? ==> r.value.More? && |r.value.state.rest| < |s| && Between(r.value.state.frames)
  {
    if Keyed(Top(frames)) then
      var key := KeyStep(s, frames);
      if key.Err? then Err(key.error) else ValueStep(key.value.0, key.value.1, limit)
    else ValueStep(s, frames, limit)
  }

  /** One turn of the loop. */
  function Step(st: State, limit: nat): (r: Result<Outcome, DocError>)
    requires Between(st.frames)
    ensures r.Ok? && r.value.More? ==> |r.value.state.rest| < |st.rest| && Between(r.value.state.frames)
  {
    var s := SkipSpace(st.rest);
    if s != "" && s[0] == Closer(Top(st.frames)) then CloseStep(s, st.frames)
    else if st.afterItem then
      if s != "" && s[0] == ',' then Ok(More(State(s[1..], st.frames, false))) else Err(Malformed)
    else ItemStep(s, st.frames, limit)
  }

  function Run(st: State, limit: nat): Result<seq<DocArgument>, DocError>
    requires Between(st.frames)
    decreases |st.rest|
  {
    var next := Step(st, limit);
    if next.Err? then Err(next.error)
    else if next.value.Done? then Ok(next.value.args)
    else Run(next.value.state, limit)
  }

  function Start(text: string): (st: State)
    ensures Between(st.frames)
  { State(text, [ArgumentsFrame([], {}, None)], false) }

  /** `parse_arguments` on the text after the opening parenthesis. */
  function Parse(text: string, limit: nat): Result<seq<DocArgument>, DocError> {
    if 1 > limit then Err(Nesting(1)) else Run(Start(text), limit)
  }
}
