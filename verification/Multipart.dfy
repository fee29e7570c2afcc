/** The streaming parser of multipart/form-data bodies: one call's effect on its state, and the class over its buffer. */
module Multipart {
  import opened Common
  import opened HttpText
  import opened QueryText

  const CRLF := "\r\n"
  const DASH := "--"

  function InitialDelimiter(boundary: string): string { DASH + boundary + CRLF }

  function Delimiter(boundary: string): string { CRLF + DASH + boundary }

  datatype File = File(name: string, filename: string, contentType: string)

  const NO_FILE := File("", "", "")

  datatype Event = Header(file: File) | Content(data: string)

  // Searching

  /** The first place where s stands in v, or the length of v. */
  function Find(v: string, s: string): (k: nat)
    requires s != ""
    ensures k <= |v|
    ensures k < |v| ==> k + |s| <= |v|
  {
    if |v| < |s| then |v| else if s <= v then 0 else 1 + Find(v[1..], s)
  }

  // Header lines

  function ToLower(c: char): char {
    if 'A' <= c <= 'Z' then c - 'A' + 'a' else c
  }

  predicate StartsNoCase(a: string, b: string) {
    |b| <= |a| && forall i | 0 <= i < |b| :: ToLower(a[i]) == ToLower(b[i])
  }

  /** What the pattern ^Content-Disposition:\s*form-data;\s*(.*)$ captures, without regard to case. */
  function DispositionParams(header: string): Option<string> {
    if !StartsNoCase(header, "content-disposition:") then None
    else
      var a := header[20..];
      var b := a[SkipSpace(a)..];
      if !StartsNoCase(b, "form-data;") then None
      else
        var c := b[10..];
        var d := c[SkipSpace(c)..];
        if '\r' in d || '\n' in d then None else Some(d)
  }

  /** What the pattern ^UTF-8''(.+?)$ captures, without regard to case. */
  function ExtendedValue(v: string): Option<string> {
    if !StartsNoCase(v, "utf-8''") || |v| == 7 || '\r' in v || '\n' in v then None else Some(v[7..])
  }

  function Unquoted(p: Pair): Pair {
    (Unquote(p.0), Unquote(p.1))
  }

  function UnquotedAll(ps: seq<Pair>): seq<Pair> {
    if ps == [] then [] else [Unquoted(ps[0])] + UnquotedAll(ps[1..])
  }

  /** The parameters of a disposition, in the order they are put into the multimap. */
  function ParsedParams(s: string): seq<Pair> {
    UnquotedAll(KeyValues(Pieces(s, ';'), {}))
  }

  /** find in the multimap: the first entry of a key. */
  function Lookup(ps: seq<Pair>, key: string): Option<string> {
    if ps == [] then None else if ps[0].0 == key then Some(ps[0].1) else Lookup(ps[1..], key)
  }

  function DispositionFile(ps: seq<Pair>, file: File): (File, bool) {
    match Lookup(ps, "name")
    case None => (file, false)
    case Some(name) =>
      var plain := Lookup(ps, "filename");
      var named := file.(name := name, filename := if plain.Some? then plain.value else file.filename);
      match Lookup(ps, "filename*")
      case None => (named, true)
      case Some(v) =>
        var text := ExtendedValue(v);
        if text.None? then (named, false) else (named.(filename := Decode(text.value, false)), true)
  }

  /** What a header line makes of the file, and whether the parser takes it. */
  function HeaderLine(header: string, file: File): (File, bool) {
    if StartsNoCase(header, "content-type:") then (file.(contentType := Trim(header[13..])), true)
    else
      match DispositionParams(header)
      case None => (file, false)
      case Some(text) => DispositionFile(ParsedParams(text), file)
  }

  // The parser as a value

  type State = n: nat | n <= 4

  datatype Parser = Parser(state: State, view: string, valid: bool, file: File)

  datatype Going = Again | Wait | Fail

  datatype Reply = Reply(p: Parser, events: seq<Event>, going: Going)

  /** The inner loop of state 2. It waits in state 2, or leaves it for state 3. */
  function HeaderLines(p: Parser): (r: Reply)
    requires p.state == 2
    ensures |r.p.view| <= |p.view|
    ensures r.going == Again ==> r.p.state == 3 && |r.p.view| < |p.view|
    ensures r.p.state == 2 || r.p.state == 3
    decreases |p.view|
  {
    var pos := Find(p.view, CRLF);
    if pos == |p.view| then Reply(p, [], Wait)
    else if pos == 0 then Reply(p.(view := p.view[2..], state := 3), [Header(p.file)], Again)
    else
      var (file, ok) := HeaderLine(p.view[..pos], p.file);
      if !ok then Reply(p.(file := file, valid := false), [], Fail)
      else HeaderLines(p.(file := file, view := p.view[pos + 2..]))
  }

  function StepInitial(p: Parser, boundary: string): Reply {
    var initial := InitialDelimiter(boundary);
    var v := p.view[Find(p.view, initial)..];
    if |initial| > |v| then Reply(p.(view := v), [], Wait)
    else if !(initial <= v) then Reply(p.(view := v), [], Fail)
    else Reply(p.(view := v[|initial|..], state := 1), [], Again)
  }

  function StepHeaders(p: Parser): Reply
    requires p.state == 2
  {
    if Find(p.view, CRLF) > HEADER_MAX_LENGTH then Reply(p, [], Fail) else HeaderLines(p)
  }

  function StepBody(p: Parser, boundary: string): Reply {
    var delimiter := Delimiter(boundary);
    if |delimiter| > |p.view| then Reply(p, [], Wait)
    else
      var pos := Find(p.view, delimiter);
      if pos < |p.view| then
        Reply(p.(view := p.view[pos + |delimiter|..], state := 4), [Content(p.view[..pos])], Again)
      else
        var len := |p.view| - |delimiter|;
        Reply(p.(view := p.view[len..]), if len > 0 then [Content(p.view[..len])] else [], Wait)
  }

  lemma StepBodyFound(p: Parser, boundary: string, pos: nat)
    requires pos == Find(p.view, Delimiter(boundary)) < |p.view|
    ensures var after := pos + |Delimiter(boundary)|;
            after <= |p.view| && StepBody(p, boundary)
            == Reply(Parser(4, p.view[after..], p.valid, p.file), [Content(p.view[..pos])], Again)
  {}

  lemma StepBodyKept(p: Parser, boundary: string, len: nat)
    requires Find(p.view, Delimiter(boundary)) == |p.view| == len + |Delimiter(boundary)|
    ensures StepBody(p, boundary) == Reply(Parser(p.state, p.view[len..], p.valid, p.file),
                                           if len > 0 then [Content(p.view[..len])] else [], Wait)
  {}

  function StepBoundary(p: Parser): Reply {
    if |p.view| < 2 then Reply(p, [], Wait)
    else if CRLF <= p.view then Reply(p.(view := p.view[2..], state := 1), [], Again)
    else if DASH <= p.view then Reply(p.(view := "", valid := true), [], Again)
    else Reply(p, [], Wait)
  }

  /** One round of the loop over states. */
  function Step(p: Parser, boundary: string): (r: Reply)
    requires p.view != ""
    ensures |r.p.view| <= |p.view|
    ensures r.going == Again ==> |r.p.view| < |p.view| || (p.state == 1 && r.p.state == 2)
    ensures p.state != 0 ==> r.p.state != 0
  {
    match p.state
    case 0 => StepInitial(p, boundary)
    case 1 => Reply(p.(state := 2, file := NO_FILE), [], Again)
    case 2 => StepHeaders(p)
    case 3 => StepBody(p, boundary)
    case 4 => StepBoundary(p)
  }

  /** What a call does with the bytes in the buffer; Again never comes back. */
  function Parse(p: Parser, boundary: string): Reply
    decreases |p.view|, if p.state == 1 then 1 else 0
  {
    if p.view == "" then Reply(p, [], Wait)
    else
      var s := Step(p, boundary);
      if s.going != Again then s
      else
        var r := Parse(s.p, boundary);
        r.(events := s.events + r.events)
  }

  /** Calls with one chunk each, up to the first that fails. */
  function ParseChunks(p: Parser, chunks: seq<string>, boundary: string): Reply
    decreases chunks
  {
    if chunks == [] then Reply(p, [], Wait)
    else
      var s := Parse(p.(view := p.view + chunks[0]), boundary);
      if s.going == Fail then s
      else
        var r := ParseChunks(s.p, chunks[1..], boundary);
        r.(events := s.events + r.events)
  }

  const START := Parser(0, "", false, NO_FILE)
}
