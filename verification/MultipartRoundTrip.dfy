/** The parser gives back what the writer wrote, in one call or in chunks. */
module MultipartRoundTrip {
  import opened Common
  import opened HttpText
  import opened Multipart
  import opened MultipartFind
  import opened MultipartHeaders

  // What the callbacks add up to

  function Taken(items: seq<Item>, e: Event): seq<Item> {
    match e
    case Header(f) => items + [Item(f, "")]
    case Content(d) =>
      if items == [] then []
      else items[..|items| - 1] + [Item(items[|items| - 1].file, items[|items| - 1].content + d)]
  }

  function Collected(items: seq<Item>, events: seq<Event>): seq<Item>
    decreases events
  {
    if events == [] then items else Collected(Taken(items, events[0]), events[1..])
  }

  lemma CollectedAppend(items: seq<Item>, a: seq<Event>, b: seq<Event>)
    ensures Collected(items, a + b) == Collected(Collected(items, a), b)
    decreases a
  {
    if a == [] {
      assert a + b == b;
    } else {
      assert (a + b)[1..] == a[1..] + b;
      CollectedAppend(Taken(items, a[0]), a[1..], b);
    }
  }

  lemma CollectedOne(items: seq<Item>, e: Event)
    ensures Collected(items, [e]) == Taken(items, e) && Collected(items, []) == items
  {
    assert [e][1..] == [];
  }

  // Well-formed items

  predicate Fits(item: Item, boundary: string) {
    Sound(item.file) && Find(item.content, Delimiter(boundary)) == |item.content|
  }

  /** In one call only the first header line of an item is measured; in chunks, every line, and with its CR. */
  predicate Measured(f: File, single: bool) {
    if single then |DispositionLine(f)| <= HEADER_MAX_LENGTH
    else forall i | 0 <= i < |Lines(f)| :: |Lines(f)[i]| < HEADER_MAX_LENGTH
  }

  predicate AllFit(items: seq<Item>, boundary: string, single: bool) {
    '\r' !in boundary && forall i | 0 <= i < |items| :: Fits(items[i], boundary) && Measured(items[i].file, single)
  }

  // What is still to come

  /** Behind an item's delimiter, with the items that follow it. */
  function After(items: seq<Item>, boundary: string): string
    decreases |items|, 2
  {
    if items == [] then DASH + CRLF else CRLF + Tail(items, boundary)
  }

  /** Behind the line of an item's first delimiter. */
  function Tail(items: seq<Item>, boundary: string): string
    requires items != []
    decreases |items|, 1
  {
    Block(Lines(items[0].file)) + Behind(items, boundary)
  }

  /** Behind an item's headers. */
  function Behind(items: seq<Item>, boundary: string): string
    requires items != []
    decreases |items|, 0
  {
    items[0].content + (Delimiter(boundary) + After(items[1..], boundary))
  }

  lemma {:induction false} SerializedTail(items: seq<Item>, boundary: string)
    requires items != []
    ensures Serialized(items, boundary) == InitialDelimiter(boundary) + Tail(items, boundary)
  {
    var rest := items[1..];
    if rest != [] { SerializedTail(rest, boundary); }
    SerializedRest(rest, boundary);
    SerializedShape(InitialDelimiter(boundary), Block(Lines(items[0].file)), items[0].content, Serialized(rest, boundary));
  }

  lemma SerializedRest(rest: seq<Item>, boundary: string)
    requires rest != [] ==> Serialized(rest, boundary) == InitialDelimiter(boundary) + Tail(rest, boundary)
    ensures CRLF + Serialized(rest, boundary) == Delimiter(boundary) + After(rest, boundary)
  {
    if rest != [] {
      Moved(CRLF, DASH, boundary, CRLF, Tail(rest, boundary));
    } else {
      Moved(CRLF, DASH, boundary, DASH, CRLF);
    }
  }

  lemma Moved(a: string, b: string, c: string, d: string, e: string)
    ensures a + (b + c + d + e) == a + b + c + (d + e)
  {}

  lemma SerializedShape(d: string, block: string, content: string, after: string)
    ensures d + block + content + CRLF + after == d + (block + (content + (CRLF + after)))
  {
    Regrouped(d + block, content, CRLF, after);
    Glue(d, block, content + (CRLF + after));
  }

  datatype Place =
    | AtStart(left: seq<Item>)
    | AtLines(k: nat, left: seq<Item>)
    | AtBody(done: seq<Item>, sofar: string, rest: string, left: seq<Item>)
    | AtDelimiter(left: seq<Item>)
    | AtEnd

  /** The file after k header lines. */
  function FileAfter(f: File, k: nat): File {
    if k == 0 then NO_FILE else if k == 1 then File(f.name, f.filename, "") else f
  }

  /**
   * How the parser's state, the items collected so far and the bytes w still to parse (those in the buffer first)
   * fit the list of all items.
   */
  predicate Agrees(p: Parser, at: Place, all: seq<Item>, boundary: string, got: seq<Item>, w: string) {
    match at
    case AtStart(left) => p.state == 1 && left != [] && got + left == all && w == Tail(left, boundary)
    case AtLines(k, left) =>
      && p.state == 2 && left != [] && got + left == all
      && k <= |Lines(left[0].file)| && p.file == FileAfter(left[0].file, k)
      && w == Block(Lines(left[0].file)[k..]) + Behind(left, boundary)
    case AtBody(done, sofar, rest, left) =>
      && p.state == 3 && left != [] && done + left == all
      && got == done + [Item(left[0].file, sofar)] && sofar + rest == left[0].content
      && Find(rest, Delimiter(boundary)) == |rest|
      && w == rest + (Delimiter(boundary) + After(left[1..], boundary))
    case AtDelimiter(left) => p.state == 4 && got + left == all && w == After(left, boundary)
    case AtEnd =>
      && p.valid && got == all
      && if p.state == 1 then w == "" else p.state == 4 && (w == "" || w == "\n" || w == "\r\n")
  }

  // One step at each place

  lemma DelimiterShape(boundary: string)
    requires '\r' !in boundary
    ensures Delimiter(boundary)[0] == '\r' && '\r' !in Delimiter(boundary)[1..]
  {
    assert Delimiter(boundary)[1..] == "\n--" + boundary;
  }

  /** The step of a place: it never fails, and waits only for bytes that have not come. */
  predicate Advanced(s: Reply, at: Place, all: seq<Item>, boundary: string, got: seq<Item>, more: string) {
    && s.going != Fail && (s.going == Wait && at != AtEnd ==> more != "")
    && Agrees(s.p, at, all, boundary, Collected(got, s.events), s.p.view + more)
  }

  lemma TakenContent(done: seq<Item>, f: File, sofar: string, d: string)
    ensures Collected(done + [Item(f, sofar)], [Content(d)]) == done + [Item(f, sofar + d)]
  {
    CollectedOne(done + [Item(f, sofar)], Content(d));
    assert (done + [Item(f, sofar)])[..|done|] == done;
  }

  /** The buffer that holds the rest of the content and the delimiter. */
  lemma BodySplit(view: string, more: string, rest: string, d: string, tail: string)
    requires view + more == rest + (d + tail) && |rest| + |d| <= |view|
    ensures view[..|rest|] == rest && view[|rest| + |d|..] + more == tail
  {
    Glue(rest, d, tail);
    DropPrefix(rest + d, tail);
    assert view[..|rest|] == (view + more)[..|rest|];
    assert view[|rest| + |d|..] + more == (view + more)[|rest| + |d|..];
  }

  /** The delimiter is in the buffer: the rest of the content goes out, and nothing of the delimiter. */
  lemma BodyEnds(p: Parser, at: Place, all: seq<Item>, boundary: string, got: seq<Item>, more: string)
    requires at.AtBody? && Agrees(p, at, all, boundary, got, p.view + more)
    requires Find(p.view, Delimiter(boundary)) == |at.rest| && |at.rest| + |Delimiter(boundary)| <= |p.view|
    ensures Advanced(StepBody(p, boundary), AtDelimiter(at.left[1..]), all, boundary, got, more)
  {
    var left := at.left;
    StepBodyFound(p, boundary, |at.rest|);
    BodySplit(p.view, more, at.rest, Delimiter(boundary), After(left[1..], boundary));
    TakenContent(at.done, left[0].file, at.sofar, at.rest);
    assert at.done + [left[0]] + left[1..] == all;
  }

  /** It is not: all but as many bytes as it has go out. */
  lemma BodyGoesOn(p: Parser, at: Place, all: seq<Item>, boundary: string, got: seq<Item>, more: string)
    returns (next: Place)
    requires at.AtBody? && Agrees(p, at, all, boundary, got, p.view + more)
    requires Find(p.view, Delimiter(boundary)) == |p.view| < |at.rest| + |Delimiter(boundary)|
    ensures next.AtBody? && Advanced(StepBody(p, boundary), next, all, boundary, got, more)
  {
    var d, rest, left := Delimiter(boundary), at.rest, at.left;
    next := at;
    assert |p.view + more| >= |rest| + |d|;
    if |d| > |p.view| {
      CollectedOne(got, Content(""));
    } else {
      var len := |p.view| - |d|;
      var out, kept := rest[..len], rest[len..];
      next := AtBody(at.done, at.sofar + out, kept, left);
      FindFrom(rest, d, len);
      assert p.view[..len] == out by { assert (p.view + more)[..len] == out; }
      assert rest == out + kept;
      assert p.view[len..] + more == kept + (d + After(left[1..], boundary)) by {
        assert p.view[len..] + more == (p.view + more)[len..];
      }
      TakenContent(at.done, left[0].file, at.sofar, out);
      CollectedOne(got, Content(""));
      if len == 0 { assert at.sofar + "" == at.sofar; }
      assert at.sofar + out + kept == at.sofar + rest;
    }
  }

  lemma BodyStep(p: Parser, at: Place, all: seq<Item>, boundary: string, got: seq<Item>, more: string)
    returns (next: Place)
    requires '\r' !in boundary && at.AtBody? && Agrees(p, at, all, boundary, got, p.view + more)
    ensures next.AtBody? || next.AtDelimiter?
    ensures Advanced(StepBody(p, boundary), next, all, boundary, got, more)
  {
    var d := Delimiter(boundary);
    DelimiterShape(boundary);
    FindPut(at.rest, d, After(at.left[1..], boundary));
    FindInPrefix(p.view, more, d);
    if |at.rest| + |d| <= |p.view| {
      BodyEnds(p, at, all, boundary, got, more);
      next := AtDelimiter(at.left[1..]);
    } else {
      next := BodyGoesOn(p, at, all, boundary, got, more);
    }
  }

  lemma DelimiterStep(p: Parser, at: Place, all: seq<Item>, boundary: string, got: seq<Item>, more: string)
    returns (next: Place)
    requires at.AtDelimiter? && Agrees(p, at, all, boundary, got, p.view + more)
    ensures !next.AtLines? && Advanced(StepBoundary(p), next, all, boundary, got, more)
  {
    next := at;
    var w := p.view + more;
    CollectedOne(got, Content(""));
    assert w[0] == After(at.left, boundary)[0] && w[1] == After(at.left, boundary)[1];
    if |p.view| >= 2 {
      assert p.view[0] == w[0] && p.view[1] == w[1];
      assert p.view[2..] + more == w[2..];
      if at.left == [] {
        next := AtEnd;
        assert w == "--\r\n" && w[2..] == "\r\n";
        assert more == "\r\n"[|p.view| - 2..];
        assert got + [] == got;
      } else {
        next := AtStart(at.left);
        assert w[2..] == Tail(at.left, boundary);
      }
    }
  }

  lemma EndStep(p: Parser, all: seq<Item>, boundary: string, got: seq<Item>, more: string)
    requires p.view != "" && Agrees(p, AtEnd, all, boundary, got, p.view + more)
    ensures p.state == 4 && Advanced(StepBoundary(p), AtEnd, all, boundary, got, more)
  {
    CollectedOne(got, Content(""));
    var w := p.view + more;
    assert |p.view| <= |w| && w[0] == p.view[0];
    if |p.view| == 2 { assert p.view == w; }
  }

  // Header lines

  lemma LineRead(f: File, k: nat)
    requires Sound(f) && k < |Lines(f)|
    ensures HeaderLine(Lines(f)[k], FileAfter(f, k)) == (FileAfter(f, k + 1), true)
    ensures Lines(f)[k] != "" && Find(Lines(f)[k], CRLF) == |Lines(f)[k]|
  {
    if k == 0 {
      DispositionRead(f);
      DispositionEnds(f);
    } else {
      TypeRead(f.contentType, FileAfter(f, 1));
      TypeEnds(f.contentType);
    }
  }

  /** The first line of a block ends at its CRLF, whatever follows. */
  lemma BlockStarts(line: string, lines: seq<string>, tail: string)
    requires Find(line, CRLF) == |line|
    ensures var w := Block([line] + lines) + tail;
            Find(w, CRLF) == |line| && w == line + (CRLF + (Block(lines) + tail))
  {
    assert ([line] + lines)[1..] == lines;
    Regrouped(line, CRLF, Block(lines), tail);
    assert CRLF[1..] == "\n";
    FindPut(line, CRLF, Block(lines) + tail);
  }

  lemma Regrouped(a: string, b: string, c: string, d: string)
    ensures a + b + c + d == a + (b + (c + d))
  {}

  lemma NextLine(f: File, k: nat, tail: string)
    requires Sound(f) && k < |Lines(f)|
    ensures var w := Block(Lines(f)[k..]) + tail;
            Find(w, CRLF) == |Lines(f)[k]| && w == Lines(f)[k] + (CRLF + (Block(Lines(f)[k + 1..]) + tail))
  {
    LineRead(f, k);
    BlockStarts(Lines(f)[k], Lines(f)[k + 1..], tail);
    assert Lines(f)[k..] == [Lines(f)[k]] + Lines(f)[k + 1..];
  }

  lemma LastLine(f: File, tail: string)
    ensures var w := Block(Lines(f)[|Lines(f)|..]) + tail; Find(w, CRLF) == 0 && w == CRLF + tail
    ensures FileAfter(f, |Lines(f)|) == f
  {
    assert Lines(f)[|Lines(f)|..] == [];
  }

  /** The buffer after a first line, if it holds all of it. */
  lemma LineSplit(view: string, more: string, line: string, tail: string)
    requires view + more == line + (CRLF + tail) && |line| + 2 <= |view|
    ensures view[..|line|] == line && view[|line| + 2..] + more == tail
  {
    assert view[..|line|] == (view + more)[..|line|];
    assert view[|line| + 2..] + more == (view + more)[|line| + 2..];
    assert line + (CRLF + tail) == (line + CRLF) + tail;
  }

  /** The empty line: the header callback gets the item's file. */
  lemma HeaderReported(p: Parser, at: Place, all: seq<Item>, boundary: string, got: seq<Item>, more: string)
    requires at.AtLines? && Agrees(p, at, all, boundary, got, p.view + more) && Fits(at.left[0], boundary)
    requires at.k == |Lines(at.left[0].file)| && |p.view| >= 2
    ensures Advanced(Reply(p.(view := p.view[2..], state := 3), [Header(p.file)], Again),
                     AtBody(got, "", at.left[0].content, at.left), all, boundary, got, more)
  {
    var left := at.left;
    LastLine(left[0].file, Behind(left, boundary));
    LineSplit(p.view, more, "", Behind(left, boundary));
    CollectedOne(got, Header(p.file));
    assert "" + left[0].content == left[0].content;
  }

  lemma HeadersEnd(p: Parser, at: Place, all: seq<Item>, boundary: string, got: seq<Item>, more: string)
    requires at.AtLines? && Agrees(p, at, all, boundary, got, p.view + more) && Fits(at.left[0], boundary)
    requires at.k == |Lines(at.left[0].file)| && Find(p.view, CRLF) == 0 && |p.view| >= 2
    ensures Advanced(HeaderLines(p), AtBody(got, "", at.left[0].content, at.left), all, boundary, got, more)
  {
    HeaderReported(p, at, all, boundary, got, more);
    EmptyLine(p);
  }

  lemma EmptyLine(p: Parser)
    requires p.state == 2 && Find(p.view, CRLF) == 0 && |p.view| >= 2
    ensures HeaderLines(p) == Reply(p.(view := p.view[2..], state := 3), [Header(p.file)], Again)
  {}

  lemma OneLineRead(w: string, line: string, t: string, valid: bool, file: File, next: File)
    requires Find(w, CRLF) == |line| && 0 < |line| < |w| && w[..|line|] == line && w[|line| + 2..] == t
    requires HeaderLine(line, file) == (next, true)
    ensures HeaderLines(Parser(2, w, valid, file)) == HeaderLines(Parser(2, t, valid, next))
  {}

  /** A whole header line is read, and the next one is due. */
  lemma LineTaken(p: Parser, at: Place, all: seq<Item>, boundary: string, got: seq<Item>, more: string) returns (q: Parser)
    requires at.AtLines? && Agrees(p, at, all, boundary, got, p.view + more) && Fits(at.left[0], boundary)
    requires at.k < |Lines(at.left[0].file)| && |Lines(at.left[0].file)[at.k]| + 2 <= |p.view|
    ensures Agrees(q, AtLines(at.k + 1, at.left), all, boundary, got, q.view + more)
    ensures HeaderLines(p) == HeaderLines(q) && |q.view| < |p.view|
  {
    var f, tail := at.left[0].file, Behind(at.left, boundary);
    var line, t := Lines(f)[at.k], Block(Lines(f)[at.k + 1..]) + tail;
    q := p.(file := FileAfter(f, at.k + 1), view := p.view[|line| + 2..]);
    LineInBuffer(p.view, more, f, at.k, tail);
    OneLineRead(p.view, line, q.view, p.valid, p.file, q.file);
  }

  lemma LineInBuffer(view: string, more: string, f: File, k: nat, tail: string)
    requires Sound(f) && k < |Lines(f)| && |Lines(f)[k]| + 2 <= |view|
    requires view + more == Block(Lines(f)[k..]) + tail
    ensures var line := Lines(f)[k];
            && 0 < |line| == Find(view, CRLF) && view[..|line|] == line
            && view[|line| + 2..] + more == Block(Lines(f)[k + 1..]) + tail
            && HeaderLine(line, FileAfter(f, k)) == (FileAfter(f, k + 1), true)
  {
    FindInPrefix(view, more, CRLF);
    NextLine(f, k, tail);
    LineRead(f, k);
    LineSplit(view, more, Lines(f)[k], Block(Lines(f)[k + 1..]) + tail);
  }

  lemma LinesStep(p: Parser, at: Place, all: seq<Item>, boundary: string, got: seq<Item>, more: string)
    returns (next: Place)
    requires at.AtLines? && Agrees(p, at, all, boundary, got, p.view + more) && Fits(at.left[0], boundary)
    ensures next.AtBody? || (next.AtLines? && HeaderLines(p).going == Wait)
    ensures Advanced(HeaderLines(p), next, all, boundary, got, more)
    decreases |p.view|
  {
    var f, tail := at.left[0].file, Behind(at.left, boundary);
    next := at;
    FindInPrefix(p.view, more, CRLF);
    CollectedOne(got, Content(""));
    if at.k == |Lines(f)| {
      LastLine(f, tail);
      if |p.view| >= 2 {
        HeadersEnd(p, at, all, boundary, got, more);
        next := AtBody(got, "", at.left[0].content, at.left);
      }
    } else {
      var line := Lines(f)[at.k];
      NextLine(f, at.k, tail);
      if |line| + 2 <= |p.view| {
        var q := LineTaken(p, at, all, boundary, got, more);
        next := LinesStep(q, AtLines(at.k + 1, at.left), all, boundary, got, more);
      }
    }
  }

  lemma HeadersStep(p: Parser, at: Place, all: seq<Item>, boundary: string, got: seq<Item>, more: string, single: bool)
    returns (next: Place)
    requires at.AtLines? && Agrees(p, at, all, boundary, got, p.view + more)
    requires Fits(at.left[0], boundary) && Measured(at.left[0].file, single) && (single ==> at.k == 0 && more == "")
    ensures next.AtBody? || (next.AtLines? && StepHeaders(p).going == Wait)
    ensures Advanced(StepHeaders(p), next, all, boundary, got, more)
  {
    var f, tail := at.left[0].file, Behind(at.left, boundary);
    FindInPrefix(p.view, more, CRLF);
    if at.k == |Lines(f)| { LastLine(f, tail); } else { NextLine(f, at.k, tail); }
    next := LinesStep(p, at, all, boundary, got, more);
  }

  // Whole calls

  lemma LeftFits(got: seq<Item>, left: seq<Item>, all: seq<Item>, boundary: string, single: bool)
    requires got + left == all && left != [] && AllFit(all, boundary, single)
    ensures Fits(left[0], boundary) && Measured(left[0].file, single)
  {
    assert all[|got|] == left[0];
  }

  lemma StepAgrees(p: Parser, at: Place, all: seq<Item>, boundary: string, got: seq<Item>, more: string, single: bool)
    returns (next: Place)
    requires p.view != "" && AllFit(all, boundary, single) && Agrees(p, at, all, boundary, got, p.view + more)
    requires single ==> more == "" && (at.AtLines? ==> at.k == 0)
    ensures Advanced(Step(p, boundary), next, all, boundary, got, more)
    ensures single && Step(p, boundary).going == Again && next.AtLines? ==> next.k == 0
  {
    match at
    case AtStart(left) =>
      next := AtLines(0, left);
      CollectedOne(got, Content(""));
      assert Lines(left[0].file)[0..] == Lines(left[0].file);
    case AtLines(_, left) =>
      LeftFits(got, left, all, boundary, single);
      next := HeadersStep(p, at, all, boundary, got, more, single);
    case AtBody(_, _, _, _) =>
      next := BodyStep(p, at, all, boundary, got, more);
    case AtDelimiter(_) =>
      next := DelimiterStep(p, at, all, boundary, got, more);
    case AtEnd =>
      EndStep(p, all, boundary, got, more);
      next := AtEnd;
  }

  lemma OnlyEndIsEmpty(p: Parser, at: Place, all: seq<Item>, boundary: string, got: seq<Item>)
    requires Agrees(p, at, all, boundary, got, "")
    ensures at == AtEnd
  {}

  lemma ParseAgrees(p: Parser, at: Place, all: seq<Item>, boundary: string, got: seq<Item>, more: string, single: bool)
    returns (next: Place)
    requires AllFit(all, boundary, single) && Agrees(p, at, all, boundary, got, p.view + more)
    requires single ==> more == "" && (at.AtLines? ==> at.k == 0)
    ensures var r := Parse(p, boundary);
            && r.going != Fail && (more == "" ==> next == AtEnd)
            && Agrees(r.p, next, all, boundary, Collected(got, r.events), r.p.view + more)
    decreases |p.view|, if p.state == 1 then 1 else 0
  {
    if p.view == "" {
      next := at;
      CollectedOne(got, Content(""));
      assert p.view + more == more;
      if more == "" { OnlyEndIsEmpty(p, at, all, boundary, got); }
    } else {
      next := StepAgrees(p, at, all, boundary, got, more, single);
      var s := Step(p, boundary);
      if s.going == Again {
        var gained := Collected(got, s.events);
        CollectedAppend(got, s.events, Parse(s.p, boundary).events);
        next := ParseAgrees(s.p, next, all, boundary, gained, more, single);
      }
    }
  }

  lemma ParseStart(view: string, tail: string, boundary: string)
    requires view == InitialDelimiter(boundary) + tail
    ensures Parse(START.(view := view), boundary) == Parse(Parser(1, tail, false, NO_FILE), boundary)
  {
    var d := InitialDelimiter(boundary);
    assert d <= view && view[|d|..] == tail && view[0..] == view;
    var p := START.(view := view);
    assert Step(p, boundary) == Reply(Parser(1, tail, false, NO_FILE), [], Again);
    assert [] + Parse(Parser(1, tail, false, NO_FILE), boundary).events
        == Parse(Parser(1, tail, false, NO_FILE), boundary).events;
  }

  /**
   * One call on what the writer wrote reports exactly the items, in order, and ends valid, if the first header line of
   * each is within the limit.
   */
  lemma RoundTrip(items: seq<Item>, boundary: string)
    requires items != [] && AllFit(items, boundary, true)
    ensures var r := Parse(START.(view := Serialized(items, boundary)), boundary);
            r.going != Fail && r.p.valid && Collected([], r.events) == items
  {
    var tail := Tail(items, boundary);
    SerializedTail(items, boundary);
    ParseStart(Serialized(items, boundary), tail, boundary);
    assert tail + "" == tail && [] + items == items;
    var next := ParseAgrees(Parser(1, tail, false, NO_FILE), AtStart(items), items, boundary, [], "", true);
  }

  lemma ChunksAgree(p: Parser, at: Place, all: seq<Item>, boundary: string, got: seq<Item>, chunks: seq<string>)
    requires AllFit(all, boundary, false) && Agrees(p, at, all, boundary, got, p.view + Joined(chunks))
    requires chunks == [] ==> at == AtEnd
    ensures var r := ParseChunks(p, chunks, boundary);
            r.going != Fail && r.p.valid && Collected(got, r.events) == all
    decreases chunks
  {
    CollectedOne(got, Content(""));
    if chunks != [] {
      var more := Joined(chunks[1..]);
      Glue(p.view, chunks[0], more);
      var q := p.(view := p.view + chunks[0]);
      var next := ParseAgrees(q, at, all, boundary, got, more, false);
      var s := Parse(q, boundary);
      CollectedAppend(got, s.events, ParseChunks(s.p, chunks[1..], boundary).events);
      ChunksAgree(s.p, next, all, boundary, Collected(got, s.events), chunks[1..]);
    }
  }

  /** How many bytes the first call gets that gets any. */
  function FirstBytes(chunks: seq<string>): nat {
    if chunks == [] then 0 else if chunks[0] == "" then FirstBytes(chunks[1..]) else |chunks[0]|
  }

  lemma EmptyCall(chunks: seq<string>, boundary: string)
    requires chunks != [] && chunks[0] == ""
    ensures ParseChunks(START, chunks, boundary) == ParseChunks(START, chunks[1..], boundary)
    ensures Joined(chunks) == Joined(chunks[1..])
  {
    assert "" + "" == "" && [] + ParseChunks(START, chunks[1..], boundary).events
        == ParseChunks(START, chunks[1..], boundary).events;
  }

  ghost predicate Survives(items: seq<Item>, boundary: string, chunks: seq<string>) {
    var r := ParseChunks(START, chunks, boundary);
    r.going != Fail && r.p.valid && Collected([], r.events) == items
  }

  /**
   * The same in any chunks, if the first that is not empty holds the whole first delimiter, and every header line is
   * within the limit.
   */
  lemma {:induction false} StreamedRoundTrip(items: seq<Item>, boundary: string, chunks: seq<string>)
    requires items != [] && AllFit(items, boundary, false)
    requires Joined(chunks) == Serialized(items, boundary)
    requires FirstBytes(chunks) >= |InitialDelimiter(boundary)|
    ensures Survives(items, boundary, chunks)
    decreases chunks
  {
    if chunks[0] == "" {
      EmptyCall(chunks, boundary);
      StreamedRoundTrip(items, boundary, chunks[1..]);
    } else {
      StreamedFrom(items, boundary, chunks);
    }
  }

  lemma StreamedFrom(items: seq<Item>, boundary: string, chunks: seq<string>)
    requires items != [] && AllFit(items, boundary, false)
    requires Joined(chunks) == Serialized(items, boundary)
    requires chunks != [] && |chunks[0]| >= |InitialDelimiter(boundary)|
    ensures Survives(items, boundary, chunks)
  {
    var d, tail, more := InitialDelimiter(boundary), Tail(items, boundary), Joined(chunks[1..]);
    SerializedTail(items, boundary);
    var view := chunks[0][|d|..];
    FirstChunk(chunks[0], more, d, tail);
    StartChunks(chunks, view, boundary);
    var later := [view] + chunks[1..];
    assert later[1..] == chunks[1..] && "" + (view + more) == tail && [] + items == items;
    ChunksAgree(Parser(1, "", false, NO_FILE), AtStart(items), items, boundary, [], later);
  }

  lemma FirstChunk(chunk: string, more: string, d: string, tail: string)
    requires chunk + more == d + tail && |d| <= |chunk|
    ensures chunk == d + chunk[|d|..] && chunk[|d|..] + more == tail
  {
    assert chunk[..|d|] == (chunk + more)[..|d|] == d;
    assert chunk[|d|..] + more == (chunk + more)[|d|..];
  }

  lemma StartChunks(chunks: seq<string>, view: string, boundary: string)
    requires chunks != [] && chunks[0] == InitialDelimiter(boundary) + view
    ensures ParseChunks(START, chunks, boundary)
            == ParseChunks(Parser(1, "", false, NO_FILE), [view] + chunks[1..], boundary)
  {
    assert "" + chunks[0] == chunks[0] && "" + view == view && ([view] + chunks[1..])[1..] == chunks[1..];
    ParseStart(chunks[0], view, boundary);
  }

  // What is not promised

  /** A body without items is written, but never valid to the parser. */
  lemma EmptyListIsInvalid(boundary: string)
    requires '\r' !in boundary
    ensures !Parse(START.(view := Serialized([], boundary)), boundary).p.valid
  {
    var w, d := Serialized([], boundary), InitialDelimiter(boundary);
    var p := START.(view := w);
    var v := w[Find(w, d)..];
    if d <= v {
      assert d[|d| - 2] == '\r' && v[|d| - 2] == '\r';
      assert w[|w| - |v| + |d| - 2] == '\r';
      assert forall i | 0 <= i < |w| - 2 :: w[i] != '\r';
      assert v[|d|..] == "";
      assert Step(p, boundary) == Reply(Parser(1, "", false, NO_FILE), [], Again);
    }
  }

  /**
   * The first call forgets all it gets, and leaves the parser as it was, exactly if the whole first delimiter is not in
   * it. Part of a delimiter at the end of a chunk is lost.
   */
  lemma FirstDelimiterWhole(chunk: string, boundary: string)
    requires chunk != ""
    ensures Parse(START.(view := chunk), boundary) == Reply(START, [], Wait)
            <==> Find(chunk, InitialDelimiter(boundary)) == |chunk|
  {
    var d := InitialDelimiter(boundary);
    var k := Find(chunk, d);
    if k < |chunk| {
      FindFound(chunk, d);
      LeavesStart(Parser(1, chunk[k + |d|..], false, NO_FILE), boundary);
      assert chunk[k..][|d|..] == chunk[k + |d|..];
    } else {
      assert chunk[k..] == "";
    }
  }

  /** No state goes back to 0. */
  lemma LeavesStart(p: Parser, boundary: string)
    requires p.state != 0
    ensures Parse(p, boundary).p.state != 0
    decreases |p.view|, if p.state == 1 then 1 else 0
  {
    if p.view != "" && Step(p, boundary).going == Again { LeavesStart(Step(p, boundary).p, boundary); }
  }

  // Bodies in any chunks

  function Bytes(events: seq<Event>): string {
    if events == [] then "" else (if events[0].Content? then events[0].data else "") + Bytes(events[1..])
  }

  predicate AllContent(events: seq<Event>) {
    forall i | 0 <= i < |events| :: events[i].Content?
  }

  /** How many bytes of the body a call hands on when it does not see the whole delimiter. */
  function HandedOn(view: string, boundary: string): nat {
    if |view| > |Delimiter(boundary)| then |view| - |Delimiter(boundary)| else 0
  }

  lemma BodyRound(p: Parser, more: string, boundary: string)
    requires p.state == 3 && Find(p.view + more, Delimiter(boundary)) + |Delimiter(boundary)| > |p.view|
    ensures var len := HandedOn(p.view, boundary);
            && len <= Find(p.view + more, Delimiter(boundary))
            && Parse(p, boundary)
               == Reply(p.(view := p.view[len..]), if len > 0 then [Content(p.view[..len])] else [], Wait)
  {
    FindInPrefix(p.view, more, Delimiter(boundary));
    if HandedOn(p.view, boundary) == 0 { assert p.view[0..] == p.view; }
  }

  lemma BytesAppend(a: seq<Event>, b: seq<Event>)
    ensures Bytes(a + b) == Bytes(a) + Bytes(b)
    ensures AllContent(a) && AllContent(b) ==> AllContent(a + b)
  {
    if a == [] {
      assert a + b == b;
    } else {
      assert (a + b)[1..] == a[1..] + b;
      BytesAppend(a[1..], b);
    }
  }

  /** One call on a chunk without the end of a delimiter. */
  lemma BodyChunk(p: Parser, chunk: string, more: string, boundary: string) returns (out: string, kept: string)
    requires p.state == 3
    requires Find(p.view + (chunk + more), Delimiter(boundary)) + |Delimiter(boundary)| > |p.view + chunk|
    ensures p.view + chunk == out + kept && |out| == HandedOn(p.view + chunk, boundary)
    ensures |out| <= Find(p.view + (chunk + more), Delimiter(boundary))
    ensures var r := Parse(p.(view := p.view + chunk), boundary);
            r == Reply(p.(view := kept), r.events, Wait) && AllContent(r.events) && Bytes(r.events) == out
  {
    var q := p.(view := p.view + chunk);
    Glue(p.view, chunk, more);
    var len := HandedOn(q.view, boundary);
    out, kept := q.view[..len], q.view[len..];
    BodyRound(q, more, boundary);
    BytesOne(out);
  }

  lemma BytesOne(d: string)
    ensures Bytes([Content(d)]) == d && Bytes([]) == ""
  {
    assert [Content(d)][1..] == [] && d + "" == d;
  }

  /** A body that goes on: everything but what may be the start of a delimiter has gone out, in order, and once. */
  lemma {:induction false} BodyWithoutDelimiter(p: Parser, chunks: seq<string>, boundary: string)
    requires p.state == 3 && chunks != []
    requires Find(p.view + Joined(chunks), Delimiter(boundary)) == |p.view + Joined(chunks)|
    ensures var w, n, r := p.view + Joined(chunks), |Delimiter(boundary)|, ParseChunks(p, chunks, boundary);
            && r.going == Wait && r.p.state == 3 && AllContent(r.events) && Bytes(r.events) + r.p.view == w
            && |r.p.view| == if |w| < n then |w| else n
    decreases chunks
  {
    var d, more := Delimiter(boundary), Joined(chunks[1..]);
    var out, kept := BodyChunk(p, chunks[0], more, boundary);
    var s := Parse(p.(view := p.view + chunks[0]), boundary);
    var rest := ParseChunks(s.p, chunks[1..], boundary);
    var w := p.view + Joined(chunks);
    assert w == out + (kept + more) by { Glue(p.view, chunks[0], more); Glue(out, kept, more); }
    BytesAppend(s.events, rest.events);
    if chunks[1..] == [] {
      assert s.events + [] == s.events && out + (kept + "") == out + kept && w == p.view + chunks[0];
    } else {
      FindFrom(w, d, |out|);
      DropPrefix(out, kept + more);
      BodyWithoutDelimiter(s.p, chunks[1..], boundary);
      Glue(out, Bytes(rest.events), rest.p.view);
    }
  }

  function Prefixed(first: seq<Event>, r: Reply): Reply {
    r.(events := first + r.events)
  }

  function Resumed(p: Parser, x: string, chunks: seq<string>, boundary: string): Reply {
    ParseChunks(Parser(4, "", p.valid, p.file), [x] + chunks, boundary)
  }

  lemma BodyKept(p: Parser, chunks: seq<string>, boundary: string) returns (events: seq<Event>, out: string, kept: string)
    requires p.state == 3 && chunks != []
    requires Find(p.view + Joined(chunks), Delimiter(boundary)) + |Delimiter(boundary)| > |p.view + chunks[0]|
    ensures p.view + Joined(chunks) == out + (kept + Joined(chunks[1..]))
    ensures |out| <= Find(p.view + Joined(chunks), Delimiter(boundary)) && AllContent(events) && Bytes(events) == out
    ensures ParseChunks(p, chunks, boundary)
            == Prefixed(events, ParseChunks(Parser(3, kept, p.valid, p.file), chunks[1..], boundary))
  {
    var more := Joined(chunks[1..]);
    out, kept := BodyChunk(p, chunks[0], more, boundary);
    events := Parse(p.(view := p.view + chunks[0]), boundary).events;
    Glue(p.view, chunks[0], more);
    Glue(out, kept, more);
  }

  predicate LeftBody(w: string, k: nat, n: nat, first: seq<Event>, x: string, chunks: seq<string>)
    requires k + n <= |w|
  {
    AllContent(first) && Bytes(first) == w[..k] && x + Joined(chunks) == w[k + n..]
  }

  /** The call that sees the whole delimiter goes on behind it, as from a new call in state 4. */
  lemma BodyFound(p: Parser, chunks: seq<string>, boundary: string, v: string, k: nat)
    requires p.state == 3 && chunks != [] && v == p.view + chunks[0]
    requires k == Find(v, Delimiter(boundary)) && k + |Delimiter(boundary)| <= |v|
    ensures ParseChunks(p, chunks, boundary)
            == Prefixed([Content(v[..k])], Resumed(p, v[k + |Delimiter(boundary)|..], chunks[1..], boundary))
  {
    var x, first := v[k + |Delimiter(boundary)|..], [Content(v[..k])];
    StepBodyFound(p.(view := v), boundary, k);
    assert "" + x == x && ([x] + chunks[1..])[1..] == chunks[1..];
    var s := Parse(Parser(4, x, p.valid, p.file), boundary);
    if s.going != Fail { Glue(first, s.events, ParseChunks(s.p, chunks[1..], boundary).events); }
  }

  lemma LeftNow(view: string, chunks: seq<string>, d: string, k: nat)
    requires chunks != [] && d != "" && k == Find(view + Joined(chunks), d) && k + |d| <= |view + chunks[0]|
    ensures var v, w := view + chunks[0], view + Joined(chunks);
            k == Find(v, d) && LeftBody(w, k, |d|, [Content(v[..k])], v[k + |d|..], chunks[1..])
  {
    var v, more := view + chunks[0], Joined(chunks[1..]);
    Glue(view, chunks[0], more);
    FindInPrefix(v, more, d);
    BytesOne(v[..k]);
    PrefixKept(v, more, k, |d|);
  }

  lemma PrefixKept(v: string, more: string, k: nat, n: nat)
    requires k + n <= |v|
    ensures (v + more)[..k] == v[..k] && (v + more)[k + n..] == v[k + n..] + more
  {}

  lemma PrefixedTwice(a: seq<Event>, b: seq<Event>, r: Reply)
    ensures Prefixed(a, Prefixed(b, r)) == Prefixed(a + b, r)
  {
    Glue(a, b, r.events);
  }

  /**
   * However a body w is cut into chunks, what goes out before the parser leaves it are exactly the bytes in front of
   * the first delimiter, and parsing goes on exactly behind the delimiter.
   */
  lemma {:induction false} BodyUpToDelimiter(p: Parser, chunks: seq<string>, boundary: string, w: string, k: nat)
    returns (first: seq<Event>, i: nat, x: string)
    requires p.state == 3 && chunks != [] && w == p.view + Joined(chunks)
    requires k == Find(w, Delimiter(boundary)) < |w|
    ensures 0 < i <= |chunks| && LeftBody(w, k, |Delimiter(boundary)|, first, x, chunks[i..])
    ensures ParseChunks(p, chunks, boundary) == Prefixed(first, Resumed(p, x, chunks[i..], boundary))
    decreases chunks
  {
    var d := Delimiter(boundary);
    if k + |d| <= |p.view + chunks[0]| {
      var v := p.view + chunks[0];
      LeftNow(p.view, chunks, d, k);
      BodyFound(p, chunks, boundary, v, k);
      first, i, x := [Content(v[..k])], 1, v[k + |d|..];
    } else {
      var events, out, kept := BodyKept(p, chunks, boundary);
      var left := kept + Joined(chunks[1..]);
      BodyFurther(w, out, left, d, k);
      var rest: seq<Event>, j: nat;
      rest, j, x := BodyUpToDelimiter(Parser(3, kept, p.valid, p.file), chunks[1..], boundary, left, k - |out|);
      first, i := events + rest, j + 1;
      BodyOn(p, chunks, boundary, k, events, out, left, rest, j, x);
    }
  }

  lemma BodyOn(p: Parser, chunks: seq<string>, boundary: string, k: nat, events: seq<Event>, out: string, left: string,
               rest: seq<Event>, j: nat, x: string)
    requires 0 < j < |chunks| && |out| <= k && k + |Delimiter(boundary)| <= |out + left|
    requires AllContent(events) && Bytes(events) == out
    requires LeftBody(left, k - |out|, |Delimiter(boundary)|, rest, x, chunks[1..][j..])
    ensures chunks[1..][j..] == chunks[j + 1..]
    ensures LeftBody(out + left, k, |Delimiter(boundary)|, events + rest, x, chunks[j + 1..])
    ensures Prefixed(events, Prefixed(rest, Resumed(p, x, chunks[j + 1..], boundary)))
            == Prefixed(events + rest, Resumed(p, x, chunks[j + 1..], boundary))
  {
    Dropped(chunks, 1, j);
    LeftShifted(out, left, k, |Delimiter(boundary)|, events, rest, x, chunks[j + 1..]);
    PrefixedTwice(events, rest, Resumed(p, x, chunks[j + 1..], boundary));
  }

  lemma BodyFurther(w: string, out: string, left: string, d: string, k: nat)
    requires d != "" && w == out + left && |out| <= k == Find(w, d)
    ensures Find(left, d) == k - |out|
  {
    DropPrefix(out, left);
    FindFrom(w, d, |out|);
  }

  lemma LeftShifted(out: string, w: string, k: nat, n: nat, events: seq<Event>, rest: seq<Event>, x: string,
                    chunks: seq<string>)
    requires |out| <= k && k + n <= |out + w| && LeftBody(w, k - |out|, n, rest, x, chunks)
    requires AllContent(events) && Bytes(events) == out
    ensures LeftBody(out + w, k, n, events + rest, x, chunks)
  {
    Shifted(out, w, k, n);
    BytesAppend(events, rest);
  }

  lemma Shifted(out: string, w: string, k: nat, n: nat)
    requires |out| <= k && k + n <= |out + w|
    ensures (out + w)[..k] == out + w[..k - |out|] && (out + w)[k + n..] == w[k - |out| + n..]
  {}
}
