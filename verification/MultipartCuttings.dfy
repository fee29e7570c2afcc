/** What a body may be cut into, and how long its header lines may be, for its items to come back: both exactly. */
module MultipartCuttings {
  import opened Common
  import opened HttpText
  import opened Multipart
  import opened MultipartFind
  import opened MultipartHeaders
  import opened MultipartRoundTrip

  predicate AllFitting(items: seq<Item>, boundary: string) {
    '\r' !in boundary && forall i | 0 <= i < |items| :: Fits(items[i], boundary)
  }

  predicate AllMeasured(items: seq<Item>, single: bool) {
    forall i | 0 <= i < |items| :: Measured(items[i].file, single)
  }

  predicate CutFrom(chunks: seq<string>, items: seq<Item>, boundary: string) {
    Joined(chunks) == Serialized(items, boundary)
  }

  // The first delimiter

  function Bytewise(text: string): seq<string> {
    if text == "" then [] else [text[..1]] + Bytewise(text[1..])
  }

  lemma {:induction false} BytewiseJoined(text: string)
    ensures Joined(Bytewise(text)) == text
    ensures forall i | 0 <= i < |Bytewise(text)| :: |Bytewise(text)[i]| == 1
  {
    if text == "" {
    } else {
      BytewiseJoined(text[1..]);
      assert text == text[..1] + text[1..];
    }
  }

  /** Calls that each get less than the first delimiter lose everything. */
  lemma {:induction false} AllForgotten(chunks: seq<string>, boundary: string)
    requires forall i | 0 <= i < |chunks| :: |chunks[i]| < |InitialDelimiter(boundary)|
    ensures ParseChunks(START, chunks, boundary) == Reply(START, [], Wait)
    decreases chunks
  {
    if chunks == [] {
    } else {
      var chunk := chunks[0];
      assert "" + chunk == chunk && chunk[|chunk|..] == "";
      assert Find(chunk, InitialDelimiter(boundary)) == |chunk|;
      assert Parse(START.(view := chunk), boundary) == Reply(START, [], Wait);
      AllForgotten(chunks[1..], boundary);
    }
  }

  lemma ForgottenCutting(items: seq<Item>, boundary: string, c: nat) returns (chunks: seq<string>)
    requires 0 < c < |InitialDelimiter(boundary)| && c <= |Serialized(items, boundary)|
    ensures CutFrom(chunks, items, boundary) && FirstBytes(chunks) == c && !Survives(items, boundary, chunks)
  {
    var w := Serialized(items, boundary);
    BytewiseJoined(w[c..]);
    chunks := [w[..c]] + Bytewise(w[c..]);
    assert chunks[1..] == Bytewise(w[c..]) && w == w[..c] + w[c..];
    AllForgotten(chunks, boundary);
  }

  /**
   * For any items that fit: every cutting whose first call gets c bytes brings them back, if and only if c covers the
   * first delimiter.
   */
  lemma FirstDelimiterDecides(items: seq<Item>, boundary: string, c: nat)
    requires items != [] && AllFit(items, boundary, false) && 0 < c <= |Serialized(items, boundary)|
    ensures (forall chunks | CutFrom(chunks, items, boundary) && FirstBytes(chunks) == c ::
               Survives(items, boundary, chunks))
            <==> c >= |InitialDelimiter(boundary)|
  {
    if c >= |InitialDelimiter(boundary)| {
      forall chunks | CutFrom(chunks, items, boundary) && FirstBytes(chunks) == c
        ensures Survives(items, boundary, chunks)
      {
        StreamedRoundTrip(items, boundary, chunks);
      }
    } else {
      var chunks := ForgottenCutting(items, boundary, c);
    }
  }

  // Whole items in one call

  /** Within a call the parser gets from p, with the items got so far, to q, with these. */
  ghost predicate LeadsTo(p: Parser, got: seq<Item>, q: Parser, later: seq<Item>, boundary: string) {
    && Parse(p, boundary).p == Parse(q, boundary).p && Parse(p, boundary).going == Parse(q, boundary).going
    && Collected(got, Parse(p, boundary).events) == Collected(later, Parse(q, boundary).events)
  }

  lemma Leads(p: Parser, got: seq<Item>, q: Parser, events: seq<Event>, boundary: string)
    requires p.view != "" && Step(p, boundary) == Reply(q, events, Again)
    ensures LeadsTo(p, got, q, Collected(got, events), boundary)
  {
    CollectedAppend(got, events, Parse(q, boundary).events);
  }

  lemma LeadsQuietly(p: Parser, got: seq<Item>, q: Parser, boundary: string)
    requires p.view != "" && Step(p, boundary) == Reply(q, [], Again)
    ensures LeadsTo(p, got, q, got, boundary)
  {
    Leads(p, got, q, [], boundary);
  }

  lemma {:induction false} LinesRead(f: File, k: nat, tail: string, valid: bool)
    requires Sound(f) && k <= |Lines(f)|
    ensures HeaderLines(Parser(2, Block(Lines(f)[k..]) + tail, valid, FileAfter(f, k)))
            == Reply(Parser(3, tail, valid, f), [Header(f)], Again)
    decreases |Lines(f)| - k
  {
    var w := Block(Lines(f)[k..]) + tail;
    if k == |Lines(f)| {
      LastLine(f, tail);
      assert w[2..] == tail;
    } else {
      var line, t := Lines(f)[k], Block(Lines(f)[k + 1..]) + tail;
      NextLine(f, k, tail);
      LineRead(f, k);
      LineBehind(line, t);
      OneLineRead(w, line, t, valid, FileAfter(f, k), FileAfter(f, k + 1));
      LinesRead(f, k + 1, tail, valid);
    }
  }

  lemma LineBehind(line: string, t: string)
    ensures var w := line + (CRLF + t); w[..|line|] == line && w[|line| + 2..] == t && |w| > |line|
  {}

  /** An item and the delimiter line behind it. */
  function Whole(item: Item, boundary: string, rest: string): string {
    Block(Lines(item.file)) + (item.content + (Delimiter(boundary) + (CRLF + rest)))
  }

  lemma HeadersLead(f: File, tail: string, file: File, got: seq<Item>, boundary: string)
    requires Sound(f) && Measured(f, true)
    ensures LeadsTo(Parser(1, Block(Lines(f)) + tail, false, file), got,
                    Parser(3, tail, false, f), got + [Item(f, "")], boundary)
  {
    var w := Block(Lines(f)) + tail;
    assert Lines(f)[0..] == Lines(f);
    NextLine(f, 0, tail);
    LinesRead(f, 0, tail, false);
    LeadsQuietly(Parser(1, w, false, file), got, Parser(2, w, false, NO_FILE), boundary);
    CollectedOne(got, Header(f));
    Leads(Parser(2, w, false, NO_FILE), got, Parser(3, tail, false, f), [Header(f)], boundary);
  }

  lemma BodyEnd(content: string, d: string, rest: string)
    requires d != "" && d[0] !in d[1..] && Find(content, d) == |content|
    ensures var w := content + (d + rest);
            Find(w, d) == |content| && |content| + |d| <= |w| && w[|content| + |d|..] == rest
  {
    FindPut(content, d, rest);
    Glue(content, d, rest);
    DropPrefix(content + d, rest);
  }

  lemma BoundaryLeads(rest: string, f: File, got: seq<Item>, boundary: string)
    ensures LeadsTo(Parser(4, CRLF + rest, false, f), got, Parser(1, rest, false, f), got, boundary)
  {
    assert (CRLF + rest)[2..] == rest && CRLF <= CRLF + rest;
    LeadsQuietly(Parser(4, CRLF + rest, false, f), got, Parser(1, rest, false, f), boundary);
  }

  lemma FoundLeads(w: string, n: nat, rest: string, f: File, got: seq<Item>, boundary: string)
    requires n == Find(w, Delimiter(boundary)) && n + |Delimiter(boundary)| <= |w|
    requires w[n + |Delimiter(boundary)|..] == rest
    ensures LeadsTo(Parser(3, w, false, f), got + [Item(f, "")],
                    Parser(4, rest, false, f), got + [Item(f, w[..n])], boundary)
  {
    StepBodyFound(Parser(3, w, false, f), boundary, n);
    Leads(Parser(3, w, false, f), got + [Item(f, "")], Parser(4, rest, false, f), [Content(w[..n])], boundary);
    TakenContent(got, f, "", w[..n]);
    assert "" + w[..n] == w[..n];
  }

  lemma BodyLeads(content: string, rest: string, f: File, got: seq<Item>, boundary: string)
    requires '\r' !in boundary && Find(content, Delimiter(boundary)) == |content|
    ensures LeadsTo(Parser(3, content + (Delimiter(boundary) + rest), false, f), got + [Item(f, "")],
                    Parser(4, rest, false, f), got + [Item(f, content)], boundary)
  {
    var w := content + (Delimiter(boundary) + rest);
    DelimiterShape(boundary);
    BodyEnd(content, Delimiter(boundary), rest);
    FoundLeads(w, |content|, rest, f, got, boundary);
    assert w[..|content|] == content;
  }

  function Wholes(items: seq<Item>, boundary: string, rest: string): string {
    if items == [] then rest else Whole(items[0], boundary, Wholes(items[1..], boundary, rest))
  }

  lemma WholeLeads(item: Item, rest: string, file: File, got: seq<Item>, boundary: string)
    requires '\r' !in boundary && Fits(item, boundary) && Measured(item.file, true)
    ensures LeadsTo(Parser(1, Whole(item, boundary, rest), false, file), got,
                    Parser(1, rest, false, item.file), got + [item], boundary)
  {
    HeadersLead(item.file, item.content + (Delimiter(boundary) + (CRLF + rest)), file, got, boundary);
    BodyLeads(item.content, CRLF + rest, item.file, got, boundary);
    assert Item(item.file, item.content) == item;
    BoundaryLeads(rest, item.file, got + [item], boundary);
  }

  lemma FirstFits(items: seq<Item>, boundary: string)
    requires items != [] && AllFit(items, boundary, true)
    ensures Fits(items[0], boundary) && Measured(items[0].file, true) && AllFit(items[1..], boundary, true)
  {}

  lemma MoreLeads(item: Item, rest: string, file: File, got: seq<Item>, q: Parser, later: seq<Item>, boundary: string)
    requires '\r' !in boundary && Fits(item, boundary) && Measured(item.file, true)
    requires LeadsTo(Parser(1, rest, false, item.file), got + [item], q, later, boundary)
    ensures LeadsTo(Parser(1, Whole(item, boundary, rest), false, file), got, q, later, boundary)
  {
    WholeLeads(item, rest, file, got, boundary);
  }

  /** One call reads whole items one after the other. */
  lemma {:induction false} WholesLead(items: seq<Item>, boundary: string, rest: string, file: File, got: seq<Item>)
    returns (last: File)
    requires AllFit(items, boundary, true)
    ensures LeadsTo(Parser(1, Wholes(items, boundary, rest), false, file), got,
                    Parser(1, rest, false, last), got + items, boundary)
    decreases items
  {
    last := file;
    if items == [] {
      assert got + items == got;
    } else {
      FirstFits(items, boundary);
      var more := Wholes(items[1..], boundary, rest);
      last := WholesLead(items[1..], boundary, rest, items[0].file, got + [items[0]]);
      assert got + [items[0]] + items[1..] == got + items;
      MoreLeads(items[0], more, file, got, Parser(1, rest, false, last), got + items, boundary);
    }
  }

  lemma TailIsWhole(items: seq<Item>, boundary: string)
    requires |items| > 1
    ensures Tail(items, boundary) == Whole(items[0], boundary, Tail(items[1..], boundary))
  {
    assert After(items[1..], boundary) == CRLF + Tail(items[1..], boundary);
    assert Behind(items, boundary) == items[0].content + (Delimiter(boundary) + After(items[1..], boundary));
  }

  lemma {:induction false} WholesTail(front: seq<Item>, back: seq<Item>, boundary: string)
    requires back != []
    ensures Wholes(front, boundary, Tail(back, boundary)) == Tail(front + back, boundary)
  {
    if front == [] {
      assert [] + back == back;
    } else {
      assert (front + back)[1..] == front[1..] + back && (front + back)[0] == front[0];
      WholesTail(front[1..], back, boundary);
      TailIsWhole(front + back, boundary);
      WholesCons(front, boundary, Tail(back, boundary));
    }
  }

  lemma WholesCons(items: seq<Item>, boundary: string, rest: string)
    requires items != []
    ensures Wholes(items, boundary, rest) == Whole(items[0], boundary, Wholes(items[1..], boundary, rest))
  {}

  lemma {:induction false} WholesAppend(items: seq<Item>, boundary: string, a: string, b: string)
    ensures Wholes(items, boundary, a + b) == Wholes(items, boundary, a) + b
  {
    if items == [] {
    } else {
      var item, more := items[0], Wholes(items[1..], boundary, a);
      WholesAppend(items[1..], boundary, a, b);
      WholeAppend(Block(Lines(item.file)), item.content, Delimiter(boundary), more, b);
    }
  }

  lemma WholeAppend(block: string, content: string, d: string, a: string, b: string)
    ensures block + (content + (d + (CRLF + (a + b)))) == block + (content + (d + (CRLF + a))) + b
  {
    Glue(CRLF, a, b);
    Glue(d, CRLF + a, b);
    Glue(content, d + (CRLF + a), b);
    Glue(block, content + (d + (CRLF + a)), b);
  }

  // Header lines

  /** A header line of the limit and its CR, at the end of a chunk: the parser takes it for an endless line. */
  lemma LongLineFails(line: string, p: Parser, boundary: string)
    requires Find(line, CRLF) == |line| >= HEADER_MAX_LENGTH
    requires (p.state == 1 || p.state == 2) && p.view == line + "\r"
    ensures Parse(p, boundary).going == Fail
  {
    assert CRLF[1..] == "\n";
    FindPut(line, CRLF, "");
    assert line + "\r" + "\n" == line + (CRLF + "");
    FindInPrefix(line + "\r", "\n", CRLF);
    var q := if p.state == 1 then p.(state := 2, file := NO_FILE) else p;
    assert StepHeaders(q) == Reply(q, [], Fail) && Parse(q, boundary) == Reply(q, [], Fail);
    if p.state == 1 { LeadsQuietly(p, [], q, boundary); }
  }

  /** The same line is taken when its CR LF is there. */
  lemma LongLineRead(line: string, tail: string, p: Parser)
    requires Find(line, CRLF) == |line| <= HEADER_MAX_LENGTH && p.state == 2 && p.view == line + (CRLF + tail)
    ensures StepHeaders(p) == HeaderLines(p)
  {
    assert CRLF[1..] == "\n";
    FindPut(line, CRLF, tail);
  }

  /** What stands in front of the k-th header line of a file. */
  function Head(f: File, k: nat): string
    requires k <= 1
  {
    if k == 0 then "" else DispositionLine(f) + CRLF
  }

  lemma HeadRead(f: File, k: nat, file: File, got: seq<Item>, boundary: string) returns (p: Parser)
    requires Sound(f) && k < |Lines(f)| && k <= 1 && (k > 0 ==> Measured(f, true))
    ensures p.view == "" && (p.state == 1 || p.state == 2)
    ensures LeadsTo(Parser(1, Head(f, k), false, file), got, p, got, boundary)
  {
    var w := Head(f, k);
    p := Parser(1, w, false, file);
    if k == 1 {
      var q := Parser(2, w, false, NO_FILE);
      LeadsQuietly(p, got, q, boundary);
      LineRead(f, 0);
      assert w == DispositionLine(f) + (CRLF + "");
      LongLineRead(DispositionLine(f), "", q);
      FindPut(DispositionLine(f), CRLF, "");
      LineSplit(w, "", DispositionLine(f), "");
      p := Parser(2, "", false, FileAfter(f, 1));
      assert HeaderLines(p) == Reply(p, [], Wait);
      assert w[|DispositionLine(f)| + 2..] == "";
      assert StepHeaders(q) == Reply(p, [], Wait);
    }
  }

  /** The k-th line of the m-th item is too long, and what stands in front of it is not. */
  predicate TooLong(items: seq<Item>, m: nat, k: nat) {
    && m < |items| && k < |Lines(items[m].file)| && k <= 1
    && |Lines(items[m].file)[k]| >= HEADER_MAX_LENGTH && (k > 0 ==> Measured(items[m].file, true))
    && AllMeasured(items[..m], true)
  }

  lemma FirstTooLong(items: seq<Item>) returns (m: nat, k: nat)
    requires !AllMeasured(items, false)
    ensures TooLong(items, m, k)
  {
    m := 0;
    while Measured(items[m].file, false)
      invariant m < |items| && forall i | 0 <= i < m :: Measured(items[i].file, false)
      decreases |items| - m
    {
      m := m + 1;
    }
    var f := items[m].file;
    forall i | 0 <= i < m ensures Measured(items[..m][i].file, true) {
      assert |Lines(items[i].file)[0]| < HEADER_MAX_LENGTH;
    }
    k := if |Lines(f)[0]| >= HEADER_MAX_LENGTH then 0 else 1;
  }

  lemma TailSplit(items: seq<Item>, boundary: string, k: nat)
    requires items != [] && k < |Lines(items[0].file)| && k <= 1
    ensures var f := items[0].file;
            Tail(items, boundary)
            == Head(f, k) + (Lines(f)[k] + "\r" + ("\n" + (Block(Lines(f)[k + 1..]) + Behind(items, boundary))))
  {
    var f, tail := items[0].file, Behind(items, boundary);
    assert Lines(f) == [Lines(f)[0]] + Lines(f)[1..];
    BlockCons(Lines(f)[0], Lines(f)[1..], tail);
    if k == 1 {
      assert Lines(f)[1..] == [Lines(f)[1]] + Lines(f)[2..];
      BlockCons(Lines(f)[1], Lines(f)[2..], tail);
    }
    LineEnd(Lines(f)[k], Block(Lines(f)[k + 1..]) + tail);
  }

  lemma LineEnd(line: string, tail: string)
    ensures line + "\r" + ("\n" + tail) == line + CRLF + tail && "" + (line + CRLF + tail) == line + CRLF + tail
  {}

  lemma BlockCons(line: string, lines: seq<string>, tail: string)
    ensures Block([line] + lines) + tail == line + CRLF + (Block(lines) + tail)
  {
    assert ([line] + lines)[1..] == lines;
  }

  /** Everything in front of the line, the line with its CR, and the rest. */
  function TooLongCut(items: seq<Item>, boundary: string, m: nat, k: nat): seq<string>
    requires m < |items| && k < |Lines(items[m].file)| && k <= 1
  {
    var f := items[m].file;
    [InitialDelimiter(boundary) + Wholes(items[..m], boundary, Head(f, k)),
     Lines(f)[k] + "\r",
     "\n" + (Block(Lines(f)[k + 1..]) + Behind(items[m..], boundary))]
  }

  lemma JoinedThree(a: string, b: string, c: string)
    ensures Joined([a, b, c]) == a + (b + c)
  {
    assert [a, b, c][1..] == [b, c] && [b, c][1..] == [c] && [c][1..] == [];
    assert Joined([c]) == c + "" == c;
    assert Joined([b, c]) == b + c;
  }

  lemma TooLongCutJoined(items: seq<Item>, boundary: string, m: nat, k: nat)
    requires m < |items| && k < |Lines(items[m].file)| && k <= 1
    ensures CutFrom(TooLongCut(items, boundary, m, k), items, boundary)
  {
    var chunks, f, d := TooLongCut(items, boundary, m, k), items[m].file, InitialDelimiter(boundary);
    JoinedThree(chunks[0], chunks[1], chunks[2]);
    SerializedTail(items, boundary);
    assert items == items[..m] + items[m..];
    WholesTail(items[..m], items[m..], boundary);
    TailSplit(items[m..], boundary, k);
    WholesAppend(items[..m], boundary, Head(f, k), chunks[1] + chunks[2]);
    Glue(d, Wholes(items[..m], boundary, Head(f, k)), chunks[1] + chunks[2]);
  }

  lemma TooLongCutFails(items: seq<Item>, boundary: string, m: nat, k: nat)
    requires AllFitting(items, boundary) && TooLong(items, m, k)
    ensures ParseChunks(START, TooLongCut(items, boundary, m, k), boundary).going == Fail
  {
    var chunks, f := TooLongCut(items, boundary, m, k), items[m].file;
    var w := Wholes(items[..m], boundary, Head(f, k));
    assert Fits(items[m], boundary);
    LineRead(f, k);
    var last := WholesLead(items[..m], boundary, Head(f, k), NO_FILE, []);
    var p := HeadRead(f, k, last, [] + items[..m], boundary);
    ParseStart(chunks[0], w, boundary);
    assert "" + chunks[0] == chunks[0] && "" + chunks[1] == chunks[1] && chunks[1..][0] == chunks[1];
    assert Parse(p, boundary) == Reply(p, [], Wait);
    LongLineFails(Lines(f)[k], p.(view := chunks[1]), boundary);
  }

  /** A cutting whose first call gets at least the first delimiter. */
  predicate WholeStart(chunks: seq<string>, items: seq<Item>, boundary: string) {
    CutFrom(chunks, items, boundary) && FirstBytes(chunks) >= |InitialDelimiter(boundary)|
  }

  /**
   * For any items that fit: every cutting with a whole first delimiter brings them back, if and only if every header
   * line is below the limit.
   */
  lemma HeaderLimitDecides(items: seq<Item>, boundary: string)
    requires items != [] && AllFitting(items, boundary)
    ensures (forall chunks | WholeStart(chunks, items, boundary) :: Survives(items, boundary, chunks))
            <==> AllMeasured(items, false)
  {
    if AllMeasured(items, false) {
      forall chunks | WholeStart(chunks, items, boundary) ensures Survives(items, boundary, chunks) {
        StreamedRoundTrip(items, boundary, chunks);
      }
    } else {
      var m, k := FirstTooLong(items);
      var chunks := TooLongCut(items, boundary, m, k);
      TooLongCutJoined(items, boundary, m, k);
      TooLongCutFails(items, boundary, m, k);
      assert WholeStart(chunks, items, boundary) && !Survives(items, boundary, chunks);
    }
  }

  lemma FirstLineFails(f: File, tail: string, boundary: string)
    requires Sound(f) && !Measured(f, true)
    ensures Parse(Parser(2, Block(Lines(f)) + tail, false, NO_FILE), boundary).going == Fail
  {
    var q := Parser(2, Block(Lines(f)) + tail, false, NO_FILE);
    NextLine(f, 0, tail);
    assert Lines(f)[0..] == Lines(f);
    assert StepHeaders(q) == Reply(q, [], Fail) && Parse(q, boundary) == Reply(q, [], Fail);
  }

  /** One call gets to the headers of the m-th item. */
  lemma StartLeads(items: seq<Item>, m: nat, boundary: string)
    requires m < |items| && AllFit(items[..m], boundary, true)
    ensures LeadsTo(START.(view := Serialized(items, boundary)), [],
                    Parser(2, Tail(items[m..], boundary), false, NO_FILE), items[..m], boundary)
  {
    var tail := Tail(items[m..], boundary);
    SerializedTail(items, boundary);
    assert items == items[..m] + items[m..];
    WholesTail(items[..m], items[m..], boundary);
    ParseStart(Serialized(items, boundary), Tail(items, boundary), boundary);
    var last := WholesLead(items[..m], boundary, tail, NO_FILE, []);
    assert [] + items[..m] == items[..m];
    assert |tail| >= |Block(Lines(items[m].file))| > 0;
    LeadsQuietly(Parser(1, tail, false, last), items[..m], Parser(2, tail, false, NO_FILE), boundary);
  }

  lemma FirstLineTooLong(items: seq<Item>, m: nat, boundary: string)
    requires m < |items| && AllFit(items[..m], boundary, true)
    requires Fits(items[m], boundary) && !Measured(items[m].file, true)
    ensures Parse(START.(view := Serialized(items, boundary)), boundary).going == Fail
  {
    StartLeads(items, m, boundary);
    FirstLineFails(items[m].file, Behind(items[m..], boundary), boundary);
  }

  lemma NotMeasured(items: seq<Item>) returns (m: nat)
    requires !AllMeasured(items, true)
    ensures m < |items| && AllMeasured(items[..m], true) && !Measured(items[m].file, true)
  {
    m := 0;
    while Measured(items[m].file, true)
      invariant m < |items| && forall i | 0 <= i < m :: Measured(items[i].file, true)
      decreases |items| - m
    {
      m := m + 1;
    }
  }

  /** One call on what the writer wrote brings back exactly the items and ends valid. */
  ghost predicate ComesBack(items: seq<Item>, boundary: string) {
    var r := Parse(START.(view := Serialized(items, boundary)), boundary);
    r.going != Fail && r.p.valid && Collected([], r.events) == items
  }

  /** For any items that fit: one call brings them back, if and only if every first header line is within the limit. */
  lemma OneCallLimitDecides(items: seq<Item>, boundary: string)
    requires items != [] && AllFitting(items, boundary)
    ensures ComesBack(items, boundary) <==> AllMeasured(items, true)
  {
    if AllMeasured(items, true) {
      RoundTrip(items, boundary);
    } else {
      var m := NotMeasured(items);
      assert Fits(items[m], boundary);
      FirstLineTooLong(items, m, boundary);
    }
  }

  lemma FinishText(content: string, boundary: string)
    ensures content + CRLF + Finish(boundary) == content + (Delimiter(boundary) + (DASH + CRLF))
  {
    var d := DASH + boundary;
    assert Finish(boundary) == d + (DASH + CRLF) && Delimiter(boundary) == CRLF + d;
    Glue(CRLF, d, DASH + CRLF);
    Glue(content, CRLF, d + (DASH + CRLF));
  }

  lemma DashesEnd(f: File, boundary: string)
    ensures Parse(Parser(4, DASH + CRLF, false, f), boundary) == Reply(Parser(4, "", true, f), [], Wait)
  {
    assert (DASH + CRLF)[0] == '-' && CRLF[0] == '\r';
    assert DASH <= DASH + CRLF;
  }

  /** Behind the content of the last item, the closing delimiter makes the parser valid, and the item is complete. */
  lemma FinishEnds(content: string, f: File, got: seq<Item>, boundary: string)
    requires '\r' !in boundary && Find(content, Delimiter(boundary)) == |content|
    ensures var r := Parse(Parser(3, content + CRLF + Finish(boundary), false, f), boundary);
            r.p == Parser(4, "", true, f) && r.going == Wait
            && Collected(got + [Item(f, "")], r.events) == got + [Item(f, content)]
  {
    FinishText(content, boundary);
    BodyLeads(content, DASH + CRLF, f, got, boundary);
    DashesEnd(f, boundary);
  }
}
