/** Which items come back at all: the conditions of the round trip are necessary as well as sufficient. */
module MultipartExact {
  import opened Common
  import opened HttpText
  import opened QueryText
  import opened Multipart
  import opened MultipartFind
  import opened MultipartHeaders
  import opened MultipartRoundTrip
  import opened MultipartCuttings
  import opened MultipartNames
  import MultipartParser

  // Contents that one call reports

  predicate FreeItems(items: seq<Item>, boundary: string) {
    forall i | 0 <= i < |items| :: Find(items[i].content, Delimiter(boundary)) == |items[i].content|
  }

  lemma {:induction false} HeaderLinesShape(p: Parser)
    requires p.state == 2
    ensures var r := HeaderLines(p);
            if r.going == Again then r.p.state == 3 && r.events == [Header(r.p.file)] else r.events == []
    decreases |p.view|
  {
    var pos := Find(p.view, CRLF);
    if 0 < pos < |p.view| {
      var (file, ok) := HeaderLine(p.view[..pos], p.file);
      if ok { HeaderLinesShape(p.(file := file, view := p.view[pos + 2..])); }
    }
  }

  /** In front of a body the last item has no content yet. */
  predicate Awaits(p: Parser, got: seq<Item>) {
    p.state == 3 ==> got != [] && got[|got| - 1].content == ""
  }

  lemma PrefixFree(v: string, n: nat, d: string)
    requires d != "" && n <= Find(v, d)
    ensures n <= |v| && Find(v[..n], d) == n
  {
    assert v == v[..n] + v[n..];
    FindInPrefix(v[..n], v[n..], d);
  }

  lemma FreeFilled(init: seq<Item>, f: File, content: string, boundary: string)
    requires FreeItems(init + [Item(f, "")], boundary) && Find(content, Delimiter(boundary)) == |content|
    ensures FreeItems(init + [Item(f, content)], boundary)
  {
    assert forall i | 0 <= i < |init| :: (init + [Item(f, "")])[i] == init[i];
  }

  lemma BodyFree(p: Parser, init: seq<Item>, f: File, boundary: string)
    requires p.state == 3 && FreeItems(init + [Item(f, "")], boundary)
    ensures var s := StepBody(p, boundary);
            && FreeItems(Collected(init + [Item(f, "")], s.events), boundary)
            && (s.going == Again ==> s.p.state == 4)
  {
    var d := Delimiter(boundary);
    CollectedOne(init + [Item(f, "")], Content(""));
    if |d| <= |p.view| {
      var pos := Find(p.view, d);
      var n := if pos < |p.view| then pos else |p.view| - |d|;
      PrefixFree(p.view, n, d);
      TakenContent(init, f, "", p.view[..n]);
      assert "" + p.view[..n] == p.view[..n];
      FreeFilled(init, f, p.view[..n], boundary);
    }
  }

  lemma HeadersFree(p: Parser, got: seq<Item>, boundary: string)
    requires p.state == 2 && FreeItems(got, boundary)
    ensures var s := StepHeaders(p);
            FreeItems(Collected(got, s.events), boundary) && (s.going == Again ==> Awaits(s.p, Collected(got, s.events)))
  {
    HeaderLinesShape(p);
    CollectedOne(got, Header(HeaderLines(p).p.file));
    assert Find("", Delimiter(boundary)) == 0;
  }

  lemma StepFree(p: Parser, got: seq<Item>, boundary: string)
    requires p.view != "" && FreeItems(got, boundary) && Awaits(p, got)
    ensures var s := Step(p, boundary);
            FreeItems(Collected(got, s.events), boundary) && (s.going == Again ==> Awaits(s.p, Collected(got, s.events)))
  {
    CollectedOne(got, Content(""));
    if p.state == 2 { HeadersFree(p, got, boundary); }
    if p.state == 3 {
      var last := got[|got| - 1];
      assert got == got[..|got| - 1] + [Item(last.file, "")];
      BodyFree(p, got[..|got| - 1], last.file, boundary);
    }
  }

  lemma {:induction false} ParseFree(p: Parser, got: seq<Item>, boundary: string)
    requires FreeItems(got, boundary) && Awaits(p, got)
    ensures FreeItems(Collected(got, Parse(p, boundary).events), boundary)
    decreases |p.view|, if p.state == 1 then 1 else 0
  {
    CollectedOne(got, Content(""));
    if p.view != "" {
      var s := Step(p, boundary);
      StepFree(p, got, boundary);
      if s.going == Again {
        ParseFree(s.p, Collected(got, s.events), boundary);
        CollectedAppend(got, s.events, Parse(s.p, boundary).events);
      }
    }
  }

  // File names: what is decoded from a line is shorter than the line

  predicate RoomPairs(ps: seq<Pair>, n: nat) {
    forall i | 0 <= i < |ps| :: ps[i].1 == "" || |ps[i].0| + 1 + |ps[i].1| <= n
  }

  lemma KeyValueRoom(kv: string)
    requires KeyValue(kv).Some?
    ensures RoomPairs([KeyValue(kv).value], |kv|)
  {
    PiecesRoom(kv, '=');
  }

  lemma {:induction false} KeyValuesRoom(pieces: seq<string>, cache: set<string>, n: nat)
    requires forall i | 0 <= i < |pieces| :: |pieces[i]| <= n
    ensures RoomPairs(KeyValues(pieces, cache), n)
  {
    if pieces == [] {
    } else {
      var item := KeyValue(pieces[0]);
      if item.Some? {
        KeyValueRoom(pieces[0]);
        assert RoomPairs([item.value], n) by { assert [item.value][0] == item.value; }
      }
      KeyValuesRoom(pieces[1..], if pieces[0] in cache then cache else cache + {pieces[0]}, n);
    }
  }

  lemma {:induction false} UnquotedRoom(ps: seq<Pair>, n: nat)
    requires RoomPairs(ps, n)
    ensures RoomPairs(UnquotedAll(ps), n)
  {
    if ps == [] {
    } else {
      UnquotedRoom(ps[1..], n);
    }
  }

  lemma {:induction false} LookupRoom(ps: seq<Pair>, key: string, n: nat)
    requires RoomPairs(ps, n) && Lookup(ps, key).Some?
    ensures Lookup(ps, key).value == "" || |key| + 1 + |Lookup(ps, key).value| <= n
  {
    if ps[0].0 != key { LookupRoom(ps[1..], key, n); }
  }

  /** A file name without the forbidden characters, or one shorter than n. */
  predicate Small(x: string, n: int) {
    Plain(x) || |x| < n
  }

  lemma FileSmall(ps: seq<Pair>, file: File, n: nat, m: nat)
    requires Small(file.filename, n) && m <= n + 16 && PlainValues(ps)
    requires Lookup(ps, "filename*").Some? ==>
               Lookup(ps, "filename*").value == "" || 10 + |Lookup(ps, "filename*").value| <= m
    ensures Small(DispositionFile(ps, file).0.filename, n)
  {
    LookupPlain(ps, "filename");
    var v := Lookup(ps, "filename*");
    if v.Some? && ExtendedValue(v.value).Some? { DecodeShort(ExtendedValue(v.value).value, false); }
  }

  lemma ParamsRoom(text: string)
    ensures RoomPairs(ParsedParams(text), |text|)
  {
    PiecesShort(text, ';');
    KeyValuesRoom(Pieces(text, ';'), {}, |text|);
    UnquotedRoom(KeyValues(Pieces(text, ';'), {}), |text|);
  }

  lemma CapturedShort(header: string)
    requires DispositionParams(header).Some?
    ensures |DispositionParams(header).value| <= |header|
  {}

  lemma TextSmall(text: string, file: File, n: nat)
    requires |text| <= n && Small(file.filename, n) && '\r' !in text && '\n' !in text
    ensures Small(DispositionFile(ParsedParams(text), file).0.filename, n)
  {
    var ps := ParsedParams(text);
    ParamsPlain(text);
    ParamsRoom(text);
    if Lookup(ps, "filename*").Some? { LookupRoom(ps, "filename*", |text|); }
    assert |"filename*"| == 9;
    FileSmall(ps, file, n, |text|);
  }

  /** Any header line of at most n characters. */
  lemma LineSmall(line: string, file: File, n: nat)
    requires |line| <= n && Small(file.filename, n)
    ensures Small(HeaderLine(line, file).0.filename, n)
  {
    var text := DispositionParams(line);
    if !StartsNoCase(line, "content-type:") && text.Some? {
      CapturedShort(line);
      CapturedLine(line);
      TextSmall(text.value, file, n);
    }
  }

  lemma ParamsBehindName(a: string, y: string, name: string)
    requires Plain(name) && a == "name" + ['='] + Quoted(name)
    ensures ParsedParams(a + [';'] + y) == [("name", name)] + UnquotedAll(KeyValues(Pieces(y, ';'), {a}))
  {
    ParamShape("name", name);
    QuotedShape(name);
    TrimTight(a);
    PiecesCons(a, y, ';');
    var ps := Pieces(y, ';');
    assert ([a] + ps)[0] == a && ([a] + ps)[1..] == ps && {} + {a} == {a};
    var p := ("name", Quoted(name));
    assert KeyValues([a] + ps, {}) == [p] + KeyValues(ps, {a});
    assert ([p] + KeyValues(ps, {a}))[1..] == KeyValues(ps, {a}) && Unquoted(p) == ("name", name);
  }

  lemma BehindNameSmall(a: string, y: string, name: string, n: nat)
    requires Plain(name) && a == "name" + ['='] + Quoted(name) && |y| <= n + 16
    requires var text := a + [';'] + y; '\r' !in text && '\n' !in text
    ensures Small(DispositionFile(ParsedParams(a + [';'] + y), NO_FILE).0.filename, n)
  {
    var rest := UnquotedAll(KeyValues(Pieces(y, ';'), {a}));
    ParamsBehindName(a, y, name);
    ParamsPlain(a + [';'] + y);
    PiecesShort(y, ';');
    KeyValuesRoom(Pieces(y, ';'), {a}, |y|);
    UnquotedRoom(KeyValues(Pieces(y, ';'), {a}), |y|);
    assert |"filename*"| == 9 && |"name"| == 4;
    LookupCons(("name", name), rest, "filename*");
    if Lookup(rest, "filename*").Some? { LookupRoom(rest, "filename*", |y|); }
    FileSmall([("name", name)] + rest, NO_FILE, n, |y|);
  }

  /** The first header line, or what of it stands in front of a CR LF in the file name. */
  lemma FirstLineSmall(a: string, y: string, name: string, n: nat)
    requires Plain(name) && a == "name" + ['='] + Quoted(name) && |y| <= n + 16
    ensures Small(HeaderLine("Content-Disposition: form-data; " + (a + [';'] + y), NO_FILE).0.filename, n)
  {
    var text := a + [';'] + y;
    assert text[0] == 'n';
    DispositionCaptured(text);
    if '\r' !in text && '\n' !in text { BehindNameSmall(a, y, name, n); }
  }

  // The header lines that an item's file name is cut into

  /** The file a header reports, if it comes to that. */
  function LinesFile(view: string, file: File): File {
    HeaderLines(Parser(2, view, false, file)).p.file
  }

  lemma LineGone(view: string, line: string, t: string, file: File)
    requires Find(view, CRLF) == |line| && 0 < |line| < |view| && view[..|line|] == line && view[|line| + 2..] == t
    ensures LinesFile(view, file)
            == var (next, ok) := HeaderLine(line, file); if ok then LinesFile(t, next) else next
  {
    var r := HeaderLine(line, file);
    if r.1 {
      OneLineRead(view, line, t, false, file, r.0);
      assert Parser(2, view, false, file).(file := r.0, view := t) == Parser(2, t, false, r.0);
    }
  }

  lemma EmptyGone(t: string, file: File)
    ensures LinesFile(CRLF + t, file) == file
  {
    assert CRLF <= CRLF + t && Find(CRLF + t, CRLF) == 0;
  }

  /** The lines behind the first. */
  lemma EndSmall(f: File, tail: string, file: File, n: nat)
    requires TypeFits(f.contentType) && Small(file.filename, n)
    ensures Small(LinesFile(Block(Lines(f)[1..]) + tail, file).filename, n)
  {
    if f.contentType == "" {
      assert Lines(f)[1..] == [];
      EmptyGone(tail, file);
    } else {
      var line := "Content-Type: " + f.contentType;
      assert Lines(f)[1..] == [line] + [];
      TypeEnds(f.contentType);
      TypeRead(f.contentType, file);
      BlockStarts(line, [], tail);
      LineBehind(line, Block([]) + tail);
      LineGone(Block([line] + []) + tail, line, CRLF + tail, file);
      EmptyGone(tail, file.(contentType := f.contentType));
    }
  }

  lemma {:induction false} QuoteNoCrlf(g: string)
    requires Find(g, CRLF) == |g|
    ensures Find(g + "\"", CRLF) == |g| + 1
  {
    if g == "" {
      assert g + "\"" == "\"";
    } else {
      assert (g + "\"")[1..] == g[1..] + "\"";
      FindFrom(g, CRLF, 1);
      QuoteNoCrlf(g[1..]);
      if |g| == 1 { assert (g + "\"")[1] == '"'; } else { assert CRLF <= g + "\"" <==> CRLF <= g; }
    }
  }

  /** Where a text with a closing quote and CR LF behind it breaks first: in the text, or behind the quote. */
  lemma FirstBreak(g: string, y: string)
    ensures var k := Find(g, CRLF);
            Find(g + "\"" + (CRLF + y), CRLF) == if k < |g| then k else |g| + 1
  {
    assert CRLF[1..] == "\n";
    if Find(g, CRLF) < |g| {
      assert g + "\"" + (CRLF + y) == g + ("\"" + (CRLF + y));
      FindInPrefix(g, "\"" + (CRLF + y), CRLF);
    } else {
      QuoteNoCrlf(g);
      FindPut(g + "\"", CRLF, y);
    }
  }

  lemma BreakInside(g: string, y: string, j: nat)
    requires j + 2 <= |g|
    ensures var w := g + "\"" + (CRLF + y); w[..j] == g[..j] && w[j + 2..] == g[j + 2..] + "\"" + (CRLF + y) && |w| > j
  {}

  /** What follows a CR LF inside the file name: lines of it, the closing quote, and the lines behind. */
  lemma {:induction false} MiddleSmall(g: string, f: File, tail: string, file: File, n: nat)
    requires |g| < n && TypeFits(f.contentType) && Small(file.filename, n)
    ensures Small(LinesFile(g + "\"" + (CRLF + (Block(Lines(f)[1..]) + tail)), file).filename, n)
    decreases |g|
  {
    var y, j := Block(Lines(f)[1..]) + tail, Find(g, CRLF);
    var w := g + "\"" + (CRLF + y);
    FirstBreak(g, y);
    if j == |g| {
      LineSmall(g + "\"", file, n);
      LineBehind(g + "\"", y);
      LineGone(w, g + "\"", y, file);
      EndSmall(f, tail, HeaderLine(g + "\"", file).0, n);
    } else if j == 0 {
      FindFound(g, CRLF);
      assert w == CRLF + w[2..];
      EmptyGone(w[2..], file);
    } else {
      BreakInside(g, y, j);
      LineSmall(g[..j], file, n);
      LineGone(w, g[..j], g[j + 2..] + "\"" + (CRLF + y), file);
      MiddleSmall(g[j + 2..], f, tail, HeaderLine(g[..j], file).0, n);
    }
  }

  /** The first header line up to the file name. */
  function LineHead(name: string): string {
    "Content-Disposition: form-data; " + ("name" + ['='] + Quoted(name) + [';'] + " filename=\"")
  }

  lemma LineParts(f: File, x: string)
    ensures LineHead(f.name) + x
            == "Content-Disposition: form-data; " + ("name" + ['='] + Quoted(f.name) + [';'] + (" filename=\"" + x))
    ensures f.filename != "" ==> DispositionLine(f) == LineHead(f.name) + (f.filename + "\"")
  {
    if f.filename != "" {
      assert DispositionText(f) == "name" + ['='] + Quoted(f.name) + (";" + " filename" + ['='] + Quoted(f.filename));
      assert ";" + " filename" + ['='] + Quoted(f.filename) == [';'] + " filename=\"" + (f.filename + "\"");
    }
  }

  lemma HeadNoBreak(name: string)
    requires Plain(name)
    ensures '\r' !in LineHead(name)
  {}

  /** The first line, when the file name does not break it. */
  lemma WholeLineSmall(f: File, n: nat)
    requires Plain(f.name) && f.filename != "" && n == |f.filename|
    ensures Small(HeaderLine(LineHead(f.name) + (f.filename + "\""), NO_FILE).0.filename, n)
  {
    var y := " filename=\"" + (f.filename + "\"");
    assert |y| == n + 12;
    LineParts(f, f.filename + "\"");
    FirstLineSmall("name" + ['='] + Quoted(f.name), y, f.name, n);
  }

  /** What stands in front of a break in the file name. */
  lemma CutLineSmall(f: File, j: nat, n: nat)
    requires Plain(f.name) && j <= |f.filename| == n
    ensures Small(HeaderLine(LineHead(f.name) + f.filename[..j], NO_FILE).0.filename, n)
  {
    var y := " filename=\"" + f.filename[..j];
    assert |y| == j + 11;
    LineParts(f, f.filename[..j]);
    FirstLineSmall("name" + ['='] + Quoted(f.name), y, f.name, n);
  }

  lemma UnbrokenGone(h: string, g: string, y: string)
    requires '\r' !in h && h != "" && Find(g, CRLF) == |g|
    ensures LinesFile(h + (g + "\"" + (CRLF + y)), NO_FILE)
            == var (next, ok) := HeaderLine(h + (g + "\""), NO_FILE); if ok then LinesFile(y, next) else next
  {
    var w, line := g + "\"" + (CRLF + y), h + (g + "\"");
    FindBehind(h, w, CRLF);
    FirstBreak(g, y);
    LineBehind(line, y);
    Glue(h, g + "\"", CRLF + y);
    LineGone(h + w, line, y, NO_FILE);
  }

  lemma BrokenGone(h: string, g: string, y: string, j: nat)
    requires '\r' !in h && h != "" && j == Find(g, CRLF) < |g|
    ensures LinesFile(h + (g + "\"" + (CRLF + y)), NO_FILE)
            == var (next, ok) := HeaderLine(h + g[..j], NO_FILE);
               if ok then LinesFile(g[j + 2..] + "\"" + (CRLF + y), next) else next
  {
    var w, line := g + "\"" + (CRLF + y), h + g[..j];
    FindBehind(h, w, CRLF);
    FirstBreak(g, y);
    BreakInside(g, y, j);
    HeadCut(h, w, j);
    LineGone(h + w, line, g[j + 2..] + "\"" + (CRLF + y), NO_FILE);
  }

  /** However a file name breaks the header, what is reported for it is without forbidden characters or shorter. */
  lemma HeaderSmall(f: File, tail: string)
    requires Plain(f.name) && TypeFits(f.contentType) && f.filename != ""
    ensures Small(LinesFile(Block(Lines(f)) + tail, NO_FILE).filename, |f.filename|)
  {
    var h, g, n := LineHead(f.name), f.filename, |f.filename|;
    var y, j := Block(Lines(f)[1..]) + tail, Find(g, CRLF);
    WholeHeader(f, tail);
    HeadNoBreak(f.name);
    if j == n {
      UnbrokenGone(h, g, y);
      WholeLineSmall(f, n);
      EndSmall(f, tail, HeaderLine(h + (g + "\""), NO_FILE).0, n);
    } else {
      BrokenGone(h, g, y, j);
      CutLineSmall(f, j, n);
      MiddleSmall(g[j + 2..], f, tail, HeaderLine(h + g[..j], NO_FILE).0, n);
    }
  }

  lemma HeadCut(h: string, w: string, j: nat)
    requires j + 2 <= |w|
    ensures (h + w)[..|h| + j] == h + w[..j] && (h + w)[|h| + j + 2..] == w[j + 2..]
  {}

  lemma WholeHeader(f: File, tail: string)
    requires f.filename != ""
    ensures Block(Lines(f)) + tail == LineHead(f.name) + (f.filename + "\"" + (CRLF + (Block(Lines(f)[1..]) + tail)))
  {
    var y := Block(Lines(f)[1..]) + tail;
    assert Lines(f) == [DispositionLine(f)] + Lines(f)[1..];
    BlockCons(DispositionLine(f), Lines(f)[1..], tail);
    LineParts(f, "");
    Glue(LineHead(f.name), f.filename + "\"", CRLF + y);
    Glue(DispositionLine(f), CRLF, y);
  }

  // Exactness

  lemma {:induction false} FilesStay(items: seq<Item>, events: seq<Event>, i: nat)
    requires i < |items|
    ensures |Collected(items, events)| >= |items| && Collected(items, events)[i].file == items[i].file
    decreases events
  {
    if events == [] {
    } else {
      FilesStay(Taken(items, events[0]), events[1..], i);
    }
  }

  /** The file that a call reports first for a header. */
  lemma FirstReported(view: string, got: seq<Item>, boundary: string)
    requires view != ""
    ensures var items := Collected(got, Parse(Parser(2, view, false, NO_FILE), boundary).events);
            items == got || (|items| > |got| && items[|got|].file == LinesFile(view, NO_FILE))
  {
    var p := Parser(2, view, false, NO_FILE);
    var s := Step(p, boundary);
    HeaderLinesShape(p);
    CollectedOne(got, Header(HeaderLines(p).p.file));
    if s.going == Again {
      var more := Parse(s.p, boundary).events;
      CollectedAppend(got, s.events, more);
      FilesStay(got + [Item(s.p.file, "")], more, |got|);
    }
  }

  lemma FilenamePlain(items: seq<Item>, m: nat, boundary: string)
    requires m < |items| && AllFit(items[..m], boundary, true) && ComesBack(items, boundary)
    requires Plain(items[m].file.name) && TypeFits(items[m].file.contentType)
    ensures Plain(items[m].file.filename)
  {
    var f, tail := items[m].file, Behind(items[m..], boundary);
    StartLeads(items, m, boundary);
    assert Tail(items[m..], boundary) == Block(Lines(f)) + tail && |Block(Lines(f))| > 0;
    FirstReported(Block(Lines(f)) + tail, items[..m], boundary);
    if f.filename != "" { HeaderSmall(f, tail); }
  }

  lemma NextFits(items: seq<Item>, m: nat, boundary: string)
    requires m < |items| && AllFit(items[..m], boundary, true) && ComesBack(items, boundary)
    requires Reportable(items[m].file) && Find(items[m].content, Delimiter(boundary)) == |items[m].content|
    ensures AllFit(items[..m + 1], boundary, true)
  {
    FilenamePlain(items, m, boundary);
    if !Measured(items[m].file, true) { FirstLineTooLong(items, m, boundary); }
    assert items[..m + 1] == items[..m] + [items[m]];
  }

  lemma Reported(items: seq<Item>, boundary: string)
    requires ComesBack(items, boundary)
    ensures ReportableItems(items) && FreeItems(items, boundary)
  {
    var w := Serialized(items, boundary);
    ReportedNamesPlain([w], boundary);
    OneChunk(w, boundary);
    ParseFree(START.(view := w), [], boundary);
  }

  /** What comes back fits. */
  lemma Necessary(items: seq<Item>, boundary: string)
    requires '\r' !in boundary && ComesBack(items, boundary)
    ensures AllFit(items, boundary, true)
  {
    Reported(items, boundary);
    for m := 0 to |items|
      invariant AllFit(items[..m], boundary, true)
    {
      NextFits(items, m, boundary);
    }
    assert items[..|items|] == items;
  }

  lemma OneChunk(w: string, boundary: string)
    ensures var r, s := ParseChunks(START, [w], boundary), Parse(START.(view := w), boundary);
            r.events == s.events && r.p == s.p && (r.going == Fail <==> s.going == Fail)
  {
    assert "" + w == w && [w][1..] == [];
    var s := Parse(START.(view := w), boundary);
    assert s.events + [] == s.events;
  }

  /** One call brings items back if and only if they fit and their first header lines are within the limit. */
  lemma OneCallExact(items: seq<Item>, boundary: string)
    requires items != [] && '\r' !in boundary
    ensures ComesBack(items, boundary) <==> AllFitting(items, boundary) && AllMeasured(items, true)
  {
    if ComesBack(items, boundary) {
      Necessary(items, boundary);
    } else if AllFitting(items, boundary) {
      OneCallLimitDecides(items, boundary);
    }
  }

  /** All cuttings with a whole first delimiter do, if and only if they fit and every header line is below the limit. */
  lemma StreamedExact(items: seq<Item>, boundary: string)
    requires items != [] && '\r' !in boundary
    ensures (forall chunks | WholeStart(chunks, items, boundary) :: Survives(items, boundary, chunks))
            <==> AllFitting(items, boundary) && AllMeasured(items, false)
  {
    if AllFitting(items, boundary) {
      HeaderLimitDecides(items, boundary);
    } else {
      var w := Serialized(items, boundary);
      SerializedTail(items, boundary);
      assert [w][1..] == [] && w + "" == w;
      assert |w| >= |InitialDelimiter(boundary)| > 0 && FirstBytes([w]) == |w|;
      assert WholeStart([w], items, boundary);
      OneChunk(w, boundary);
      if Survives(items, boundary, [w]) { OneCallExact(items, boundary); }
    }
  }

  // Writer and parser together

  /** What one object reports, in one call, of what the writer wrote. */
  method WriteAndParse(items: seq<Item>, boundary: string) returns (ok: bool, valid: bool, events: seq<Event>)
    requires '\r' !in boundary
    ensures ok && valid && Collected([], events) == items
            <==> items != [] && AllFitting(items, boundary) && AllMeasured(items, true)
    ensures items == [] ==> !valid
  {
    var body := SerializeFormData(items, boundary, true);
    var parser := new MultipartParser.MultipartFormDataParser(boundary);
    assert "" + body == body;
    if items == [] { EmptyListIsInvalid(boundary); } else { OneCallExact(items, boundary); }
    ok, events := parser.ParseData(body);
    valid := parser.isValid;
  }
}
