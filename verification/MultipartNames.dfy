/**
 * What the parser can report at all, whatever it is given.
 *
 * The parameters of a disposition are cut at every ';' and '=' before quotes are taken off, and a header line ends at a
 * line break. So no name with one of these characters ever comes out, and no content type with CR LF or blanks at its
 * ends, from any bytes and in any chunks: the conditions on them in the round trip cannot be dropped.
 */
module MultipartNames {
  import opened HttpText
  import opened Multipart
  import opened MultipartFind
  import opened MultipartHeaders
  import opened MultipartRoundTrip

  predicate PlainValues(ps: seq<Pair>) {
    forall i | 0 <= i < |ps| :: Plain(ps[i].1)
  }

  predicate LineText(kv: string) {
    ';' !in kv && '\r' !in kv && '\n' !in kv
  }

  lemma KeyValuePlain(kv: string)
    requires LineText(kv)
    ensures KeyValue(kv).Some? ==> Plain(KeyValue(kv).value.1)
  {
    PiecesAvoid(kv, '=', '=');
    PiecesAvoid(kv, '=', ';');
    PiecesAvoid(kv, '=', '\r');
    PiecesAvoid(kv, '=', '\n');
  }

  lemma {:induction false} KeyValuesPlain(pieces: seq<string>, cache: set<string>)
    requires forall i | 0 <= i < |pieces| :: LineText(pieces[i])
    ensures PlainValues(KeyValues(pieces, cache))
  {
    if pieces == [] {
    } else {
      KeyValuePlain(pieces[0]);
      KeyValuesPlain(pieces[1..], if pieces[0] in cache then cache else cache + {pieces[0]});
    }
  }

  lemma {:induction false} UnquotedPlain(ps: seq<Pair>)
    requires PlainValues(ps)
    ensures PlainValues(UnquotedAll(ps))
  {
    if ps == [] {
    } else {
      UnquotedPlain(ps[1..]);
    }
  }

  lemma {:induction false} LookupPlain(ps: seq<Pair>, key: string)
    requires PlainValues(ps)
    ensures Lookup(ps, key).Some? ==> Plain(Lookup(ps, key).value)
  {
    if ps == [] {
    } else {
      LookupPlain(ps[1..], key);
    }
  }

  lemma ParamsPlain(text: string)
    requires '\r' !in text && '\n' !in text
    ensures PlainValues(ParsedParams(text))
  {
    var pieces := Pieces(text, ';');
    PiecesAvoid(text, ';', ';');
    PiecesAvoid(text, ';', '\r');
    PiecesAvoid(text, ';', '\n');
    assert forall i | 0 <= i < |pieces| :: LineText(pieces[i]);
    KeyValuesPlain(pieces, {});
    UnquotedPlain(KeyValues(pieces, {}));
  }

  /** A file as it can be reported. */
  predicate Reportable(f: File) {
    Plain(f.name) && TypeFits(f.contentType)
  }

  lemma {:induction false} TrimLeftOneLine(s: string)
    requires Find(s, CRLF) == |s|
    ensures Find(TrimLeft(s), CRLF) == |TrimLeft(s)|
  {
    if s != "" && Blank(s[0]) { TrimLeftOneLine(s[1..]); }
  }

  lemma PrefixOneLine(p: string, t: string)
    requires p <= t && Find(t, CRLF) == |t|
    ensures Find(p, CRLF) == |p|
  {
    assert t == p + t[|p|..];
    FindInPrefix(p, t[|p|..], CRLF);
  }

  lemma TypeTrimmed(s: string)
    requires Find(s, CRLF) == |s|
    ensures TypeFits(Trim(s))
  {
    TrimmedTight(s);
    TrimLeftOneLine(s);
    TrimRightShape(TrimLeft(s));
    PrefixOneLine(Trim(s), TrimLeft(s));
  }

  lemma TypeLineFits(header: string)
    requires StartsNoCase(header, "content-type:") && Find(header, CRLF) == |header|
    ensures TypeFits(Trim(header[13..]))
  {
    FindFrom(header, CRLF, 13);
    TypeTrimmed(header[13..]);
  }

  lemma CapturedLine(header: string)
    requires DispositionParams(header).Some?
    ensures '\r' !in DispositionParams(header).value && '\n' !in DispositionParams(header).value
  {}

  lemma DispositionReportable(text: string, file: File)
    requires Reportable(file) && '\r' !in text && '\n' !in text
    ensures Reportable(DispositionFile(ParsedParams(text), file).0)
  {
    ParamsPlain(text);
    LookupPlain(ParsedParams(text), "name");
  }

  lemma DispositionLineReportable(header: string, file: File)
    requires Reportable(file) && !StartsNoCase(header, "content-type:")
    ensures Reportable(HeaderLine(header, file).0)
  {
    var text := DispositionParams(header);
    if text.Some? {
      CapturedLine(header);
      DispositionReportable(text.value, file);
    }
  }

  lemma HeaderLineReportable(header: string, file: File)
    requires Reportable(file) && Find(header, CRLF) == |header|
    ensures Reportable(HeaderLine(header, file).0)
  {
    if StartsNoCase(header, "content-type:") {
      TypeLineFits(header);
    } else {
      DispositionLineReportable(header, file);
    }
  }

  predicate AllReportable(events: seq<Event>) {
    forall i | 0 <= i < |events| :: events[i].Header? ==> Reportable(events[i].file)
  }

  lemma {:induction false} HeaderLinesReportable(p: Parser)
    requires p.state == 2 && Reportable(p.file)
    ensures Reportable(HeaderLines(p).p.file) && AllReportable(HeaderLines(p).events)
    decreases |p.view|
  {
    var pos := Find(p.view, CRLF);
    if 0 < pos < |p.view| {
      assert p.view == p.view[..pos] + p.view[pos..];
      FindInPrefix(p.view[..pos], p.view[pos..], CRLF);
      HeaderLineReportable(p.view[..pos], p.file);
      var (file, ok) := HeaderLine(p.view[..pos], p.file);
      if ok { HeaderLinesReportable(p.(file := file, view := p.view[pos + 2..])); }
    }
  }

  lemma {:induction false} ParseReportable(p: Parser, boundary: string)
    requires Reportable(p.file)
    ensures Reportable(Parse(p, boundary).p.file) && AllReportable(Parse(p, boundary).events)
    decreases |p.view|, if p.state == 1 then 1 else 0
  {
    if p.view != "" {
      if p.state == 2 { HeaderLinesReportable(p); }
      var s := Step(p, boundary);
      if s.going == Again { ParseReportable(s.p, boundary); }
    }
  }

  lemma {:induction false} ChunksReportable(p: Parser, chunks: seq<string>, boundary: string)
    requires Reportable(p.file)
    ensures AllReportable(ParseChunks(p, chunks, boundary).events)
    decreases chunks
  {
    if chunks == [] {
    } else {
      var s := Parse(p.(view := p.view + chunks[0]), boundary);
      ParseReportable(p.(view := p.view + chunks[0]), boundary);
      if s.going != Fail { ChunksReportable(s.p, chunks[1..], boundary); }
    }
  }

  predicate ReportableItems(items: seq<Item>) {
    forall i | 0 <= i < |items| :: Reportable(items[i].file)
  }

  lemma {:induction false} CollectedReportable(items: seq<Item>, events: seq<Event>)
    requires ReportableItems(items) && AllReportable(events)
    ensures ReportableItems(Collected(items, events))
    decreases events
  {
    if events == [] {
    } else {
      CollectedReportable(Taken(items, events[0]), events[1..]);
    }
  }

  /**
   * No input at all makes the parser report a name with ';', '=' or a line break, or a content type with CR LF or with
   * blanks at its ends; so these cannot come back.
   */
  lemma ReportedNamesPlain(chunks: seq<string>, boundary: string)
    ensures ReportableItems(Collected([], ParseChunks(START, chunks, boundary).events))
  {
    ChunksReportable(START, chunks, boundary);
    CollectedReportable([], ParseChunks(START, chunks, boundary).events);
  }
}
