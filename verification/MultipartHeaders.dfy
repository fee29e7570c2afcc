/**
 * Writing multipart/form-data, and reading back what it writes into headers.
 *
 * The writer puts names and file names between quotes as they are, and writes no line for an empty type. The reader
 * matches the disposition line without regard to case, splits its parameters and takes the quotes off; for texts
 * without the characters it splits at, that gives the name and the file name back.
 */
module MultipartHeaders {
  import opened Common
  import opened HttpText
  import opened Multipart
  import opened MultipartFind

  datatype Item = Item(file: File, content: string)

  // The writer

  function DispositionLine(f: File): string {
    "Content-Disposition: form-data; " + DispositionText(f)
  }

  function DispositionText(f: File): string {
    "name" + ['='] + Quoted(f.name)
    + if f.filename == "" then "" else ";" + " filename" + ['='] + Quoted(f.filename)
  }

  function Quoted(s: string): string {
    "\"" + s + "\""
  }

  function Lines(f: File): seq<string> {
    [DispositionLine(f)] + if f.contentType == "" then [] else ["Content-Type: " + f.contentType]
  }

  /** Header lines and the empty line that ends them. */
  function Block(lines: seq<string>): string {
    if lines == [] then CRLF else lines[0] + CRLF + Block(lines[1..])
  }

  function Began(f: File, boundary: string): string {
    InitialDelimiter(boundary) + Block(Lines(f))
  }

  function Finish(boundary: string): string {
    DASH + boundary + DASH + CRLF
  }

  function Serialized(items: seq<Item>, boundary: string): string {
    if items == [] then Finish(boundary)
    else Began(items[0].file, boundary) + items[0].content + CRLF + Serialized(items[1..], boundary)
  }

  /** The items without the end of the body. */
  function ItemsText(items: seq<Item>, boundary: string): string {
    if items == [] then ""
    else Began(items[0].file, boundary) + items[0].content + CRLF + ItemsText(items[1..], boundary)
  }

  lemma {:induction false} SerializedIsItems(items: seq<Item>, boundary: string)
    ensures Serialized(items, boundary) == ItemsText(items, boundary) + Finish(boundary)
  {
    if items == [] {
      assert "" + Finish(boundary) == Finish(boundary);
    } else {
      SerializedIsItems(items[1..], boundary);
      Glue(Began(items[0].file, boundary) + items[0].content + CRLF, ItemsText(items[1..], boundary), Finish(boundary));
    }
  }

  method SerializeItemBegin(f: File, boundary: string) returns (body: string)
    ensures body == Began(f, boundary)
  {
    body := "--" + boundary + "\r\n";
    body := body + ("Content-Disposition: form-data; name=\"" + f.name + "\"");
    if f.filename != "" { body := body + ("; filename=\"" + f.filename + "\""); }
    body := body + "\r\n";
    if f.contentType != "" { body := body + ("Content-Type: " + f.contentType + "\r\n"); }
    body := body + "\r\n";
    BeganText(f, boundary);
  }

  lemma LineText(f: File)
    ensures DispositionLine(f) == "Content-Disposition: form-data; name=\"" + f.name + "\""
                                  + if f.filename == "" then "" else "; filename=\"" + f.filename + "\""
  {}

  lemma Regroup(start: string, line: string, file: string, t: string)
    ensures start + (line + file + CRLF + CRLF) == start + line + file + "\r\n" + "" + "\r\n"
    ensures start + (line + file + CRLF + (t + CRLF + CRLF)) == start + line + file + "\r\n" + (t + "\r\n") + "\r\n"
  {}

  lemma BeganText(f: File, boundary: string)
    ensures Began(f, boundary)
            == "--" + boundary + "\r\n" + ("Content-Disposition: form-data; name=\"" + f.name + "\"")
               + (if f.filename == "" then "" else "; filename=\"" + f.filename + "\"") + "\r\n"
               + (if f.contentType == "" then "" else "Content-Type: " + f.contentType + "\r\n") + "\r\n"
  {
    var t := "Content-Type: " + f.contentType;
    LineText(f);
    BlockOfLines(DispositionLine(f), t);
    Regroup("--" + boundary + "\r\n", "Content-Disposition: form-data; name=\"" + f.name + "\"",
            if f.filename == "" then "" else "; filename=\"" + f.filename + "\"", t);
  }

  lemma BlockOfLines(a: string, b: string)
    ensures Block([a] + []) == a + CRLF + CRLF
    ensures Block([a] + [b]) == a + CRLF + (b + CRLF + CRLF)
  {
    assert [a] + [] == [a] && [a][1..] == [];
    assert [a] + [b] == [a, b] && [a, b][1..] == [b] && [b][1..] == [];
  }

  lemma ItemsTextStep(done: string, items: seq<Item>, boundary: string)
    requires items != []
    ensures done + ItemsText(items, boundary)
            == done + Began(items[0].file, boundary) + (items[0].content + CRLF) + ItemsText(items[1..], boundary)
  {
    Glue(done, Began(items[0].file, boundary) + items[0].content + CRLF, ItemsText(items[1..], boundary));
    ItemText(done, Began(items[0].file, boundary), items[0].content);
  }

  lemma ItemText(done: string, begin: string, content: string)
    ensures done + (begin + content + CRLF) == done + begin + (content + CRLF)
  {}

  method SerializeItemEnd() returns (text: string)
    ensures text == CRLF
  {
    text := "\r\n";
  }

  method SerializeFinish(boundary: string) returns (text: string)
    ensures text == Finish(boundary)
  {
    text := "--" + boundary + "--\r\n";
  }

  /** The body of a request, or with finish false what stands in front of items that are sent later. */
  method SerializeFormData(items: seq<Item>, boundary: string, finish: bool) returns (body: string)
    ensures body == if finish then Serialized(items, boundary) else ItemsText(items, boundary)
    ensures Serialized(items, boundary) == ItemsText(items, boundary) + Finish(boundary)
  {
    body := "";
    ghost var all, left := ItemsText(items, boundary), items;
    assert "" + all == all;
    for i := 0 to |items|
      invariant left == items[i..] && body + ItemsText(left, boundary) == all
    {
      ItemsTextStep(body, left, boundary);
      var begin := SerializeItemBegin(items[i].file, boundary);
      body := body + begin;
      var end := SerializeItemEnd();
      body := body + (items[i].content + end);
      left := left[1..];
    }
    assert body + "" == body;
    SerializedIsItems(items, boundary);
    if finish {
      var end := SerializeFinish(boundary);
      body := body + end;
    }
  }

  // Reading a header line back

  predicate Plain(s: string) {
    ';' !in s && '=' !in s && '\r' !in s && '\n' !in s
  }

  predicate TypeFits(t: string) {
    t == "" || (Tight(t) && Find(t, CRLF) == |t|)
  }

  predicate Sound(f: File) {
    Plain(f.name) && Plain(f.filename) && TypeFits(f.contentType)
  }

  lemma StartsNoCaseAppend(h: string, t: string, b: string)
    requires StartsNoCase(h, b)
    ensures StartsNoCase(h + t, b)
  {}

  lemma QuotedShape(s: string)
    ensures Tight(Quoted(s)) && Unquote(Quoted(s)) == s
    ensures Plain(s) ==> Plain(Quoted(s))
  {
    assert Quoted(s)[1..|Quoted(s)| - 1] == s;
  }

  lemma ParamShape(key: string, s: string)
    requires Tight(key) && Plain(key) && Plain(s)
    ensures var kv := key + ['='] + Quoted(s);
            Tight(kv) && ';' !in kv && '\r' !in kv && '\n' !in kv && KeyValue(kv) == Some((key, Quoted(s)))
  {
    QuotedShape(s);
    KeyValueOf(key, Quoted(s));
  }

  lemma TrimBlank(s: string)
    requires Tight(s)
    ensures Trim(" " + s) == s
  {
    assert (" " + s)[1..] == s;
    TrimTight(s);
  }

  lemma NameAlone(a: string, name: string)
    requires Plain(name) && a == "name" + ['='] + Quoted(name)
    ensures ParsedParams(a) == [("name", name)]
  {
    ParamShape("name", name);
    QuotedShape(name);
    TrimTight(a);
    PiecesLast(a, ';');
    KeyValuesOne(a, ("name", Quoted(name)));
  }

  lemma NameAndFilename(a: string, b: string, name: string, filename: string)
    requires Plain(name) && a == "name" + ['='] + Quoted(name)
    requires Plain(filename) && b == "filename" + ['='] + Quoted(filename)
    ensures ParsedParams(a + [';'] + (" " + b)) == [("name", name), ("filename", filename)]
  {
    ParamShape("name", name);
    ParamShape("filename", filename);
    TwoPieces(a, b);
    assert a[0] == 'n' && b[0] == 'f';
    KeyValuesTwo(a, b, ("name", Quoted(name)), ("filename", Quoted(filename)));
    QuotedShape(name);
    QuotedShape(filename);
  }

  lemma TwoPieces(a: string, b: string)
    requires Tight(a) && Tight(b) && ';' !in a && ';' !in b
    ensures Pieces(a + [';'] + (" " + b), ';') == [a] + [b]
  {
    TrimTight(a);
    TrimBlank(b);
    PiecesCons(a, " " + b, ';');
    PiecesLast(" " + b, ';');
  }

  lemma ParamsOfDisposition(f: File)
    requires Plain(f.name) && Plain(f.filename)
    ensures ParsedParams(DispositionText(f))
            == if f.filename == "" then [("name", f.name)] else [("name", f.name), ("filename", f.filename)]
  {
    var a, b := "name" + ['='] + Quoted(f.name), "filename" + ['='] + Quoted(f.filename);
    if f.filename == "" {
      assert DispositionText(f) == a;
      NameAlone(a, f.name);
    } else {
      assert DispositionText(f) == a + [';'] + (" " + b);
      NameAndFilename(a, b, f.name, f.filename);
    }
  }

  lemma KeyValuesOne(a: string, p: Pair)
    requires KeyValue(a) == Some(p)
    ensures UnquotedAll(KeyValues([a], {})) == [Unquoted(p)]
  {
    assert [a][1..] == [] && [p][1..] == [];
  }

  lemma KeyValuesTwo(a: string, b: string, p: Pair, q: Pair)
    requires a != b && KeyValue(a) == Some(p) && KeyValue(b) == Some(q)
    ensures UnquotedAll(KeyValues([a] + [b], {})) == [Unquoted(p), Unquoted(q)]
  {
    assert ([a] + [b])[1..] == [b] && [b][1..] == [];
    assert {} + {a} == {a} && KeyValues([b], {a}) == [q];
    assert KeyValues([a] + [b], {}) == [p] + [q];
    assert ([p] + [q])[1..] == [q] && [q][1..] == [];
    assert UnquotedAll([q]) == [Unquoted(q)];
  }

  lemma DispositionStart(text: string)
    ensures var line := "Content-Disposition: form-data; " + text;
            !StartsNoCase(line, "content-type:") && StartsNoCase(line, "content-disposition:")
            && line[20..] == " form-data; " + text
  {
    var line, t := "Content-Disposition: form-data; " + text, " form-data; " + text;
    assert line[8] == 'D';
    assert line == "Content-Disposition:" + t;
    StartsNoCaseAppend("Content-Disposition:", t, "content-disposition:");
    DropPrefix("Content-Disposition:", t);
  }

  lemma FormDataStart(text: string)
    ensures var b := "form-data; " + text; StartsNoCase(b, "form-data;") && b[10..] == " " + text
  {
    var b := "form-data; " + text;
    assert b == "form-data;" + (" " + text);
    StartsNoCaseAppend("form-data;", " " + text, "form-data;");
    DropPrefix("form-data;", " " + text);
  }

  lemma SkipOne(t: string)
    requires t != "" && !Space(t[0])
    ensures SkipSpace(" " + t) == 1 && (" " + t)[1..] == t
  {
    assert (" " + t)[1..] == t;
  }

  lemma DispositionCaptured(text: string)
    requires text != "" && !Space(text[0])
    ensures !StartsNoCase("Content-Disposition: form-data; " + text, "content-type:")
    ensures DispositionParams("Content-Disposition: form-data; " + text)
            == if '\r' in text || '\n' in text then None else Some(text)
  {
    DispositionStart(text);
    FormDataStart(text);
    assert " form-data; " + text == " " + ("form-data; " + text);
    SkipOne("form-data; " + text);
    SkipOne(text);
  }

  lemma LookupCons(p: Pair, ps: seq<Pair>, key: string)
    ensures Lookup([p] + ps, key) == if p.0 == key then Some(p.1) else Lookup(ps, key)
  {
    assert ([p] + ps)[1..] == ps;
  }

  lemma NamesTaken(f: File)
    ensures var ps := if f.filename == "" then [("name", f.name)] else [("name", f.name), ("filename", f.filename)];
            DispositionFile(ps, NO_FILE) == (File(f.name, f.filename, ""), true)
  {
    assert |"filename*"| != |"filename"| && |"filename*"| != |"name"| && |"filename"| != |"name"|;
    var rest := if f.filename == "" then [] else [("filename", f.filename)];
    LookupCons(("name", f.name), rest, "name");
    LookupCons(("name", f.name), rest, "filename");
    LookupCons(("name", f.name), rest, "filename*");
    assert [("name", f.name)] + rest
           == if f.filename == "" then [("name", f.name)] else [("name", f.name), ("filename", f.filename)];
  }

  lemma DispositionRead(f: File)
    requires Sound(f)
    ensures HeaderLine(DispositionLine(f), NO_FILE) == (File(f.name, f.filename, ""), true)
  {
    var text := DispositionText(f);
    TextIsLine(f);
    DispositionCaptured(text);
    ParamsOfDisposition(f);
    NamesTaken(f);
  }

  lemma TextIsLine(f: File)
    requires Sound(f)
    ensures var text := DispositionText(f); text != "" && !Space(text[0]) && '\r' !in text && '\n' !in text
  {
    assert DispositionText(f)[0] == 'n';
    ParamShape("name", f.name);
    if f.filename != "" { ParamShape("filename", f.filename); }
  }

  lemma TypeRead(t: string, file: File)
    requires t != "" && TypeFits(t)
    ensures HeaderLine("Content-Type: " + t, file) == (file.(contentType := t), true)
  {
    var line := "Content-Type: " + t;
    assert line == "Content-Type:" + (" " + t) && line[13..] == " " + t;
    StartsNoCaseAppend("Content-Type:", " " + t, "content-type:");
    TrimBlank(t);
  }

  // Where the lines end

  lemma DispositionEnds(f: File)
    requires Sound(f)
    ensures Find(DispositionLine(f), CRLF) == |DispositionLine(f)|
  {
    var line := DispositionLine(f);
    assert '\r' !in line;
    assert line + "" == line;
    FindBehind(line, "", CRLF);
  }

  lemma TypeEnds(t: string)
    requires Find(t, CRLF) == |t|
    ensures Find("Content-Type: " + t, CRLF) == |"Content-Type: " + t|
  {
    FindBehind("Content-Type: ", t, CRLF);
  }
}
