/** Header lines of any writer, the preamble, and what stands behind a delimiter: the parser's decisions written out. */
module MultipartLaws {
  import opened Common
  import opened HttpText
  import opened QueryText
  import opened QueryLaws
  import opened Multipart
  import opened MultipartFind
  import opened MultipartHeaders

  // Header lines

  predicate SameNoCase(a: string, b: string) {
    |a| == |b| && forall i | 0 <= i < |b| :: ToLower(a[i]) == ToLower(b[i])
  }

  lemma LowerTable(c: char)
    ensures ToLower(c) as int == if 65 <= c as int <= 90 then c as int + 32 else c as int
  {}

  lemma {:induction false} SpaceInFront(s: string)
    ensures AllSpace(s[..SkipSpace(s)]) && (s[SkipSpace(s)..] == "" || !Space(s[SkipSpace(s)..][0]))
  {
    if s != "" && Space(s[0]) {
      SpaceInFront(s[1..]);
      assert s[..SkipSpace(s)] == [s[0]] + s[1..][..SkipSpace(s[1..])];
      assert s[SkipSpace(s)..] == s[1..][SkipSpace(s[1..])..];
    }
  }

  lemma StartsExact(h: string, b: string)
    ensures StartsNoCase(h, b) <==> exists p, t :: h == p + t && SameNoCase(p, b)
  {
    if StartsNoCase(h, b) {
      assert h == h[..|b|] + h[|b|..] && SameNoCase(h[..|b|], b);
    }
    if exists p, t :: h == p + t && SameNoCase(p, b) {
      var p, t :| h == p + t && SameNoCase(p, b);
      PrefixGone(p, t, b);
    }
  }

  /** A disposition line in its parts. */
  ghost predicate IsDisposition(h: string, p: string, w: string, q: string, x: string, d: string) {
    && h == p + (w + (q + (x + d))) && SameNoCase(p, "content-disposition:") && SameNoCase(q, "form-data;")
    && AllSpace(w) && AllSpace(x) && (d == "" || !Space(d[0])) && '\r' !in d && '\n' !in d
  }

  lemma FormStart(q: string)
    requires SameNoCase(q, "form-data;")
    ensures |q| == 10 && !Space(q[0])
  {
    assert ToLower(q[0]) == ToLower("form-data;"[0]) == 'f';
  }

  lemma PrefixGone(p: string, t: string, b: string)
    requires SameNoCase(p, b)
    ensures StartsNoCase(p + t, b) && (p + t)[|b|..] == t
  {}

  lemma DispositionTaken(h: string, p: string, w: string, q: string, x: string, d: string)
    requires IsDisposition(h, p, w, q, x, d)
    ensures DispositionParams(h) == Some(d)
  {
    var b := q + (x + d);
    FormStart(q);
    assert b[0] == q[0];
    PrefixGone(p, w + b, "content-disposition:");
    SpaceSkipped(w, b);
    DropPrefix(w, b);
    PrefixGone(q, x + d, "form-data;");
    SpaceSkipped(x, d);
    DropPrefix(x, d);
  }

  lemma DispositionOf(h: string) returns (p: string, w: string, q: string, x: string)
    requires DispositionParams(h).Some?
    ensures IsDisposition(h, p, w, q, x, DispositionParams(h).value)
  {
    var a := h[20..];
    var b := a[SkipSpace(a)..];
    var c := b[10..];
    p, w, q, x := h[..20], a[..SkipSpace(a)], b[..10], c[..SkipSpace(c)];
    SpaceInFront(a);
    SpaceInFront(c);
    CutTwice(h, 20, a, SkipSpace(a));
    CutTwice(b, 10, c, SkipSpace(c));
  }

  lemma CutTwice(h: string, n: nat, a: string, k: nat)
    requires n <= |h| && a == h[n..] && k <= |a|
    ensures h == h[..n] + (a[..k] + a[k..])
  {}

  /** What a disposition line captures is what stands behind its two words, written in any case and with any blanks. */
  lemma DispositionExact(h: string, d: string)
    ensures DispositionParams(h) == Some(d) <==> exists p, w, q, x :: IsDisposition(h, p, w, q, x, d)
  {
    if DispositionParams(h) == Some(d) {
      var p, w, q, x := DispositionOf(h);
    }
    if exists p, w, q, x :: IsDisposition(h, p, w, q, x, d) {
      var p, w, q, x :| IsDisposition(h, p, w, q, x, d);
      DispositionTaken(h, p, w, q, x, d);
    }
  }

  /** The extended form: "UTF-8''" in any case in front of at least one character of the line. */
  lemma ExtendedExact(v: string, t: string)
    ensures ExtendedValue(v) == Some(t)
            <==> t != "" && '\r' !in v && '\n' !in v && exists p :: v == p + t && SameNoCase(p, "utf-8''")
  {
    if ExtendedValue(v) == Some(t) { assert v == v[..7] + t && SameNoCase(v[..7], "utf-8''"); }
    if t != "" && '\r' !in v && '\n' !in v && exists p :: v == p + t && SameNoCase(p, "utf-8''") {
      var p :| v == p + t && SameNoCase(p, "utf-8''");
      PrefixGone(p, t, "utf-8''");
    }
  }

  /** The first of the entries with this key. */
  predicate FirstEntry(ps: seq<Pair>, key: string, i: nat) {
    i < |ps| && ps[i].0 == key && forall j | 0 <= j < i :: ps[j].0 != key
  }

  lemma {:induction false} LookupExact(ps: seq<Pair>, key: string)
    ensures Lookup(ps, key) == None <==> forall i | 0 <= i < |ps| :: ps[i].0 != key
    ensures forall i: nat | FirstEntry(ps, key, i) :: Lookup(ps, key) == Some(ps[i].1)
  {
    if ps == [] {
    } else {
      LookupExact(ps[1..], key);
      assert forall i | 0 < i < |ps| :: ps[i] == ps[1..][i - 1];
      forall i: nat | FirstEntry(ps, key, i) && i > 0 ensures Lookup(ps, key) == Some(ps[i].1) {
        assert FirstEntry(ps[1..], key, i - 1);
      }
    }
  }

  /** A line with these parameters is taken if there is a name, and if an extended file name has its form. */
  lemma ParamsTaken(ps: seq<Pair>, file: File)
    ensures DispositionFile(ps, file).1
            <==> Lookup(ps, "name").Some? && (Lookup(ps, "filename*").Some? ==> ExtendedValue(Lookup(ps, "filename*").value).Some?)
    ensures DispositionFile(ps, file).0.contentType == file.contentType
    ensures Lookup(ps, "name") == None ==> DispositionFile(ps, file).0 == file
    ensures Lookup(ps, "name").Some? ==> DispositionFile(ps, file).0.name == Lookup(ps, "name").value
    ensures Lookup(ps, "name").Some? && Lookup(ps, "filename*").Some? && DispositionFile(ps, file).1 ==>
              DispositionFile(ps, file).0.filename == Decode(ExtendedValue(Lookup(ps, "filename*").value).value, false)
    ensures Lookup(ps, "name").Some? && (Lookup(ps, "filename*") == None || !DispositionFile(ps, file).1) ==>
              DispositionFile(ps, file).0.filename
              == if Lookup(ps, "filename").Some? then Lookup(ps, "filename").value else file.filename
  {}

  /** A type line, with its name in any case. */
  lemma TypeLine(p: string, t: string, file: File)
    requires SameNoCase(p, "content-type:")
    ensures HeaderLine(p + t, file) == (file.(contentType := Trim(t)), true)
  {
    PrefixGone(p, t, "content-type:");
  }

  lemma AnyDisposition(h: string, p: string, w: string, q: string, x: string, d: string, file: File)
    requires IsDisposition(h, p, w, q, x, d)
    ensures HeaderLine(h, file) == DispositionFile(ParsedParams(d), file)
  {
    DispositionTaken(h, p, w, q, x, d);
    NotBoth(h);
  }

  /** On any other line the parser fails, and the file stays as it was. */
  lemma OtherLine(h: string, file: File)
    requires forall p, t :: !(h == p + t && SameNoCase(p, "content-type:"))
    requires forall p, w, q, x, d :: !IsDisposition(h, p, w, q, x, d)
    ensures HeaderLine(h, file) == (file, false)
  {
    StartsExact(h, "content-type:");
    if DispositionParams(h).Some? {
      var p, w, q, x := DispositionOf(h);
    }
  }

  lemma NotBoth(h: string)
    requires DispositionParams(h).Some?
    ensures !StartsNoCase(h, "content-type:")
  {
    assert ToLower("content-type:"[8]) == 't' && ToLower(h[8]) == ToLower("content-disposition:"[8]) == 'd';
  }

  // The extended file name

  lemma {:induction false} EncodedSafe(f: string)
    requires Octets(f)
    ensures ';' !in Encode(f) && '=' !in Encode(f) && '"' !in Encode(f) && '\r' !in Encode(f) && '\n' !in Encode(f)
    ensures f != "" ==> Tight(Encode(f))
  {
    if f == "" {
    } else {
      EncodedSafe(f[1..]);
    }
  }

  function ExtendedText(name: string, f: string): string
    requires Octets(f)
  {
    "name" + ['='] + Quoted(name) + [';'] + (" " + ("filename*" + ['='] + ("UTF-8''" + Encode(f))))
  }

  lemma ExtendedShape(f: string)
    requires Octets(f) && f != ""
    ensures var v := "UTF-8''" + Encode(f);
            Tight(v) && Plain(v) && Unquote(v) == v && ExtendedValue(v) == Some(Encode(f))
  {
    var v := "UTF-8''" + Encode(f);
    EncodedSafe(f);
    assert v[0] == 'U' && v[|v| - 1] == Encode(f)[|Encode(f)| - 1];
    assert SameNoCase("UTF-8''", "utf-8''");
    ExtendedExact(v, Encode(f));
  }

  lemma PairShape(key: string, v: string)
    requires Tight(key) && Plain(key) && Tight(v) && Plain(v)
    ensures var kv := key + ['='] + v;
            Tight(kv) && ';' !in kv && '\r' !in kv && '\n' !in kv && KeyValue(kv) == Some((key, v))
  {
    var kv := key + ['='] + v;
    assert kv[0] == key[0] && kv[|kv| - 1] == v[|v| - 1];
    KeyValueOf(key, v);
  }

  lemma ExtendedPair(f: string, b: string)
    requires Octets(f) && f != "" && b == "filename*" + ['='] + ("UTF-8''" + Encode(f))
    ensures Tight(b) && ';' !in b && '\r' !in b && '\n' !in b && KeyValue(b) == Some(("filename*", "UTF-8''" + Encode(f)))
  {
    ExtendedShape(f);
    PairShape("filename*", "UTF-8''" + Encode(f));
  }

  lemma ExtendedParams(name: string, f: string, a: string, b: string)
    requires Octets(f) && f != "" && Plain(name)
    requires a == "name" + ['='] + Quoted(name) && b == "filename*" + ['='] + ("UTF-8''" + Encode(f))
    ensures ParsedParams(a + [';'] + (" " + b)) == [("name", name), ("filename*", "UTF-8''" + Encode(f))]
  {
    ParamShape("name", name);
    ExtendedPair(f, b);
    ExtendedShape(f);
    TwoPieces(a, b);
    assert a[0] == 'n' && b[0] == 'f';
    KeyValuesTwo(a, b, ("name", Quoted(name)), ("filename*", "UTF-8''" + Encode(f)));
    QuotedShape(name);
  }

  lemma ExtendedLookups(name: string, v: string)
    ensures var ps := [("name", name), ("filename*", v)];
            Lookup(ps, "name") == Some(name) && Lookup(ps, "filename") == None && Lookup(ps, "filename*") == Some(v)
  {
    var rest := [("filename*", v)];
    assert |"filename*"| != |"filename"| && |"filename*"| != |"name"| && |"filename"| != |"name"|;
    LookupCons(("name", name), rest, "name");
    LookupCons(("name", name), rest, "filename");
    LookupCons(("name", name), rest, "filename*");
    assert rest[1..] == [] && [("name", name)] + rest == [("name", name), ("filename*", v)];
  }

  lemma ExtendedIsLine(name: string, f: string, a: string, b: string)
    requires Octets(f) && f != "" && Plain(name)
    requires a == "name" + ['='] + Quoted(name) && b == "filename*" + ['='] + ("UTF-8''" + Encode(f))
    ensures var text := ExtendedText(name, f);
            text == a + [';'] + (" " + b) && text != "" && !Space(text[0]) && '\r' !in text && '\n' !in text
  {
    ParamShape("name", name);
    ExtendedPair(f, b);
    assert ExtendedText(name, f)[0] == 'n';
  }

  /** A file name of any bytes, percent-encoded in the extended form, is read back. */
  lemma ExtendedRead(name: string, f: string, file: File)
    requires Octets(f) && f != "" && Plain(name)
    ensures HeaderLine("Content-Disposition: form-data; " + ExtendedText(name, f), file) == (file.(name := name, filename := f), true)
  {
    var a, b := "name" + ['='] + Quoted(name), "filename*" + ['='] + ("UTF-8''" + Encode(f));
    var text, v := ExtendedText(name, f), "UTF-8''" + Encode(f);
    ExtendedIsLine(name, f, a, b);
    DispositionCaptured(text);
    ExtendedShape(f);
    ExtendedParams(name, f, a, b);
    ExtendedLookups(name, v);
    ParamsTaken([("name", name), ("filename*", v)], file);
    DecodeEncode(f, false);
  }

  // The states

  /** A header line of up to 8192 bytes is read, one of more fails. */
  lemma LineLimit(p: Parser, line: string, rest: string)
    requires p.state == 2 && p.view == line + CRLF + rest && line != "" && Find(p.view, CRLF) == |line|
    ensures StepHeaders(p) ==
            if |line| > 8192 then Reply(p, [], Fail)
            else if HeaderLine(line, p.file).1 then HeaderLines(p.(file := HeaderLine(line, p.file).0, view := rest))
            else Reply(p.(file := HeaderLine(line, p.file).0, valid := false), [], Fail)
  {
    assert p.view[..|line|] == line && p.view[|line| + 2..] == rest;
  }

  /** What stands in front of the first delimiter line is dropped. */
  lemma PreambleDropped(junk: string, rest: string, boundary: string)
    requires Find(junk + (InitialDelimiter(boundary) + rest), InitialDelimiter(boundary)) == |junk|
    ensures Parse(START.(view := junk + (InitialDelimiter(boundary) + rest)), boundary)
            == Parse(START.(view := rest, state := 1), boundary)
  {
    var d := InitialDelimiter(boundary);
    DropPrefix(junk, d + rest);
    DropPrefix(d, rest);
    var r := Parse(START.(view := rest, state := 1), boundary);
    assert [] + r.events == r.events;
  }

  /** Two bytes behind a delimiter that are neither a line end nor dashes: the parser waits for ever, without failing. */
  lemma {:induction false} StuckBehindDelimiter(p: Parser, chunks: seq<string>, boundary: string)
    requires p.state == 4 && |p.view| >= 2 && p.view[..2] != "\r\n" && p.view[..2] != "--"
    ensures ParseChunks(p, chunks, boundary) == Reply(p.(view := p.view + Joined(chunks)), [], Wait)
    decreases chunks
  {
    if chunks == [] {
      assert p.view + "" == p.view;
    } else {
      var view := p.view + chunks[0];
      assert view[..2] == p.view[..2];
      StuckBehindDelimiter(p.(view := view), chunks[1..], boundary);
      assert view + Joined(chunks[1..]) == p.view + (chunks[0] + Joined(chunks[1..]));
    }
  }

  /** Behind a delimiter a line end begins the next item, and dashes end the body and drop what follows. */
  lemma BehindDelimiter(p: Parser, rest: string, boundary: string)
    requires p.state == 4
    ensures p.view == "\r\n" + rest ==> Parse(p, boundary) == Parse(p.(view := rest, state := 1), boundary)
    ensures p.view == "--" + rest ==> Parse(p, boundary) == Reply(p.(view := "", valid := true), [], Wait)
    ensures |p.view| < 2 ==> Parse(p, boundary) == Reply(p, [], Wait)
  {
    if p.view == "\r\n" + rest {
      DropPrefix("\r\n", rest);
      var r := Parse(p.(view := rest, state := 1), boundary);
      assert [] + r.events == r.events;
    } else if p.view == "--" + rest {
      assert p.view[0] == '-' && !(CRLF <= p.view);
    }
  }
}
