/** The chunked bodies the reader accepts, as a grammar, and the numbers it takes for sizes. */
module ChunkedLaws {
  import opened Common
  import opened HttpText
  import opened HttpStream
  import opened Chunked
  import opened QueryLaws

  // Lines

  predicate IsLine(l: string) {
    l != "" && l[|l| - 1] == '\n' && '\n' !in l[..|l| - 1]
  }

  lemma LineFront(l: string, t: string)
    requires IsLine(l)
    ensures Line(l + t) == l && Behind(l + t) == t
  {
    assert l == l[..|l| - 1] + ['\n'];
    LineAppend(l[..|l| - 1], t);
  }

  lemma LineCut(s: string)
    requires s != ""
    ensures s == Line(s) + Behind(s) && (IsLine(Line(s)) || Behind(s) == "")
  {}

  // The trailer

  predicate TrailerLines(lines: seq<string>) {
    forall i | 0 <= i < |lines| :: TrailerLine(lines[i])
  }

  predicate TrailerLine(l: string) {
    IsLine(l) && l != "\r\n" && |l| <= 8192
  }

  lemma TrailerOn(l: string, t: string)
    requires TrailerLine(l)
    ensures ReadTrailer(l + t) == var r := ReadTrailer(t); r.(trailers := [l] + r.trailers)
  {
    LineFront(l, t);
  }

  lemma TrailerEnd(rest: string)
    ensures ReadTrailer("\r\n" + rest) == Outcome(true, "", [], rest)
  {
    assert IsLine("\r\n");
    LineFront("\r\n", rest);
  }

  lemma TrailerFirst(lines: seq<string>)
    requires TrailerLines(lines) && lines != []
    ensures TrailerLine(lines[0]) && TrailerLines(lines[1..])
  {}

  lemma JoinedFirst(lines: seq<string>, end: string)
    requires lines != []
    ensures lines == [lines[0]] + lines[1..] && Joined(lines) + end == lines[0] + (Joined(lines[1..]) + end)
  {
    Glue(lines[0], Joined(lines[1..]), end);
  }

  lemma {:induction false} TrailerAccepted(lines: seq<string>, end: string, rest: string)
    requires TrailerLines(lines) && ReadTrailer(end) == Outcome(true, "", [], rest)
    ensures ReadTrailer(Joined(lines) + end) == Outcome(true, "", lines, rest)
  {
    if lines == [] {
      assert "" + end == end;
    } else {
      TrailerFirst(lines);
      JoinedFirst(lines, end);
      TrailerAccepted(lines[1..], end, rest);
      TrailerOn(lines[0], Joined(lines[1..]) + end);
    }
  }

  lemma TrailerOff(s: string) returns (l: string, t: string)
    requires ReadTrailer(s).ok && Line(s) != "\r\n"
    ensures s == l + t && TrailerLine(l) && |t| < |s| && ReadTrailer(t).ok
    ensures ReadTrailer(s) == var r := ReadTrailer(t); r.(trailers := [l] + r.trailers)
  {
    LineCut(s);
    l, t := Line(s), Behind(s);
  }

  lemma TrailerCons(l: string, lines: seq<string>)
    requires TrailerLine(l) && TrailerLines(lines)
    ensures TrailerLines([l] + lines) && Joined([l] + lines) == l + Joined(lines)
  {
    assert ([l] + lines)[1..] == lines;
  }

  lemma EmptyLine(s: string)
    requires s != "" && Line(s) == "\r\n"
    ensures s == "\r\n" + Behind(s) && ReadTrailer(s) == Outcome(true, "", [], Behind(s))
  {}

  lemma {:induction false} TrailerText(s: string)
    requires ReadTrailer(s).ok
    ensures TrailerLines(ReadTrailer(s).trailers)
    ensures s == Joined(ReadTrailer(s).trailers) + ("\r\n" + ReadTrailer(s).rest)
    decreases |s|
  {
    if Line(s) == "\r\n" {
      EmptyLine(s);
      assert "" + s == s;
    } else {
      var l, t := TrailerOff(s);
      var lines, rest := ReadTrailer(t).trailers, ReadTrailer(t).rest;
      TrailerText(t);
      TrailerCons(l, lines);
      Glue(l, Joined(lines), "\r\n" + rest);
    }
  }

  // The chunks

  /** A line with the size of a chunk in front, the chunk, and the line end behind it. */
  datatype Part = Part(line: string, data: string)

  predicate Announces(line: string, n: nat, max: nat) {
    IsLine(line) && Strtoul(line, max).0 == n < max && Strtoul(line, max).1 != 0
  }

  predicate GoodParts(parts: seq<Part>, max: nat) {
    forall i | 0 <= i < |parts| :: parts[i].data != "" && Announces(parts[i].line, |parts[i].data|, max)
  }

  function PartText(p: Part): string {
    p.line + (p.data + "\r\n")
  }

  function Text(parts: seq<Part>): string {
    if parts == [] then "" else PartText(parts[0]) + Text(parts[1..])
  }

  function Data(parts: seq<Part>): string {
    if parts == [] then "" else parts[0].data + Data(parts[1..])
  }

  /** The body: chunks, a line with size zero, trailer lines, an empty line. */
  ghost predicate IsBody(s: string, parts: seq<Part>, last: string, trailers: seq<string>, rest: string, max: nat) {
    && GoodParts(parts, max) && Announces(last, 0, max) && TrailerLines(trailers)
    && s == Text(parts) + (last + (Joined(trailers) + ("\r\n" + rest)))
  }

  lemma SizeBounded(line: string, max: nat)
    ensures Strtoul(line, max).0 <= max
  {}

  lemma DataFront(data: string, t: string)
    ensures var input := data + ("\r\n" + t);
            input[..|data|] == data && Line(input[|data|..]) == "\r\n" && Behind(input[|data|..]) == t
  {
    var input := data + ("\r\n" + t);
    assert input[|data|..] == "\r\n" + t && IsLine("\r\n");
    LineFront("\r\n", t);
  }

  lemma ChunkOn(line: string, input: string, data: string, t: string, max: nat)
    requires data != "" && Announces(line, |data|, max) && t != "" && |input| > |data| && input[..|data|] == data
    requires Line(input[|data|..]) == "\r\n" && Behind(input[|data|..]) == t
    ensures ReadChunks(line, input, max) == var r := ReadChunks(Line(t), Behind(t), max); r.(content := data + r.content)
  {}

  /** A chunk in front adds its data, whatever comes behind it. */
  lemma PartRead(p: Part, t: string, max: nat)
    requires p.data != "" && Announces(p.line, |p.data|, max) && t != ""
    ensures PartText(p) + t != "" && ReadAll(PartText(p) + t, max) == var r := ReadAll(t, max); r.(content := p.data + r.content)
  {
    var input := p.data + ("\r\n" + t);
    PartGlued(p.line, p.data, t);
    LineFront(p.line, input);
    DataFront(p.data, t);
    ChunkOn(p.line, input, p.data, t, max);
  }

  lemma EndRead(last: string, trailers: seq<string>, rest: string, max: nat)
    requires Announces(last, 0, max) && TrailerLines(trailers)
    ensures ReadAll(last + (Joined(trailers) + ("\r\n" + rest)), max) == Outcome(true, "", trailers, rest)
  {
    LineFront(last, Joined(trailers) + ("\r\n" + rest));
    TrailerEnd(rest);
    TrailerAccepted(trailers, "\r\n" + rest, rest);
  }

  lemma {:induction false} BodyRead(s: string, parts: seq<Part>, last: string, trailers: seq<string>, rest: string, max: nat)
    requires IsBody(s, parts, last, trailers, rest, max)
    ensures ReadAll(s, max) == Outcome(true, Data(parts), trailers, rest)
    decreases parts
  {
    var end := last + (Joined(trailers) + ("\r\n" + rest));
    if parts == [] {
      assert "" + end == end;
      EndRead(last, trailers, rest, max);
    } else {
      var t := Text(parts[1..]) + end;
      BodyRead(t, parts[1..], last, trailers, rest, max);
      Glue(PartText(parts[0]), Text(parts[1..]), end);
      PartRead(parts[0], t, max);
    }
  }

  lemma Emptied(data: string, size: nat, input: string, after: string)
    requires size <= |input| && data == input[..size] && after == input[size..]
    ensures input == data + after
  {}

  lemma CrlfCut(after: string)
    requires after != "" && Line(after) == "\r\n"
    ensures after == "\r\n" + Behind(after)
  {
    LineCut(after);
  }

  lemma ChunkRead(line: string, input: string, max: nat, size: nat) returns (data: string, t: string)
    requires size == Strtoul(line, max).0 > 0 && ReadChunks(line, input, max).ok
    ensures input == data + ("\r\n" + t) && |data| == size < max && Strtoul(line, max).1 != 0 && t != ""
    ensures ReadChunks(Line(t), Behind(t), max).ok
    ensures ReadChunks(line, input, max) == var r := ReadChunks(Line(t), Behind(t), max); r.(content := data + r.content)
  {
    SizeBounded(line, max);
    var after := input[size..];
    data, t := input[..size], Behind(after);
    Emptied(data, size, input, after);
    CrlfCut(after);
  }

  lemma PartCut(s: string, max: nat) returns (p: Part, t: string)
    requires s != "" && Strtoul(Line(s), max).0 > 0 && ReadAll(s, max).ok
    ensures s == PartText(p) + t && p.data != "" && Announces(p.line, |p.data|, max) && |t| < |s|
    ensures ReadAll(t, max).ok && ReadAll(s, max) == var r := ReadAll(t, max); r.(content := p.data + r.content)
  {
    var line := Line(s);
    LineCut(s);
    var data;
    data, t := ChunkRead(line, Behind(s), max, Strtoul(line, max).0);
    p := Part(line, data);
    PartGlued(line, data, t);
  }

  lemma PartGlued(line: string, data: string, t: string)
    ensures line + (data + ("\r\n" + t)) == PartText(Part(line, data)) + t
  {}

  lemma BodyCons(p: Part, t: string, parts: seq<Part>, last: string, trailers: seq<string>, rest: string, max: nat)
    requires IsBody(t, parts, last, trailers, rest, max) && p.data != "" && Announces(p.line, |p.data|, max)
    ensures IsBody(PartText(p) + t, [p] + parts, last, trailers, rest, max) && Data([p] + parts) == p.data + Data(parts)
  {
    assert ([p] + parts)[1..] == parts;
    Glue(PartText(p), Text(parts), last + (Joined(trailers) + ("\r\n" + rest)));
  }

  lemma EndAnnounced(s: string, max: nat)
    requires s != "" && Strtoul(Line(s), max).0 == 0 && ReadAll(s, max).ok
    ensures Announces(Line(s), 0, max) && ReadAll(s, max) == ReadTrailer(Behind(s)) && s == Line(s) + Behind(s)
  {
    LineCut(s);
  }

  lemma EndIsBody(last: string, t: string, trailers: seq<string>, rest: string, max: nat)
    requires Announces(last, 0, max) && TrailerLines(trailers) && t == Joined(trailers) + ("\r\n" + rest)
    ensures IsBody(last + t, [], last, trailers, rest, max)
  {
    assert "" + (last + t) == last + t;
  }

  lemma BodyEnd(s: string, max: nat)
    requires s != "" && Strtoul(Line(s), max).0 == 0 && ReadAll(s, max).ok
    ensures IsBody(s, [], Line(s), ReadAll(s, max).trailers, ReadAll(s, max).rest, max) && ReadAll(s, max).content == ""
  {
    EndAnnounced(s, max);
    TrailerText(Behind(s));
    EndIsBody(Line(s), Behind(s), ReadAll(s, max).trailers, ReadAll(s, max).rest, max);
  }

  lemma {:induction false} BodyText(s: string, max: nat) returns (parts: seq<Part>, last: string)
    requires ReadAll(s, max).ok
    ensures IsBody(s, parts, last, ReadAll(s, max).trailers, ReadAll(s, max).rest, max)
    ensures ReadAll(s, max).content == Data(parts)
    decreases |s|
  {
    if Strtoul(Line(s), max).0 == 0 {
      parts, last := [], Line(s);
      BodyEnd(s, max);
    } else {
      var p, t := PartCut(s, max);
      var more;
      more, last := BodyText(t, max);
      parts := [p] + more;
      BodyCons(p, t, more, last, ReadAll(t, max).trailers, ReadAll(t, max).rest, max);
    }
  }

  /** The reader succeeds exactly on the bodies of the grammar, with their data, trailer lines and rest. */
  lemma AcceptedExact(s: string, content: string, trailers: seq<string>, rest: string, max: nat)
    ensures ReadAll(s, max) == Outcome(true, content, trailers, rest)
            <==> exists parts, last :: IsBody(s, parts, last, trailers, rest, max) && content == Data(parts)
  {
    if ReadAll(s, max) == Outcome(true, content, trailers, rest) {
      var parts, last := BodyText(s, max);
    }
    if exists parts, last :: IsBody(s, parts, last, trailers, rest, max) && content == Data(parts) {
      var parts, last :| IsBody(s, parts, last, trailers, rest, max) && content == Data(parts);
      BodyRead(s, parts, last, trailers, rest, max);
    }
  }

  // Failures

  /** A chunk that ends early is delivered as far as it came; without its line end, whole; with a bad size, not at all. */
  lemma FailureKeeps(line: string, t: string, n: nat, max: nat)
    requires IsLine(line)
    ensures Strtoul(line, max).1 == 0 || Strtoul(line, max).0 == max ==> ReadAll(line + t, max) == Outcome(false, "", [], t)
    ensures Announces(line, n, max) && |t| < n ==> ReadAll(line + t, max) == Outcome(false, t, [], "")
    ensures Announces(line, n, max) && 0 < n < |t| && Line(t[n..]) != "\r\n" ==>
              ReadAll(line + t, max) == Outcome(false, t[..n], [], Behind(t[n..]))
  {
    LineFront(line, t);
  }

  // Sizes

  predicate AllHex(s: string) {
    forall i | 0 <= i < |s| :: HexValue(s[i]).Some?
  }

  /** The number that hexadecimal digits stand for, the last one counting least. */
  function Number(s: string): nat
    requires AllHex(s)
  {
    if s == "" then 0 else 16 * Number(s[..|s| - 1]) + HexValue(s[|s| - 1]).value
  }

  function Power(n: nat): nat {
    if n == 0 then 1 else 16 * Power(n - 1)
  }

  lemma {:induction false} NumberFront(s: string)
    requires s != "" && AllHex(s)
    ensures Number(s) == HexValue(s[0]).value * Power(|s| - 1) + Number(s[1..])
  {
    if |s| == 1 {
      assert s[..0] == "" && s[1..] == "";
    } else {
      var init, mid := s[..|s| - 1], s[1..|s| - 1];
      NumberFront(init);
      assert init[1..] == mid && s[1..][..|s| - 2] == mid;
      OneMoreDigit(Number(init), HexValue(s[0]).value, Power(|s| - 2), Number(mid), HexValue(s[|s| - 1]).value);
    }
  }

  lemma OneMoreDigit(n: nat, a: nat, m: nat, x: nat, last: nat)
    requires n == a * m + x
    ensures 16 * n + last == a * (16 * m) + (16 * x + last)
  {}

  lemma {:induction false} DigitsNumber(s: string, t: string, v: nat)
    requires AllHex(s) && (t == "" || HexValue(t[0]) == None)
    ensures Digits(s + t, v) == (v * Power(|s|) + Number(s), |s|)
  {
    if s == "" {
      assert s + t == t;
    } else {
      var x := HexValue(s[0]).value;
      assert (s + t)[1..] == s[1..] + t;
      DigitsNumber(s[1..], t, v * 16 + x);
      NumberFront(s);
      Spread(v, x, Power(|s| - 1));
    }
  }

  lemma Spread(v: nat, x: nat, m: nat)
    ensures (v * 16 + x) * m == v * (16 * m) + x * m
  {}

  predicate Sign(sign: string) {
    |sign| == 0 || (|sign| == 1 && (sign[0] == '-' || sign[0] == '+'))
  }

  predicate Negative(sign: string) {
    |sign| == 1 && sign[0] == '-'
  }

  predicate Prefix(prefix: string) {
    |prefix| == 0 || (|prefix| == 2 && prefix[0] == '0' && (prefix[1] == 'x' || prefix[1] == 'X'))
  }

  /** The digits are not followed by another, and are no zero in front of an 'x' that makes a prefix with it. */
  predicate DigitsEnd(prefix: string, digits: string, t: string) {
    && (t == "" || HexValue(t[0]) == None)
    && (|prefix| == 0 && |digits| == 1 && |t| > 1 && (t[0] == 'x' || t[0] == 'X') && HexValue(t[1]).Some? ==> digits[0] != '0')
  }

  /** Digits in front, or two digits behind '0' and an 'x'. */
  predicate Prefixed(u: string) {
    2 < |u| && u[0] == '0' && (u[1] == 'x' || u[1] == 'X') && HexValue(u[2]).Some?
  }

  lemma PrefixFound(prefix: string, digits: string, t: string)
    requires Prefix(prefix) && digits != "" && AllHex(digits) && DigitsEnd(prefix, digits, t)
    ensures var u := prefix + (digits + t);
            u != "" && HexValue(u[0]).Some? && u[|prefix|..] == digits + t && (Prefixed(u) <==> |prefix| == 2)
  {
    var u := prefix + (digits + t);
    if |prefix| == 0 {
      assert u == digits + t;
      if |digits| == 1 {
        if |t| > 0 { assert u[1] == t[0]; }
        if |t| > 1 { assert u[2] == t[1]; }
      } else {
        assert u[1] == digits[1];
      }
    } else {
      assert u[2] == digits[0] && u[0] == prefix[0] && u[1] == prefix[1];
    }
  }

  /** A number starts at i behind its sign and with its prefix. */
  predicate StartsAt(s: string, i: nat, sign: string, u: string) {
    && i == SkipSpace(s) && Sign(sign) && i + |sign| <= |s| && s[i + |sign|..] == u && u != ""
    && (s[i] == '-' <==> Negative(sign)) && (s[i] == '-' || s[i] == '+' <==> |sign| == 1)
  }

  lemma SignFound(w: string, sign: string, u: string)
    requires AllSpace(w) && Sign(sign) && u != "" && !Space(u[0]) && u[0] != '-' && u[0] != '+'
    ensures StartsAt(w + (sign + u), |w|, sign, u)
  {
    var s := w + (sign + u);
    assert (sign + u)[0] == if |sign| == 0 then u[0] else sign[0];
    SpaceSkipped(w, sign + u);
    assert s[|w|] == (sign + u)[0];
    assert s == (w + sign) + u && s[|w + sign|..] == u;
  }

  /** Cut off at the maximum, and negated modulo the number behind it. */
  function Clamped(negative: bool, n: nat, max: nat): nat {
    if n > max then max else if negative && n > 0 then max + 1 - n else n
  }

  predicate PrefixedAt(s: string, j: nat) {
    j + 2 < |s| && s[j] == '0' && (s[j + 1] == 'x' || s[j + 1] == 'X') && HexValue(s[j + 2]).Some?
  }

  lemma PrefixMoved(s: string, j: nat, u: string)
    requires j <= |s| && s[j..] == u
    ensures PrefixedAt(s, j) == Prefixed(u)
  {
    assert |u| == |s| - j;
    assert j + 2 < |s| ==> u[0] == s[j] && u[1] == s[j + 1] && u[2] == s[j + 2];
  }

  lemma SizeAt(s: string, i: nat, sign: string, u: string, k: nat, n: nat, m: nat, max: nat)
    requires StartsAt(s, i, sign, u) && k == (if Prefixed(u) then 2 else 0) && Digits(u[k..], 0) == (n, m)
    ensures Strtoul(s, max) == if m == 0 then (0, 0) else (Clamped(Negative(sign), n, max), i + |sign| + k + m)
  {
    var j := i + |sign|;
    PrefixMoved(s, j, u);
    Dropped(s, j, k);
  }

  lemma DigitsAlone(s: string, t: string)
    requires AllHex(s) && (t == "" || HexValue(t[0]) == None)
    ensures Digits(s + t, 0) == (Number(s), |s|)
  {
    DigitsNumber(s, t, 0);
  }

  lemma HexIsNoSpace(c: char)
    requires HexValue(c).Some?
    ensures !Space(c) && c != '-' && c != '+'
  {}

  /** Spaces and a sign may stand in front; a number beyond the maximum is cut off, and '-' negates modulo its successor. */
  lemma SizeBehind(w: string, sign: string, u: string, k: nat, n: nat, m: nat, max: nat)
    requires AllSpace(w) && Sign(sign) && u != "" && HexValue(u[0]).Some? && m > 0
    requires k == (if Prefixed(u) then 2 else 0) && Digits(u[k..], 0) == (n, m)
    ensures Strtoul(w + (sign + u), max) == (Clamped(Negative(sign), n, max), |w| + |sign| + k + m)
  {
    HexIsNoSpace(u[0]);
    SignFound(w, sign, u);
    SizeAt(w + (sign + u), |w|, sign, u, k, n, m, max);
  }

  /** The digits, behind a prefix if there is one, are the number with base 16. */
  lemma DigitsBehind(prefix: string, digits: string, t: string, u: string)
    requires Prefix(prefix) && digits != "" && AllHex(digits) && DigitsEnd(prefix, digits, t) && u == prefix + (digits + t)
    ensures u != "" && HexValue(u[0]).Some? && |prefix| == (if Prefixed(u) then 2 else 0)
    ensures Digits(u[|prefix|..], 0) == (Number(digits), |digits|)
  {
    PrefixFound(prefix, digits, t);
    DigitsAlone(digits, t);
  }

  /** Without a digit behind spaces and a sign there is no number. */
  lemma NoSize(w: string, sign: string, t: string, max: nat)
    requires AllSpace(w) && Sign(sign)
    requires t == "" || (HexValue(t[0]) == None && !Space(t[0]) && t[0] != '-' && t[0] != '+')
    ensures Strtoul(w + (sign + t), max) == (0, 0)
  {
    var s := w + (sign + t);
    if t != "" {
      SignFound(w, sign, t);
      SizeAt(s, |w|, sign, t, 0, 0, 0, max);
    } else {
      assert sign + t == sign;
      SpaceSkipped(w, sign);
      assert |sign| == 1 ==> s[|w|] == sign[0];
    }
  }

  // Writing

  /** The writer's digits are those of the number, lower-case, and none in front of them is zero. */
  lemma {:induction false} WrittenSize(n: nat)
    ensures AllHex(Hex(n)) && Number(Hex(n)) == n
    ensures forall i | 0 <= i < |Hex(n)| :: Hex(n)[i] in LOWER_DIGITS
    ensures |Hex(n)| > 1 ==> Hex(n)[0] != '0'
  {
    var c := LowerHex(n % 16);
    assert c == LOWER_DIGITS[n % 16];
    LowerHexValue(n % 16);
    assert Hex(n)[..|Hex(n)| - 1] == if n < 16 then "" else Hex(n / 16);
    if n >= 16 {
      WrittenSize(n / 16);
      if |Hex(n / 16)| == 1 { assert Number(Hex(n / 16)[..0]) == 0; }
    }
  }

  /** A body of one chunk and one trailer field, byte by byte. */
  lemma WrittenBody()
    ensures Chunk("hello") == "5\r\nhello\r\n" && Emitted(Done([("A", "b")])) == "0\r\nA: b\r\n\r\n"
  {
    assert Hex(5) == "5" && FieldLine(("A", "b")) == "A: b\r\n";
    assert [("A", "b")][1..] == [] && FieldLines([("A", "b")]) == "A: b\r\n";
  }
}
