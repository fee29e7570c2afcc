/** Chunked transfer coding (section 7.1 of RFC 9112): the writer, the reader, and their round trip. */
module Chunked {
  import opened Common
  import opened HttpText
  import opened HttpStream

  // Sizes

  function LowerHex(n: nat): char
    requires n < 16
  {
    if n < 10 then '0' + n as char else 'a' + (n - 10) as char
  }

  function Hex(n: nat): (r: string)
    ensures r != ""
  {
    (if n < 16 then "" else Hex(n / 16)) + [LowerHex(n % 16)]
  }

  method FromIToHex(n: nat) returns (ret: string)
    ensures ret == Hex(n)
  {
    ret := [LowerHex(n % 16)];
    var m := n / 16;
    while m > 0
      invariant (if m > 0 then Hex(m) else "") + ret == Hex(n)
    {
      HexStep(m, ret);
      ret := [LowerHex(m % 16)] + ret;
      m := m / 16;
    }
    assert "" + ret == ret;
  }

  lemma HexStep(m: nat, ret: string)
    requires m > 0
    ensures Hex(m) + ret == (if m / 16 > 0 then Hex(m / 16) else "") + ([LowerHex(m % 16)] + ret)
  {
    assert m < 16 <==> m / 16 == 0;
  }

  /** The value and the number of the digits at the start, continuing the number v. */
  function Digits(s: string, v: nat): (r: (nat, nat))
    ensures r.1 <= |s|
  {
    if s == "" || HexValue(s[0]) == None then (v, 0)
    else
      var r := Digits(s[1..], v * 16 + HexValue(s[0]).value);
      (r.0, r.1 + 1)
  }

  /** strtoul with base 16: the value, and where the number ends; 0 if there is none. */
  function Strtoul(s: string, max: nat): (nat, nat) {
    var i := SkipSpace(s);
    var sign := i < |s| && (s[i] == '-' || s[i] == '+');
    var j := if sign then i + 1 else i;
    var prefix := j + 2 < |s| && s[j] == '0' && (s[j + 1] == 'x' || s[j + 1] == 'X') && HexValue(s[j + 2]).Some?;
    var k := if prefix then j + 2 else j;
    var (v, n) := Digits(s[k..], 0);
    if n == 0 then (0, 0)
    else if v > max then (max, k + n)
    else if sign && s[i] == '-' && v > 0 then (max + 1 - v, k + n)
    else (v, k + n)
  }

  lemma LowerHexValue(n: nat)
    requires n < 16
    ensures HexValue(LowerHex(n)) == Some(n)
  {}

  lemma DigitsCons(c: char, t: string, v: nat)
    requires HexValue(c).Some?
    ensures var r := Digits(t, v * 16 + HexValue(c).value);
            Digits([c] + t, v) == (r.0, r.1 + 1) && Digits([c] + t, 0).1 > 0
  {
    assert ([c] + t)[1..] == t;
  }

  lemma {:induction false} DigitsOfHex(n: nat, t: string)
    ensures Digits(Hex(n) + t, 0) == (Digits(t, n).0, |Hex(n)| + Digits(t, n).1)
  {
    var c := LowerHex(n % 16);
    LowerHexValue(n % 16);
    DigitsCons(c, t, n / 16);
    if n < 16 {
      assert Hex(n) == [c];
    } else {
      DigitsOfHex(n / 16, [c] + t);
      Glue(Hex(n / 16), [c], t);
    }
  }

  lemma {:induction false} HexStart(n: nat)
    ensures HexValue(Hex(n)[0]).Some?
    ensures |Hex(n)| > 1 ==> HexValue(Hex(n)[1]).Some?
  {
    if n >= 16 {
      HexStart(n / 16);
      if n / 16 < 16 { assert Hex(n / 16) == [LowerHex(n / 16)]; }
    }
  }

  /** Without blanks, a sign or a prefix, the digits are the number. */
  lemma StrtoulPlain(s: string, max: nat)
    requires |s| > 1 && HexValue(s[0]).Some? && s[1] != 'x' && s[1] != 'X'
    requires Digits(s, 0).0 <= max && Digits(s, 0).1 > 0
    ensures Strtoul(s, max) == Digits(s, 0)
  {
    assert s[0..] == s;
  }

  /** strtoul inverts from_i_to_hex on every size an unsigned long can hold. */
  lemma StrtoulHex(n: nat, t: string, max: nat)
    requires n <= max && t != "" && t[0] == '\r'
    ensures Strtoul(Hex(n) + t, max) == (n, |Hex(n)|)
  {
    HexStart(n);
    DigitsOfHex(n, t);
    var s := Hex(n) + t;
    assert s[0] == Hex(n)[0] && s[1] == if |Hex(n)| > 1 then Hex(n)[1] else '\r';
    StrtoulPlain(s, max);
  }

  // Writing

  datatype SinkOp = Write(data: string) | Done(trailer: seq<(string, string)>)

  function Chunk(d: string): string {
    if d == "" then "" else Hex(|d|) + "\r\n" + d + "\r\n"
  }

  function FieldLine(kv: (string, string)): string {
    kv.0 + ": " + kv.1 + "\r\n"
  }

  function FieldLines(trailer: seq<(string, string)>): string {
    if trailer == [] then "" else FieldLine(trailer[0]) + FieldLines(trailer[1..])
  }

  function Emitted(op: SinkOp): string {
    match op
    case Write(d) => Chunk(d)
    case Done(trailer) => "0\r\n" + FieldLines(trailer) + "\r\n"
  }

  function AllEmitted(ops: seq<SinkOp>): string {
    if ops == [] then "" else Emitted(ops[0]) + AllEmitted(ops[1..])
  }

  /** An empty write and the end of the content both stop the loop that asks for more. */
  function MoreAfter(available: bool, ops: seq<SinkOp>): bool {
    if ops == [] then available else Asks(ops[|ops| - 1])
  }

  predicate Asks(op: SinkOp) {
    op.Write? && op.data != ""
  }

  /** What a content provider gets out, called as long as there is more; false if it has nothing to say then. */
  function Served(calls: seq<seq<SinkOp>>): (string, bool) {
    if calls == [] then ("", false)
    else if !MoreAfter(true, calls[0]) then (AllEmitted(calls[0]), true)
    else
      var (rest, ok) := Served(calls[1..]);
      (AllEmitted(calls[0]) + rest, ok)
  }

  class DataSink {
    const wire: Wire
    var offset: nat
    var dataAvailable: bool

    constructor (wire: Wire)
      ensures this.wire == wire && dataAvailable && offset == 0
    {
      this.wire := wire;
      offset := 0;
      dataAvailable := true;
    }

    method WriteData(d: string)
      modifies this, wire`sent
      ensures wire.sent == old(wire.sent) + Emitted(Write(d))
      ensures dataAvailable == (d != "") && offset == old(offset) + |d|
    {
      dataAvailable := |d| > 0;
      offset := offset + |d|;
      var payload := d;
      if payload != "" {
        var size := FromIToHex(|payload|);
        wire.WriteAll(size + "\r\n" + payload + "\r\n");
      } else {
        assert wire.sent + "" == wire.sent;
      }
    }

    method DoneWithTrailer(trailer: seq<(string, string)>)
      modifies this`dataAvailable, wire`sent
      ensures wire.sent == old(wire.sent) + Emitted(Done(trailer))
      ensures !dataAvailable
    {
      dataAvailable := false;
      ghost var before := wire.sent;
      wire.WriteAll("0\r\n");
      ghost var marked := wire.sent;
      for i := 0 to |trailer|
        invariant !dataAvailable && wire.sent + FieldLines(trailer[i..]) == marked + FieldLines(trailer)
      {
        var kv := trailer[i];
        FieldLinesStep(wire.sent, trailer, i);
        wire.WriteAll(kv.0 + ": " + kv.1 + "\r\n");
      }
      assert wire.sent + "" == wire.sent;
      wire.WriteAll("\r\n");
      assert before + "0\r\n" + FieldLines(trailer) + "\r\n" == before + ("0\r\n" + FieldLines(trailer) + "\r\n");
    }

    method Perform(op: SinkOp)
      modifies this, wire`sent
      ensures wire.sent == old(wire.sent) + Emitted(op)
      ensures dataAvailable == Asks(op)
    {
      match op
      case Write(d) => WriteData(d);
      case Done(trailer) => DoneWithTrailer(trailer);
    }

    /** One call of the content provider, which uses the sink as it likes. */
    method Provide(ops: seq<SinkOp>)
      modifies this, wire`sent
      ensures wire.sent == old(wire.sent) + AllEmitted(ops)
      ensures dataAvailable == MoreAfter(old(dataAvailable), ops)
    {
      ghost var all := wire.sent + AllEmitted(ops);
      for i := 0 to |ops|
        invariant wire.sent + AllEmitted(ops[i..]) == all
        invariant dataAvailable == if i == 0 then old(dataAvailable) else Asks(ops[i - 1])
      {
        AllEmittedStep(wire.sent, ops, i);
        Perform(ops[i]);
      }
      assert wire.sent + "" == wire.sent;
    }
  }

  lemma FieldLinesStep(done: string, trailer: seq<(string, string)>, i: nat)
    requires i < |trailer|
    ensures done + FieldLines(trailer[i..]) == done + FieldLine(trailer[i]) + FieldLines(trailer[i + 1..])
  {
    assert trailer[i..][1..] == trailer[i + 1..];
    assert done + (FieldLine(trailer[i]) + FieldLines(trailer[i + 1..]))
        == done + FieldLine(trailer[i]) + FieldLines(trailer[i + 1..]);
  }

  lemma AllEmittedStep(done: string, ops: seq<SinkOp>, i: nat)
    requires i < |ops|
    ensures done + AllEmitted(ops[i..]) == done + Emitted(ops[i]) + AllEmitted(ops[i + 1..])
  {
    assert ops[i..][1..] == ops[i + 1..];
    assert done + (Emitted(ops[i]) + AllEmitted(ops[i + 1..])) == done + Emitted(ops[i]) + AllEmitted(ops[i + 1..]);
  }

  predicate ServedTo(all: (string, bool), sent: string, calls: seq<seq<SinkOp>>, available: bool) {
    if available then sent + Served(calls).0 == all.0 && Served(calls).1 == all.1 else sent == all.0 && all.1
  }

  lemma ServedNone(all: (string, bool), sent: string)
    requires ServedTo(all, sent, [], true)
    ensures all == (sent, false)
  {
    assert sent + "" == sent;
  }

  lemma ServedCall(all: (string, bool), sent: string, calls: seq<seq<SinkOp>>)
    requires calls != [] && ServedTo(all, sent, calls, true)
    ensures ServedTo(all, sent + AllEmitted(calls[0]), calls[1..], MoreAfter(true, calls[0]))
  {
    Glue(sent, AllEmitted(calls[0]), Served(calls[1..]).0);
  }

  /** write_content_chunked: false when the provider gives up. */
  method WriteContentChunked(wire: Wire, calls: seq<seq<SinkOp>>) returns (success: bool)
    modifies wire`sent
    ensures wire.sent == old(wire.sent) + Served(calls).0 && success == Served(calls).1
  {
    var sink := new DataSink(wire);
    var i := 0;
    ghost var all := (old(wire.sent) + Served(calls).0, Served(calls).1);
    ghost var left := calls;
    while sink.dataAvailable
      invariant i <= |calls| && left == calls[i..] && sink.wire == wire
      invariant ServedTo(all, wire.sent, left, sink.dataAvailable)
      decreases |calls| - i, sink.dataAvailable
    {
      if i == |calls| {
        ServedNone(all, wire.sent);
        return false;
      }
      ServedCall(all, wire.sent, left);
      sink.Provide(calls[i]);
      i, left := i + 1, left[1..];
    }
    return true;
  }

  // Reading

  /** What reading gives: the content, the trailer lines, and what stays in the stream. */
  datatype Outcome = Outcome(ok: bool, content: string, trailers: seq<string>, rest: string)

  function Behind(s: string): string {
    s[|Line(s)|..]
  }

  function ReadTrailer(input: string): (r: Outcome)
    ensures r.content == ""
    decreases |input|
  {
    var line := Line(input);
    if input == "" then Outcome(false, "", [], "")
    else if line == "\r\n" then Outcome(true, "", [], Behind(input))
    else if |line| > HEADER_MAX_LENGTH then Outcome(false, "", [], Behind(input))
    else
      var r := ReadTrailer(Behind(input));
      r.(trailers := [line] + r.trailers)
  }

  /** Reading goes on when the line with a chunk's size has just been read. */
  function ReadChunks(line: string, input: string, max: nat): Outcome
    decreases |input|
  {
    var (size, end) := Strtoul(line, max);
    if end == 0 || size == max then Outcome(false, "", [], input)
    else if size == 0 then ReadTrailer(input)
    else if |input| < size then Outcome(false, input, [], "")
    else
      var data, after := input[..size], input[size..];
      var next := Behind(after);
      if after == "" || Line(after) != "\r\n" || next == "" then Outcome(false, data, [], next)
      else
        var r := ReadChunks(Line(next), Behind(next), max);
        r.(content := data + r.content)
  }

  function ReadAll(input: string, max: nat): Outcome {
    if input == "" then Outcome(false, "", [], "") else ReadChunks(Line(input), Behind(input), max)
  }

  method ReadContentWithLength(wire: Wire, len: nat) returns (ok: bool, data: string)
    modifies wire`pending
    ensures ok == (len <= |old(wire.pending)|)
    ensures if ok then data == old(wire.pending)[..len] && wire.pending == old(wire.pending)[len..]
            else data == old(wire.pending) && wire.pending == ""
  {
    data := "";
    var r := 0;
    while r < len
      invariant r == |data| <= len && data + wire.pending == old(wire.pending)
      decreases len - r
    {
      var n := wire.Read(if len - r < RECV_BUFSIZ then len - r else RECV_BUFSIZ);
      if n == "" { return false, data; }
      data := data + n;
      r := r + |n|;
    }
    return true, data;
  }

  function CString(s: string): string {
    s[..IndexOf(s, '\0')]
  }

  /** strcmp finds just this line: no line holds a NUL and then starts with CR LF. */
  lemma CrlfLine(s: string)
    ensures CString(Line(s)) == "\r\n" <==> Line(s) == "\r\n"
  {
    var line := Line(s);
    var i := IndexOf(line, '\0');
    if line == "\r\n" { assert line[..2] == line && line[0] == '\r' && line[1] == '\n'; }
    if CString(line) == "\r\n" { assert line[1] == CString(line)[1] == '\n'; }
  }

  predicate ReadsOn(all: Outcome, content: string, lines: seq<string>, r: Outcome) {
    all == Outcome(r.ok, content + r.content, lines + r.trailers, r.rest)
  }

  lemma TrailerLine(all: Outcome, lines: seq<string>, input: string)
    requires input != "" && Line(input) != "\r\n" && |Line(input)| <= HEADER_MAX_LENGTH
    requires ReadsOn(all, "", lines, ReadTrailer(input))
    ensures ReadsOn(all, "", lines + [Line(input)], ReadTrailer(Behind(input)))
  {
    Glue(lines, [Line(input)], ReadTrailer(Behind(input)).trailers);
  }

  /** The trailer: every line but the last goes to the header parser. */
  method ReadTrailerLines(wire: Wire, reader: LineReader) returns (ok: bool, lines: seq<string>)
    requires reader.Valid() && reader.fixed.Length > 1
    modifies reader`used, reader`growable, reader.fixed, wire`pending
    ensures reader.Valid()
    ensures Outcome(ok, "", lines, wire.pending) == ReadTrailer(old(wire.pending))
  {
    lines := [];
    ghost var all, input := ReadTrailer(wire.pending), wire.pending;
    var got := reader.GetLine(wire);
    if !got { return false, []; }
    var line := reader.Text();
    CrlfLine(input);
    while CString(line) != "\r\n"
      invariant reader.Valid() && input != "" && line == Line(input) && wire.pending == Behind(input)
      invariant CString(line) == "\r\n" <==> line == "\r\n"
      invariant ReadsOn(all, "", lines, ReadTrailer(input))
      decreases |input|
    {
      if |line| > HEADER_MAX_LENGTH { return false, lines; }
      TrailerLine(all, lines, input);
      lines := lines + [line];
      input := wire.pending;
      got := reader.GetLine(wire);
      if !got { return false, lines; }
      line := reader.Text();
      CrlfLine(input);
    }
    return true, lines;
  }

  lemma NextChunk(all: Outcome, content: string, line: string, input: string, max: nat)
    requires ReadsOn(all, content, [], ReadChunks(line, input, max))
    ensures var (size, end) := Strtoul(line, max);
            if end == 0 || size == max then all == Outcome(false, content, [], input)
            else if size == 0 then ReadsOn(all, content, [], ReadTrailer(input))
            else if |input| < size then all == Outcome(false, content + input, [], "")
            else
              var data, after := input[..size], input[size..];
              var next := Behind(after);
              if after == "" || Line(after) != "\r\n" || next == "" then all == Outcome(false, content + data, [], next)
              else ReadsOn(all, content + data, [], ReadChunks(Line(next), Behind(next), max))
  {
    var (size, end) := Strtoul(line, max);
    if end == 0 || size == max {
      assert content + "" == content;
    } else if 0 < size <= |input| {
      var next := Behind(input[size..]);
      if next != "" { Glue(content, input[..size], ReadChunks(Line(next), Behind(next), max).content); }
    }
  }

  /** The line end behind a chunk's data, and the line with the next size. */
  method NextSizeLine(wire: Wire, reader: LineReader) returns (ok: bool)
    requires reader.Valid() && reader.fixed.Length > 1
    modifies reader`used, reader`growable, reader.fixed, wire`pending
    ensures reader.Valid() && |wire.pending| <= |old(wire.pending)|
    ensures var after := old(wire.pending);
            var next := Behind(after);
            if after == "" || Line(after) != "\r\n" || next == "" then !ok && wire.pending == next
            else ok && wire.pending == Behind(next) && reader.Contents() == Line(next)
  {
    ghost var after := wire.pending;
    ok := reader.GetLine(wire);
    if !ok { return; }
    var line := reader.Text();
    CrlfLine(after);
    if CString(line) != "\r\n" { return false; }
    ok := reader.GetLine(wire);
  }

  /** One round of the loop: what the line and the stream say next, appended to the content. */
  method ReadChunk(wire: Wire, reader: LineReader, max: nat, ghost all: Outcome, content0: string)
    returns (more: bool, ok: bool, content: string, trailers: seq<string>)
    requires reader.Valid() && reader.fixed.Length > 1
    requires ReadsOn(all, content0, [], ReadChunks(reader.Contents(), wire.pending, max))
    modifies reader`used, reader`growable, reader.fixed, wire`pending
    ensures reader.Valid()
    ensures if more then |wire.pending| < |old(wire.pending)|
                         && ReadsOn(all, content, [], ReadChunks(reader.Contents(), wire.pending, max))
            else all == Outcome(ok, content, trailers, wire.pending)
  {
    NextChunk(all, content0, reader.Contents(), wire.pending, max);
    ghost var input := wire.pending;
    content, trailers := content0, [];
    var line := reader.Text();
    var (chunkLen, end) := Strtoul(line, max);
    if end == 0 || chunkLen == max { return false, false, content, []; }
    if chunkLen == 0 {
      ok, trailers := ReadTrailerLines(wire, reader);
      assert content + "" == content && [] + trailers == trailers;
      return false, ok, content, trailers;
    }
    var data: string;
    ok, data := ReadContentWithLength(wire, chunkLen);
    content := content + data;
    if !ok { return false, false, content, []; }
    more := NextSizeLine(wire, reader);
    return more, false, content, [];
  }

  /** read_content_chunked */
  method ReadContentChunked(wire: Wire, max: nat) returns (ok: bool, content: string, trailers: seq<string>)
    modifies wire`pending
    ensures Outcome(ok, content, trailers, wire.pending) == ReadAll(old(wire.pending), max)
  {
    ghost var all := ReadAll(wire.pending, max);
    var reader := new LineReader(16);
    var got := reader.GetLine(wire);
    if !got { return false, "", []; }
    content := "";
    ReadsFirst(all);
    while true
      invariant reader.Valid() && reader.fixed.Length == 16 && fresh(reader) && fresh(reader.fixed)
      invariant ReadsOn(all, content, [], ReadChunks(reader.Contents(), wire.pending, max))
      decreases |wire.pending|
    {
      var more: bool;
      more, ok, content, trailers := ReadChunk(wire, reader, max, all, content);
      if !more { return; }
    }
  }

  lemma ReadsFirst(all: Outcome)
    ensures ReadsOn(all, "", [], all)
  {}

  // Round trip

  function Chunks(writes: seq<string>): string {
    if writes == [] then "" else Chunk(writes[0]) + Chunks(writes[1..])
  }

  predicate Sendable(writes: seq<string>, max: nat) {
    forall i | 0 <= i < |writes| :: |writes[i]| < max
  }

  predicate FieldsFit(trailer: seq<(string, string)>) {
    forall i | 0 <= i < |trailer| ::
      '\n' !in trailer[i].0 && '\n' !in trailer[i].1 && |FieldLine(trailer[i])| <= HEADER_MAX_LENGTH
  }

  function Lines(trailer: seq<(string, string)>): seq<string> {
    if trailer == [] then [] else [FieldLine(trailer[0])] + Lines(trailer[1..])
  }

  lemma LineOf(a: string, b: string)
    requires '\n' !in a
    ensures Line(a + "\r\n" + b) == a + "\r\n" && Behind(a + "\r\n" + b) == b
  {
    var s := a + "\r\n" + b;
    assert a + "\r\n" == a + ['\r'] + ['\n'];
    assert s == a + ['\r'] + ['\n'] + b;
    LineAppend(a + ['\r'], b);
  }

  lemma {:induction false} TrailerReadBack(trailer: seq<(string, string)>, more: string)
    requires FieldsFit(trailer)
    ensures ReadTrailer(FieldLines(trailer) + "\r\n" + more) == Outcome(true, "", Lines(trailer), more)
  {
    if trailer == [] {
      LineOf("", more);
      assert "" + "\r\n" == "\r\n";
    } else {
      var kv, rest := trailer[0], FieldLines(trailer[1..]) + "\r\n" + more;
      var a := kv.0 + ": " + kv.1;
      assert FieldLines(trailer) + "\r\n" + more == a + "\r\n" + rest;
      LineOf(a, rest);
      TrailerReadBack(trailer[1..], more);
    }
  }

  lemma HexNoNewline(n: nat)
    ensures '\n' !in Hex(n)
  {}

  lemma ChunkReadBack(data: string, input: string, max: nat)
    requires 0 < |data| < max && input != ""
    ensures var s := Chunk(data) + input;
            s != "" && ReadAll(s, max) == var r := ReadAll(input, max); r.(content := data + r.content)
  {
    var size, tail := Hex(|data|), data + ("\r\n" + input);
    assert Chunk(data) + input == size + "\r\n" + tail;
    HexNoNewline(|data|);
    LineOf(size, tail);
    StrtoulHex(|data|, "\r\n", max);
    DataThenCrlf(data, input);
  }

  lemma EndReadBack(trailer: seq<(string, string)>, more: string, max: nat)
    requires FieldsFit(trailer) && max > 0
    ensures ReadAll(Emitted(Done(trailer)) + more, max) == Outcome(true, "", Lines(trailer), more)
  {
    var tail := FieldLines(trailer) + "\r\n" + more;
    assert Emitted(Done(trailer)) + more == "0" + "\r\n" + tail;
    LineOf("0", tail);
    StrtoulHex(0, "\r\n", max);
    assert Hex(0) == "0";
    TrailerReadBack(trailer, more);
  }

  lemma {:induction false} ChunksReadBack(writes: seq<string>, end: string, max: nat)
    requires Sendable(writes, max) && end != ""
    ensures ReadAll(Chunks(writes) + end, max) == var r := ReadAll(end, max); r.(content := Joined(writes) + r.content)
  {
    if writes == [] {
      assert "" + end == end && "" + ReadAll(end, max).content == ReadAll(end, max).content;
    } else {
      var rest := Chunks(writes[1..]);
      ChunksReadBack(writes[1..], end, max);
      Glue(Chunk(writes[0]), rest, end);
      Glue(writes[0], Joined(writes[1..]), ReadAll(end, max).content);
      if writes[0] == "" {
        assert "" + (rest + end) == rest + end && "" + Joined(writes[1..]) == Joined(writes[1..]);
      } else {
        ChunkReadBack(writes[0], rest + end, max);
      }
    }
  }

  /** The reader stops right behind the body, with the writes in order and the trailer lines. */
  lemma ChunkedRoundTrip(writes: seq<string>, trailer: seq<(string, string)>, more: string, max: nat)
    requires Sendable(writes, max) && FieldsFit(trailer) && max > 0
    ensures ReadAll(Chunks(writes) + Emitted(Done(trailer)) + more, max)
            == Outcome(true, Joined(writes), Lines(trailer), more)
  {
    Glue(Chunks(writes), Emitted(Done(trailer)), more);
    ChunksReadBack(writes, Emitted(Done(trailer)) + more, max);
    EndReadBack(trailer, more, max);
    assert Joined(writes) + "" == Joined(writes);
  }

  lemma LastChunk(data: string, max: nat)
    requires 0 < |data| < max
    ensures ReadAll(Chunk(data), max) == Outcome(false, data, [], "")
  {
    var size, tail := Hex(|data|), data + "\r\n";
    assert Chunk(data) == size + "\r\n" + tail;
    HexNoNewline(|data|);
    LineOf(size, tail);
    StrtoulHex(|data|, "\r\n", max);
    DataThenCrlf(data, "");
    assert "\r\n" + "" == "\r\n";
  }

  lemma DataThenCrlf(data: string, input: string)
    ensures var tail := data + ("\r\n" + input);
            tail[..|data|] == data && Line(tail[|data|..]) == "\r\n" && Behind(tail[|data|..]) == input
  {
    var tail := data + ("\r\n" + input);
    assert tail[|data|..] == "\r\n" + input;
    LineOf("", input);
    assert "" + "\r\n" + input == "\r\n" + input && "" + "\r\n" == "\r\n";
  }

  /** Chunks without the end, as an empty write leaves them, deliver all the content but are no success. */
  lemma {:induction false} UnterminatedFails(writes: seq<string>, max: nat)
    requires Sendable(writes, max)
    ensures ReadAll(Chunks(writes), max) == Outcome(false, Joined(writes), [], "")
  {
    if writes == [] {
    } else {
      var first, rest := writes[0], writes[1..];
      UnterminatedFails(rest, max);
      if first == "" {
        assert "" + Chunks(rest) == Chunks(rest) && "" + Joined(rest) == Joined(rest);
      } else if Chunks(rest) == "" {
        assert Chunk(first) + "" == Chunk(first) && first + "" == first;
        LastChunk(first, max);
      } else {
        ChunkReadBack(first, Chunks(rest), max);
      }
    }
  }

  // Any way of making the calls

  function Writes(writes: seq<string>): seq<SinkOp> {
    seq(|writes|, i requires 0 <= i < |writes| => Write(writes[i]))
  }

  function Ops(writes: seq<string>, trailer: seq<(string, string)>): seq<SinkOp> {
    Writes(writes) + [Done(trailer)]
  }

  function Flat(calls: seq<seq<SinkOp>>): seq<SinkOp> {
    if calls == [] then [] else calls[0] + Flat(calls[1..])
  }

  lemma {:induction false} WritesEmitted(writes: seq<string>)
    ensures AllEmitted(Writes(writes)) == Chunks(writes)
  {
    if writes == [] {
    } else {
      assert Writes(writes)[1..] == Writes(writes[1..]);
      WritesEmitted(writes[1..]);
    }
  }

  lemma OpsEmitted(writes: seq<string>, trailer: seq<(string, string)>)
    ensures AllEmitted(Ops(writes, trailer)) == Chunks(writes) + Emitted(Done(trailer))
  {
    WritesEmitted(writes);
    AllEmittedAppend(Writes(writes), [Done(trailer)]);
    assert [Done(trailer)][1..] == [] && Emitted(Done(trailer)) + "" == Emitted(Done(trailer));
  }

  lemma {:induction false} AllEmittedAppend(a: seq<SinkOp>, b: seq<SinkOp>)
    ensures AllEmitted(a + b) == AllEmitted(a) + AllEmitted(b)
  {
    if a == [] {
      assert a + b == b;
    } else {
      assert (a + b)[1..] == a[1..] + b;
      AllEmittedAppend(a[1..], b);
      Glue(Emitted(a[0]), AllEmitted(a[1..]), AllEmitted(b));
    }
  }

  predicate EndsInEmptyWrite(call: seq<SinkOp>) {
    call != [] && call[|call| - 1] == Write("")
  }

  /** No call of the provider leaves the loop before the end of the content was sent. */
  predicate KeptOpen(calls: seq<seq<SinkOp>>) {
    calls == [] || (!EndsInEmptyWrite(calls[0]) && KeptOpen(calls[1..]))
  }

  lemma {:induction false} NothingFlat(calls: seq<seq<SinkOp>>)
    requires Flat(calls) == []
    ensures KeptOpen(calls)
  {
    if calls == [] {
    } else {
      NothingFlat(calls[1..]);
    }
  }

  /** Only the last operation ends the content. */
  predicate Ending(ops: seq<SinkOp>) {
    ops != [] && forall i | 0 <= i < |ops| :: ops[i].Done? <==> i == |ops| - 1
  }

  /** What the loop over the calls lets through. */
  function Performed(calls: seq<seq<SinkOp>>): seq<SinkOp> {
    if calls == [] then [] else calls[0] + if MoreAfter(true, calls[0]) then Performed(calls[1..]) else []
  }

  lemma {:induction false} PerformedServed(calls: seq<seq<SinkOp>>)
    ensures Served(calls).0 == AllEmitted(Performed(calls))
  {
    if calls == [] {
    } else {
      PerformedServed(calls[1..]);
      AllEmittedAppend(calls[0], Performed(calls[1..]));
      assert calls[0] + [] == calls[0];
    }
  }

  /** A call and the operations of the later ones. */
  lemma CallOf(call: seq<SinkOp>, rest: seq<SinkOp>)
    requires Ending(call + rest)
    ensures if rest == [] then !MoreAfter(true, call) && !EndsInEmptyWrite(call)
            else Ending(rest) && MoreAfter(true, call) == !EndsInEmptyWrite(call)
  {
    var ops := call + rest;
    assert forall i | 0 <= i < |call| :: call[i] == ops[i];
    assert forall i | 0 <= i < |rest| :: rest[i] == ops[|call| + i];
  }

  /** All is let through if and only if no call ends in an empty write. */
  lemma {:induction false} AllPerformed(calls: seq<seq<SinkOp>>)
    requires Ending(Flat(calls))
    ensures Performed(calls) <= Flat(calls) && Served(calls).1
    ensures Performed(calls) == Flat(calls) <==> KeptOpen(calls)
  {
    var call, rest := calls[0], Flat(calls[1..]);
    CallOf(call, rest);
    if rest == [] {
      NothingFlat(calls[1..]);
    } else if !EndsInEmptyWrite(call) {
      AllPerformed(calls[1..]);
      var more := Performed(calls[1..]);
      assert call + more <= call + rest && (call + more == call + rest <==> more == rest) by {
        assert (call + rest)[|call|..] == rest && (call + more)[|call|..] == more;
      }
    } else {
      assert call + [] == call;
    }
  }

  lemma OpsEnding(writes: seq<string>, trailer: seq<(string, string)>)
    ensures Ending(Ops(writes, trailer))
  {}

  /** What goes out: the whole body, or only the first n writes if a call ends in an empty one. */
  lemma ServedAnyhow(calls: seq<seq<SinkOp>>, writes: seq<string>, trailer: seq<(string, string)>) returns (n: nat)
    requires Flat(calls) == Ops(writes, trailer)
    ensures n <= |writes| && Served(calls).1
    ensures Served(calls).0 == if KeptOpen(calls) then Chunks(writes) + Emitted(Done(trailer)) else Chunks(writes[..n])
  {
    OpsEnding(writes, trailer);
    AllPerformed(calls);
    PerformedServed(calls);
    if KeptOpen(calls) {
      OpsEmitted(writes, trailer);
      n := 0;
    } else {
      n := |Performed(calls)|;
      assert Performed(calls) == Writes(writes[..n]);
      WritesEmitted(writes[..n]);
    }
  }

  /** The body arrives, with the trailer lines, if and only if no call of the provider ends in an empty write. */
  lemma DeliveredIffKeptOpen(calls: seq<seq<SinkOp>>, writes: seq<string>, trailer: seq<(string, string)>, max: nat)
    requires Flat(calls) == Ops(writes, trailer) && Sendable(writes, max) && FieldsFit(trailer) && max > 0
    ensures ReadAll(Served(calls).0, max) == Outcome(true, Joined(writes), Lines(trailer), "") <==> KeptOpen(calls)
    ensures ReadAll(Served(calls).0, max).ok == KeptOpen(calls)
  {
    var n := ServedAnyhow(calls, writes, trailer);
    if KeptOpen(calls) {
      var body := Chunks(writes) + Emitted(Done(trailer));
      ChunkedRoundTrip(writes, trailer, "", max);
      assert body + "" == body;
    } else {
      UnterminatedFails(writes[..n], max);
    }
  }

  /** Three calls of which the second writes nothing: the content of the first arrives, but as a failure. */
  lemma EmptyWriteCutsOff(max: nat)
    requires max > 1
    ensures var calls := [[Write("a")], [Write("")], [Done([])]];
            Flat(calls) == Ops(["a", ""], []) && ReadAll(Served(calls).0, max) == Outcome(false, "a", [], "")
  {
    var calls: seq<seq<SinkOp>> := [[Write("a")], [Write("")], [Done([])]];
    assert calls[1..] == [[Write("")], [Done([])]] && calls[1..][1..] == [[Done([])]] && calls[1..][1..][1..] == [];
    assert Flat(calls) == Ops(["a", ""], []);
    assert [Write("a")][1..] == [] && [Write("")][1..] == [];
    assert AllEmitted([Write("a")]) == Chunk("a") + "" == Chunk("a") && AllEmitted([Write("")]) == "";
    assert Served(calls).0 == Chunk("a") + "" == Chunk("a");
    LastChunk("a", max);
  }

  /** Writer and reader together. */
  method SendAndReceive(sender: Wire, calls: seq<seq<SinkOp>>, ghost writes: seq<string>,
                        ghost trailer: seq<(string, string)>, max: nat)
    returns (ok: bool, content: string, lines: seq<string>)
    requires sender.sent == "" && max > 0
    requires Flat(calls) == Ops(writes, trailer) && Sendable(writes, max) && FieldsFit(trailer)
    modifies sender`sent
    ensures ok <==> KeptOpen(calls)
    ensures ok ==> content == Joined(writes) && lines == Lines(trailer)
  {
    var sent := WriteContentChunked(sender, calls);
    assert sender.sent == Served(calls).0;
    var receiver := new Wire(sender.sent);
    DeliveredIffKeptOpen(calls, writes, trailer, max);
    ok, content, lines := ReadContentChunked(receiver, max);
  }
}
