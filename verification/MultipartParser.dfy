/**
 * The class MultipartFormDataParser: the loops of the parser over its sliding buffer.
 *
 * The buffer is an array with a start and an end; bytes are appended behind the end, dropped at the start, and moved to
 * the front when there is no room. Every method is proved against the value-level parser.
 */
module MultipartParser {
  import opened Common
  import opened HttpText
  import opened QueryText
  import opened Multipart

  predicate NoneBefore(v: string, s: string, k: nat)
    requires k <= |v|
  {
    forall j | 0 <= j < k :: !(s <= v[j..])
  }

  lemma {:induction false} FindIs(v: string, s: string, k: nat)
    requires s != "" && k <= |v| && NoneBefore(v, s, k) && (k < |v| ==> s <= v[k..])
    ensures Find(v, s) == k
  {
    if k > 0 && |v| >= |s| {
      assert v[0..] == v;
      assert forall j | 0 <= j < k - 1 :: v[1..][j..] == v[j + 1..];
      if k < |v| { assert v[1..][k - 1..] == v[k..]; }
      FindIs(v[1..], s, k - 1);
    } else if k == 0 && v != "" {
      assert v[0..] == v;
    }
  }

  method StartWithCaseIgnore(a: string, b: string) returns (r: bool)
    ensures r == StartsNoCase(a, b)
  {
    if |a| < |b| { return false; }
    for i := 0 to |b|
      invariant forall j | 0 <= j < i :: ToLower(a[j]) == ToLower(b[j])
    {
      if ToLower(a[i]) != ToLower(b[i]) { return false; }
    }
    return true;
  }

  method TrimCopy(s: string) returns (r: string)
    ensures r == Trim(s)
  {
    var left, right := TrimBounds(s, 0, |s|);
    assert s[0..|s|] == s;
    r := if left < right then s[left..right] else "";
  }

  lemma UnquotedAllAppend(a: seq<Pair>, b: seq<Pair>)
    ensures UnquotedAll(a + b) == UnquotedAll(a) + UnquotedAll(b)
  {
    if a == [] {
      assert a + b == b;
    } else {
      assert (a + b)[1..] == a[1..] + b;
      UnquotedAllAppend(a[1..], b);
    }
  }

  ghost predicate ParsesOn(all: seq<Pair>, done: seq<Pair>, pieces: seq<string>, cache: set<string>) {
    all == done + UnquotedAll(KeyValues(pieces, cache))
  }

  lemma ParsesPiece(all: seq<Pair>, done: seq<Pair>, pieces: seq<string>, cache: set<string>)
    requires pieces != [] && ParsesOn(all, done, pieces, cache)
    ensures var item := KeyValue(pieces[0]);
            if pieces[0] in cache then ParsesOn(all, done, pieces[1..], cache)
            else ParsesOn(all, if item.Some? then done + [Unquoted(item.value)] else done, pieces[1..],
                          cache + {pieces[0]})
  {
    if pieces[0] !in cache {
      var item, rest := Accepted(KeyValue(pieces[0])), KeyValues(pieces[1..], cache + {pieces[0]});
      UnquotedAllAppend(item, rest);
      Glue(done, UnquotedAll(item), UnquotedAll(rest));
      assert done + [] == done;
    }
  }

  method ParseDispositionParams(s: string) returns (params: seq<Pair>)
    ensures params == ParsedParams(s)
  {
    params := [];
    var cache := {};
    var pieces := Split(s, ';');
    ghost var all := ParsedParams(s);
    ghost var left := pieces;
    assert [] + all == all;
    for i := 0 to |pieces|
      invariant left == pieces[i..] && ParsesOn(all, params, left, cache)
    {
      var kv := pieces[i];
      ParsesPiece(all, params, left, cache);
      left := left[1..];
      if kv !in cache {
        cache := cache + {kv};
        var key, val := SplitKeyValue(kv);
        if key != "" { params := params + [(Unquote(key), Unquote(val))]; }
      }
    }
    assert params + [] == params;
  }

  ghost predicate Continues(all: Reply, done: seq<Event>, r: Reply) {
    all == r.(events := done + r.events)
  }

  lemma ContinuesFirst(all: Reply)
    ensures Continues(all, [], all)
  {
    assert [] + all.events == all.events;
  }

  class MultipartFormDataParser {
    const boundary: string
    const dashBoundaryCrlf: string
    const crlfDashBoundary: string
    var state: State
    var isValid: bool
    var file: File
    var buf: string
    var spos: nat
    var epos: nat

    ghost predicate Valid()
      reads this
    {
      && spos <= epos <= |buf|
      && dashBoundaryCrlf == InitialDelimiter(boundary) && crlfDashBoundary == Delimiter(boundary)
    }

    /** The bytes the buffer holds. */
    ghost function View(): string
      reads this
      requires Valid()
    {
      buf[spos..epos]
    }

    ghost function Abs(): Parser
      reads this
      requires Valid()
    {
      Parser(state, View(), isValid, file)
    }

    constructor (boundary: string)
      ensures Valid() && this.boundary == boundary && Abs() == START
    {
      this.boundary := boundary;
      dashBoundaryCrlf := DASH + boundary + CRLF;
      crlfDashBoundary := CRLF + DASH + boundary;
      state, isValid, file := 0, false, NO_FILE;
      buf, spos, epos := "", 0, 0;
    }

    /** buf_append: what is left moves to the front, and the buffer grows only when it has to. */
    method BufAppend(data: string)
      requires Valid()
      modifies this`buf, this`spos, this`epos
      ensures Valid() && View() == old(View()) + data
    {
      var remaining: nat := epos - spos;
      ghost var was, first, bytes := View(), spos, buf;
      if remaining > 0 && spos > 0 {
        for i := 0 to remaining
          invariant spos == first && |buf| == |bytes|
          invariant forall j | 0 <= j < i :: buf[j] == bytes[first + j]
          invariant forall j | i <= j < |buf| :: buf[j] == bytes[j]
        {
          buf := buf[i := buf[spos + i]];
        }
      }
      spos, epos := 0, remaining;
      assert buf[..remaining] == was;
      if remaining + |data| > |buf| {
        buf := buf + seq(remaining + |data| - |buf|, _ => '\0');
      }
      for i := 0 to |data|
        invariant spos == 0 && epos == remaining && |buf| >= remaining + |data| && buf[..remaining] == was
        invariant forall j | 0 <= j < i :: buf[remaining + j] == data[j]
      {
        buf := buf[epos + i := data[i]];
      }
      epos := epos + |data|;
      assert View() == was + data;
    }

    method BufErase(size: nat)
      requires Valid() && size <= epos - spos
      modifies this`spos
      ensures Valid() && View() == old(View())[size..]
    {
      spos := spos + size;
    }

    /** buf_head */
    method Head(size: nat) returns (data: string)
      requires Valid() && size <= epos - spos
      ensures data == View()[..size]
    {
      return buf[spos..spos + size];
    }

    /** start_with at a place in the buffer. */
    method StartWith(pos: nat, s: string) returns (r: bool)
      requires Valid() && spos <= pos <= epos
      ensures r == (s <= View()[pos - spos..])
    {
      if epos - pos < |s| { return false; }
      for i := 0 to |s|
        invariant forall j | 0 <= j < i :: buf[pos + j] == s[j]
      {
        if buf[i + pos] != s[i] {
          assert View()[pos - spos..][i] == buf[i + pos];
          return false;
        }
      }
      assert forall j | 0 <= j < |s| :: View()[pos - spos..][j] == s[j];
      return true;
    }

    method BufStartWith(s: string) returns (r: bool)
      requires Valid()
      ensures r == (s <= View())
    {
      r := StartWith(spos, s);
      assert View()[0..] == View();
    }

    /** buf_find: from one place with the first character to the next. */
    method BufFind(s: string) returns (k: nat)
      requires Valid() && s != ""
      ensures k == Find(View(), s)
    {
      var c := s[0];
      var off := spos;
      ghost var v := View();
      while off < epos
        invariant spos <= off <= epos && NoneBefore(v, s, off - spos)
      {
        var pos := off;
        while true
          invariant off <= pos <= epos && NoneBefore(v, s, pos - spos)
          decreases epos - pos
        {
          if pos == epos {
            FindIs(v, s, epos - spos);
            return epos - spos;
          }
          assert v[pos - spos..] != "" && v[pos - spos..][0] == buf[pos];
          if buf[pos] == c { break; }
          pos := pos + 1;
        }
        if |s| > epos - pos {
          FindIs(v, s, epos - spos);
          return epos - spos;
        }
        var found := StartWith(pos, s);
        if found {
          FindIs(v, s, pos - spos);
          return pos - spos;
        }
        off := pos + 1;
      }
      FindIs(v, s, epos - spos);
      return epos - spos;
    }

    method ReadHeader(header: string) returns (ok: bool)
      requires Valid()
      modifies this`file
      ensures (file, ok) == HeaderLine(header, old(file))
    {
      var isType := StartWithCaseIgnore(header, "content-type:");
      if isType {
        var t := TrimCopy(header[13..]);
        file := file.(contentType := t);
        return true;
      }
      var m := DispositionParams(header);
      if m.None? { return false; }
      var params := ParseDispositionParams(m.value);
      var it := Lookup(params, "name");
      if it.None? { return false; }
      file := file.(name := it.value);
      it := Lookup(params, "filename");
      if it.Some? { file := file.(filename := it.value); }
      it := Lookup(params, "filename*");
      if it.Some? {
        var m2 := ExtendedValue(it.value);
        if m2.None? { return false; }
        var decoded := DecodeUrl(m2.value, false);
        file := file.(filename := decoded);
      }
      return true;
    }

    /** State 0. What precedes the delimiter is dropped, even a part of the delimiter itself. */
    method InitialBoundary() returns (going: Going)
      requires Valid() && state == 0 && View() != ""
      modifies this`state, this`spos
      ensures Valid() && Reply(Abs(), [], going) == StepInitial(old(Abs()), boundary)
    {
      ghost var p := Abs();
      var pos := BufFind(dashBoundaryCrlf);
      BufErase(pos);
      ghost var v := View();
      if |dashBoundaryCrlf| > epos - spos { return Wait; }
      var starts := BufStartWith(dashBoundaryCrlf);
      if !starts { return Fail; }
      BufErase(|dashBoundaryCrlf|);
      state := 1;
      return Again;
    }

    /** One header line of the loop in state 2, which is not empty. */
    method TakeHeader(pos: nat) returns (ok: bool)
      requires Valid() && state == 2 && 0 < pos == Find(View(), CRLF) < |View()|
      modifies this`spos, this`file, this`isValid
      ensures Valid() && |View()| <= |old(View())| - if ok then 2 else 0
      ensures HeaderLines(old(Abs())) == if ok then HeaderLines(Abs()) else Reply(Abs(), [], Fail)
    {
      var header := Head(pos);
      ok := ReadHeader(header);
      if !ok {
        isValid := false;
        return false;
      }
      BufErase(pos + 2);
    }

    /** State 2 */
    method Headers() returns (going: Going, events: seq<Event>)
      requires Valid() && state == 2 && View() != ""
      modifies this`state, this`spos, this`file, this`isValid
      ensures Valid() && Reply(Abs(), events, going) == StepHeaders(old(Abs()))
    {
      var pos := BufFind(CRLF);
      if pos > HEADER_MAX_LENGTH { return Fail, []; }
      ghost var all := HeaderLines(Abs());
      while pos < epos - spos
        invariant Valid() && state == 2 && pos == Find(View(), CRLF)
        invariant HeaderLines(Abs()) == all
        decreases epos - spos
      {
        if pos == 0 {
          events := [Header(file)];
          BufErase(2);
          state := 3;
          return Again, events;
        }
        var ok := TakeHeader(pos);
        if !ok { return Fail, []; }
        pos := BufFind(CRLF);
      }
      return Wait, [];
    }

    /** State 3 */
    method Body() returns (going: Going, events: seq<Event>)
      requires Valid() && state == 3 && View() != ""
      modifies this`state, this`spos
      ensures Valid() && Reply(Abs(), events, going) == StepBody(old(Abs()), boundary)
    {
      if |crlfDashBoundary| > epos - spos { return Wait, []; }
      ghost var p := Abs();
      var pos := BufFind(crlfDashBoundary);
      if pos < epos - spos {
        StepBodyFound(p, boundary, pos);
        var data := Head(pos);
        BufErase(pos + |crlfDashBoundary|);
        state := 4;
        return Again, [Content(data)];
      }
      var len := epos - spos - |crlfDashBoundary|;
      StepBodyKept(p, boundary, len);
      if len == 0 {
        assert p.view[0..] == p.view;
        return Wait, [];
      }
      var data := Head(len);
      BufErase(len);
      return Wait, [Content(data)];
    }

    /** State 4 */
    method Boundary() returns (going: Going)
      requires Valid() && state == 4 && View() != ""
      modifies this`state, this`spos, this`isValid
      ensures Valid() && Reply(Abs(), [], going) == StepBoundary(old(Abs()))
    {
      if 2 > epos - spos { return Wait; }
      var next := BufStartWith(CRLF);
      if next {
        BufErase(2);
        state := 1;
        return Again;
      }
      var last := BufStartWith(DASH);
      if !last { return Wait; }
      BufErase(2);
      isValid := true;
      BufErase(epos - spos);
      return Again;
    }

    /** One round of the loop. */
    method Round() returns (going: Going, events: seq<Event>)
      requires Valid() && View() != ""
      modifies this`state, this`spos, this`file, this`isValid
      ensures Valid() && Reply(Abs(), events, going) == Step(old(Abs()), boundary)
    {
      events := [];
      match state
      case 0 => going := InitialBoundary();
      case 1 =>
        file := NO_FILE;
        state := 2;
        going := Again;
      case 2 => going, events := Headers();
      case 3 => going, events := Body();
      case 4 => going := Boundary();
    }

    /** parse, with callbacks that take everything. */
    method ParseData(data: string) returns (ok: bool, events: seq<Event>)
      requires Valid()
      modifies this
      ensures Valid()
      ensures var r := Parse(old(Abs()).(view := old(View()) + data), boundary);
              Abs() == r.p && events == r.events && ok == (r.going != Fail)
    {
      BufAppend(data);
      events := [];
      ghost var all := Parse(Abs(), boundary);
      ContinuesFirst(all);
      while epos - spos > 0
        invariant Valid() && Continues(all, events, Parse(Abs(), boundary))
        decreases epos - spos, if state == 1 then 1 else 0
      {
        var going, more := Round();
        events := events + more;
        if going != Again { return going != Fail, events; }
      }
      assert events + [] == events;
      return true, events;
    }
  }
}
