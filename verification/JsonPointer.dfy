/**
 * JSON pointers (RFC 6901): escaping, splitting into reference tokens, and array indices.
 *
 * Escaping replaces '~' before '/', and unescaping "~1" before "~0". A text is split at every '/', and a token that is
 * not well escaped is an error, as is an index with a sign, a leading zero or a value beyond size_type.
 */
module JsonPointer {
  import opened Common
  import opened JsonValue

  /** Exceptions by class and id; AssertionFailed is JSON_ASSERT(false). */
  datatype Error = ParseError(id: int) | OutOfRange(id: int) | OtherError(id: int) | AssertionFailed

  // Escaping

  /** Left-to-right replacement of the non-overlapping occurrences of f. */
  function ReplaceAll(s: string, f: string, t: string): string
    requires f != ""
  {
    if s == "" then ""
    else if f <= s then t + ReplaceAll(s[|f|..], f, t)
    else [s[0]] + ReplaceAll(s[1..], f, t)
  }

  function Escape(s: string): string {
    ReplaceAll(ReplaceAll(s, "~", "~0"), "/", "~1")
  }

  function Unescape(s: string): string {
    ReplaceAll(ReplaceAll(s, "~1", "/"), "~0", "~")
  }

  /** std::string::find(f, from), with |s| for npos. */
  method Find(s: string, f: string, from: nat) returns (pos: nat)
    requires f != "" && from <= |s|
    ensures from <= pos <= |s|
    ensures forall j | from <= j < pos :: !(f <= s[j..])
    ensures pos < |s| ==> f <= s[pos..]
  {
    pos := from;
    while pos < |s| && !(f <= s[pos..])
      invariant from <= pos <= |s|
      invariant forall j | from <= j < pos :: !(f <= s[j..])
    {
      pos := pos + 1;
    }
  }

  lemma {:induction false} ReplaceAllSkips(s: string, f: string, t: string, from: nat, pos: nat)
    requires f != "" && from <= pos <= |s|
    requires forall j | from <= j < pos :: !(f <= s[j..])
    ensures ReplaceAll(s[from..], f, t) == s[from..pos] + ReplaceAll(s[pos..], f, t)
    decreases pos - from
  {
    if from < pos {
      assert s[from..][1..] == s[from + 1..];
      ReplaceAllSkips(s, f, t, from + 1, pos);
      assert s[from..pos] == [s[from]] + s[from + 1..pos];
    }
  }

  lemma OneReplacement(done: string, rest: string, f: string, t: string, next: string, nextPos: nat)
    requires f != "" && next == done + rest && |done| <= nextPos <= |next|
    requires forall j | |done| <= j < nextPos :: !(f <= next[j..])
    ensures done + ReplaceAll(rest, f, t) == next[..nextPos] + ReplaceAll(next[nextPos..], f, t)
  {
    var k := nextPos - |done|;
    forall j | 0 <= j < k ensures !(f <= rest[j..]) { assert next[|done| + j..] == rest[j..]; }
    ReplaceAllSkips(rest, f, t, 0, k);
    assert rest[0..] == rest;
    GlueNext(done, rest, k, next);
    assert done + (rest[0..k] + ReplaceAll(rest[k..], f, t)) == done + rest[0..k] + ReplaceAll(rest[k..], f, t);
  }

  lemma ReplaceHere(s: string, f: string, t: string, pos: nat)
    requires f != "" && pos < |s| && f <= s[pos..]
    ensures s[..pos] + ReplaceAll(s[pos..], f, t) == s[..pos] + t + ReplaceAll(s[pos + |f|..], f, t)
  {
    assert s[pos..][|f|..] == s[pos + |f|..];
  }

  lemma GlueNext(done: string, rest: string, k: nat, next: string)
    requires next == done + rest && k <= |rest|
    ensures next[..|done| + k] == done + rest[0..k] && next[|done| + k..] == rest[k..]
  {}

  /** The in-place loop computes the left-to-right replacement. */
  method ReplaceSubstring(s0: string, f: string, t: string) returns (s: string)
    requires f != ""
    ensures s == ReplaceAll(s0, f, t)
  {
    s := s0;
    var pos := Find(s, f, 0);
    assert s == s[0..] && s[0..pos] == s[..pos] by { ReplaceAllSkips(s, f, t, 0, pos); }
    ReplaceAllSkips(s, f, t, 0, pos);
    while pos < |s|
      invariant 0 <= pos <= |s|
      invariant pos < |s| ==> f <= s[pos..]
      invariant ReplaceAll(s0, f, t) == s[..pos] + ReplaceAll(s[pos..], f, t)
      decreases |s| - pos
    {
      var next := s[..pos] + t + s[pos + |f|..];
      var nextPos := Find(next, f, pos + |t|);
      ReplaceHere(s, f, t, pos);
      OneReplacement(s[..pos] + t, s[pos + |f|..], f, t, next, nextPos);
      s, pos := next, nextPos;
    }
    assert s[..pos] == s;
  }

  lemma NoPrefix(s: string, f: string, i: nat)
    requires i < |s| && i < |f| && s[i] != f[i]
    ensures !(f <= s)
  {
    if |f| <= |s| { assert s[..|f|][i] == s[i]; }
  }

  lemma ReplaceMissAny(s: string, f: string, t: string)
    requires f != "" && f[0] !in s
    ensures ReplaceAll(s, f, t) == s
  {
    if s != "" {
      NoPrefix(s, f, 0);
      ReplaceMissAny(s[1..], f, t);
      assert [s[0]] + s[1..] == s;
    }
  }

  /** Escape works character by character. */
  function EscapeChar(c: char): string {
    if c == '~' then "~0" else if c == '/' then "~1" else [c]
  }

  lemma EscapeSlashCons(c: char, s: string)
    ensures ReplaceAll([c] + s, "/", "~1") == (if c == '/' then "~1" else [c]) + ReplaceAll(s, "/", "~1")
  {
    if c != '/' { assert ([c] + s)[..1][0] == c; }
  }

  lemma EscapeCons(c: char, s: string)
    ensures Escape([c] + s) == EscapeChar(c) + Escape(s)
  {
    var e := ReplaceAll(s, "~", "~0");
    if c == '~' {
      assert "~0" + e == ['~'] + (['0'] + e);
      EscapeSlashCons('~', ['0'] + e);
      EscapeSlashCons('0', e);
      assert ['~'] + (['0'] + Escape(s)) == "~0" + Escape(s);
    } else {
      EscapeSlashCons(c, e);
    }
  }

  /** Every '~' is followed by '0' or '1'. */
  predicate WellEscaped(s: string) {
    forall i | 0 <= i < |s| && s[i] == '~' :: i + 1 < |s| && (s[i + 1] == '0' || s[i + 1] == '1')
  }

  lemma {:induction false} EscapeIsToken(s: string)
    ensures '/' !in Escape(s) && WellEscaped(Escape(s))
  {
    if s == "" {
    } else {
      EscapeIsToken(s[1..]);
      assert s == [s[0]] + s[1..];
      EscapeCons(s[0], s[1..]);
      var e, rest := EscapeChar(s[0]), Escape(s[1..]);
      forall i | 0 <= i < |e + rest| && (e + rest)[i] == '~'
        ensures i + 1 < |e + rest| && ((e + rest)[i + 1] == '0' || (e + rest)[i + 1] == '1')
      {
        if i >= |e| { assert rest[i - |e|] == '~'; }
      }
    }
  }

  /** Undoing "~1" first leaves exactly the "~" escapes. */
  lemma {:induction false} UnescapeSlash(s: string)
    ensures ReplaceAll(Escape(s), "~1", "/") == ReplaceAll(s, "~", "~0")
  {
    if s == "" {
    } else {
      var c, rest := s[0], Escape(s[1..]);
      assert s == [c] + s[1..];
      UnescapeSlash(s[1..]);
      EscapeCons(c, s[1..]);
      if c == '~' {
        assert "~0" + rest == ['~'] + (['0'] + rest);
        NoPrefix(['~'] + (['0'] + rest), "~1", 1);
        NoPrefix(['0'] + rest, "~1", 0);
        var u := ReplaceAll(rest, "~1", "/");
        assert ['~'] + (['0'] + u) == "~0" + u;
      } else if c != '/' {
        NoPrefix([c] + rest, "~1", 0);
      }
    }
  }

  lemma {:induction false} UnescapeTilde(s: string)
    ensures ReplaceAll(ReplaceAll(s, "~", "~0"), "~0", "~") == s
  {
    if s == "" {
    } else {
      var c, rest := s[0], ReplaceAll(s[1..], "~", "~0");
      assert s == [c] + s[1..];
      UnescapeTilde(s[1..]);
      if c != '~' { NoPrefix([c] + rest, "~0", 0); }
    }
  }

  lemma UnescapeEscape(s: string)
    ensures Unescape(Escape(s)) == s
  {
    UnescapeSlash(s);
    UnescapeTilde(s);
  }

  // Splitting

  function DecodeToken(s: string): Result<string, Error> {
    if WellEscaped(s) then Ok(Unescape(s)) else Err(ParseError(108))
  }

  /** The reference tokens of the text after a leading slash. */
  function SplitTokens(s: string): Result<seq<string>, Error> {
    var i := IndexOf(s, '/');
    match DecodeToken(s[..i])
    case Err(e) => Err(e)
    case Ok(token) =>
      if i == |s| then Ok([token])
      else
        match SplitTokens(s[i + 1..])
        case Err(e) => Err(e)
        case Ok(rest) => Ok([token] + rest)
  }

  function Split(s: string): Result<seq<string>, Error> {
    if s == "" then Ok([])
    else if s[0] != '/' then Err(ParseError(107))
    else SplitTokens(s[1..])
  }

  lemma SplitTokensLast(a: string)
    requires '/' !in a
    ensures SplitTokens(a) == if DecodeToken(a).Ok? then Ok([DecodeToken(a).value]) else Err(DecodeToken(a).error)
  {
    IndexOfAppend(a, "", '/');
    assert a + "" == a && a[..|a|] == a;
  }

  lemma SplitTokensCons(a: string, b: string)
    requires '/' !in a
    ensures SplitTokens(a + "/" + b) ==
            if DecodeToken(a).Err? then Err(DecodeToken(a).error)
            else if SplitTokens(b).Err? then Err(SplitTokens(b).error)
            else Ok([DecodeToken(a).value] + SplitTokens(b).value)
  {
    var s := a + "/" + b;
    assert s == a + ("/" + b);
    IndexOfAppend(a, "/" + b, '/');
    assert s[..|a|] == a && s[|a| + 1..] == b;
  }

  lemma {:induction false} SplitTokensAppend(a: string, b: string)
    requires '/' !in b && SplitTokens(a).Ok? && DecodeToken(b).Ok?
    ensures SplitTokens(a + "/" + b) == Ok(SplitTokens(a).value + [DecodeToken(b).value])
    decreases |a|
  {
    var i := IndexOf(a, '/');
    SplitTokensLast(b);
    if i == |a| {
      assert a[..i] == a;
      SplitTokensCons(a, b);
      SplitTokensLast(a);
    } else {
      var head, rest := a[..i], a[i + 1..];
      assert a == head + "/" + rest;
      assert a + "/" + b == head + "/" + (rest + "/" + b);
      SplitTokensCons(head, rest);
      SplitTokensAppend(rest, b);
      SplitTokensCons(head, rest + "/" + b);
      Glue([DecodeToken(head).value], SplitTokens(rest).value, [DecodeToken(b).value]);
    }
  }

  /** Extending a pointer text by an encoded token extends its token list. */
  lemma SplitExtend(path: string, token: string)
    requires Split(path).Ok? && '/' !in token && DecodeToken(token).Ok?
    ensures Split(path + "/" + token) == Ok(Split(path).value + [DecodeToken(token).value])
  {
    var s := path + "/" + token;
    if path == "" {
      assert s == ['/'] + token;
      assert s[1..] == token;
      IndexOfAppend(token, "", '/');
      assert token + "" == token && token[..|token|] == token;
      assert [] + [DecodeToken(token).value] == [DecodeToken(token).value];
    } else {
      assert s[1..] == path[1..] + "/" + token;
      SplitTokensAppend(path[1..], token);
    }
  }

  /** Concatenating '/' and an escaped key, as diff does, appends that key. */
  lemma SplitKey(path: string, key: string)
    requires Split(path).Ok?
    ensures Split(path + "/" + Escape(key)) == Ok(Split(path).value + [key])
  {
    EscapeIsToken(key);
    UnescapeEscape(key);
    SplitExtend(path, Escape(key));
  }

  // Array indices

  function Digit(d: nat): char
    requires d < 10
  {
    '0' + d as char
  }

  predicate AllDigits(s: string) {
    forall i | 0 <= i < |s| :: '0' <= s[i] <= '9'
  }

  /** std::to_string */
  function Decimal(n: nat): (s: string)
    ensures s != "" && AllDigits(s)
  {
    if n < 10 then [Digit(n)] else Decimal(n / 10) + [Digit(n % 10)]
  }

  function DecimalValue(s: string): nat
    requires AllDigits(s)
  {
    if s == "" then 0
    else 10 * DecimalValue(s[..|s| - 1]) + (s[|s| - 1] as int - '0' as int)
  }

  /** array_index: strtoull with base 10, with the checks of RFC 6901 section 4. */
  function ArrayIndex(s: string): Result<nat, Error> {
    if |s| > 1 && s[0] == '0' then Err(ParseError(106))
    else if |s| > 1 && !('1' <= s[0] <= '9') then Err(ParseError(109))
    else if s == "" || !AllDigits(s) then Err(OutOfRange(404))
    else
      var n := DecimalValue(s);
      if n >= TWO_TO_THE_64 then Err(OutOfRange(404))
      else if n == TWO_TO_THE_64 - 1 then Err(OutOfRange(410))
      else Ok(n)
  }

  lemma {:induction false} DecimalRoundTrip(n: nat)
    ensures DecimalValue(Decimal(n)) == n
    ensures Decimal(n)[0] == '0' ==> n == 0
    ensures |Decimal(n)| > 1 ==> n > 0
  {
    if n < 10 {
      assert Decimal(n)[..0] == "";
    } else {
      DecimalRoundTrip(n / 10);
      assert Decimal(n)[..|Decimal(n)| - 1] == Decimal(n / 10);
    }
  }

  lemma ArrayIndexDecimal(n: nat)
    requires n < TWO_TO_THE_64 - 1
    ensures ArrayIndex(Decimal(n)) == Ok(n) && Decimal(n) != "-"
  {
    DecimalRoundTrip(n);
    var s := Decimal(n);
    assert s[0] in s;
  }

  /** Concatenating '/' and a printed index, as diff does, appends that token. */
  lemma SplitIndex(path: string, n: nat)
    requires Split(path).Ok?
    ensures Split(path + "/" + Decimal(n)) == Ok(Split(path).value + [Decimal(n)])
  {
    var s := Decimal(n);
    ReplaceMissAny(s, "~1", "/");
    ReplaceMissAny(s, "~0", "~");
    SplitExtend(path, s);
  }

  lemma SplitDash(path: string)
    requires Split(path).Ok?
    ensures Split(path + "/-") == Ok(Split(path).value + ["-"])
  {
    ReplaceMissAny("-", "~1", "/");
    ReplaceMissAny("-", "~0", "~");
    SplitExtend(path, "-");
    assert path + "/-" == path + "/" + "-";
  }
}
