/** Pointer texts and token lists stand for each other one to one, and every other text is refused. */
module JsonPointerLaws {
  import opened Common
  import opened JsonPointer

  /** The text of a pointer (section 3 of RFC 6901). */
  function Pointer(tokens: seq<string>): string {
    if tokens == [] then "" else "/" + (Escape(tokens[0]) + Pointer(tokens[1..]))
  }

  // Unescaping is left to right

  lemma FirstOther(c: char, t: string, f: string, u: string)
    requires f != "" && f[0] != c
    ensures ReplaceAll([c] + t, f, u) == [c] + ReplaceAll(t, f, u)
  {
    NoPrefix([c] + t, f, 0);
  }

  lemma FirstHit(f: string, t: string, u: string)
    requires f != ""
    ensures ReplaceAll(f + t, f, u) == u + ReplaceAll(t, f, u)
  {
    assert (f + t)[|f|..] == t;
  }

  lemma UnescapedOther(c: char, t: string)
    requires c != '~'
    ensures Unescape([c] + t) == [c] + Unescape(t)
  {
    FirstOther(c, t, "~1", "/");
    FirstOther(c, ReplaceAll(t, "~1", "/"), "~0", "~");
  }

  lemma UnescapedZero(t: string)
    ensures Unescape("~0" + t) == "~" + Unescape(t)
  {
    var u := ReplaceAll(t, "~1", "/");
    assert "~0" + t == ['~'] + (['0'] + t);
    NoPrefix(['~'] + (['0'] + t), "~1", 1);
    FirstOther('0', t, "~1", "/");
    assert ReplaceAll("~0" + t, "~1", "/") == ['~'] + (['0'] + u) == "~0" + u;
    FirstHit("~0", u, "~");
  }

  lemma UnescapedOne(t: string)
    ensures Unescape("~1" + t) == "/" + Unescape(t)
  {
    FirstHit("~1", t, "/");
    FirstOther('/', ReplaceAll(t, "~1", "/"), "~0", "~");
  }

  lemma WellEscapedRest(s: string, k: nat)
    requires WellEscaped(s) && k <= |s|
    ensures WellEscaped(s[k..])
  {}

  /** Escaping inverts unescaping on every well-escaped text without a slash. */
  lemma {:induction false} EscapeUnescape(s: string)
    requires WellEscaped(s) && '/' !in s
    ensures Escape(Unescape(s)) == s
    decreases |s|
  {
    if s == "" {
    } else if s[0] == '~' {
      var t := s[2..];
      assert s == [s[0], s[1]] + t;
      WellEscapedRest(s, 2);
      EscapeUnescape(t);
      if s[1] == '0' {
        UnescapedZero(t);
        EscapeCons('~', Unescape(t));
      } else {
        UnescapedOne(t);
        EscapeCons('/', Unescape(t));
      }
    } else {
      var c, t := s[0], s[1..];
      assert s == [c] + t;
      WellEscapedRest(s, 1);
      EscapeUnescape(t);
      UnescapedOther(c, t);
      EscapeCons(c, Unescape(t));
    }
  }

  /** What escaping does to a character, with the constants written out. */
  lemma EscapedCharacters(c: char, s: string)
    ensures Escape("") == "" && Escape("~" + s) == "~0" + Escape(s) && Escape("/" + s) == "~1" + Escape(s)
    ensures c != '~' && c != '/' ==> Escape([c] + s) == [c] + Escape(s)
  {
    EscapeCons('~', s);
    EscapeCons('/', s);
    EscapeCons(c, s);
  }

  // Texts and tokens

  lemma SplitFirst(t: string, rest: string)
    requires '/' !in t && WellEscaped(t) && rest != "" && Split(rest).Ok?
    ensures Split("/" + (t + rest)) == Ok([Unescape(t)] + Split(rest).value)
  {
    var b := rest[1..];
    var s := t + "/" + b;
    assert t + rest == s;
    assert ("/" + s)[1..] == s;
    SplitTokensCons(t, b);
  }

  lemma SplitOnly(t: string)
    requires '/' !in t && WellEscaped(t)
    ensures Split("/" + t) == Ok([Unescape(t)])
  {
    assert ("/" + t)[1..] == t;
    SplitTokensLast(t);
  }

  lemma PointerFirst(token: string, tokens: seq<string>)
    ensures Pointer([token] + tokens) == "/" + (Escape(token) + Pointer(tokens))
  {
    assert ([token] + tokens)[1..] == tokens;
  }

  lemma {:induction false} PointerSplits(tokens: seq<string>)
    ensures Split(Pointer(tokens)) == Ok(tokens)
  {
    if tokens == [] {
    } else {
      var token, rest := tokens[0], tokens[1..];
      assert tokens == [token] + rest;
      PointerSplits(rest);
      PointerFirst(token, rest);
      EscapeIsToken(token);
      UnescapeEscape(token);
      if rest == [] {
        assert Escape(token) + "" == Escape(token) && tokens == [token];
        SplitOnly(Escape(token));
      } else {
        SplitFirst(Escape(token), Pointer(rest));
      }
    }
  }

  lemma TokenCut(s: string) returns (a: string, b: string)
    requires '/' in s
    ensures s == a + "/" + b && '/' !in a && |b| < |s|
  {
    var i := IndexOf(s, '/');
    a, b := s[..i], s[i + 1..];
    assert s == s[..i] + [s[i]] + s[i + 1..];
  }

  lemma {:induction false} TokensText(s: string)
    requires SplitTokens(s).Ok?
    ensures Pointer(SplitTokens(s).value) == "/" + s
    decreases |s|
  {
    if '/' in s {
      var a, b := TokenCut(s);
      SplitTokensCons(a, b);
      TokensText(b);
      EscapeUnescape(a);
      PointerFirst(Unescape(a), SplitTokens(b).value);
      Glue(a, "/", b);
    } else {
      SplitTokensLast(s);
      EscapeUnescape(s);
      PointerFirst(Unescape(s), []);
      assert [Unescape(s)] + [] == [Unescape(s)] && s + "" == s;
    }
  }

  /** A text is read as these tokens if and only if it is the text of the pointer to them. */
  lemma SplitExact(text: string, tokens: seq<string>)
    ensures Split(text) == Ok(tokens) <==> text == Pointer(tokens)
  {
    PointerSplits(tokens);
    if Split(text) == Ok(tokens) && text != "" {
      TokensText(text[1..]);
      assert text == "/" + text[1..];
    }
  }

  lemma WellEscapedJoin(a: string, b: string)
    ensures WellEscaped(a + "/" + b) <==> WellEscaped(a) && WellEscaped(b)
  {
    var s := a + "/" + b;
    if WellEscaped(s) {
      forall i | 0 <= i < |a| && a[i] == '~' ensures i + 1 < |a| && (a[i + 1] == '0' || a[i + 1] == '1') {
        assert s[i] == '~' && s[i + 1] == if i + 1 < |a| then a[i + 1] else '/';
      }
      WellEscapedRest(s, |a| + 1);
      assert s[|a| + 1..] == b;
    }
    if WellEscaped(a) && WellEscaped(b) {
      forall i | 0 <= i < |s| && s[i] == '~' ensures i + 1 < |s| && (s[i + 1] == '0' || s[i + 1] == '1') {
        if i > |a| { assert b[i - |a| - 1] == '~'; }
      }
    }
  }

  lemma {:induction false} TokensError(s: string)
    ensures if WellEscaped(s) then SplitTokens(s).Ok? else SplitTokens(s) == Err(ParseError(108))
    decreases |s|
  {
    if '/' in s {
      var a, b := TokenCut(s);
      SplitTokensCons(a, b);
      TokensError(b);
      WellEscapedJoin(a, b);
    } else {
      SplitTokensLast(s);
    }
  }

  /** The other texts are refused: without a slash in front with 107, with a '~' that escapes nothing with 108. */
  lemma SplitRefuses(text: string)
    ensures Split(text) == Err(ParseError(107)) <==> text != "" && text[0] != '/'
    ensures Split(text) == Err(ParseError(108)) <==> text != "" && text[0] == '/' && !WellEscaped(text)
    ensures Split(text).Ok? <==> text == "" || (text[0] == '/' && WellEscaped(text))
  {
    if text != "" && text[0] == '/' {
      TokensError(text[1..]);
      assert text == "" + "/" + text[1..];
      WellEscapedJoin("", text[1..]);
    }
  }
}
