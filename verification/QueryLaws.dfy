/** Query strings clause by clause: single escapes, single pieces, single entries, with the constants written out. */
module QueryLaws {
  import opened Common
  import opened HttpText
  import opened QueryText

  // Characters

  const LOWER_DIGITS := "0123456789abcdef"
  const UPPER_DIGITS := "0123456789ABCDEF"

  lemma HexTable(c: char, n: nat)
    ensures HexValue(c) == Some(n) <==> n < 16 && (c == LOWER_DIGITS[n] || c == UPPER_DIGITS[n])
  {}

  lemma SpaceTable(c: char)
    ensures Space(c) <==> c as int in {9, 10, 11, 12, 13, 32}
    ensures Blank(c) <==> c as int in {9, 32}
  {}

  predicate Alphanumeric(c: char) {
    '0' <= c <= '9' || 'A' <= c <= 'Z' || 'a' <= c <= 'z'
  }

  /** Which bytes stand for themselves, and the two digits of the others, high half first. */
  lemma EncodedTable(c: char)
    requires c as int < 256
    ensures EncodeChar(c) == if Alphanumeric(c) || c in "-_.!~*'()" then [c]
                             else ['%', UPPER_DIGITS[c as int / 16], UPPER_DIGITS[c as int % 16]]
  {}

  /** Quotes go exactly if there is one at either end. */
  lemma UnquotedExact(s: string, t: string)
    ensures Unquote(s) == t <==> s == "\"" + t + "\"" || (s == t && (|s| < 2 || s[0] != '"' || s[|s| - 1] != '"'))
  {
    if |s| >= 2 && s[0] == '"' && s[|s| - 1] == '"' { assert s == "\"" + s[1..|s| - 1] + "\""; }
    if s == "\"" + t + "\"" { assert s[1..|s| - 1] == t; }
  }

  predicate AllBlank(s: string) {
    forall i | 0 <= i < |s| :: Blank(s[i])
  }

  lemma {:induction false} TrimLeftParts(s: string) returns (a: string)
    ensures s == a + TrimLeft(s) && AllBlank(a)
  {
    a := "";
    if s != "" && Blank(s[0]) {
      a := TrimLeftParts(s[1..]);
      a := [s[0]] + a;
      assert s == [s[0]] + s[1..];
    }
  }

  lemma {:induction false} TrimRightParts(s: string) returns (b: string)
    ensures s == TrimRight(s) + b && AllBlank(b)
  {
    b := "";
    if s != "" && Blank(s[|s| - 1]) {
      b := TrimRightParts(s[..|s| - 1]);
      b := b + [s[|s| - 1]];
      assert s == s[..|s| - 1] + [s[|s| - 1]];
    }
  }

  lemma {:induction false} BlanksLeft(a: string, s: string)
    requires AllBlank(a)
    ensures TrimLeft(a + s) == TrimLeft(s)
  {
    if a == "" {
      assert a + s == s;
    } else {
      assert (a + s)[1..] == a[1..] + s;
      BlanksLeft(a[1..], s);
    }
  }

  lemma {:induction false} BlanksRight(s: string, b: string)
    requires AllBlank(b)
    ensures TrimRight(s + b) == TrimRight(s)
  {
    if b == "" {
      assert s + b == s;
    } else {
      assert (s + b)[..|s + b| - 1] == s + b[..|b| - 1];
      BlanksRight(s, b[..|b| - 1]);
    }
  }

  predicate Framed(s: string, a: string, t: string, b: string) {
    s == a + t + b && AllBlank(a) && AllBlank(b)
  }

  /** What is left of a text is what stands between blanks and has none at its ends. */
  lemma TrimExact(s: string, t: string)
    ensures Trim(s) == t <==> (t == "" || Tight(t)) && exists a, b :: Framed(s, a, t, b)
  {
    TrimmedTight(s);
    var a := TrimLeftParts(s);
    var b := TrimRightParts(TrimLeft(s));
    assert a + (Trim(s) + b) == a + Trim(s) + b;
    assert Framed(s, a, Trim(s), b);
    if (t == "" || Tight(t)) && exists a, b :: Framed(s, a, t, b) {
      var x, y :| Framed(s, x, t, y);
      FramedTrims(s, x, t, y);
    }
  }

  lemma FramedTrims(s: string, a: string, t: string, b: string)
    requires Framed(s, a, t, b) && (t == "" || Tight(t))
    ensures Trim(s) == t
  {
    assert a + t + b == a + (t + b);
    BlanksLeft(a, t + b);
    if t == "" {
      assert t + b == b && b + "" == b && "" + b == b;
      BlanksLeft(b, "");
    } else {
      BlanksRight(t, b);
    }
  }

  // Percent decoding

  /** Two hexadecimal digits behind '%', or four behind "%u". */
  predicate Escaped(s: string) {
    |s| > 2 && s[0] == '%' && HexValue(s[1]).Some? && HexValue(s[2]).Some?
  }

  predicate LongEscaped(s: string) {
    && |s| > 5 && s[0] == '%' && s[1] == 'u'
    && HexValue(s[2]).Some? && HexValue(s[3]).Some? && HexValue(s[4]).Some? && HexValue(s[5]).Some?
  }

  lemma TwoDigits(s: string)
    ensures s != "" && s[0] == '%' && 1 < |s| ==> (HexDigits(s, 1, 2, 0).Some? <==> Escaped(s))
    ensures Escaped(s) ==> HexDigits(s, 1, 2, 0).value == 16 * HexValue(s[1]).value + HexValue(s[2]).value
  {
    if |s| > 2 && HexValue(s[1]).Some? && HexValue(s[2]).Some? {
      var a, b := HexValue(s[1]).value, HexValue(s[2]).value;
      assert HexDigits(s, 1, 2, 0) == HexDigits(s, 2, 1, a) == HexDigits(s, 3, 0, 16 * a + b);
    }
  }

  function LongCode(s: string): (code: nat)
    requires LongEscaped(s)
    ensures code < 0x10000
  {
    4096 * HexValue(s[2]).value + 256 * HexValue(s[3]).value + 16 * HexValue(s[4]).value + HexValue(s[5]).value
  }

  lemma FourDigits(s: string)
    requires |s| > 1 && s[0] == '%' && s[1] == 'u'
    ensures HexDigits(s, 2, 4, 0).Some? <==> LongEscaped(s)
    ensures LongEscaped(s) ==> HexDigits(s, 2, 4, 0).value == LongCode(s)
  {
    if LongEscaped(s) {
      var a, b, c, d := HexValue(s[2]).value, HexValue(s[3]).value, HexValue(s[4]).value, HexValue(s[5]).value;
      assert HexDigits(s, 2, 4, 0) == HexDigits(s, 3, 3, a) == HexDigits(s, 4, 2, 16 * a + b);
      assert HexDigits(s, 4, 2, 16 * a + b) == HexDigits(s, 5, 1, 256 * a + 16 * b + c);
      assert HexDigits(s, 5, 1, 256 * a + 16 * b + c) == HexDigits(s, 6, 0, 4096 * a + 256 * b + 16 * c + d);
    } else if HexDigits(s, 2, 4, 0).Some? {
      HexInside(s, 2, 4, 0);
    }
  }

  /** Every escape is decoded on its own; a '%' without its digits stands for itself, and a '+' may be a blank. */
  lemma DecodedBy(s: string, plus: bool)
    ensures Decode("", plus) == ""
    ensures Escaped(s) ==>
              Decode(s, plus) == [(16 * HexValue(s[1]).value + HexValue(s[2]).value) as char] + Decode(s[3..], plus)
    ensures LongEscaped(s) ==> Decode(s, plus) == Utf8(LongCode(s)) + Decode(s[6..], plus)
    ensures s != "" && s[0] == '+' && plus ==> Decode(s, plus) == " " + Decode(s[1..], plus)
    ensures s != "" && !Escaped(s) && !LongEscaped(s) && !(s[0] == '+' && plus) ==>
              Decode(s, plus) == [s[0]] + Decode(s[1..], plus)
  {
    if |s| > 1 && s[0] == '%' {
      TwoDigits(s);
      if s[1] == 'u' { FourDigits(s); }
    }
  }

  // UTF-8

  predicate Continues(c: char) {
    0x80 <= c as int < 0xC0
  }

  /** The forms of up to three bytes of UTF-8 (section 3 of RFC 3629): no longer than needed, and no surrogates. */
  predicate Encodes(t: string, code: nat) {
    if |t| == 1 then t[0] as int == code < 0x80
    else if |t| == 2 then
      && 0xC0 <= t[0] as int < 0xE0 && Continues(t[1])
      && 0x80 <= code == (t[0] as int - 0xC0) * 64 + (t[1] as int - 0x80)
    else
      && |t| == 3 && 0xE0 <= t[0] as int < 0xF0 && Continues(t[1]) && Continues(t[2])
      && 0x800 <= code == (t[0] as int - 0xE0) * 4096 + (t[1] as int - 0x80) * 64 + (t[2] as int - 0x80)
      && !(0xD800 <= code < 0xE000)
  }

  lemma TwoBytes(code: nat)
    requires 0x80 <= code < 0x800
    ensures |Utf8(code)| == 2 && Encodes(Utf8(code), code)
  {
    assert code == code / 64 * 64 + code % 64;
  }

  lemma ThreeBytes(code: nat)
    requires 0x800 <= code < 0x10000 && !(0xD800 <= code < 0xE000)
    ensures |Utf8(code)| == 3 && Encodes(Utf8(code), code)
  {
    var h := code / 64;
    DivMod(code, 4096, h / 64, h % 64 * 64 + code % 64);
  }

  /** A code point becomes its UTF-8 form and nothing else; a surrogate becomes nothing. */
  lemma Utf8Exact(code: nat, t: string)
    requires code < 0x10000
    ensures 0xD800 <= code < 0xE000 ==> Utf8(code) == ""
    ensures !(0xD800 <= code < 0xE000) ==> (Utf8(code) == t <==> Encodes(t, code))
  {
    if code < 0x80 {
      if Encodes(t, code) { assert t == [t[0]]; }
    } else if code < 0x800 {
      TwoBytes(code);
      if Encodes(t, code) { OneForm(t, Utf8(code), code); }
    } else if !(0xD800 <= code < 0xE000) {
      ThreeBytes(code);
      if Encodes(t, code) { OneForm(t, Utf8(code), code); }
    }
  }

  lemma OneForm(t: string, u: string, code: nat)
    requires |u| > 1 && Encodes(t, code) && Encodes(u, code)
    ensures t == u
  {
    if |t| == 2 { assert t == [t[0], t[1]]; } else { assert t == [t[0], t[1], t[2]]; }
  }

  // Entries

  lemma KeyAlone(key: string)
    requires Tight(key) && '=' !in key
    ensures KeyValue(key) == Some((key, "")) && KeyValue("=" + key) == Some((key, ""))
  {
    PiecesLast(key, '=');
    TrimTight(key);
    PiecesCons("", key, '=');
    assert "" + ['='] + key == "=" + key && Trim("") == "";
  }

  /** The key stands before the first '=', the value behind the last, and what is in between is dropped. */
  lemma KeyAndValue(key: string, between: string, val: string)
    requires Tight(key) && '=' !in key && Tight(val) && '=' !in val
    ensures KeyValue(key + ['='] + val) == Some((key, val))
    ensures KeyValue(key + ['='] + (between + ['='] + val)) == Some((key, val))
  {
    KeyValueOf(key, val);
    PiecesAppend(between, val, '=');
    PiecesCons(key, between + ['='] + val, '=');
    PiecesLast(val, '=');
    TrimTight(key);
    TrimTight(val);
  }

  /** A piece adds its entry, if it has a key and no piece before it is the same. */
  lemma {:induction false} PieceAdds(pieces: seq<string>, last: string, cache: set<string>)
    ensures KeyValues(pieces + [last], cache)
            == KeyValues(pieces, cache) + if last in pieces || last in cache then [] else Accepted(KeyValue(last))
  {
    if pieces == [] {
      assert [last][1..] == [] && Accepted(KeyValue(last)) + [] == Accepted(KeyValue(last));
    } else {
      var rest := pieces[1..];
      assert (pieces + [last])[1..] == rest + [last] && pieces == [pieces[0]] + rest;
      if pieces[0] in cache {
        PieceAdds(rest, last, cache);
      } else {
        PieceAdds(rest, last, cache + {pieces[0]});
        Glue(Accepted(KeyValue(pieces[0])), KeyValues(rest, cache + {pieces[0]}),
             if last in rest || last in cache + {pieces[0]} then [] else Accepted(KeyValue(last)));
      }
    }
  }

  /** What a query adds is settled item by item, each with the items in front of it. */
  lemma ItemAdds(s: string, item: string)
    requires '&' !in item
    ensures ParsedQuery(s + ['&'] + item) == ParsedQuery(s) +
            if Trim(item) == "" || Trim(item) in Pieces(s, '&') then [] else DecodedAll(Accepted(KeyValue(Trim(item))))
  {
    var t, pieces := Trim(item), Pieces(s, '&');
    PiecesAppend(s, item, '&');
    PiecesLast(item, '&');
    if t == "" {
      assert pieces + [] == pieces;
    } else {
      PieceAdds(pieces, t, {});
      DecodedAllAppend(KeyValues(pieces, {}), if t in pieces then [] else Accepted(KeyValue(t)));
    }
  }

  // Order

  predicate SplitsAt(a: string, b: string, i: nat) {
    i <= |a| && i <= |b| && a[..i] == b[..i] && (i == |a| || (i < |b| && a[i] < b[i]))
  }

  /** The order of keys: a prefix comes first, and the first difference decides. */
  lemma {:induction false} OrderIsLexicographic(a: string, b: string)
    ensures KeyLessEq(a, b) <==> exists i: nat :: SplitsAt(a, b, i)
  {
    if a == [] {
      assert SplitsAt(a, b, 0);
    } else if b == [] {
    } else if a[0] != b[0] {
      if a[0] < b[0] { assert SplitsAt(a, b, 0); }
      forall i: nat | i > 0 ensures !SplitsAt(a, b, i) {
        if i <= |a| && i <= |b| { assert a[..i][0] == a[0] && b[..i][0] == b[0]; }
      }
    } else {
      OrderIsLexicographic(a[1..], b[1..]);
      forall i: nat ensures SplitsAt(a[1..], b[1..], i) <==> SplitsAt(a, b, i + 1) { SplitsShift(a, b, i); }
      if exists i: nat :: SplitsAt(a[1..], b[1..], i) {
        var i: nat :| SplitsAt(a[1..], b[1..], i);
        assert SplitsAt(a, b, i + 1);
      }
      if exists i: nat :: SplitsAt(a, b, i) {
        var i: nat :| SplitsAt(a, b, i);
        assert i > 0;
        assert SplitsAt(a[1..], b[1..], i - 1);
      }
    }
  }

  lemma SplitsShift(a: string, b: string, i: nat)
    requires a != "" && b != "" && a[0] == b[0]
    ensures SplitsAt(a[1..], b[1..], i) <==> SplitsAt(a, b, i + 1)
  {
    if i < |a| && i < |b| {
      assert a[..i + 1] == [a[0]] + a[1..][..i] && b[..i + 1] == [b[0]] + b[1..][..i];
      Cancel([a[0]], a[1..][..i], b[1..][..i]);
    }
  }

  /** An entry goes behind the entries of keys up to its own and in front of the others, and nothing else moves. */
  lemma {:induction false} EmplacedAt(params: seq<Pair>, p: Pair) returns (i: nat)
    requires Ordered(params)
    ensures i <= |params| && Emplace(params, p) == params[..i] + [p] + params[i..] && Ordered(Emplace(params, p))
    ensures forall j | 0 <= j < |params| :: KeyLessEq(params[j].0, p.0) <==> j < i
  {
    if params == [] || !KeyLessEq(params[0].0, p.0) {
      i := 0;
      forall j | 0 < j < |params| ensures !KeyLessEq(params[j].0, p.0) {
        if KeyLessEq(params[j].0, p.0) { KeyTransitive(params[0].0, params[j].0, p.0); }
      }
    } else {
      i := EmplacedAt(params[1..], p);
      i := i + 1;
      assert params == [params[0]] + params[1..] && params[1..][..i - 1] == params[1..i] && params[1..][i - 1..] == params[i..];
    }
    PlacedOrdered(params, p, i);
  }

  lemma PlacedOrdered(params: seq<Pair>, p: Pair, i: nat)
    requires Ordered(params) && i <= |params|
    requires forall j | 0 <= j < |params| :: KeyLessEq(params[j].0, p.0) <==> j < i
    ensures Ordered(params[..i] + [p] + params[i..])
  {
    forall j | i <= j < |params| ensures KeyLessEq(p.0, params[j].0) { KeyTotal(p.0, params[j].0); }
  }
}
