/** Query strings: percent encoding, and printing and parsing a multimap of parameters. Characters stand for bytes. */
module QueryText {
  import opened Common
  import opened HttpText

  predicate Octets(s: string) {
    forall i | 0 <= i < |s| :: s[i] as int < 256
  }

  // Percent encoding

  predicate Unreserved(c: char) {
    '0' <= c <= '9' || 'A' <= c <= 'Z' || 'a' <= c <= 'z' 
    || c == '-' || c == '_' || c == '.' || c == '!' || c == '~' || c == '*' || c == '\'' || c == '(' || c == ')'
  }

  function UpperHex(n: nat): char
    requires n < 16
  {
    if n < 10 then '0' + n as char else 'A' + (n - 10) as char
  }

  function EncodeChar(c: char): string
    requires c as int < 256
  {
    if Unreserved(c) then [c] else ['%', UpperHex(c as int / 16), UpperHex(c as int % 16)]
  }

  function Encode(s: string): string
    requires Octets(s)
  {
    if s == "" then "" else EncodeChar(s[0]) + Encode(s[1..])
  }

  lemma EncodeStep(done: string, s: string, i: nat)
    requires Octets(s) && i < |s|
    ensures done + Encode(s[i..]) == done + EncodeChar(s[i]) + Encode(s[i + 1..])
  {
    assert s[i..][1..] == s[i + 1..];
    assert done + (EncodeChar(s[i]) + Encode(s[i + 1..])) == done + EncodeChar(s[i]) + Encode(s[i + 1..]);
  }

  method EncodeQueryParam(value: string) returns (escaped: string)
    requires Octets(value)
    ensures escaped == Encode(value)
  {
    escaped := "";
    for i := 0 to |value|
      invariant escaped + Encode(value[i..]) == Encode(value)
    {
      var c := value[i];
      EncodeStep(escaped, value, i);
      if Unreserved(c) {
        escaped := escaped + [c];
      } else {
        escaped := escaped + ['%', UpperHex(c as int / 16), UpperHex(c as int % 16)];
      }
    }
  }

  // Percent decoding

  /** The value of count hexadecimal digits at i. Reading at the end of the text sees a NUL, no digit. */
  function HexDigits(s: string, i: nat, count: nat, val: nat): Option<nat>
    decreases count
  {
    if count == 0 then Some(val)
    else if i >= |s| || HexValue(s[i]) == None then None
    else HexDigits(s, i + 1, count - 1, val * 16 + HexValue(s[i]).value)
  }

  method FromHexToI(s: string, start: nat, digits: nat) returns (r: Option<nat>)
    requires digits > 0
    ensures r == HexDigits(s, start, digits, 0)
  {
    if start >= |s| { return None; }
    var i: nat, cnt: nat, val: nat := start, digits, 0;
    while cnt > 0
      invariant HexDigits(s, i, cnt, val) == HexDigits(s, start, digits, 0)
    {
      if i >= |s| || s[i] == '\0' { return None; }
      var v := HexValue(s[i]);
      if v == None { return None; }
      val := val * 16 + v.value;
      i, cnt := i + 1, cnt - 1;
    }
    return Some(val);
  }

  predicate StaysBelow(val: nat, count: nat, bound: nat)
    requires count <= 4
  {
    (val + 1) * [1, 16, 256, 4096, 65536][count] <= bound
  }

  lemma {:induction false} HexBound(s: string, i: nat, count: nat, val: nat, bound: nat)
    requires count <= 4 && HexDigits(s, i, count, val).Some? && StaysBelow(val, count, bound)
    ensures HexDigits(s, i, count, val).value < bound
    decreases count
  {
    if count == 0 {
    } else {
      HexBound(s, i + 1, count - 1, val * 16 + HexValue(s[i]).value, bound);
    }
  }

  lemma {:induction false} HexDigitsShift(s: string, k: nat, i: nat, count: nat, val: nat)
    requires k <= |s|
    ensures HexDigits(s[k..], i, count, val) == HexDigits(s, k + i, count, val)
    decreases count
  {
    if count > 0 && k + i < |s| {
      assert s[k..][i] == s[k + i];
      if HexValue(s[k + i]).Some? {
        HexDigitsShift(s, k, i + 1, count - 1, val * 16 + HexValue(s[k + i]).value);
      }
    }
  }

  /** Surrogate code points become nothing. */
  function Utf8(code: nat): string
    requires code < 0x10000
  {
    if code < 0x80 then [code as char]
    else if code < 0x800 then [(0xC0 + code / 64) as char, (0x80 + code % 64) as char]
    else if 0xD800 <= code < 0xE000 then ""
    else [(0xE0 + code / 4096) as char, (0x80 + code / 64 % 64) as char, (0x80 + code % 64) as char]
  }

  /** What the text starts with, decoded, and how many characters of it that takes. */
  function Lead(s: string, plus: bool): (r: (string, nat))
    requires s != ""
    ensures 0 < r.1 <= |s|
  {
    if s[0] == '%' && 1 < |s| then
      if s[1] == 'u' then
        var code := HexDigits(s, 2, 4, 0);
        if code.None? then ("%", 1)
        else
          HexInside(s, 2, 4, 0);
          HexBound(s, 2, 4, 0, 0x10000);
          (Utf8(code.value), 6)
      else
        var code := HexDigits(s, 1, 2, 0);
        if code.None? then ("%", 1)
        else
          HexInside(s, 1, 2, 0);
          HexBound(s, 1, 2, 0, 0x100);
          ([code.value as char], 3)
    else if plus && s[0] == '+' then (" ", 1)
    else ([s[0]], 1)
  }

  lemma HexInside(s: string, i: nat, count: nat, val: nat)
    requires count > 0 && HexDigits(s, i, count, val).Some?
    ensures i + count <= |s|
    decreases count
  {
    if count > 1 { HexInside(s, i + 1, count - 1, val * 16 + HexValue(s[i]).value); }
  }

  function Decode(s: string, plus: bool): string
    decreases |s|
  {
    if s == "" then ""
    else
      var (text, n) := Lead(s, plus);
      text + Decode(s[n..], plus)
  }

  lemma LeadShort(s: string, plus: bool)
    requires s != ""
    ensures |Lead(s, plus).0| <= Lead(s, plus).1
  {}

  /** Decoding never lengthens a text. */
  lemma {:induction false} DecodeShort(s: string, plus: bool)
    ensures |Decode(s, plus)| <= |s|
    decreases |s|
  {
    if s == "" {
    } else {
      LeadShort(s, plus);
      DecodeShort(s[Lead(s, plus).1..], plus);
    }
  }

  method DecodeLead(s: string, i: nat, plus: bool) returns (text: string, next: nat)
    requires i < |s|
    ensures (text, next - i) == Lead(s[i..], plus) && i < next <= |s|
  {
    next := i + 1;
    if s[i] == '%' && i + 1 < |s| {
      if s[i + 1] == 'u' {
        HexDigitsShift(s, i, 2, 4, 0);
        var code := FromHexToI(s, i + 2, 4);
        if code.Some? {
          HexBound(s, i + 2, 4, 0, 0x10000);
          text, next := Utf8(code.value), next + 5;
        } else {
          text := [s[i]];
        }
      } else {
        HexDigitsShift(s, i, 1, 2, 0);
        var code := FromHexToI(s, i + 1, 2);
        if code.Some? {
          HexBound(s, i + 1, 2, 0, 0x100);
          text, next := [code.value as char], next + 2;
        } else {
          text := [s[i]];
        }
      }
    } else if plus && s[i] == '+' {
      text := " ";
    } else {
      text := [s[i]];
    }
  }

  lemma DecodeOn(done: string, s: string, i: nat, next: nat, text: string, plus: bool)
    requires i < next <= |s| && Lead(s[i..], plus) == (text, next - i)
    ensures done + text + Decode(s[next..], plus) == done + Decode(s[i..], plus)
  {
    Dropped(s, i, next - i);
    Glue(done, text, Decode(s[next..], plus));
  }

  method DecodeUrl(s: string, plus: bool) returns (result: string)
    ensures result == Decode(s, plus)
  {
    result := "";
    var i := 0;
    assert s[0..] == s;
    while i < |s|
      invariant i <= |s| && result + Decode(s[i..], plus) == Decode(s, plus)
    {
      var text, next := DecodeLead(s, i, plus);
      DecodeOn(result, s, i, next, text, plus);
      result := result + text;
      i := next;
    }
  }

  lemma LeadOfEncoded(c: char, rest: string, plus: bool)
    requires c as int < 256
    ensures Lead(EncodeChar(c) + rest, plus) == ([c], |EncodeChar(c)|)
  {
    var s := EncodeChar(c) + rest;
    if !Unreserved(c) {
      var high, low := c as int / 16, c as int % 16;
      assert HexValue(s[1]) == Some(high) && HexValue(s[2]) == Some(low);
      assert HexDigits(s, 1, 2, 0) == HexDigits(s, 2, 1, high) == HexDigits(s, 3, 0, high * 16 + low);
    }
  }

  /** Decoding undoes encoding, for any bytes and with or without '+' for a blank. */
  lemma {:induction false} DecodeEncode(v: string, plus: bool)
    requires Octets(v)
    ensures Decode(Encode(v), plus) == v
  {
    if v == "" {
    } else {
      var rest := Encode(v[1..]);
      LeadOfEncoded(v[0], rest, plus);
      assert (EncodeChar(v[0]) + rest)[|EncodeChar(v[0])|..] == rest;
      DecodeEncode(v[1..], plus);
    }
  }

  lemma {:induction false} DecodePlain(k: string)
    requires '%' !in k && '+' !in k
    ensures Decode(k, true) == k
  {
    if k == "" {
    } else {
      DecodePlain(k[1..]);
    }
  }

  // Parameters: a multimap is the sequence of its entries in iteration order

  predicate Ordered(params: seq<Pair>) {
    forall i, j | 0 <= i < j < |params| :: KeyLessEq(params[i].0, params[j].0)
  }

  /** emplace puts an entry behind the others of its key. */
  function Emplace(params: seq<Pair>, p: Pair): seq<Pair> {
    if params == [] || !KeyLessEq(params[0].0, p.0) then [p] + params
    else [params[0]] + Emplace(params[1..], p)
  }

  function EmplaceAll(params: seq<Pair>, ps: seq<Pair>): seq<Pair>
    decreases ps
  {
    if ps == [] then params else EmplaceAll(Emplace(params, ps[0]), ps[1..])
  }

  predicate Printable(params: seq<Pair>) {
    forall i | 0 <= i < |params| :: Octets(params[i].1)
  }

  function Item(p: Pair): string
    requires Octets(p.1)
  {
    p.0 + ['='] + Encode(p.1)
  }

  function Items(params: seq<Pair>): seq<string>
    requires Printable(params)
  {
    if params == [] then [] else [Item(params[0])] + Items(params[1..])
  }

  function JoinedItems(params: seq<Pair>): string
    requires Printable(params)
  {
    if params == [] then "" else ['&'] + Item(params[0]) + JoinedItems(params[1..])
  }

  function Query(params: seq<Pair>): string
    requires Printable(params)
  {
    if params == [] then "" else Item(params[0]) + JoinedItems(params[1..])
  }

  predicate PrintedTo(query: string, params: seq<Pair>, i: nat)
    requires Printable(params) && i <= |params|
  {
    if i == 0 then query == "" else query + JoinedItems(params[i..]) == Query(params)
  }

  lemma PrintedGrows(query: string, params: seq<Pair>, i: nat)
    requires Printable(params) && i < |params|
    ensures PrintedTo(query, params, i)
            ==> PrintedTo(query + (if i == 0 then "" else "&") + params[i].0 + "=" + Encode(params[i].1), params, i + 1)
  {
    assert params[i..][1..] == params[i + 1..];
    Reassociate(query, if i == 0 then "" else "&", params[i].0, Encode(params[i].1), JoinedItems(params[i + 1..]));
    if i == 0 { assert params[1..] == params[i + 1..]; }
  }

  lemma Reassociate(q: string, sep: string, key: string, value: string, rest: string)
    ensures q + sep + key + "=" + value + rest == q + (sep + (key + ['='] + value) + rest)
    ensures q == "" && sep == "" ==> q + sep + key + "=" + value + rest == key + ['='] + value + rest
  {}

  method ParamsToQueryStr(params: seq<Pair>) returns (query: string)
    requires Printable(params)
    ensures query == Query(params)
  {
    query := "";
    for i := 0 to |params|
      invariant PrintedTo(query, params, i)
    {
      PrintedGrows(query, params, i);
      if i != 0 { query := query + "&"; }
      query := query + params[i].0;
      query := query + "=";
      var value := EncodeQueryParam(params[i].1);
      query := query + value;
    }
    assert params[|params|..] == [] && query + "" == query;
  }

  lemma EmplaceAllAppend(params: seq<Pair>, a: seq<Pair>, b: seq<Pair>)
    ensures EmplaceAll(params, a + b) == EmplaceAll(EmplaceAll(params, a), b)
    decreases a
  {
    if a == [] {
      assert a + b == b;
    } else {
      assert (a + b)[1..] == a[1..] + b;
      EmplaceAllAppend(Emplace(params, a[0]), a[1..], b);
    }
  }

  function Decoded(p: Pair): Pair {
    (Decode(p.0, true), Decode(p.1, true))
  }

  function DecodedAll(ps: seq<Pair>): (r: seq<Pair>)
    ensures |r| == |ps|
  {
    if ps == [] then [] else [Decoded(ps[0])] + DecodedAll(ps[1..])
  }

  lemma DecodedAllAppend(a: seq<Pair>, b: seq<Pair>)
    ensures DecodedAll(a + b) == DecodedAll(a) + DecodedAll(b)
  {
    if a == [] {
      assert a + b == b;
    } else {
      assert (a + b)[1..] == a[1..] + b;
      DecodedAllAppend(a[1..], b);
    }
  }

  /** The entries a query adds, in the order it adds them. */
  function ParsedQuery(s: string): seq<Pair> {
    DecodedAll(KeyValues(Pieces(s, '&'), {}))
  }

  ghost predicate ParsesOn(all: seq<Pair>, params: seq<Pair>, pieces: seq<string>, cache: set<string>) {
    all == EmplaceAll(params, DecodedAll(KeyValues(pieces, cache)))
  }

  lemma ParsesPiece(all: seq<Pair>, params: seq<Pair>, pieces: seq<string>, cache: set<string>)
    requires pieces != [] && ParsesOn(all, params, pieces, cache)
    ensures var item := KeyValue(pieces[0]);
            if pieces[0] in cache then ParsesOn(all, params, pieces[1..], cache)
            else ParsesOn(all, if item.Some? then Emplace(params, Decoded(item.value)) else params, pieces[1..],
                          cache + {pieces[0]})
  {
    if pieces[0] !in cache {
      var item, rest := Accepted(KeyValue(pieces[0])), KeyValues(pieces[1..], cache + {pieces[0]});
      DecodedAllAppend(item, rest);
      EmplaceAllAppend(params, DecodedAll(item), DecodedAll(rest));
    }
  }

  /** One piece: nothing without a key, otherwise an entry behind the others of its key. */
  method ParsePiece(kv: string, params0: seq<Pair>) returns (params: seq<Pair>)
    ensures params == var item := KeyValue(kv); if item.Some? then Emplace(params0, Decoded(item.value)) else params0
  {
    params := params0;
    var key, val := SplitKeyValue(kv);
    if key != "" {
      var k := DecodeUrl(key, true);
      var v := DecodeUrl(val, true);
      params := Emplace(params, (k, v));
    }
  }

  method ParseQueryText(s: string, params0: seq<Pair>) returns (params: seq<Pair>)
    ensures params == EmplaceAll(params0, ParsedQuery(s))
  {
    params := params0;
    var cache := {};
    var pieces := Split(s, '&');
    ghost var all := EmplaceAll(params0, ParsedQuery(s));
    ghost var left := pieces;
    for i := 0 to |pieces|
      invariant left == pieces[i..] && ParsesOn(all, params, left, cache)
    {
      var kv := pieces[i];
      ParsesPiece(all, params, left, cache);
      left := left[1..];
      if kv !in cache {
        cache := cache + {kv};
        params := ParsePiece(kv, params);
      }
    }
  }

  // Round trip

  /** Keys are printed as they are, so one must be a piece of its own and stand for itself. */
  predicate PlainKey(k: string) {
    Tight(k) && '&' !in k && '=' !in k && Decode(k, true) == k
  }

  lemma PlainWithoutEscapes(k: string)
    requires Tight(k) && '&' !in k && '=' !in k && '%' !in k && '+' !in k
    ensures PlainKey(k)
  {
    DecodePlain(k);
  }

  predicate PlainKeys(params: seq<Pair>) {
    forall i | 0 <= i < |params| :: PlainKey(params[i].0)
  }

  lemma {:induction false} EncodedChars(v: string)
    requires Octets(v)
    ensures '&' !in Encode(v) && '=' !in Encode(v)
    ensures if v == "" then Encode(v) == "" else Tight(Encode(v))
  {
    if v == "" {
    } else {
      EncodedChars(v[1..]);
    }
  }

  lemma ItemShape(p: Pair)
    requires PlainKey(p.0) && Octets(p.1)
    ensures Tight(Item(p)) && '&' !in Item(p)
    ensures KeyValue(Item(p)).Some? && Decoded(KeyValue(Item(p)).value) == p
  {
    EncodedChars(p.1);
    KeyValueOf(p.0, Encode(p.1));
    DecodeEncode(p.1, true);
  }

  lemma QueryCons(params: seq<Pair>)
    requires Printable(params) && |params| > 1
    ensures Query(params) == Item(params[0]) + ['&'] + Query(params[1..])
  {
    var rest := params[1..];
  }

  lemma {:induction false} QueryPieces(params: seq<Pair>)
    requires PlainKeys(params) && Printable(params)
    ensures Pieces(Query(params), '&') == Items(params)
  {
    if params == [] {
      PiecesLast("", '&');
    } else {
      var item, rest := Item(params[0]), params[1..];
      ItemShape(params[0]);
      TrimTight(item);
      if rest == [] {
        assert item + "" == item;
        PiecesLast(item, '&');
      } else {
        QueryCons(params);
        PiecesCons(item, Query(rest), '&');
        QueryPieces(rest);
      }
    }
  }

  function FirstOccurrences(params: seq<Pair>, seen: set<Pair>): seq<Pair> {
    if params == [] then []
    else if params[0] in seen then FirstOccurrences(params[1..], seen)
    else [params[0]] + FirstOccurrences(params[1..], seen + {params[0]})
  }

  ghost predicate CacheOf(cache: set<string>, seen: set<Pair>) {
    && (forall p | p in seen :: PlainKey(p.0) && Octets(p.1) && Item(p) in cache)
    && forall p: Pair | PlainKey(p.0) && Octets(p.1) && Item(p) in cache :: p in seen
  }

  lemma CacheGrows(cache: set<string>, seen: set<Pair>, p: Pair)
    requires CacheOf(cache, seen) && PlainKey(p.0) && Octets(p.1)
    ensures CacheOf(cache + {Item(p)}, seen + {p})
  {
    forall q: Pair | PlainKey(q.0) && Octets(q.1) && Item(q) in cache + {Item(p)} ensures q in seen + {p} {
      ItemShape(p);
      ItemShape(q);
    }
  }

  lemma {:induction false} ItemsParse(params: seq<Pair>, cache: set<string>, seen: set<Pair>)
    requires PlainKeys(params) && Printable(params) && CacheOf(cache, seen)
    ensures DecodedAll(KeyValues(Items(params), cache)) == FirstOccurrences(params, seen)
  {
    if params == [] {
    } else {
      var p := params[0];
      ItemShape(p);
      assert Items(params)[1..] == Items(params[1..]);
      CacheGrows(cache, seen, p);
      if p in seen {
        ItemsParse(params[1..], cache, seen);
      } else {
        ItemsParse(params[1..], cache + {Item(p)}, seen + {p});
      }
    }
  }

  lemma {:induction false} EmplaceLast(params: seq<Pair>, p: Pair)
    requires forall q | q in params :: KeyLessEq(q.0, p.0)
    ensures Emplace(params, p) == params + [p]
  {
    if params == [] {
    } else {
      EmplaceLast(params[1..], p);
    }
  }

  lemma {:induction false} EmplaceOrdered(params: seq<Pair>, ps: seq<Pair>)
    requires Ordered(params + ps)
    ensures EmplaceAll(params, ps) == params + ps
    decreases ps
  {
    if ps == [] {
    } else {
      forall q | q in params ensures KeyLessEq(q.0, ps[0].0) {
        var i :| 0 <= i < |params| && params[i] == q;
        assert (params + ps)[i] == q && (params + ps)[|params|] == ps[0];
      }
      EmplaceLast(params, ps[0]);
      assert params + [ps[0]] + ps[1..] == params + ps;
      EmplaceOrdered(params + [ps[0]], ps[1..]);
    }
  }

  lemma OrderedCons(p: Pair, ps: seq<Pair>)
    requires Ordered(ps) && forall q | q in ps :: KeyLessEq(p.0, q.0)
    ensures Ordered([p] + ps)
  {
    assert forall q | q in ps :: KeyLessEq(p.0, q.0);
  }

  lemma {:induction false} FirstOccurrencesOrdered(params: seq<Pair>, seen: set<Pair>)
    requires Ordered(params)
    ensures Ordered(FirstOccurrences(params, seen))
    ensures forall q | q in FirstOccurrences(params, seen) :: q in params && q !in seen
  {
    if params == [] {
    } else {
      var p, rest := params[0], params[1..];
      if p in seen {
        FirstOccurrencesOrdered(rest, seen);
      } else {
        FirstOccurrencesOrdered(rest, seen + {p});
        OrderedCons(p, FirstOccurrences(rest, seen + {p}));
      }
    }
  }

  predicate Unrepeated(params: seq<Pair>) {
    forall i, j | 0 <= i < j < |params| :: params[i] != params[j]
  }

  lemma {:induction false} FirstOccurrencesExact(params: seq<Pair>, seen: set<Pair>)
    ensures |FirstOccurrences(params, seen)| <= |params|
    ensures FirstOccurrences(params, seen) == params
            <==> Unrepeated(params) && forall p | p in params :: p !in seen
  {
    if params == [] {
    } else {
      var p, rest := params[0], params[1..];
      FirstOccurrencesExact(rest, seen);
      FirstOccurrencesExact(rest, seen + {p});
      assert params == [p] + rest;
      assert Unrepeated(params) <==> Unrepeated(rest) && p !in rest;
    }
  }

  /** Parsing a printed multimap rebuilds it without the repetitions of an entry, so exactly iff no entry repeats. */
  lemma QueryRoundTrip(params: seq<Pair>)
    requires Ordered(params) && PlainKeys(params) && Printable(params)
    ensures EmplaceAll([], ParsedQuery(Query(params))) == FirstOccurrences(params, {})
    ensures EmplaceAll([], ParsedQuery(Query(params))) == params <==> Unrepeated(params)
  {
    QueryPieces(params);
    ItemsParse(params, {}, {});
    var first := FirstOccurrences(params, {});
    FirstOccurrencesOrdered(params, {});
    assert [] + first == first;
    EmplaceOrdered([], first);
    FirstOccurrencesExact(params, {});
  }
}
