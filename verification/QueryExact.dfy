/** For a single entry of a query string, the condition on its key is necessary as well as sufficient. */
module QueryExact {
  import opened Common
  import opened HttpText
  import opened QueryText

  /** Not longer than a text, and the text itself if as long. */
  predicate Inside(x: string, t: string) {
    |x| < |t| || x == t
  }

  lemma TrimInside(s: string)
    ensures Inside(Trim(s), s)
  {
    TrimLeftShape(s);
    TrimRightShape(TrimLeft(s));
  }

  lemma PieceInside(t: string, s: string, i: nat, parts: seq<string>)
    requires i <= |s| && t == Trim(s[..i])
    requires forall j | 0 <= j < |parts| :: |parts[j]| < |s|
    ensures forall j | 0 <= j < |Keep(t) + parts| :: Inside((Keep(t) + parts)[j], s)
  {
    TrimInside(s[..i]);
    if i == |s| { assert s[..i] == s; }
  }

  lemma PiecesInside(s: string, d: char)
    ensures forall i | 0 <= i < |Pieces(s, d)| :: Inside(Pieces(s, d)[i], s)
  {
    var i := IndexOf(s, d);
    if i < |s| {
      PiecesShort(s[i + 1..], d);
      PieceInside(Trim(s[..i]), s, i, Pieces(s[i + 1..], d));
    } else {
      PieceInside(Trim(s[..i]), s, i, []);
    }
  }

  lemma {:induction false} TrimLeftFront(k: string, r: string)
    requires r != "" && !Blank(r[0])
    ensures TrimLeft(k + r) == TrimLeft(k) + r
  {
    if k == "" {
      assert k + r == r;
    } else {
      assert (k + r)[1..] == k[1..] + r;
      TrimLeftFront(k[1..], r);
    }
  }

  lemma TrimItem(k: string, e: string)
    requires e == "" || Tight(e)
    ensures Trim(k + (['='] + e)) == TrimLeft(k) + (['='] + e)
  {
    var r := ['='] + e;
    assert r[0] == '=' && r[|r| - 1] == if e == "" then '=' else e[|e| - 1];
    TrimLeftFront(k, r);
    EndKept(TrimLeft(k), r);
  }

  lemma EndKept(a: string, b: string)
    requires b != "" && !Blank(b[|b| - 1])
    ensures TrimRight(a + b) == a + b
  {}

  /** The printed value cannot be split. */
  predicate Unsplit(e: string) {
    '&' !in e && '=' !in e && (e == "" || Tight(e))
  }

  /** What a piece of the printed entry can give: a key from the printed key, or the value taken for a key. */
  predicate Given(kv: Pair, k: string, e: string) {
    Inside(kv.0, k) || (kv.1 == "" && e != "")
  }

  lemma LastGiven(k: string, e: string)
    requires Unsplit(e)
    ensures var item := KeyValue(Trim(k + (['='] + e))); item.Some? ==> Given(item.value, k, e)
  {
    var left := TrimLeft(k);
    TrimItem(k, e);
    assert left + (['='] + e) == left + ['='] + e;
    PiecesAppend(left, e, '=');
    PiecesLast(e, '=');
    if e != "" { TrimTight(e); }
    PiecesInside(left, '=');
    TrimLeftShape(k);
    assert Inside(left, k);
  }

  lemma FrontGiven(front: string, k: string, e: string)
    requires |front| < |k|
    ensures var item := KeyValue(Trim(front)); item.Some? ==> Given(item.value, k, e)
  {
    TrimInside(front);
    PiecesInside(Trim(front), '=');
  }

  predicate AllGiven(pieces: seq<string>, k: string, e: string) {
    forall i | 0 <= i < |pieces| :: KeyValue(pieces[i]).Some? ==> Given(KeyValue(pieces[i]).value, k, e)
  }

  lemma GivenCons(t: string, pieces: seq<string>, k: string, e: string)
    requires AllGiven(pieces, k, e) && (KeyValue(t).Some? ==> Given(KeyValue(t).value, k, e))
    ensures AllGiven(Keep(t) + pieces, k, e)
  {}

  lemma GivenLonger(pieces: seq<string>, back: string, k: string, e: string)
    requires AllGiven(pieces, back, e) && |back| < |k|
    ensures AllGiven(pieces, k, e)
  {}

  lemma {:induction false} PiecesGiven(k: string, e: string)
    requires Unsplit(e)
    ensures AllGiven(Pieces(k + (['='] + e), '&'), k, e)
    decreases |k|
  {
    var item := ['='] + e;
    if '&' !in k {
      PiecesLast(k + item, '&');
      LastGiven(k, e);
      GivenCons(Trim(k + item), [], k, e);
      assert Keep(Trim(k + item)) + [] == Keep(Trim(k + item));
    } else {
      var front, back := FirstCut(k, '&');
      var pieces := Pieces(back + item, '&');
      PiecesGiven(back, e);
      GivenLonger(pieces, back, k, e);
      FrontGiven(front, k, e);
      GivenCons(Trim(front), pieces, k, e);
      PiecesCons(front, back + item, '&');
      Glue(front + ['&'], back, item);
    }
  }

  /** What is taken for a key before it is decoded. */
  predicate RawKey(x: string) {
    Tight(x) && '&' !in x && '=' !in x
  }

  lemma KeyRaw(q: string)
    requires '&' !in q && KeyValue(q).Some?
    ensures RawKey(KeyValue(q).value.0)
  {
    PiecesTight(q, '=');
    PiecesAvoid(q, '=', '=');
    PiecesAvoid(q, '=', '&');
  }

  lemma {:induction false} EntriesGiven(pieces: seq<string>, cache: set<string>, k: string, e: string)
    requires AllGiven(pieces, k, e) && NoneHas(pieces, '&')
    ensures forall i | 0 <= i < |KeyValues(pieces, cache)| ::
              Given(KeyValues(pieces, cache)[i], k, e) && RawKey(KeyValues(pieces, cache)[i].0)
  {
    if pieces == [] {
    } else {
      if KeyValue(pieces[0]).Some? { KeyRaw(pieces[0]); }
      EntriesGiven(pieces[1..], if pieces[0] in cache then cache else cache + {pieces[0]}, k, e);
    }
  }

  lemma {:induction false} EmplaceLength(params: seq<Pair>, p: Pair)
    ensures |Emplace(params, p)| == |params| + 1
  {
    if params == [] {
    } else {
      EmplaceLength(params[1..], p);
    }
  }

  lemma {:induction false} EmplaceAllLength(params: seq<Pair>, ps: seq<Pair>)
    ensures |EmplaceAll(params, ps)| == |params| + |ps|
    decreases ps
  {
    if ps == [] {
    } else {
      EmplaceLength(params, ps[0]);
      EmplaceAllLength(Emplace(params, ps[0]), ps[1..]);
    }
  }

  lemma OneEmplaced(ps: seq<Pair>, p: Pair)
    requires EmplaceAll([], ps) == [p]
    ensures ps == [p]
  {
    EmplaceAllLength([], ps);
    assert ps[1..] == [] && ps == [ps[0]];
    assert [ps[0]] + [] == [ps[0]];
  }

  lemma OneDecoded(kvs: seq<Pair>, p: Pair)
    requires DecodedAll(kvs) == [p]
    ensures |kvs| == 1 && Decoded(kvs[0]) == p
  {
    assert DecodedAll(kvs)[0] == Decoded(kvs[0]);
  }

  lemma OneQuery(p: Pair)
    requires Octets(p.1)
    ensures Printable([p]) && Query([p]) == p.0 + (['='] + Encode(p.1))
  {
    assert [p][1..] == [] && Item(p) + "" == Item(p);
    assert p.0 + ['='] + Encode(p.1) == p.0 + (['='] + Encode(p.1));
  }

  lemma KeyNecessary(p: Pair)
    requires Octets(p.1) && EmplaceAll([], ParsedQuery(Query([p]))) == [p]
    ensures PlainKey(p.0)
  {
    var k, e, s := p.0, Encode(p.1), Query([p]);
    OneQuery(p);
    EncodedChars(p.1);
    PiecesGiven(k, e);
    PiecesAvoid(s, '&', '&');
    EntriesGiven(Pieces(s, '&'), {}, k, e);
    OneEmplaced(ParsedQuery(s), p);
    OneDecoded(KeyValues(Pieces(s, '&'), {}), p);
    DecodeShort(KeyValues(Pieces(s, '&'), {})[0].0, true);
  }

  /** An entry printed and parsed on its own comes back if and only if its key is a piece that stands for itself. */
  lemma OneEntryExact(p: Pair)
    requires Octets(p.1)
    ensures Printable([p])
    ensures EmplaceAll([], ParsedQuery(Query([p]))) == [p] <==> PlainKey(p.0)
  {
    OneQuery(p);
    if PlainKey(p.0) { QueryRoundTrip([p]); } else if EmplaceAll([], ParsedQuery(Query([p]))) == [p] { KeyNecessary(p); }
  }
}
