/**
 * Trimming and splitting as the HTTP codecs do it. Characters stand for bytes.
 *
 * Splitting drops empty pieces and trims the others. The two scans of trim run over the whole text, not towards each
 * other, so that a piece may come out as bounds that cross.
 */
module HttpText {
  import opened Common

  const HEADER_MAX_LENGTH: nat := 8192

  predicate Blank(c: char) {
    c == ' ' || c == '\t'
  }

  function TrimLeft(s: string): string {
    if s != "" && Blank(s[0]) then TrimLeft(s[1..]) else s
  }

  function TrimRight(s: string): string {
    if s != "" && Blank(s[|s| - 1]) then TrimRight(s[..|s| - 1]) else s
  }

  function Trim(s: string): string {
    TrimRight(TrimLeft(s))
  }

  function Keep(s: string): seq<string> {
    if s == "" then [] else [s]
  }

  /** The trimmed non-empty parts between delimiters, in order. */
  function Pieces(s: string, d: char): seq<string>
    decreases |s|
  {
    var i := IndexOf(s, d);
    Keep(Trim(s[..i])) + if i == |s| then [] else Pieces(s[i + 1..], d)
  }

  lemma {:induction false} TrimLeftBlank(s: string)
    requires s != "" && Blank(s[|s| - 1])
    ensures TrimRight(TrimLeft(s)) == TrimRight(TrimLeft(s[..|s| - 1]))
  {
    var t := s[..|s| - 1];
    if Blank(s[0]) {
      if |s| > 1 {
        assert s[1..][..|s[1..]| - 1] == t[1..];
        TrimLeftBlank(s[1..]);
      } else {
        assert s[1..] == "" && t == "";
      }
    } else {
      assert TrimLeft(s) == s;
      assert TrimLeft(t) == t;
    }
  }

  lemma TrimRightRange(s: string, left: nat, right: nat)
    requires left < right <= |s| && Blank(s[right - 1])
    ensures Trim(s[left..right]) == Trim(s[left..right - 1])
  {
    var t := s[left..right];
    assert t[..|t| - 1] == s[left..right - 1];
    TrimLeftBlank(t);
  }

  /** trim: the left scan runs to the end of the text and the right scan to its start, not to each other. */
  method TrimBounds(b: string, left0: nat, right0: nat) returns (left: nat, right: nat)
    requires left0 <= right0 <= |b|
    ensures left <= |b| && right <= |b|
    ensures if left < right then b[left..right] == Trim(b[left0..right0]) else Trim(b[left0..right0]) == ""
  {
    left, right := left0, right0;
    while left < |b| && Blank(b[left])
      invariant left0 <= left <= |b|
      invariant left <= right0 ==> Trim(b[left0..right0]) == Trim(b[left..right0])
      invariant left > right0 ==> Trim(b[left0..right0]) == ""
    {
      left := left + 1;
    }
    while right > 0 && Blank(b[right - 1])
      invariant right <= right0
      invariant left <= right ==> Trim(b[left0..right0]) == Trim(b[left..right])
      invariant left > right ==> Trim(b[left0..right0]) == ""
    {
      if left < right { TrimRightRange(b, left, right); }
      right := right - 1;
    }
    if left < right {
      var t := b[left..right];
      assert !Blank(t[0]) && !Blank(t[|t| - 1]);
    }
  }

  ghost predicate SplitTo(all: seq<string>, done: seq<string>, left: string, d: char) {
    all == done + Pieces(left, d)
  }

  lemma PieceFound(all: seq<string>, done: seq<string>, left: string, d: char, piece: string, rest: string)
    requires SplitTo(all, done, left, d) && d !in piece && left == piece + [d] + rest
    ensures SplitTo(all, done + Keep(Trim(piece)), rest, d)
  {
    PiecesCons(piece, rest, d);
    Glue(done, Keep(Trim(piece)), Pieces(rest, d));
  }

  lemma PieceLast(all: seq<string>, done: seq<string>, left: string, d: char)
    requires SplitTo(all, done, left, d) && d !in left
    ensures all == done + Keep(Trim(left))
  {
    PiecesLast(left, d);
  }

  lemma CutAt(s: string, beg: nat, i: nat)
    requires beg <= i < |s|
    ensures s[beg..] == s[beg..i] + [s[i]] + s[i + 1..]
  {}

  lemma RangeGrow(s: string, d: char, beg: nat, i: nat)
    requires beg <= i < |s| && d !in s[beg..i] && s[i] != d
    ensures d !in s[beg..i + 1]
  {
    assert s[beg..i + 1] == s[beg..i] + [s[i]];
  }

  method EmitPiece(done: seq<string>, s: string, beg: nat, i: nat) returns (pieces: seq<string>)
    requires beg <= i <= |s|
    ensures pieces == done + Keep(Trim(s[beg..i]))
  {
    pieces := done;
    var left, right := TrimBounds(s, beg, i);
    if left < right { pieces := pieces + [s[left..right]]; }
  }

  /** split: one callback per non-empty trimmed piece. */
  method Split(s: string, d: char) returns (pieces: seq<string>)
    ensures pieces == Pieces(s, d)
  {
    pieces := [];
    var i, beg := 0, 0;
    ghost var all := Pieces(s, d);
    assert s[0..] == s && pieces + all == all;
    while i < |s|
      invariant beg <= i <= |s| && d !in s[beg..i]
      invariant SplitTo(all, pieces, s[beg..], d)
    {
      if s[i] == d {
        CutAt(s, beg, i);
        PieceFound(all, pieces, s[beg..], d, s[beg..i], s[i + 1..]);
        pieces := EmitPiece(pieces, s, beg, i);
        beg := i + 1;
      } else {
        RangeGrow(s, d, beg, i);
      }
      i := i + 1;
    }
    assert s[beg..] == s[beg..i];
    PieceLast(all, pieces, s[beg..i], d);
    if i > 0 { pieces := EmitPiece(pieces, s, beg, i); }
  }

  /** trim_double_quotes_copy */
  function Unquote(s: string): string {
    if |s| >= 2 && s[0] == '"' && s[|s| - 1] == '"' then s[1..|s| - 1] else s
  }

  // Lists of key=value entries, each used once

  type Pair = (string, string)

  /** The key is the first part that is not empty; of the others, the last is the value. */
  function KeyValue(kv: string): Option<Pair> {
    var parts := Pieces(kv, '=');
    if parts == [] then None else Some((parts[0], if |parts| > 1 then parts[|parts| - 1] else ""))
  }

  function KeyValues(pieces: seq<string>, cache: set<string>): seq<Pair> {
    if pieces == [] then []
    else if pieces[0] in cache then KeyValues(pieces[1..], cache)
    else Accepted(KeyValue(pieces[0])) + KeyValues(pieces[1..], cache + {pieces[0]})
  }

  function Accepted(item: Option<Pair>): seq<Pair> {
    if item.Some? then [item.value] else []
  }

  lemma PiecesNotEmpty(s: string, d: char)
    ensures forall i | 0 <= i < |Pieces(s, d)| :: Pieces(s, d)[i] != ""
    decreases |s|
  {
    var i := IndexOf(s, d);
    if i < |s| { PiecesNotEmpty(s[i + 1..], d); }
  }

  method SplitKeyValue(kv: string) returns (key: string, val: string)
    ensures KeyValue(kv) == if key == "" then None else Some((key, val))
  {
    var parts := Split(kv, '=');
    key, val := "", "";
    PiecesNotEmpty(kv, '=');
    for i := 0 to |parts|
      invariant key == if i == 0 then "" else parts[0]
      invariant val == if i > 1 then parts[i - 1] else ""
    {
      if key == "" { key := parts[i]; } else { val := parts[i]; }
    }
  }

  // Character classes

  /** isspace */
  predicate Space(c: char) {
    c == ' ' || '\t' <= c <= '\r'
  }

  function SkipSpace(s: string): (n: nat)
    ensures n <= |s|
  {
    if s != "" && Space(s[0]) then 1 + SkipSpace(s[1..]) else 0
  }

  predicate AllSpace(s: string) {
    forall i | 0 <= i < |s| :: Space(s[i])
  }

  lemma {:induction false} SpaceSkipped(w: string, t: string)
    requires AllSpace(w) && (t == "" || !Space(t[0]))
    ensures SkipSpace(w + t) == |w|
  {
    if w == "" {
      assert w + t == t;
    } else {
      assert (w + t)[1..] == w[1..] + t;
      SpaceSkipped(w[1..], t);
    }
  }

  // Hexadecimal digits

  function HexValue(c: char): (r: Option<nat>)
    ensures r.Some? ==> r.value < 16
  {
    if '0' <= c <= '9' then Some(c as int - '0' as int)
    else if 'A' <= c <= 'F' then Some(c as int - 'A' as int + 10)
    else if 'a' <= c <= 'f' then Some(c as int - 'a' as int + 10)
    else None
  }

  // Texts that split apart again

  predicate Tight(s: string) {
    s != "" && !Blank(s[0]) && !Blank(s[|s| - 1])
  }

  lemma TrimTight(s: string)
    requires Tight(s)
    ensures Trim(s) == s
  {}

  lemma {:induction false} TrimRightShape(s: string)
    ensures TrimRight(s) <= s && (TrimRight(s) != "" ==> !Blank(TrimRight(s)[|TrimRight(s)| - 1]))
  {
    if s != "" && Blank(s[|s| - 1]) {
      TrimRightShape(s[..|s| - 1]);
      assert s[..|s| - 1] <= s;
    }
  }

  lemma {:induction false} TrimLeftShape(s: string)
    ensures TrimLeft(s) != "" ==> !Blank(TrimLeft(s)[0])
    ensures |TrimLeft(s)| <= |s| && TrimLeft(s) == s[|s| - |TrimLeft(s)|..]
  {
    if s != "" && Blank(s[0]) { TrimLeftShape(s[1..]); }
  }

  lemma TrimmedTight(s: string)
    ensures Trim(s) == "" || Tight(Trim(s))
  {
    TrimLeftShape(s);
    TrimRightShape(TrimLeft(s));
  }

  lemma TrimShort(s: string)
    ensures |Trim(s)| <= |s|
  {
    TrimLeftShape(s);
    TrimRightShape(TrimLeft(s));
  }

  lemma {:induction false} PiecesShort(s: string, d: char)
    ensures forall i | 0 <= i < |Pieces(s, d)| :: |Pieces(s, d)[i]| <= |s|
    decreases |s|
  {
    var i := IndexOf(s, d);
    TrimShort(s[..i]);
    if i < |s| { PiecesShort(s[i + 1..], d); }
  }

  /** The first and the last piece of a text have room in it side by side. */
  predicate HaveRoom(ps: seq<string>, n: int) {
    |ps| > 1 ==> |ps[0]| + 1 + |ps[|ps| - 1]| <= n
  }

  lemma RoomCons(t: string, rest: seq<string>, n: nat)
    requires HaveRoom(rest, n) && forall i | 0 <= i < |rest| :: |rest[i]| <= n
    ensures HaveRoom(Keep(t) + rest, |t| + 1 + n)
  {
    if t == "" { assert Keep(t) + rest == rest; }
  }

  lemma {:induction false} PiecesRoom(s: string, d: char)
    ensures HaveRoom(Pieces(s, d), |s|)
    decreases |s|
  {
    var i := IndexOf(s, d);
    var t := Trim(s[..i]);
    TrimShort(s[..i]);
    if i < |s| {
      PiecesShort(s[i + 1..], d);
      PiecesRoom(s[i + 1..], d);
      RoomCons(t, Pieces(s[i + 1..], d), |s| - i - 1);
    }
  }

  lemma PiecesCons(a: string, b: string, d: char)
    requires d !in a
    ensures Pieces(a + [d] + b, d) == Keep(Trim(a)) + Pieces(b, d)
  {
    var s := a + [d] + b;
    assert s == a + ([d] + b);
    IndexOfAppend(a, [d] + b, d);
    assert s[..|a|] == a && s[|a| + 1..] == b;
  }

  lemma PiecesLast(a: string, d: char)
    requires d !in a
    ensures Pieces(a, d) == Keep(Trim(a))
  {
    IndexOfAppend(a, "", d);
    assert a + "" == a && a[..|a|] == a;
  }

  lemma KeyValueOf(key: string, val: string)
    requires Tight(key) && '=' !in key && '=' !in val && (val == "" || Tight(val))
    ensures KeyValue(key + ['='] + val) == Some((key, val))
  {
    PiecesCons(key, val, '=');
    PiecesLast(val, '=');
    TrimTight(key);
    if val != "" { TrimTight(val); }
  }

  lemma {:induction false} TrimLeftAvoids(s: string, c: char)
    requires c !in s
    ensures c !in TrimLeft(s)
  {
    if s != "" && Blank(s[0]) { TrimLeftAvoids(s[1..], c); }
  }

  lemma {:induction false} TrimRightAvoids(s: string, c: char)
    requires c !in s
    ensures c !in TrimRight(s)
  {
    if s != "" && Blank(s[|s| - 1]) { TrimRightAvoids(s[..|s| - 1], c); }
  }

  predicate NoneHas(pieces: seq<string>, c: char) {
    forall i | 0 <= i < |pieces| :: c !in pieces[i]
  }

  /** The pieces have neither the delimiter nor what the text does not have. */
  lemma {:induction false} PiecesAvoid(s: string, d: char, c: char)
    requires c == d || c !in s
    ensures NoneHas(Pieces(s, d), c)
    decreases |s|
  {
    var i := IndexOf(s, d);
    TrimLeftAvoids(s[..i], c);
    TrimRightAvoids(TrimLeft(s[..i]), c);
    if i < |s| { PiecesAvoid(s[i + 1..], d, c); }
  }

  lemma {:induction false} PiecesTight(s: string, d: char)
    ensures forall i | 0 <= i < |Pieces(s, d)| :: Tight(Pieces(s, d)[i])
    decreases |s|
  {
    var i := IndexOf(s, d);
    TrimmedTight(s[..i]);
    if i < |s| { PiecesTight(s[i + 1..], d); }
  }

  lemma FirstCut(a: string, d: char) returns (front: string, back: string)
    requires d in a
    ensures a == front + [d] + back && d !in front && |front| < |a| && |back| < |a|
  {
    var i := IndexOf(a, d);
    assert a == a[..i] + a[i..];
    front, back := a[..i], a[i + 1..];
  }

  lemma Shifted(front: string, d: char, back: string, b: string)
    ensures front + [d] + back + [d] + b == front + [d] + (back + [d] + b)
  {}

  lemma AppendStep(front: string, back: string, b: string, d: char, tail: string)
    requires d !in front && Pieces(tail, d) == Pieces(back, d) + Pieces(b, d)
    ensures Pieces(front + [d] + tail, d) == Pieces(front + [d] + back, d) + Pieces(b, d)
  {
    PiecesCons(front, tail, d);
    PiecesCons(front, back, d);
    Glue(Keep(Trim(front)), Pieces(back, d), Pieces(b, d));
  }

  lemma {:induction false} PiecesAppend(a: string, b: string, d: char)
    ensures Pieces(a + [d] + b, d) == Pieces(a, d) + Pieces(b, d)
    decreases |a|
  {
    if d !in a {
      PiecesCons(a, b, d);
      PiecesLast(a, d);
    } else {
      var front, back := FirstCut(a, d);
      PiecesAppend(back, b, d);
      AppendStep(front, back, b, d, back + [d] + b);
      Shifted(front, d, back, b);
    }
  }
}
