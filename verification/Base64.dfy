/**
 * base64_encode: a shifting accumulator that computes the grouping of section 4 of RFC 4648.
 *
 * The accumulator is an int that is shifted by eight bits for every byte and never cleared. Only its low bits are used,
 * so it makes no difference whether the shifts keep all bits or wrap around.
 */
module Base64 {
  import opened Common

  type Octet = n: int | 0 <= n < 256
  type Sextet = n: int | 0 <= n < 64

  // The grouping of the standard

  /** Every three bytes give four groups of six bits; the bits left over are followed by zero bits. */
  function Sextets(s: seq<Octet>): seq<Sextet> {
    if |s| > 2 then Four(s[0], s[1], s[2]) + Sextets(s[3..]) else Open(s) + Last(s)
  }

  function Four(a: Octet, b: Octet, c: Octet): seq<Sextet> {
    [a / 4, a % 4 * 16 + b / 16, b % 16 * 4 + c / 64, c % 64]
  }

  /** The groups that the bytes of an incomplete group fill. */
  function Open(t: seq<Octet>): seq<Sextet>
    requires |t| < 3
  {
    if t == [] then [] else if |t| == 1 then [t[0] / 4] else [t[0] / 4, t[0] % 4 * 16 + t[1] / 16]
  }

  /** The group that holds its remaining bits. */
  function Last(t: seq<Octet>): seq<Sextet>
    requires |t| < 3
  {
    if t == [] then [] else if |t| == 1 then [t[0] % 4 * 16] else [t[1] % 16 * 4]
  }

  /** The lookup table: A-Z, a-z, 0-9, '+', '/'. */
  function Symbol(n: Sextet): char {
    if n < 26 then 'A' + n as char
    else if n < 52 then 'a' + (n - 26) as char
    else if n < 62 then '0' + (n - 52) as char
    else if n == 62 then '+' else '/'
  }

  function Text(sextets: seq<Sextet>): (r: string)
    ensures |r| == |sextets|
  {
    seq(|sextets|, i requires 0 <= i < |sextets| => Symbol(sextets[i]))
  }

  function Padding(n: nat): string {
    if n % 4 == 0 then "" else if n % 4 == 1 then "===" else if n % 4 == 2 then "==" else "="
  }

  function Encoded(s: seq<Octet>): string {
    Text(Sextets(s)) + Padding(|Sextets(s)|)
  }

  lemma {:induction false} SextetsAppend(s: seq<Octet>, t: seq<Octet>)
    requires |s| % 3 == 0
    ensures Sextets(s + t) == Sextets(s) + Sextets(t)
  {
    if s == [] {
      assert s + t == t;
    } else {
      var rest := s[3..];
      assert (s + t)[3..] == rest + t;
      SextetsAppend(rest, t);
      Glue(Four(s[0], s[1], s[2]), Sextets(rest), Sextets(t));
    }
  }

  lemma {:induction false} SextetsLength(s: seq<Octet>)
    ensures |Sextets(s)| == |s| / 3 * 4 + if |s| % 3 == 0 then 0 else |s| % 3 + 1
  {
    if |s| > 2 { SextetsLength(s[3..]); }
  }

  lemma PaddedLength(m: nat, n: nat)
    requires m == n / 3 * 4 + if n % 3 == 0 then 0 else n % 3 + 1
    ensures m + |Padding(m)| == (n + 2) / 3 * 4 && (n + 2) / 3 * 4 % 4 == 0
  {
    var q, r := n / 3, n % 3;
    DivMod(m, 4, q, if r == 0 then 0 else r + 1);
    DivMod(n + 2, 3, if r == 0 then q else q + 1, if r == 0 then 2 else r - 1);
    DivMod((n + 2) / 3 * 4, 4, (n + 2) / 3, 0);
  }

  lemma EncodedLength(s: seq<Octet>)
    ensures |Encoded(s)| == (|s| + 2) / 3 * 4
    ensures |Encoded(s)| % 4 == 0
  {
    SextetsLength(s);
    PaddedLength(|Sextets(s)|, |s|);
  }

  // The accumulator

  /** The value of an int after a shift: 32 bits in two's complement, or all of it. */
  function Stored(x: int, wraps: bool): int {
    if wraps then (x + 0x8000_0000) % 0x1_0000_0000 - 0x8000_0000 else x
  }

  /** Six bits of the accumulator. The shift of a negative value rounds down. */
  function SixBits(val: int, shift: int): (r: int)
    ensures 0 <= r < 64
  {
    if shift == 0 then val % 64 else if shift == 2 then val / 4 % 64 else if shift == 4 then val / 16 % 64
    else val / 64 % 64
  }

  lemma LowSixBits(val: int, low: int, c: Octet)
    requires 0 <= low < 16 && val % 4096 == low * 256 + c
    ensures SixBits(val, 0) == c % 64 && SixBits(val, 2) == c / 4
  {
    var h := val / 4096;
    DivMod(val, 64, h * 64 + low * 4 + c / 64, c % 64);
    DivMod(val, 4, h * 1024 + low * 64 + c / 4, c % 4);
    DivMod(val / 4, 64, h * 16 + low, c / 4);
  }

  lemma HighSixBits(val: int, low: int, c: Octet)
    requires 0 <= low < 16 && val % 4096 == low * 256 + c
    ensures SixBits(val, 4) == low % 4 * 16 + c / 16 && SixBits(val, 6) == low * 4 + c / 64
  {
    var h := val / 4096;
    DivMod(val, 16, h * 256 + low * 16 + c / 16, c % 16);
    DivMod(val / 16, 64, h * 4 + low / 4, low % 4 * 16 + c / 16);
    DivMod(val, 64, h * 64 + low * 4 + c / 64, c % 64);
    DivMod(val / 64, 64, h, low * 4 + c / 64);
  }

  lemma StoredLow(x: int, wraps: bool)
    ensures Stored(x, wraps) % 4096 == x % 4096
  {
    if wraps {
      var h := (x + 0x8000_0000) / 0x1_0000_0000;
      DivMod(Stored(x, wraps), 4096, x / 4096 - h * 0x10_0000, x % 4096);
    }
  }

  lemma StoredForByte(val: int, last: Octet, c: Octet, wraps: bool)
    requires val % 256 == last
    ensures var x := Stored(val * 256 + c, wraps); x % 256 == c && x / 256 % 16 == last % 16
  {
    StoredLow(val * 256 + c, wraps);
    var x, h := Stored(val * 256 + c, wraps), val / 256;
    DivMod(val * 256 + c, 4096, h * 16 + last / 16, last % 16 * 256 + c);
    DivMod(x, 256, x / 4096 * 16 + last % 16, c);
    DivMod(x / 256, 16, x / 4096, last % 16);
  }

  lemma LowBits(x: int, c: Octet, low: int)
    requires x % 256 == c && x / 256 % 16 == low
    ensures x % 4096 == low * 256 + c
  {
    var q := x / 256 / 16;
    assert x / 256 == q * 16 + low;
    DivMod(x, 4096, q, low * 256 + c);
  }

  /** The shift behind the loop, with the bits that are left over in front. */
  lemma PaddingBits(val: int, c: Octet, wraps: bool)
    requires val % 256 == c
    ensures var x := Stored(val * 256, wraps); SixBits(x, 4) == c % 4 * 16 && SixBits(x, 6) == c % 16 * 4
  {
    var x := Stored(val * 256, wraps);
    StoredForByte(val, c, 0, wraps);
    LowBits(x, 0, c % 16);
    HighSixBits(x, c % 16, 0);
  }

  function LoopGroups(val: int, valb: int): seq<Sextet>
    decreases valb + 6
  {
    if valb < 0 then [] else [SixBits(val, valb)] + LoopGroups(val, valb - 6)
  }

  lemma GroupsForByte(val: int, t: seq<Octet>, c: Octet)
    requires |t| < 3 && val % 256 == c && (t != [] ==> val / 256 % 16 == t[|t| - 1] % 16)
    ensures Open(t) + LoopGroups(val, 2 * |t| + 2) == if |t| < 2 then Open(t + [c]) else Four(t[0], t[1], c)
  {
    var low := val / 256 % 16;
    LowBits(val, c, low);
    LowSixBits(val, low, c);
    HighSixBits(val, low, c);
    if |t| == 2 {
      assert LoopGroups(val, 6) == [SixBits(val, 6)] + LoopGroups(val, 0);
      assert LoopGroups(val, 0) == [SixBits(val, 0)] + LoopGroups(val, -6);
    } else {
      assert LoopGroups(val, 2 * |t| + 2) == [SixBits(val, 2 * |t| + 2)] + LoopGroups(val, 2 * |t| - 4);
      if |t| == 1 { LowFour(val, t[0]); }
    }
  }

  lemma LowFour(val: int, c: Octet)
    requires val / 256 % 16 == c % 16
    ensures val / 256 % 16 % 4 == c % 4
  {}

  /** What the loop has stored and written once it has read the full groups and the incomplete group t. */
  ghost predicate Reached(full: seq<Octet>, t: seq<Octet>, val: int, out: seq<Sextet>) {
    |full| % 3 == 0 && |t| < 3 && out == Sextets(full) + Open(t) && (t != [] ==> val % 256 == t[|t| - 1])
  }

  lemma FourClosed(full: seq<Octet>, t: seq<Octet>, c: Octet, more: seq<Sextet>)
    requires |full| % 3 == 0 && |t| == 2 && Open(t) + more == Four(t[0], t[1], c)
    ensures Sextets(full) + Open(t) + more == Sextets(full + (t + [c])) + Open([])
  {
    var g := t + [c];
    SextetsAppend(full, g);
    FourSextets(g);
    Glue(Sextets(full), Open(t), more);
  }

  lemma FourSextets(g: seq<Octet>)
    requires |g| == 3
    ensures Sextets(g) == Four(g[0], g[1], g[2])
  {
    assert g[3..] == [];
  }

  lemma ByteOpens(full: seq<Octet>, t: seq<Octet>, val: int, x: int, out: seq<Sextet>, c: Octet)
    requires Reached(full, t, val, out) && |t| < 2
    requires x % 256 == c && x / 256 % 16 == val % 256 % 16
    ensures Reached(full, t + [c], x, out + LoopGroups(x, 2 * |t| + 2))
  {
    GroupsForByte(x, t, c);
    Glue(Sextets(full), Open(t), LoopGroups(x, 2 * |t| + 2));
  }

  lemma ByteCloses(full: seq<Octet>, t: seq<Octet>, val: int, x: int, out: seq<Sextet>, c: Octet)
    requires Reached(full, t, val, out) && |t| == 2
    requires x % 256 == c && x / 256 % 16 == val % 256 % 16
    ensures Reached(full + (t + [c]), [], x, out + LoopGroups(x, 6))
  {
    GroupsForByte(x, t, c);
    FourClosed(full, t, c, LoopGroups(x, 6));
  }

  lemma TextAppend(a: seq<Sextet>, n: Sextet)
    ensures Text(a + [n]) == Text(a) + [Symbol(n)]
  {}

  /** The inner loop. */
  method PushSymbols(out0: string, val: int, valb0: int, ghost done0: seq<Sextet>)
    returns (out: string, valb: int, ghost done: seq<Sextet>)
    requires valb0 >= -6 && out0 == Text(done0)
    ensures out == Text(done) && done == done0 + LoopGroups(val, valb0)
    ensures -6 <= valb < 0 && (valb - valb0) % 6 == 0
  {
    out, valb, done := out0, valb0, done0;
    while valb >= 0
      invariant valb >= -6 && (valb - valb0) % 6 == 0 && out == Text(done)
      invariant done + LoopGroups(val, valb) == done0 + LoopGroups(val, valb0)
    {
      var n := SixBits(val, valb);
      Glue(done, [n], LoopGroups(val, valb - 6));
      TextAppend(done, n);
      out, done := out + [Symbol(n)], done + [n];
      valb := valb - 6;
    }
  }

  method PadToFour(out0: string) returns (out: string)
    ensures out == out0 + Padding(|out0|)
  {
    out := out0;
    while |out| % 4 != 0
      invariant out + Padding(|out|) == out0 + Padding(|out0|)
      decreases (4 - |out| % 4) % 4
    {
      PaddingStep(out);
      out := out + ['='];
    }
    assert out + "" == out;
  }

  lemma PaddingStep(out: string)
    requires |out| % 4 != 0
    ensures out + ['='] + Padding(|out| + 1) == out + Padding(|out|)
  {
    assert Padding(|out|) == ['='] + Padding(|out| + 1);
    assert out + (['='] + Padding(|out| + 1)) == out + ['='] + Padding(|out| + 1);
  }

  lemma SextetsEnd(full: seq<Octet>, t: seq<Octet>, val: int, out: seq<Sextet>, wraps: bool)
    requires Reached(full, t, val, out)
    ensures Sextets(full + t) == out + Last(t)
    ensures t != [] ==> Last(t) == [SixBits(Stored(val * 256, wraps), 2 * |t| + 2)]
  {
    SextetsAppend(full, t);
    Glue(Sextets(full), Open(t), Last(t));
    if t != [] { PaddingBits(val, t[|t| - 1], wraps); }
  }

  /** One round of the loop. */
  method PushByte(out0: string, val0: int, valb0: int, ghost full0: seq<Octet>, ghost t0: seq<Octet>,
                  ghost done0: seq<Sextet>, c: Octet, wraps: bool)
    returns (out: string, val: int, valb: int, ghost full: seq<Octet>, ghost t: seq<Octet>, ghost done: seq<Sextet>)
    requires Reached(full0, t0, val0, done0) && out0 == Text(done0) && valb0 == 2 * |t0| - 6
    ensures Reached(full, t, val, done) && out == Text(done) && valb == 2 * |t| - 6
    ensures full + t == full0 + t0 + [c]
  {
    StoredForByte(val0, val0 % 256, c, wraps);
    val := Stored(val0 * 256 + c, wraps);
    out, valb, done := PushSymbols(out0, val, valb0 + 8, done0);
    if |t0| < 2 {
      ByteOpens(full0, t0, val0, val, done0, c);
      full, t := full0, t0 + [c];
    } else {
      ByteCloses(full0, t0, val0, val, done0, c);
      full, t := full0 + (t0 + [c]), [];
    }
  }

  /** What follows the loop: the bits left over, and the padding. */
  method CloseText(out0: string, val: int, valb: int, ghost full: seq<Octet>, ghost t: seq<Octet>,
                   ghost done: seq<Sextet>, wraps: bool)
    returns (out: string)
    requires Reached(full, t, val, done) && out0 == Text(done) && valb == 2 * |t| - 6
    ensures out == Encoded(full + t)
  {
    out := out0;
    SextetsEnd(full, t, val, done, wraps);
    if valb > -6 {
      var n := SixBits(Stored(val * 256, wraps), valb + 8);
      TextAppend(done, n);
      out := out + [Symbol(n)];
    } else {
      assert done + [] == done;
    }
    out := PadToFour(out);
  }

  /** Whether the accumulator keeps all bits or wraps around, the output is the standard's grouping. */
  method Base64Encode(input: seq<Octet>, wraps: bool) returns (out: string)
    ensures out == Encoded(input)
  {
    out := "";
    var val, valb := 0, -6;
    ghost var full: seq<Octet>, t: seq<Octet>, done: seq<Sextet> := [], [], [];
    assert Reached(full, t, val, done) && full + t == input[..0];
    for i := 0 to |input|
      invariant input[..i] == full + t && Reached(full, t, val, done) && out == Text(done)
      invariant valb == 2 * |t| - 6
    {
      var c := input[i];
      assert input[..i + 1] == input[..i] + [c];
      out, val, valb, full, t, done := PushByte(out, val, valb, full, t, done, c, wraps);
    }
    assert input[..|input|] == input;
    out := CloseText(out, val, valb, full, t, done, wraps);
  }

  // The decoder of the standard

  function Value(c: char): (r: Option<Sextet>) {
    if 'A' <= c <= 'Z' then Some(c as int - 'A' as int)
    else if 'a' <= c <= 'z' then Some(c as int - 'a' as int + 26)
    else if '0' <= c <= '9' then Some(c as int - '0' as int + 52)
    else if c == '+' then Some(62)
    else if c == '/' then Some(63)
    else None
  }

  /** The bytes whose bits the groups hold; bits that fill no byte are dropped. */
  function Octets(n: seq<Sextet>): seq<Octet> {
    if |n| > 3 then Three(n[0], n[1], n[2], n[3]) + Octets(n[4..])
    else if |n| == 3 then Three(n[0], n[1], n[2], 0)[..2]
    else if |n| == 2 then Three(n[0], n[1], 0, 0)[..1]
    else []
  }

  function Three(p: Sextet, q: Sextet, r: Sextet, s: Sextet): seq<Octet> {
    [p * 4 + q / 16, q % 16 * 16 + r / 4, r % 4 * 64 + s]
  }

  function Values(text: string): Option<seq<Sextet>> {
    if text == "" then Some([])
    else
      var n, rest := Value(text[0]), Values(text[1..]);
      if n == None || rest == None then None else Some([n.value] + rest.value)
  }

  function Unpadded(text: string): string {
    if text != "" && text[|text| - 1] == '=' then Unpadded(text[..|text| - 1]) else text
  }

  function Decode(text: string): Option<seq<Octet>> {
    var n := Values(Unpadded(text));
    if |text| % 4 != 0 || n == None then None else Some(Octets(n.value))
  }

  lemma ThreeOfFour(a: Octet, b: Octet, c: Octet)
    ensures var n := Four(a, b, c); Three(n[0], n[1], n[2], n[3]) == [a, b, c]
  {
    DivMod(a % 4 * 16 + b / 16, 16, a % 4, b / 16);
    DivMod(b % 16 * 4 + c / 64, 4, b % 16, c / 64);
  }

  lemma {:induction false} OctetsOfSextets(s: seq<Octet>)
    ensures Octets(Sextets(s)) == s
  {
    if |s| > 2 {
      var four, rest := Four(s[0], s[1], s[2]), s[3..];
      OctetsOfSextets(rest);
      ThreeOfFour(s[0], s[1], s[2]);
      assert (four + Sextets(rest))[4..] == Sextets(rest);
      assert [s[0], s[1], s[2]] + rest == s;
    } else if |s| == 2 {
      ThreeOfFour(s[0], s[1], 0);
      assert Sextets(s) == [s[0] / 4, s[0] % 4 * 16 + s[1] / 16, s[1] % 16 * 4];
      assert [s[0], s[1], 0][..2] == s;
    } else if |s| == 1 {
      ThreeOfFour(s[0], 0, 0);
      assert Sextets(s) == [s[0] / 4, s[0] % 4 * 16];
      assert [s[0], 0, 0][..1] == s;
    }
  }

  lemma {:induction false} ValuesOfText(n: seq<Sextet>)
    ensures Values(Text(n)) == Some(n)
  {
    if n == [] {
    } else {
      assert Text(n)[1..] == Text(n[1..]);
      ValuesOfText(n[1..]);
      assert [n[0]] + n[1..] == n;
    }
  }

  lemma UnpaddedText(n: seq<Sextet>, k: nat)
    requires k < 4
    ensures Unpadded(Text(n) + ["", "=", "==", "==="][k]) == Text(n)
  {
    if k == 0 {
      assert Text(n) + "" == Text(n);
      if n != [] { assert Symbol(n[|n| - 1]) != '='; }
    } else {
      UnpaddedText(n, k - 1);
      var t := Text(n) + ["", "=", "==", "==="][k];
      assert t[..|t| - 1] == Text(n) + ["", "=", "==", "==="][k - 1];
    }
  }

  lemma UnpaddedEncoded(s: seq<Octet>)
    ensures Unpadded(Encoded(s)) == Text(Sextets(s))
  {
    var n := Sextets(s);
    var pad := Padding(|n|);
    assert pad == ["", "=", "==", "==="][|pad|];
    UnpaddedText(n, |pad|);
  }

  lemma DecodesTo(text: string, n: seq<Sextet>, s: seq<Octet>)
    requires |text| % 4 == 0 && Unpadded(text) == Text(n) && Octets(n) == s
    ensures Decode(text) == Some(s)
  {
    ValuesOfText(n);
  }

  /** No bytes are lost or confused: the standard's decoder gives back the input, of any length. */
  lemma DecodeEncoded(s: seq<Octet>)
    ensures Decode(Encoded(s)) == Some(s)
  {
    EncodedLength(s);
    UnpaddedEncoded(s);
    OctetsOfSextets(s);
    DecodesTo(Encoded(s), Sextets(s), s);
  }

  // Table 1 and the padding of the standard

  const LETTERS := "ABCDEFGHIJKLMNOPQRSTUVWXYZ"
  const SMALL_LETTERS := "abcdefghijklmnopqrstuvwxyz"
  const FIGURES := "0123456789+/"

  lemma SymbolTable(n: Sextet)
    ensures Symbol(n) == if n < 26 then LETTERS[n] else if n < 52 then SMALL_LETTERS[n - 26] else FIGURES[n - 52]
  {}

  lemma PaddedBy(m: nat, q: nat, r: nat)
    requires m == q * 4 + (if r == 0 then 0 else r + 1) && r < 3
    ensures Padding(m) == if r == 1 then "==" else if r == 2 then "=" else ""
  {
    DivMod(m, 4, q, if r == 0 then 0 else r + 1);
  }

  /** One byte left over is followed by two equals signs, two by one, and none by none. */
  lemma PaddingTable(s: seq<Octet>)
    ensures Encoded(s) == Text(Sextets(s)) + (if |s| % 3 == 1 then "==" else if |s| % 3 == 2 then "=" else "")
  {
    SextetsLength(s);
    PaddedBy(|Sextets(s)|, |s| / 3, |s| % 3);
  }
}
