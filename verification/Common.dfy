/** Shared result types, and facts about sequences. */
module Common {
  datatype Option<+T> = None | Some(value: T)

  datatype Result<+T, +E> = Ok(value: T) | Err(error: E)

  /** The position of the first c, or the length if there is none. */
  function IndexOf(s: string, c: char): (i: nat)
    ensures i <= |s| && c !in s[..i] && (i < |s| ==> s[i] == c)
  {
    if s == "" || s[0] == c then 0
    else
      var i := IndexOf(s[1..], c);
      assert s[..1 + i] == [s[0]] + s[1..][..i];
      1 + i
  }

  lemma IndexOfAppend(a: string, b: string, c: char)
    ensures IndexOf(a + b, c) == if c in a then IndexOf(a, c) else |a| + IndexOf(b, c)
  {
    if a == "" {
      assert a + b == b;
    } else {
      assert (a + b)[1..] == a[1..] + b;
      IndexOfAppend(a[1..], b, c);
      assert a == [a[0]] + a[1..];
    }
  }

  lemma Glue<T>(a: seq<T>, b: seq<T>, c: seq<T>)
    ensures a + (b + c) == a + b + c
  {}

  lemma Cancel<T>(a: seq<T>, b: seq<T>, c: seq<T>)
    ensures a + b == a + c <==> b == c
  {
    if a + b == a + c {
      assert b == (a + b)[|a|..] && c == (a + c)[|a|..];
    }
  }

  lemma Sliced<T>(s: seq<T>, last: nat, i: nat, j: nat)
    requires i <= j && last + j <= |s|
    ensures s[last..][i..j] == s[last + i..last + j]
  {}

  lemma Dropped<T>(s: seq<T>, last: nat, i: nat)
    requires last + i <= |s|
    ensures s[last..][i..] == s[last + i..]
  {}

  function Joined(parts: seq<string>): string {
    if parts == [] then "" else parts[0] + Joined(parts[1..])
  }

  function Min(a: int, b: int): int { if a < b then a else b }

  /** The order of std::string, which std::map and std::multimap use for their keys. */
  predicate KeyLessEq(a: string, b: string) {
    a == [] || (b != [] && (a[0] < b[0] || (a[0] == b[0] && KeyLessEq(a[1..], b[1..]))))
  }

  lemma KeyTotal(a: string, b: string)
    ensures KeyLessEq(a, b) || KeyLessEq(b, a)
  {
    if a != [] && b != [] { KeyTotal(a[1..], b[1..]); }
  }

  lemma KeyAntisymmetric(a: string, b: string)
    requires KeyLessEq(a, b) && KeyLessEq(b, a)
    ensures a == b
  {
    if a != [] && b != [] {
      KeyAntisymmetric(a[1..], b[1..]);
      assert a == [a[0]] + a[1..] && b == [b[0]] + b[1..];
    }
  }

  lemma KeyTransitive(a: string, b: string, c: string)
    requires KeyLessEq(a, b) && KeyLessEq(b, c)
    ensures KeyLessEq(a, c)
  {
    if a != [] && a[0] == b[0] == c[0] { KeyTransitive(a[1..], b[1..], c[1..]); }
  }

  lemma DivMod(x: int, d: int, q: int, r: int)
    requires 0 <= r < d && x == q * d + r
    ensures x / d == q && x % d == r
  {
    var k := q - x / d;
    assert k * d == x % d - r;
    if k >= 1 { Scaled(k, d); }
    if k <= -1 { Scaled(-k, d); }
  }

  lemma Scaled(k: int, d: int)
    requires d > 0 && k >= 1
    ensures k * d >= d
  {}
}
