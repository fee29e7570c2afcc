/**
 * Where a delimiter stands first: in a longer text, in a prefix, behind a text without it.
 *
 * A delimiter here does not overlap itself, because its first character does not come again in it. That makes the first
 * place in a text that is put together the place where the delimiter was put, and lets a prefix of the text decide.
 */
module MultipartFind {
  import opened Multipart

  lemma FindFound(v: string, s: string)
    requires s != "" && Find(v, s) < |v|
    ensures s <= v[Find(v, s)..]
  {
    if !(s <= v) {
      FindFound(v[1..], s);
      assert v[1..][Find(v[1..], s)..] == v[Find(v, s)..];
    } else {
      assert v[0..] == v;
    }
  }

  /** A prefix of the text shows the first place once it reaches behind it, and none before. */
  lemma {:induction false} FindInPrefix(view: string, rest: string, s: string)
    requires s != ""
    ensures var k := Find(view + rest, s);
            Find(view, s) == if k + |s| <= |view| then k else |view|
  {
    var w := view + rest;
    if |view| >= |s| {
      assert s <= view <==> s <= w;
      if !(s <= view) {
        assert w[1..] == view[1..] + rest;
        FindInPrefix(view[1..], rest, s);
      }
    }
  }

  /** Nothing of s can start among characters other than its first. */
  lemma {:induction false} FindBehind(h: string, v: string, s: string)
    requires s != "" && s[0] !in h
    ensures Find(h + v, s) == |h| + Find(v, s)
  {
    if h == "" {
      assert h + v == v;
    } else {
      assert (h + v)[1..] == h[1..] + v && (h + v)[0] == h[0];
      FindBehind(h[1..], v, s);
    }
  }

  /** A text without s, followed by s: the first place is where it was put, if s does not overlap itself. */
  lemma {:induction false} FindPut(a: string, s: string, b: string)
    requires s != "" && s[0] !in s[1..] && Find(a, s) == |a|
    ensures Find(a + (s + b), s) == |a|
  {
    var w := a + (s + b);
    if a == "" {
      assert w == s + b && s <= w;
    } else {
      NotOverlapping(a, s, b);
      assert w[1..] == a[1..] + (s + b);
      FindFrom(a, s, 1);
      FindPut(a[1..], s, b);
    }
  }

  lemma NotOverlapping(a: string, s: string, b: string)
    requires s != "" && a != "" && s[0] !in s[1..] && Find(a, s) == |a|
    ensures !(s <= a + (s + b))
  {
    var w := a + (s + b);
    if |s| <= |a| {
      assert s <= w <==> s <= a;
    } else {
      assert w[|a|] == s[0];
      assert s[1..][|a| - 1] == s[|a|];
    }
  }

  lemma {:induction false} FindFrom(w: string, s: string, n: nat)
    requires s != "" && n <= Find(w, s)
    ensures Find(w[n..], s) == Find(w, s) - n
  {
    if n == 0 {
      assert w[0..] == w;
    } else if |w| >= |s| {
      assert w[1..][n - 1..] == w[n..];
      FindFrom(w[1..], s, n - 1);
    }
  }

  lemma DropPrefix(a: string, b: string)
    ensures (a + b)[..|a|] == a && (a + b)[|a|..] == b
  {}
}
