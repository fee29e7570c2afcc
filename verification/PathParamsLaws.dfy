/** Patterns piece by piece: what their names are and what substituting values gives, without the cuts of the constructor. */
module PathParamsLaws {
  import opened Common
  import opened PathParams

  lemma MarkAt(s: string, u: string, p: string)
    requires ':' !in s && p == s + (":" + u)
    ensures ':' in p && Mark(p) == |s| && p[..|s|] == s && p[|s| + 1..] == u
  {
    IndexOfAppend(s, ":" + u, ':');
    assert p[|s|] == ':';
  }

  lemma EndAt(name: string, rest: string, u: string)
    requires '/' !in name && (rest == "" || rest[0] == '/') && u == name + rest
    ensures IndexOf(u, '/') == |name| && u[..|name|] == name && u[|name|..] == rest
  {
    IndexOfAppend(name, rest, '/');
  }

  lemma Cuts(s: string, name: string, rest: string, u: string, p: string)
    requires ':' !in s && '/' !in name && (rest == "" || rest[0] == '/') && u == name + rest && p == s + (":" + u)
    ensures ':' in p && Mark(p) == |s| && NameEnd(p) == |s| + 1 + |name|
    ensures p[..Mark(p)] == s && p[Mark(p) + 1..NameEnd(p)] == name && p[NameEnd(p)..] == rest
  {
    MarkAt(s, u, p);
    EndAt(name, rest, u);
    CutsFrom(|s|, name, rest, u, p);
  }

  lemma CutsFrom(m: nat, name: string, rest: string, u: string, p: string)
    requires ':' in p && Mark(p) == m < |p| && p[m + 1..] == u
    requires IndexOf(u, '/') == |name| <= |u| && u[..|name|] == name && u[|name|..] == rest
    ensures NameEnd(p) == m + 1 + |name| && p[m + 1..NameEnd(p)] == name && p[NameEnd(p)..] == rest
  {
    CutsOf(p, m + 1, |name|, u);
  }

  lemma CutsOf(p: string, i: nat, n: nat, u: string)
    requires i <= |p| && p[i..] == u && n <= |u|
    ensures i + n <= |p| && p[i..i + n] == u[..n] && p[i + n..] == u[n..]
  {}

  /** A pattern without a parameter has no names and stands for itself. */
  lemma NoParameter(s: string)
    requires ':' !in s
    ensures Names(s) == [] && Substituted(s, []) == s && !EndsOpen(s) && !EndsSlashed(s)
  {}

  /** A last parameter stands for its value. */
  lemma LastParameter(s: string, name: string, v: string)
    requires ':' !in s && '/' !in name
    ensures var p := s + (":" + name);
            Names(p) == [name] && Substituted(p, [v]) == s + v && EndsOpen(p) && !EndsSlashed(p)
  {
    Cuts(s, name, "", name, s + (":" + name));
    assert name + "" == name && s + v + "" == s + v && [name] + [] == [name];
  }

  /** A parameter in front of others, or in front of the rest of the pattern, stands for its value and leaves the '/'. */
  lemma InnerParameter(s: string, name: string, rest: string, v: string, values: seq<string>)
    requires ':' !in s && '/' !in name && |values| == |Names(rest)|
    ensures var p := s + (":" + (name + ("/" + rest)));
            && Names(p) == [name] + Names(rest)
            && Substituted(p, [v] + values) == s + v + "/" + Substituted(rest, values)
            && (EndsOpen(p) <==> EndsOpen(rest)) && (EndsSlashed(p) <==> rest == "" || EndsSlashed(rest))
  {
    var p := s + (":" + (name + ("/" + rest)));
    Cuts(s, name, "/" + rest, name + ("/" + rest), p);
    assert p[NameEnd(p)..][1..] == rest && After(p) == rest;
    assert ([v] + values)[0] == v && ([v] + values)[1..] == values;
    Glue(s + v, "/", Substituted(rest, values));
  }
}
