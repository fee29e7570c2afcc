/**
 * PathParamsMatcher: routes with ':name' parameters, and what paths they match.
 *
 * The constructor cuts a pattern into its static fragments, without the '/' behind a parameter, and the names of its
 * parameters. Matching compares the fragments one after the other and takes what stands up to the next '/' for the
 * value of a parameter.
 */
module PathParams {
  import opened Common

  /** The static fragments leave out the '/' behind a parameter. */
  datatype Matcher = Matcher(fragments: seq<string>, names: seq<string>)

  // The pattern

  /** Where the first ':' is, and where the name behind it ends. */
  function Mark(p: string): nat { IndexOf(p, ':') }

  function NameEnd(p: string): (e: nat)
    requires ':' in p
    ensures Mark(p) < e <= |p| && (e < |p| ==> p[e] == '/')
  {
    MarkFound(p);
    Mark(p) + 1 + IndexOf(p[Mark(p) + 1..], '/')
  }

  lemma MarkFound(p: string)
    ensures ':' in p <==> Mark(p) < |p|
  {
    if Mark(p) == |p| { assert p[..Mark(p)] == p; }
  }

  function After(p: string): (q: string)
    requires ':' in p
    ensures |q| < |p|
  {
    if NameEnd(p) == |p| then "" else p[NameEnd(p) + 1..]
  }

  function Fragments(p: string): seq<string>
    decreases |p|
  {
    if ':' in p then [p[..Mark(p)]] + Fragments(After(p)) else if p == "" then [] else [p]
  }

  function Names(p: string): seq<string>
    decreases |p|
  {
    if ':' in p then [p[Mark(p) + 1..NameEnd(p)]] + Names(After(p)) else []
  }

  function Rest(pattern: string, pos: nat): string {
    if pos < |pattern| then pattern[pos..] else ""
  }

  predicate DistinctNames(names: seq<string>) {
    names == [] || (names[|names| - 1] !in names[..|names| - 1] && DistinctNames(names[..|names| - 1]))
  }

  lemma {:induction false} DistinctAt(names: seq<string>, j: nat, k: nat)
    requires DistinctNames(names) && j < k < |names|
    ensures names[j] != names[k]
  {
    var before := names[..|names| - 1];
    if k < |before| { DistinctAt(before, j, k); } else { assert before[j] == names[j]; }
  }

  lemma {:induction false} Twice(names: seq<string>, more: seq<string>)
    requires more != [] && more[0] in names
    ensures !DistinctNames(names + more)
  {
    var all, before := names + more, more[..|more| - 1];
    assert all[..|all| - 1] == names + before;
    if before == [] {
      assert names + before == names;
    } else {
      Twice(names, before);
    }
  }

  /** One search of the constructor's loop: the next static fragment and parameter name, if there is one. */
  method NextParam(pattern: string, last: nat, ghost p: string)
    returns (found: bool, fragment: string, name: string, next: nat)
    requires last <= |pattern| + 1 && p == Rest(pattern, last)
    ensures found == (':' in p)
    ensures found ==> fragment == p[..Mark(p)] && name == p[Mark(p) + 1..NameEnd(p)]
    ensures found ==> last < next <= |pattern| + 1 && Rest(pattern, next) == After(p)
  {
    found, fragment, name, next := false, "", "", last;
    if last >= |pattern| { return; }
    var marker := last + IndexOf(pattern[last..], ':');
    MarkFound(p);
    if marker == |pattern| { return; }
    Dropped(pattern, last, Mark(p) + 1);
    var sep := marker + 1 + IndexOf(pattern[marker + 1..], '/');
    Sliced(pattern, last, 0, Mark(p));
    Sliced(pattern, last, Mark(p) + 1, NameEnd(p));
    if sep < |pattern| { Dropped(pattern, last, NameEnd(p) + 1); }
    return true, pattern[last..marker], pattern[marker + 1..sep], sep + 1;
  }

  ghost predicate Holds(nameSet: set<string>, names: seq<string>) {
    DistinctNames(names) && forall n :: n in nameSet <==> n in names
  }

  lemma HoldsMore(nameSet: set<string>, names: seq<string>, name: string)
    requires Holds(nameSet, names) && name !in nameSet
    ensures Holds(nameSet + {name}, names + [name])
  {
    assert (names + [name])[..|names|] == names;
  }

  ghost predicate CompiledTo(all: Matcher, p: string, fragments: seq<string>, names: seq<string>) {
    fragments + Fragments(p) == all.fragments && names + Names(p) == all.names
  }

  lemma CompiledMore(all: Matcher, p: string, fragments: seq<string>, names: seq<string>, nameSet: set<string>,
                     fragment: string, name: string)
    requires ':' in p && fragment == p[..Mark(p)] && name == p[Mark(p) + 1..NameEnd(p)] && name !in nameSet
    requires CompiledTo(all, p, fragments, names) && Holds(nameSet, names)
    ensures CompiledTo(all, After(p), fragments + [fragment], names + [name])
    ensures Holds(nameSet + {name}, names + [name])
  {
    Glue(fragments, [fragment], Fragments(After(p)));
    Glue(names, [name], Names(After(p)));
    HoldsMore(nameSet, names, name);
  }

  lemma CompiledAll(all: Matcher, p: string, fragments: seq<string>, names: seq<string>)
    requires CompiledTo(all, p, fragments, names) && ':' !in p
    ensures all == Matcher(if p == "" then fragments else fragments + [p], names)
  {
    assert names + [] == names && fragments + [] == fragments;
  }

  lemma NameTwice(all: Matcher, p: string, fragments: seq<string>, nameSet: set<string>, names: seq<string>)
    requires CompiledTo(all, p, fragments, names) && ':' in p && Holds(nameSet, names)
    requires p[Mark(p) + 1..NameEnd(p)] in nameSet
    ensures !DistinctNames(all.names) && p[Mark(p) + 1..NameEnd(p)] in all.names
  {
    Twice(names, Names(p));
  }

  /** The constructor. It throws for the first name that comes again. */
  method Compile(pattern: string) returns (r: Result<Matcher, string>)
    ensures r.Ok? <==> DistinctNames(Names(pattern))
    ensures r.Ok? ==> r.value == Matcher(Fragments(pattern), Names(pattern))
    ensures r.Err? ==> r.error in Names(pattern)
  {
    var fragments, names, nameSet := [], [], {};
    var last := 0;
    ghost var all, p := Matcher(Fragments(pattern), Names(pattern)), pattern;
    while true
      invariant last <= |pattern| + 1 && p == Rest(pattern, last)
      invariant CompiledTo(all, p, fragments, names) && Holds(nameSet, names)
      decreases |pattern| + 1 - last
    {
      var found, fragment, name, next := NextParam(pattern, last, p);
      if !found { break; }
      if name in nameSet {
        NameTwice(all, p, fragments, nameSet, names);
        return Err(name);
      }
      CompiledMore(all, p, fragments, names, nameSet, fragment, name);
      fragments := fragments + [fragment];
      nameSet := nameSet + {name};
      names := names + [name];
      last, p := next, After(p);
    }
    CompiledAll(all, p, fragments, names);
    if last < |pattern| { fragments := fragments + [pattern[last..]]; }
    return Ok(Matcher(fragments, names));
  }

  // The path

  /** strncmp over the fragment: nothing is compared behind a NUL that both hold. */
  predicate SameText(r: string, f: string) {
    f == "" || (r != "" && r[0] == f[0] && (f[0] == '\0' || SameText(r[1..], f[1..])))
  }

  /** The captured values, if the path from pos on matches the fragments, n of them in front of a parameter. */
  function Captures(fs: seq<string>, n: nat, path: string, pos: nat): Option<seq<string>> {
    if fs == [] then if pos >= |path| then Some([]) else None
    else if pos + |fs[0]| > |path| || !SameText(path[pos..], fs[0]) then None
    else
      var next := pos + |fs[0]|;
      if n == 0 then Captures(fs[1..], 0, path, next)
      else
        var v := Segment(path[next..]);
        match Captures(fs[1..], n - 1, path, next + |v| + 1)
        case None => None
        case Some(rest) => Some([v] + rest)
  }

  /** What stands before the next '/'. */
  function Segment(r: string): string {
    if r == "" || r[0] == '/' then "" else [r[0]] + Segment(r[1..])
  }

  lemma {:induction false} SegmentIs(r: string)
    ensures Segment(r) == r[..IndexOf(r, '/')]
  {
    if r != "" && r[0] != '/' {
      SegmentIs(r[1..]);
      assert r[..1 + IndexOf(r[1..], '/')] == [r[0]] + r[1..][..IndexOf(r[1..], '/')];
    }
  }

  /** A NUL may only be the last character. */
  predicate NulLast(f: string) {
    forall i | 0 <= i < |f| - 1 :: f[i] != '\0'
  }

  lemma {:induction false} SameTextIsPrefix(r: string, f: string)
    requires |f| <= |r| && NulLast(f)
    ensures SameText(r, f) <==> r[..|f|] == f
  {
    if f == "" {
    } else {
      SameTextIsPrefix(r[1..], f[1..]);
      assert r[..|f|] == [r[0]] + r[1..][..|f| - 1];
    }
  }

  lemma SegmentEnd(r: string)
    ensures |Segment(r)| <= |r| && '/' !in Segment(r)
    ensures |Segment(r)| < |r| ==> r == Segment(r) + "/" + r[|Segment(r)| + 1..]
    ensures |Segment(r)| == |r| <==> '/' !in r
  {
    SegmentIs(r);
    if IndexOf(r, '/') == |r| { assert r[..|r|] == r; }
  }

  function Bound(names: seq<string>, values: seq<string>): map<string, string>
    requires |values| <= |names|
  {
    if values == [] then map[]
    else
      var n := |values| - 1;
      var m := Bound(names, values[..n]);
      if names[n] in m then m else m[names[n] := values[n]]
  }

  lemma BoundNext(names: seq<string>, values: seq<string>, v: string)
    requires DistinctNames(names) && |values| < |names|
    ensures Bound(names, values + [v]) == Bound(names, values)[names[|values|] := v]
    ensures names[|values|] !in Bound(names, values)
  {
    BoundKeys(names, values, |values|);
    assert (values + [v])[..|values|] == values;
  }

  lemma {:induction false} BoundKeys(names: seq<string>, values: seq<string>, k: nat)
    requires DistinctNames(names) && |values| <= k < |names|
    ensures names[k] !in Bound(names, values)
  {
    if values == [] {
    } else {
      BoundKeys(names, values[..|values| - 1], k);
      DistinctAt(names, |values| - 1, k);
    }
  }

  predicate CapturesOn(done: seq<string>, more: Option<seq<string>>, all: Option<seq<string>>) {
    match more
    case None => all == None
    case Some(m) => all == Some(done + m)
  }

  lemma CapturedMore(done: seq<string>, fs: seq<string>, n: nat, path: string, pos: nat, all: Option<seq<string>>)
    requires fs != [] && CapturesOn(done, Captures(fs, n, path, pos), all)
    requires pos + |fs[0]| <= |path| && SameText(path[pos..], fs[0])
    ensures var next := pos + |fs[0]|;
            if n == 0 then CapturesOn(done, Captures(fs[1..], 0, path, next), all)
            else
              var v := Segment(path[next..]);
              CapturesOn(done + [v], Captures(fs[1..], n - 1, path, next + |v| + 1), all)
  {
    if n > 0 {
      var v := Segment(path[pos + |fs[0]|..]);
      var more := Captures(fs[1..], n - 1, path, pos + |fs[0]| + |v| + 1);
      if more.Some? { Glue(done, [v], more.value); }
    }
  }

  ghost predicate MatchedTo(m: Matcher, path: string, i: nat, pos: nat, values: seq<string>, all: Option<seq<string>>)
    requires i <= |m.fragments|
  {
    && |values| == (if i < |m.names| then i else |m.names|)
    && CapturesOn(values, Captures(m.fragments[i..], |m.names| - |values|, path, pos), all)
  }

  predicate FragmentAt(f: string, path: string, pos: nat) {
    pos + |f| <= |path| && SameText(path[pos..], f)
  }

  lemma FragmentFails(m: Matcher, path: string, i: nat, pos: nat, values: seq<string>, all: Option<seq<string>>)
    requires i < |m.fragments| && MatchedTo(m, path, i, pos, values, all) && !FragmentAt(m.fragments[i], path, pos)
    ensures all == None
  {
    assert m.fragments[i..][0] == m.fragments[i];
  }

  lemma StaticMatches(m: Matcher, path: string, i: nat, pos: nat, values: seq<string>, all: Option<seq<string>>)
    requires |m.names| <= i < |m.fragments| && MatchedTo(m, path, i, pos, values, all)
    requires FragmentAt(m.fragments[i], path, pos)
    ensures MatchedTo(m, path, i + 1, pos + |m.fragments[i]|, values, all)
  {
    assert m.fragments[i..][1..] == m.fragments[i + 1..];
    CapturedMore(values, m.fragments[i..], 0, path, pos, all);
  }

  lemma ParameterMatches(m: Matcher, path: string, i: nat, pos: nat, values: seq<string>, all: Option<seq<string>>,
                         next: nat, v: string)
    requires i < |m.fragments| && i < |m.names| && MatchedTo(m, path, i, pos, values, all)
    requires FragmentAt(m.fragments[i], path, pos) && next == pos + |m.fragments[i]| && v == Segment(path[next..])
    ensures MatchedTo(m, path, i + 1, next + |v| + 1, values + [v], all)
  {
    assert m.fragments[i..][1..] == m.fragments[i + 1..];
    CapturedMore(values, m.fragments[i..], |m.names| - i, path, pos, all);
  }

  lemma MatchedStart(m: Matcher, path: string)
    ensures MatchedTo(m, path, 0, 0, [], Captures(m.fragments, |m.names|, path, 0))
  {
    var all := Captures(m.fragments, |m.names|, path, 0);
    assert m.fragments[0..] == m.fragments && (all.Some? ==> [] + all.value == all.value);
  }

  lemma MatchedEnd(m: Matcher, path: string, pos: nat, values: seq<string>, all: Option<seq<string>>)
    requires MatchedTo(m, path, |m.fragments|, pos, values, all)
    ensures all == if pos >= |path| then Some(values) else None
  {
    assert m.fragments[|m.fragments|..] == [] && values + [] == values;
  }

  /** What holds before the i-th fragment is looked at. */
  ghost predicate Progress(m: Matcher, path: string, i: nat, pos: nat, values: seq<string>, params: map<string, string>,
                           all: Option<seq<string>>)
    requires i <= |m.fragments|
  {
    && MatchedTo(m, path, i, pos, values, all)
    && params == Bound(m.names, values)
  }

  lemma ParameterTaken(m: Matcher, path: string, i: nat, pos: nat, values: seq<string>, params: map<string, string>,
                       all: Option<seq<string>>, next: nat, v: string)
    requires DistinctNames(m.names) && i < |m.fragments| && i < |m.names| && Progress(m, path, i, pos, values, params, all)
    requires FragmentAt(m.fragments[i], path, pos) && next == pos + |m.fragments[i]| && v == Segment(path[next..])
    ensures m.names[i] !in params
    ensures Progress(m, path, i + 1, next + |v| + 1, values + [v], params[m.names[i] := v], all)
  {
    ParameterMatches(m, path, i, pos, values, all, next, v);
    BoundNext(m.names, values, v);
  }

  /** One round of the loop. A parameter's value ends at the next '/', and one '/' behind it is skipped. */
  method MatchFragment(m: Matcher, path: string, i: nat, pos: nat, params0: map<string, string>,
                       ghost values0: seq<string>, ghost all: Option<seq<string>>)
    returns (matched: bool, starting: nat, params: map<string, string>, ghost values: seq<string>)
    requires DistinctNames(m.names) && i < |m.fragments| && Progress(m, path, i, pos, values0, params0, all)
    ensures if matched then Progress(m, path, i + 1, starting, values, params, all) else all == None
  {
    matched, starting, params, values := true, pos, params0, values0;
    var fragment := m.fragments[i];
    if starting + |fragment| > |path| || !SameText(path[starting..], fragment) {
      FragmentFails(m, path, i, pos, values, all);
      return false, starting, params, values;
    }
    starting := starting + |fragment|;
    if i >= |m.names| {
      StaticMatches(m, path, i, pos, values, all);
      return;
    }
    var sep := starting + IndexOf(path[starting..], '/');
    var value := path[starting..sep];
    Sliced(path, starting, 0, sep - starting);
    SegmentIs(path[starting..]);
    ParameterTaken(m, path, i, pos, values, params, all, starting, value);
    if m.names[i] !in params { params := params[m.names[i] := value]; }
    values := values + [value];
    starting := sep + 1;
  }

  /** match */
  method Match(m: Matcher, path: string) returns (matched: bool, params: map<string, string>)
    requires DistinctNames(m.names) && |m.names| <= |m.fragments|
    ensures var values := Captures(m.fragments, |m.names|, path, 0);
            matched == values.Some? && (matched ==> |values.value| == |m.names| && params == Bound(m.names, values.value))
  {
    params := map[];
    var starting: nat := 0;
    ghost var all, values: seq<string> := Captures(m.fragments, |m.names|, path, 0), [];
    MatchedStart(m, path);
    for i := 0 to |m.fragments|
      invariant Progress(m, path, i, starting, values, params, all)
    {
      matched, starting, params, values := MatchFragment(m, path, i, starting, params, values, all);
      if !matched { return; }
    }
    matched := starting >= |path|;
    MatchedEnd(m, path, starting, values, all);
  }

  // What matches

  /** The pattern with values in the place of its parameters. */
  function Substituted(p: string, values: seq<string>): string
    requires |values| == |Names(p)|
    decreases |p|
  {
    if ':' in p then
      p[..Mark(p)] + values[0] + if NameEnd(p) == |p| then "" else "/" + Substituted(After(p), values[1..])
    else p
  }

  /** The pattern ends with a parameter. */
  predicate EndsOpen(p: string)
    decreases |p|
  {
    ':' in p && (NameEnd(p) == |p| || EndsOpen(After(p)))
  }

  /** The pattern ends with a parameter and one '/'. */
  predicate EndsSlashed(p: string)
    decreases |p|
  {
    ':' in p && NameEnd(p) < |p| && (After(p) == "" || EndsSlashed(After(p)))
  }

  predicate SameBut(r: string, s: string, open: bool, slashed: bool) {
    r == s || (open && r == s + "/") || (slashed && r + "/" == s)
  }

  /** Only the '/' behind a last parameter may be there or not. */
  predicate Accepts(p: string, r: string, values: seq<string>)
    requires |values| == |Names(p)|
  {
    SameBut(r, Substituted(p, values), EndsOpen(p), EndsSlashed(p))
  }

  lemma SegmentOf(v: string, t: string)
    requires '/' !in v && (t == "" || t[0] == '/')
    ensures Segment(v + t) == v
  {
    SegmentIs(v + t);
    IndexOfAppend(v, t, '/');
    assert (v + t)[..|v|] == v;
  }

  // What the matcher accepts, seen from its fragments

  predicate Shaped(fs: seq<string>, n: nat) {
    Counted(fs, n) && forall i | 0 <= i < |fs| :: NulLast(fs[i])
  }

  predicate Counted(fs: seq<string>, n: nat) {
    n <= |fs| <= n + 1 && (|fs| == n + 1 ==> fs[n] != "")
  }

  predicate SlashFree(values: seq<string>) {
    forall i | 0 <= i < |values| :: '/' !in values[i]
  }

  function Filled(fs: seq<string>, n: nat, values: seq<string>): string
    requires |values| == n <= |fs|
  {
    if fs == [] then ""
    else if n == 0 then fs[0]
    else fs[0] + values[0] + if |fs| == 1 then "" else "/" + Filled(fs[1..], n - 1, values[1..])
  }

  predicate Matches(fs: seq<string>, n: nat, values: seq<string>, r: string)
    requires |values| == n <= |fs|
  {
    r == Filled(fs, n, values) || (|fs| == n > 0 && r == Filled(fs, n, values) + "/")
  }

  lemma SplitAt(path: string, pos: nat, f: string, v: string, t: string)
    requires pos <= |path| && path[pos..] == f + v + t
    ensures path[pos..][..|f|] == f && path[pos + |f|..] == v + t && pos + |f| + |v| + |t| == |path|
    ensures t != "" ==> path[pos + |f| + |v| + 1..] == t[1..]
  {
    assert path[pos..][|f|..] == v + t;
  }

  /** What may follow the first value. */
  predicate MatchesBehind(fs: seq<string>, n: nat, values: seq<string>, t: string)
    requires |values| == n <= |fs|
  {
    if t == "" then fs == [] else t[0] == '/' && if fs == [] then t == "/" else Matches(fs, n, values, t[1..])
  }

  lemma FirstValue(f: string, fs: seq<string>, v: string, values: seq<string>, t: string)
    requires |values| <= |fs|
    ensures Matches([f] + fs, |values| + 1, [v] + values, f + v + t) <==> MatchesBehind(fs, |values|, values, t)
  {
    var all := Filled([f] + fs, |values| + 1, [v] + values);
    assert ([f] + fs)[1..] == fs && ([v] + values)[1..] == values;
    if fs == [] {
      assert all == f + v + "";
      Cancel(f + v, t, "");
      Cancel(f + v, t, "/");
      assert f + v + "" + "/" == f + v + "/";
    } else {
      var s := Filled(fs, |values|, values);
      assert all == f + v + ("/" + s);
      assert f + v + ("/" + s) + "/" == f + v + ("/" + (s + "/"));
      Cancel(f + v, t, "/" + s);
      Cancel(f + v, t, "/" + (s + "/"));
      if t != "" {
        assert t == [t[0]] + t[1..];
        Cancel("/", t[1..], s);
        Cancel("/", t[1..], s + "/");
      }
    }
  }

  /** A matching path starts with the first fragment and the first value. */
  lemma Head(f: string, fs: seq<string>, v: string, values: seq<string>, r: string) returns (t: string)
    requires |values| <= |fs| && Matches([f] + fs, |values| + 1, [v] + values, r)
    ensures r == f + v + t && (t == "" || t[0] == '/')
  {
    var s := if fs == [] then "" else "/" + Filled(fs, |values|, values);
    FilledCons(f, fs, v, values);
    if r == f + v + s {
      t := s;
    } else {
      t := s + "/";
    }
  }

  function Prepended(v: string, rest: Option<seq<string>>): Option<seq<string>> {
    if rest == None then None else Some([v] + rest.value)
  }

  lemma CapturesCons(f: string, fs: seq<string>, n: nat, path: string, pos: nat, v: string)
    requires FragmentAt(f, path, pos) && v == Segment(path[pos + |f|..])
    ensures Captures([f] + fs, n + 1, path, pos) == Prepended(v, Captures(fs, n, path, pos + |f| + |v| + 1))
  {
    assert ([f] + fs)[1..] == fs;
  }

  /** The rest of the path behind the first value and the rest of the fragments. */
  lemma CapturesBehind(fs: seq<string>, n: nat, path: string, pos: nat, t: string, values: seq<string>)
    requires Shaped(fs, n) && if t == "" then pos == |path| + 1 else pos <= |path| && path[pos..] == t[1..] && t[0] == '/'
    ensures Captures(fs, n, path, pos) == Some(values)
            <==> |values| == n && SlashFree(values) && MatchesBehind(fs, n, values, t)
    decreases fs, 1
  {
    if t != "" {
      CapturesExact(fs, n, path, pos, values);
      if fs == [] { assert t == "/" + t[1..]; }
    }
  }

  lemma TextAt(path: string, pos: nat, f: string, v: string, t: string)
    requires pos <= |path| && NulLast(f) && path[pos..] == f + v + t && '/' !in v && (t == "" || t[0] == '/')
    ensures FragmentAt(f, path, pos) && Segment(path[pos + |f|..]) == v
    ensures var next := pos + |f| + |v| + 1;
            if t == "" then next == |path| + 1 else next <= |path| && path[next..] == t[1..]
  {
    SplitAt(path, pos, f, v, t);
    SameTextIsPrefix(path[pos..], f);
    SegmentOf(v, t);
  }

  lemma CapturesWith(f: string, fs: seq<string>, n: nat, path: string, pos: nat, v: string, values: seq<string>, t: string)
    requires pos <= |path| && Shaped(fs, n) && NulLast(f)
    requires path[pos..] == f + v + t && '/' !in v && (t == "" || t[0] == '/')
    ensures Captures([f] + fs, n + 1, path, pos) == Some([v] + values)
            <==> |values| == n && SlashFree(values) && MatchesBehind(fs, n, values, t)
    ensures Captures([f] + fs, n + 1, path, pos).Some? ==> Captures([f] + fs, n + 1, path, pos).value[0] == v
    decreases fs, 2
  {
    TextAt(path, pos, f, v, t);
    CapturesCons(f, fs, n, path, pos, v);
    CapturesBehind(fs, n, path, pos + |f| + |v| + 1, t, values);
    var rest := Captures(fs, n, path, pos + |f| + |v| + 1);
    if rest.Some? { Cancel([v], rest.value, values); }
  }

  lemma SlashFreeCons(v: string, values: seq<string>)
    ensures SlashFree([v] + values) <==> '/' !in v && SlashFree(values)
  {
    var all := [v] + values;
    assert all[0] == v && forall i | 0 <= i < |values| :: all[i + 1] == values[i];
  }

  lemma ExactIf(f: string, fs: seq<string>, n: nat, path: string, pos: nat, v: string, values: seq<string>)
    requires pos <= |path| && Shaped(fs, n) && NulLast(f) && |values| == n && SlashFree([v] + values)
    requires Matches([f] + fs, n + 1, [v] + values, path[pos..])
    ensures Captures([f] + fs, n + 1, path, pos) == Some([v] + values)
    decreases fs, 3
  {
    SlashFreeCons(v, values);
    var t := Head(f, fs, v, values, path[pos..]);
    FirstValue(f, fs, v, values, t);
    CapturesWith(f, fs, n, path, pos, v, values, t);
  }

  lemma CutAt(path: string, pos: nat, f: string) returns (v: string, t: string)
    requires NulLast(f) && FragmentAt(f, path, pos)
    ensures path[pos..] == f + v + t && v == Segment(path[pos + |f|..])
    ensures '/' !in v && (t == "" || t[0] == '/')
  {
    SameTextIsPrefix(path[pos..], f);
    var r := path[pos + |f|..];
    assert path[pos..][|f|..] == r;
    v := Segment(r);
    SegmentEnd(r);
    t := r[|v|..];
    SegmentIs(r);
    Rejoin(path[pos..], |f|);
    Rejoin(r, |v|);
    Glue(f, v, t);
  }

  lemma Rejoin(s: string, k: nat)
    requires k <= |s|
    ensures s == s[..k] + s[k..]
  {}

  lemma ExactOnlyIf(f: string, fs: seq<string>, n: nat, path: string, pos: nat, values: seq<string>)
    requires pos <= |path| && Shaped(fs, n) && NulLast(f)
    requires Captures([f] + fs, n + 1, path, pos) == Some(values)
    ensures |values| == n + 1 && SlashFree(values) && Matches([f] + fs, n + 1, values, path[pos..])
    decreases fs, 3
  {
    var v, t := CutAt(path, pos, f);
    CapturesCons(f, fs, n, path, pos, v);
    var rest := values[1..];
    assert values == [v] + rest;
    CapturesWith(f, fs, n, path, pos, v, rest, t);
    FirstValue(f, fs, v, rest, t);
    SlashFreeCons(v, rest);
  }

  lemma StaticExact(fs: seq<string>, path: string, pos: nat, values: seq<string>)
    requires Shaped(fs, 0) && pos <= |path|
    ensures Captures(fs, 0, path, pos) == Some(values)
            <==> values == [] && Matches(fs, 0, [], path[pos..])
  {
    if fs != [] {
      if |fs[0]| <= |path[pos..]| { SameTextIsPrefix(path[pos..], fs[0]); }
      assert fs[1..] == [];
    }
  }

  lemma {:induction false} CapturesExact(fs: seq<string>, n: nat, path: string, pos: nat, values: seq<string>)
    requires Shaped(fs, n) && pos <= |path|
    ensures Captures(fs, n, path, pos) == Some(values)
            <==> |values| == n && SlashFree(values) && Matches(fs, n, values, path[pos..])
    decreases fs, 0
  {
    if n > 0 {
      var f, rest := fs[0], fs[1..];
      assert fs == [f] + rest;
      if Captures(fs, n, path, pos) == Some(values) {
        ExactOnlyIf(f, rest, n - 1, path, pos, values);
      }
      if |values| == n && SlashFree(values) && Matches(fs, n, values, path[pos..]) {
        assert values == [values[0]] + values[1..];
        ExactIf(f, rest, n - 1, path, pos, values[0], values[1..]);
      }
    } else {
      StaticExact(fs, path, pos, values);
    }
  }

  // What the pattern says

  lemma {:induction false} FragmentsShaped(p: string)
    ensures Counted(Fragments(p), |Names(p)|)
    ensures |Fragments(p)| == |Names(p)| > 0 <==> EndsOpen(p) || EndsSlashed(p)
    decreases |p|
  {
    if ':' in p { FragmentsShaped(After(p)); }
  }

  lemma {:induction false} OneEnd(p: string)
    ensures !(EndsOpen(p) && EndsSlashed(p))
    decreases |p|
  {
    if ':' in p { OneEnd(After(p)); }
  }

  predicate FilledFits(p: string, values: seq<string>) {
    && |values| == |Names(p)| <= |Fragments(p)|
    && Substituted(p, values) == Filled(Fragments(p), |values|, values) + if EndsSlashed(p) then "/" else ""
  }

  lemma FragmentsOf(p: string)
    requires ':' in p
    ensures Fragments(p) == [p[..Mark(p)]] + Fragments(After(p)) && |Names(p)| == 1 + |Names(After(p))|
  {}

  lemma SubstitutedCons(p: string, v: string, values: seq<string>)
    requires ':' in p && |values| == |Names(After(p))|
    ensures |Names(p)| == |[v] + values|
    ensures Substituted(p, [v] + values)
            == p[..Mark(p)] + v + if NameEnd(p) == |p| then "" else "/" + Substituted(After(p), values)
  {
    FragmentsOf(p);
    assert ([v] + values)[1..] == values;
  }

  lemma FilledStep(p: string, v: string, values: seq<string>)
    requires ':' in p && FilledFits(After(p), values)
    ensures FilledFits(p, [v] + values)
  {
    FragmentsOf(p);
    SubstitutedCons(p, v, values);
    FilledCons(p[..Mark(p)], Fragments(After(p)), v, values);
    FilledEnd(p, p[..Mark(p)] + v, values);
  }

  lemma FilledEnd(p: string, head: string, values: seq<string>)
    requires ':' in p && FilledFits(After(p), values)
    ensures var q := After(p);
            (head + if NameEnd(p) == |p| then "" else "/" + Substituted(q, values))
            == (head + if Fragments(q) == [] then "" else "/" + Filled(Fragments(q), |values|, values))
               + if EndsSlashed(p) then "/" else ""
  {
    var q := After(p);
    if NameEnd(p) == |p| {
      assert head + "" + "" == head + "";
    } else if q == "" {
      assert head + "" + "/" == head + ("/" + "");
    } else {
      var filled, end := Filled(Fragments(q), |values|, values), if EndsSlashed(q) then "/" else "";
      Glue("/", filled, end);
      Glue(head, "/" + filled, end);
    }
  }

  lemma {:induction false} FilledIsSubstituted(p: string, values: seq<string>)
    requires |values| == |Names(p)|
    ensures FilledFits(p, values)
    decreases |p|
  {
    if ':' in p {
      FragmentsOf(p);
      var v, rest := values[0], values[1..];
      FilledIsSubstituted(After(p), rest);
      FilledStep(p, v, rest);
      assert [v] + rest == values;
    } else {
      assert values == [];
    }
  }

  lemma FilledCons(f: string, fs: seq<string>, v: string, values: seq<string>)
    requires |values| <= |fs|
    ensures Filled([f] + fs, |values| + 1, [v] + values)
            == f + v + if fs == [] then "" else "/" + Filled(fs, |values|, values)
  {
    assert ([f] + fs)[1..] == fs && ([v] + values)[1..] == values;
  }

  /** No static fragment holds anything behind a NUL. */
  predicate Comparable(p: string) {
    forall i | 0 <= i < |Fragments(p)| :: NulLast(Fragments(p)[i])
  }

  lemma AcceptsFilled(p: string, path: string, values: seq<string>)
    requires |values| == |Names(p)|
    ensures |Names(p)| <= |Fragments(p)|
    ensures Accepts(p, path, values) <==> Matches(Fragments(p), |Names(p)|, values, path)
  {
    FragmentsShaped(p);
    FilledIsSubstituted(p, values);
    OneEnd(p);
    var s := Filled(Fragments(p), |Names(p)|, values);
    assert s + "" == s;
    if path + "/" == s + "/" { assert path == (path + "/")[..|path|] && s == (s + "/")[..|s|]; }
  }

  /**
   * Routing is exact: a path matches and yields these values iff they have no '/' and the path is the pattern with
   * the values put in, up to the '/' behind a last parameter.
   */
  lemma MatchExact(p: string, path: string, values: seq<string>)
    requires Comparable(p)
    ensures Captures(Fragments(p), |Names(p)|, path, 0) == Some(values)
            <==> |values| == |Names(p)| && SlashFree(values) && Accepts(p, path, values)
  {
    FragmentsShaped(p);
    assert path[0..] == path;
    CapturesExact(Fragments(p), |Names(p)|, path, 0, values);
    if |values| == |Names(p)| { AcceptsFilled(p, path, values); }
  }

  lemma {:induction false} BoundValues(names: seq<string>, values: seq<string>, i: nat)
    requires DistinctNames(names) && i < |values| <= |names|
    ensures names[i] in Bound(names, values) && Bound(names, values)[names[i]] == values[i]
  {
    var n := |values| - 1;
    BoundNext(names, values[..n], values[n]);
    assert values[..n] + [values[n]] == values;
    if i < n { BoundValues(names, values[..n], i); }
  }
}
