/**
 * The matcher compares a static fragment with strncmp, which stops at a NUL that both texts hold. What stands behind a
 * NUL in a fragment may therefore be changed in a path without notice.
 *
 * So routing is exact for just the patterns whose fragments have nothing behind a NUL: for every other pattern, any
 * values without a '/' can be put into a path that matches with them and is not what the pattern stands for.
 */
module PathParamsNul {
  import opened Common
  import opened PathParams

  /** A path that goes on with g passes the comparison with f. */
  predicate Passes(f: string, g: string) {
    |f| == |g| && SameText(g, f)
  }

  lemma {:induction false} PassesSelf(f: string)
    ensures Passes(f, f)
  {
    if f == "" {
    } else {
      PassesSelf(f[1..]);
    }
  }

  /** A fragment and one that differs only behind a NUL. */
  lemma {:induction false} PassesChanged(f: string, g: string, j: nat)
    requires j < |f| == |g| && f[j] == '\0' && f[..j + 1] == g[..j + 1]
    ensures Passes(f, g)
  {
    assert f[0] == f[..j + 1][0] == g[0];
    if j > 0 && f[0] != '\0' {
      assert f[1..][..j] == f[..j + 1][1..] && g[1..][..j] == g[..j + 1][1..];
      PassesChanged(f[1..], g[1..], j - 1);
    }
  }

  lemma {:induction false} PassesOn(f: string, g: string, x: string)
    requires Passes(f, g)
    ensures SameText(g + x, f)
  {
    if f == "" {
    } else {
      assert (g + x)[1..] == g[1..] + x && (g + x)[0] == g[0];
      if f[0] != '\0' { PassesOn(f[1..], g[1..], x); }
    }
  }

  predicate Alike(fs: seq<string>, gs: seq<string>) {
    if fs == [] then gs == [] else gs != [] && Passes(fs[0], gs[0]) && Alike(fs[1..], gs[1..])
  }

  lemma {:induction false} AlikeChanged(fs: seq<string>, i: nat, g: string)
    requires i < |fs| && Passes(fs[i], g)
    ensures Alike(fs, fs[i := g])
  {
    var gs := fs[i := g];
    if i == 0 {
      assert gs[1..] == fs[1..];
      AlikeSelf(fs[1..]);
    } else {
      assert gs[1..] == fs[1..][i - 1 := g];
      PassesSelf(fs[0]);
      AlikeChanged(fs[1..], i - 1, g);
    }
  }

  lemma {:induction false} AlikeSelf(fs: seq<string>)
    ensures Alike(fs, fs)
  {
    if fs == [] {
    } else {
      PassesSelf(fs[0]);
      AlikeSelf(fs[1..]);
    }
  }

  lemma {:induction false} AlikeLength(fs: seq<string>, gs: seq<string>)
    requires Alike(fs, gs)
    ensures |fs| == |gs|
  {
    if fs == [] {
    } else {
      AlikeLength(fs[1..], gs[1..]);
    }
  }

  // The path of the changed fragments

  /** The path from pos on is matched fragment by fragment, with these values in between. */
  predicate Walks(fs: seq<string>, values: seq<string>, path: string, pos: nat) {
    if fs == [] then values == [] && pos >= |path|
    else
      && FragmentAt(fs[0], path, pos)
      && if values == [] then |fs| == 1 && pos + |fs[0]| == |path|
         else WalksValue(values[0], path, pos + |fs[0]|)
              && Walks(fs[1..], values[1..], path, pos + |fs[0]| + |values[0]| + 1)
  }

  predicate WalksValue(v: string, path: string, pos: nat) {
    pos <= |path| && Segment(path[pos..]) == v
  }

  lemma {:induction false} WalksCaptures(fs: seq<string>, values: seq<string>, path: string, pos: nat)
    requires Walks(fs, values, path, pos)
    ensures Captures(fs, |values|, path, pos) == Some(values)
    decreases fs
  {
    if fs != [] && values != [] {
      WalksCaptures(fs[1..], values[1..], path, pos + |fs[0]| + |values[0]| + 1);
      assert values == [values[0]] + values[1..];
    } else if fs != [] {
      assert fs[1..] == [];
    }
  }

  lemma WalksCons(f: string, fs: seq<string>, v: string, vs: seq<string>, path: string, pos: nat)
    requires FragmentAt(f, path, pos) && WalksValue(v, path, pos + |f|) && Walks(fs, vs, path, pos + |f| + |v| + 1)
    ensures Walks([f] + fs, [v] + vs, path, pos)
  {
    assert ([f] + fs)[1..] == fs && ([v] + vs)[1..] == vs;
  }

  /** The path from pos on is what these fragments and values make. */
  predicate Rests(gs: seq<string>, values: seq<string>, path: string, pos: nat) {
    && |values| <= |gs|
    && if gs == [] then pos >= |path| else pos <= |path| && path[pos..] == Filled(gs, |values|, values)
  }

  lemma RestsParts(g: string, gs: seq<string>, v: string, vs: seq<string>, path: string, pos: nat) returns (x: string)
    requires Rests([g] + gs, [v] + vs, path, pos)
    ensures pos <= |path| && path[pos..] == g + v + x && (x == "" || x[0] == '/')
    ensures Rests(gs, vs, path, pos + |g| + |v| + 1)
  {
    FilledCons(g, gs, v, vs);
    x := if gs == [] then "" else "/" + Filled(gs, |vs|, vs);
    assert g + v + "" == g + v;
    SplitAt(path, pos, g, v, x);
  }

  lemma HeadHolds(f: string, g: string, v: string, x: string, path: string, pos: nat)
    requires pos <= |path| && path[pos..] == g + v + x && Passes(f, g) && '/' !in v && (x == "" || x[0] == '/')
    ensures FragmentAt(f, path, pos) && WalksValue(v, path, pos + |f|)
  {
    SplitAt(path, pos, g, v, x);
    Glue(g, v, x);
    PassesOn(f, g, v + x);
    SegmentOf(v, x);
  }

  lemma AlikeParts(f: string, fs: seq<string>, g: string, gs: seq<string>, v: string, vs: seq<string>)
    requires Alike([f] + fs, [g] + gs) && |fs| == |gs| && Counted([f] + fs, |[v] + vs|) && SlashFree([v] + vs)
    ensures Passes(f, g) && Alike(fs, gs) && Counted(fs, |vs|) && '/' !in v && SlashFree(vs)
  {
    assert ([f] + fs)[1..] == fs && ([g] + gs)[1..] == gs;
    SlashFreeCons(v, vs);
    if |fs| == |vs| + 1 { assert ([f] + fs)[|vs| + 1] == fs[|vs|]; }
  }

  lemma StepWalks(f: string, fs: seq<string>, g: string, gs: seq<string>, v: string, vs: seq<string>, path: string, pos: nat)
    requires |fs| == |gs| && Counted([f] + fs, |[v] + vs|) && Alike([f] + fs, [g] + gs) && SlashFree([v] + vs)
    requires Rests([g] + gs, [v] + vs, path, pos)
    ensures Walks([f] + fs, [v] + vs, path, pos)
    decreases fs, 1
  {
    AlikeParts(f, fs, g, gs, v, vs);
    var x := RestsParts(g, gs, v, vs, path, pos);
    HeadHolds(f, g, v, x, path, pos);
    AlikeWalks(fs, gs, vs, path, pos + |f| + |v| + 1);
    WalksCons(f, fs, v, vs, path, pos);
  }

  /** The path made of the changed fragments and any values without '/' is walked by the unchanged fragments. */
  lemma {:induction false} AlikeWalks(fs: seq<string>, gs: seq<string>, values: seq<string>, path: string, pos: nat)
    requires |fs| == |gs| && Counted(fs, |values|) && Alike(fs, gs) && SlashFree(values) && Rests(gs, values, path, pos)
    ensures Walks(fs, values, path, pos)
    decreases fs, 0
  {
    if values == [] {
    } else {
      assert fs == [fs[0]] + fs[1..] && gs == [gs[0]] + gs[1..] && values == [values[0]] + values[1..];
      StepWalks(fs[0], fs[1..], gs[0], gs[1..], values[0], values[1..], path, pos);
    }
  }

  /** What follows the first value. */
  function Onward(gs: seq<string>, values: seq<string>): string
    requires |values| <= |gs|
  {
    if gs == [] then "" else "/" + Filled(gs, |values|, values)
  }

  lemma OnwardDiffers(f: string, fs: seq<string>, g: string, gs: seq<string>, v: string, values: seq<string>)
    requires |f| == |g| && |fs| == |gs| >= |values| && [f] + fs != [g] + gs
    requires fs != gs ==> Filled(fs, |values|, values) != Filled(gs, |values|, values)
    requires |Filled(fs, |values|, values)| == |Filled(gs, |values|, values)|
    ensures f + v + Onward(fs, values) != g + v + Onward(gs, values)
  {
    if f == g {
      Cancel(f + v, Onward(fs, values), Onward(gs, values));
      Cancel("/", Filled(fs, |values|, values), Filled(gs, |values|, values));
    } else {
      assert (f + v + Onward(fs, values))[..|f|] == f && (g + v + Onward(gs, values))[..|g|] == g;
    }
  }

  lemma DifferStep(f: string, fs: seq<string>, g: string, gs: seq<string>, v: string, vs: seq<string>)
    requires |f| == |g| && |fs| == |gs| >= |vs|
    requires fs != gs ==> Filled(fs, |vs|, vs) != Filled(gs, |vs|, vs)
    requires |Filled(fs, |vs|, vs)| == |Filled(gs, |vs|, vs)|
    ensures var a, b := Filled([f] + fs, |vs| + 1, [v] + vs), Filled([g] + gs, |vs| + 1, [v] + vs);
            |a| == |b| && ([f] + fs != [g] + gs ==> a != b)
  {
    FilledCons(f, fs, v, vs);
    FilledCons(g, gs, v, vs);
    if [f] + fs != [g] + gs { OnwardDiffers(f, fs, g, gs, v, vs); }
  }

  /** It is not the path that the pattern stands for. */
  lemma {:induction false} AlikeDiffers(fs: seq<string>, gs: seq<string>, values: seq<string>)
    requires Counted(fs, |values|) && Alike(fs, gs) && |fs| == |gs|
    ensures |Filled(fs, |values|, values)| == |Filled(gs, |values|, values)|
    ensures fs != gs ==> Filled(fs, |values|, values) != Filled(gs, |values|, values)
    decreases fs
  {
    if values == [] {
    } else {
      AlikeDiffers(fs[1..], gs[1..], values[1..]);
      DifferStep(fs[0], fs[1..], gs[0], gs[1..], values[0], values[1..]);
      assert fs == [fs[0]] + fs[1..] && gs == [gs[0]] + gs[1..] && values == [values[0]] + values[1..];
    }
  }

  ghost predicate Misrouted(p: string, path: string, values: seq<string>) {
    Captures(Fragments(p), |Names(p)|, path, 0) == Some(values) && |values| == |Names(p)| && !Accepts(p, path, values)
  }

  lemma Change(fs: seq<string>) returns (gs: seq<string>)
    requires exists i | 0 <= i < |fs| :: !NulLast(fs[i])
    ensures Alike(fs, gs) && fs != gs
  {
    var i: nat :| i < |fs| && !NulLast(fs[i]);
    var f := fs[i];
    var j: nat :| j < |f| - 1 && f[j] == '\0';
    var g := f[j + 1 := if f[j + 1] == 'x' then 'y' else 'x'];
    assert g[j + 1] != f[j + 1];
    PassesChanged(f, g, j);
    gs := fs[i := g];
    AlikeChanged(fs, i, g);
  }

  /** Any values without '/' can be misrouted by a pattern that has something behind a NUL. */
  lemma Misroute(p: string, values: seq<string>) returns (path: string)
    requires !Comparable(p) && |values| == |Names(p)| && SlashFree(values)
    ensures Misrouted(p, path, values)
  {
    var fs := Fragments(p);
    var gs := Change(fs);
    AlikeLength(fs, gs);
    FragmentsShaped(p);
    path := Filled(gs, |values|, values);
    assert path[0..] == path;
    AlikeWalks(fs, gs, values, path, 0);
    WalksCaptures(fs, values, path, 0);
    AlikeDiffers(fs, gs, values);
    AcceptsFilled(p, path, values);
  }

  /** Every path is routed exactly if and only if no static fragment of the pattern has anything behind a NUL. */
  lemma ExactIffComparable(p: string)
    ensures (forall path, values :: !Misrouted(p, path, values)) <==> Comparable(p)
  {
    if Comparable(p) {
      forall path, values ensures !Misrouted(p, path, values) { MatchExact(p, path, values); }
    } else {
      var path := Misroute(p, seq(|Names(p)|, _ => ""));
    }
  }
}
