/** patch(diff(s, t)) applied to s succeeds and gives t, for every pair of documents. */
module JsonPatchRoundTrip {
  import opened Common
  import opened JsonValue
  import opened JsonPointer
  import opened JsonPatch

  // Laws of locations

  lemma ChildSetChild(doc: Json, k: string, v: Json)
    requires Child(doc, k).Ok?
    ensures Child(SetChild(doc, k, v), k) == Ok(v)
  {}

  lemma SetChildTwice(doc: Json, k: string, v: Json, w: Json)
    requires Child(doc, k).Ok?
    ensures Child(SetChild(doc, k, v), k).Ok?
    ensures SetChild(SetChild(doc, k, v), k, w) == SetChild(doc, k, w)
  {
    ChildSetChild(doc, k, v);
    if doc.Obj? {
      assert doc.members[k := v][k := w] == doc.members[k := w];
    } else {
      var i := ArrayIndex(k).value;
      assert doc.elems[i := v][i := w] == doc.elems[i := w];
    }
  }

  lemma {:induction false} AtAppend(doc: Json, p: seq<string>, q: seq<string>)
    requires At(doc, p).Ok?
    ensures At(doc, p + q) == At(At(doc, p).value, q)
    decreases |p|
  {
    if p == [] {
      assert p + q == q;
    } else {
      assert (p + q)[1..] == p[1..] + q;
      AtAppend(Child(doc, p[0]).value, p[1..], q);
    }
  }

  lemma {:induction false} AtSetAt(doc: Json, p: seq<string>, v: Json)
    requires At(doc, p).Ok?
    ensures At(SetAt(doc, p, v), p) == Ok(v)
    decreases |p|
  {
    if p == [] {
    } else {
      var c := Child(doc, p[0]).value;
      AtSetAt(c, p[1..], v);
      ChildSetChild(doc, p[0], SetAt(c, p[1..], v));
    }
  }

  lemma {:induction false} SetAtTwice(doc: Json, p: seq<string>, v: Json, w: Json)
    requires At(doc, p).Ok?
    ensures At(SetAt(doc, p, v), p).Ok?
    ensures SetAt(SetAt(doc, p, v), p, w) == SetAt(doc, p, w)
    decreases |p|
  {
    AtSetAt(doc, p, v);
    if p == [] {
    } else {
      var c := Child(doc, p[0]).value;
      var c' := SetAt(c, p[1..], v);
      SetAtTwice(c, p[1..], v, w);
      ChildSetChild(doc, p[0], c');
      SetChildTwice(doc, p[0], c', SetAt(c, p[1..], w));
    }
  }

  lemma {:induction false} SetAtSame(doc: Json, p: seq<string>)
    requires At(doc, p).Ok?
    ensures SetAt(doc, p, At(doc, p).value) == doc
    decreases |p|
  {
    if p == [] {
    } else {
      var c := Child(doc, p[0]).value;
      SetAtSame(c, p[1..]);
      if doc.Obj? {
        assert doc.members[p[0] := c] == doc.members;
      } else {
        assert doc.elems[ArrayIndex(p[0]).value := c] == doc.elems;
      }
    }
  }

  lemma {:induction false} SetAtAppend(doc: Json, p: seq<string>, k: string, v: Json)
    requires At(doc, p).Ok? && Child(At(doc, p).value, k).Ok?
    ensures At(doc, p + [k]) == Child(At(doc, p).value, k)
    ensures SetAt(doc, p + [k], v) == SetAt(doc, p, SetChild(At(doc, p).value, k, v))
    decreases |p|
  {
    AtAppend(doc, p, [k]);
    assert At(Child(At(doc, p).value, k).value, [k][1..]).Ok?;
    if p == [] {
      assert p + [k] == [k];
    } else {
      assert (p + [k])[1..] == p[1..] + [k];
      SetAtAppend(Child(doc, p[0]).value, p[1..], k, v);
    }
  }

  lemma {:induction false} RunAppend(cast: Cast, doc: Json, a: seq<Json>, b: seq<Json>)
    requires Run(cast, doc, a).thrown.None?
    ensures Run(cast, doc, a + b) == Run(cast, Run(cast, doc, a).doc, b)
    decreases |a|
  {
    if a == [] {
      assert a + b == b;
    } else {
      assert (a + b)[1..] == a[1..] + b;
      RunAppend(cast, Execute(cast, doc, a[0]).doc, a[1..], b);
    }
  }

  lemma RunOne(cast: Cast, doc: Json, op: Json)
    ensures Run(cast, doc, [op]) == Execute(cast, doc, op)
  {
    assert [op][1..] == [];
  }

  // Each operation that diff emits, executed where it points

  lemma ExecuteReplace(cast: Cast, doc: Json, path: string, p: seq<string>, v: Json)
    requires Split(path) == Ok(p) && At(doc, p).Ok?
    ensures Run(cast, doc, [ReplaceOp(path, v)]) == Outcome(SetAt(doc, p, v), None)
  {
    RunOne(cast, doc, ReplaceOp(path, v));
    var m := ReplaceOp(path, v).members;
    assert PointerMember(m, "path") == Ok(p);
  }

  lemma AddAtChild(doc: Json, p: seq<string>, k: string, v: Json)
    requires At(doc, p).Ok? && AddChild(At(doc, p).value, k, v).Ok?
    ensures AddAt(doc, p + [k], v) == Ok(SetAt(doc, p, AddChild(At(doc, p).value, k, v).value))
  {
    var ptr := p + [k];
    assert ptr[..|ptr| - 1] == p;
    if p != [] {
      assert [ptr[0]][1..] == [];
      assert At(doc, [ptr[0]]).Ok?;
    }
  }

  lemma ExecuteAdd(cast: Cast, doc: Json, path: string, p: seq<string>, k: string, v: Json)
    requires Split(path) == Ok(p + [k]) && At(doc, p).Ok? && AddChild(At(doc, p).value, k, v).Ok?
    ensures Run(cast, doc, [AddOp(path, v)])
         == Outcome(SetAt(doc, p, AddChild(At(doc, p).value, k, v).value), None)
  {
    RunOne(cast, doc, AddOp(path, v));
    var m := AddOp(path, v).members;
    assert PointerMember(m, "path") == Ok(p + [k]);
    AddAtChild(doc, p, k, v);
  }

  lemma ExecuteRemove(cast: Cast, doc: Json, path: string, p: seq<string>, k: string)
    requires Split(path) == Ok(p + [k]) && At(doc, p).Ok? && RemoveChild(At(doc, p).value, k).Ok?
    ensures Run(cast, doc, [RemoveOp(path)])
         == Outcome(SetAt(doc, p, RemoveChild(At(doc, p).value, k).value), None)
  {
    RunOne(cast, doc, RemoveOp(path));
    var m := RemoveOp(path).members;
    assert PointerMember(m, "path") == Ok(p + [k]);
    assert (p + [k])[..|p|] == p;
  }

  /** Script b continues where script a left the value at p. */
  lemma Then(cast: Cast, doc: Json, p: seq<string>, a: seq<Json>, v: Json, b: seq<Json>, w: Json)
    requires At(doc, p).Ok?
    requires Run(cast, doc, a) == Outcome(SetAt(doc, p, v), None)
    requires At(SetAt(doc, p, v), p) == Ok(v)
    requires Run(cast, SetAt(doc, p, v), b) == Outcome(SetAt(SetAt(doc, p, v), p, w), None)
    ensures Run(cast, doc, a + b) == Outcome(SetAt(doc, p, w), None)
  {
    RunAppend(cast, doc, a, b);
    SetAtTwice(doc, p, v, w);
  }

  lemma RunNone(cast: Cast, doc: Json, p: seq<string>)
    requires At(doc, p).Ok?
    ensures Run(cast, doc, []) == Outcome(SetAt(doc, p, At(doc, p).value), None)
  {
    SetAtSame(doc, p);
  }

  // Arrays

  lemma RemoveLast(cast: Cast, doc: Json, path: string, p: seq<string>, xs: seq<Json>, i: nat)
    requires Split(path) == Ok(p) && At(doc, p) == Ok(Arr(xs))
    requires i + 1 == |xs| < TWO_TO_THE_64 - 1
    ensures Run(cast, doc, [RemoveOp(IndexPath(path, i))]) == Outcome(SetAt(doc, p, Arr(xs[..i])), None)
  {
    SplitIndex(path, i);
    ArrayIndexDecimal(i);
    assert xs[..i] + xs[i + 1..] == xs[..i];
    ExecuteRemove(cast, doc, IndexPath(path, i), p, Decimal(i));
  }

  /** High-to-low removal never meets an invalid index. */
  lemma {:induction false} RemovalsTruncate(cast: Cast, doc: Json, path: string, p: seq<string>,
                                            xs: seq<Json>, lo: nat)
    requires Split(path) == Ok(p) && At(doc, p) == Ok(Arr(xs))
    requires lo <= |xs| < TWO_TO_THE_64 - 1
    ensures Run(cast, doc, Removals(path, lo, |xs|)) == Outcome(SetAt(doc, p, Arr(xs[..lo])), None)
    decreases |xs|
  {
    if lo == |xs| {
      assert xs[..lo] == xs;
      RunNone(cast, doc, p);
    } else {
      var i := |xs| - 1;
      var shorter := xs[..i];
      RemoveLast(cast, doc, path, p, xs, i);
      AtSetAt(doc, p, Arr(shorter));
      RemovalsTruncate(cast, SetAt(doc, p, Arr(shorter)), path, p, shorter, lo);
      assert shorter[..lo] == xs[..lo];
      Then(cast, doc, p, [RemoveOp(IndexPath(path, i))], Arr(shorter), Removals(path, lo, i), Arr(xs[..lo]));
    }
  }

  lemma AppendOne(cast: Cast, doc: Json, path: string, p: seq<string>, xs: seq<Json>, v: Json)
    requires Split(path) == Ok(p) && At(doc, p) == Ok(Arr(xs))
    ensures Run(cast, doc, [AddOp(path + "/-", v)]) == Outcome(SetAt(doc, p, Arr(xs + [v])), None)
  {
    SplitDash(path);
    ExecuteAdd(cast, doc, path + "/-", p, "-", v);
  }

  lemma AppendThen(cast: Cast, doc: Json, path: string, p: seq<string>, ops: seq<Json>, xs: seq<Json>, v: Json)
    requires Split(path) == Ok(p) && At(doc, p).Ok?
    requires Run(cast, doc, ops) == Outcome(SetAt(doc, p, Arr(xs)), None)
    ensures Run(cast, doc, ops + [AddOp(path + "/-", v)]) == Outcome(SetAt(doc, p, Arr(xs + [v])), None)
  {
    AtSetAt(doc, p, Arr(xs));
    var grown := SetAt(doc, p, Arr(xs));
    AppendOne(cast, grown, path, p, xs, v);
    Then(cast, doc, p, ops, Arr(xs), [AddOp(path + "/-", v)], Arr(xs + [v]));
  }

  lemma AppendStep(cast: Cast, doc: Json, path: string, p: seq<string>, xs: seq<Json>, init: seq<Json>, last: Json)
    requires Split(path) == Ok(p) && At(doc, p) == Ok(Arr(xs))
    requires Run(cast, doc, Appends(path, init)) == Outcome(SetAt(doc, p, Arr(xs + init)), None)
    ensures Run(cast, doc, Appends(path, init + [last])) == Outcome(SetAt(doc, p, Arr(xs + (init + [last]))), None)
  {
    AppendThen(cast, doc, path, p, Appends(path, init), xs + init, last);
    assert (init + [last])[..|init|] == init;
    Glue(xs, init, [last]);
  }

  lemma {:induction false} AppendsExtend(cast: Cast, doc: Json, path: string, p: seq<string>,
                                         xs: seq<Json>, vs: seq<Json>)
    requires Split(path) == Ok(p) && At(doc, p) == Ok(Arr(xs))
    ensures Run(cast, doc, Appends(path, vs)) == Outcome(SetAt(doc, p, Arr(xs + vs)), None)
    decreases |vs|
  {
    if vs == [] {
      assert xs + vs == xs;
      RunNone(cast, doc, p);
    } else {
      var init, last := vs[..|vs| - 1], vs[|vs| - 1];
      AppendsExtend(cast, doc, path, p, xs, init);
      AppendStep(cast, doc, path, p, xs, init, last);
      assert init + [last] == vs;
    }
  }

  /** The main induction: the edit script for a sub-document, run where the sub-document sits. */
  lemma {:induction false} DiffRestores(cast: Cast, doc: Json, path: string, p: seq<string>, s: Json, t: Json)
    returns (r: Json)
    requires Split(path) == Ok(p) && At(doc, p) == Ok(s) && Sized(s) && Sized(t)
    ensures Eq(cast, r, t)
    ensures Run(cast, doc, Diff(cast, s, t, path)) == Outcome(SetAt(doc, p, r), None)
    decreases s, 2, 0
  {
    if Eq(cast, s, t) {
      r := s;
      RunNone(cast, doc, p);
    } else if SameType(s, t) && s.Arr? {
      r := ArrayDiffRestores(cast, doc, path, p, s, t);
    } else if SameType(s, t) && s.Obj? {
      r := ObjectDiffRestores(cast, doc, path, p, s, t);
    } else {
      r := t;
      EqReflexive(cast, t);
      ExecuteReplace(cast, doc, path, p, t);
    }
  }

  lemma {:induction false} ArrayDiffRestores(cast: Cast, doc: Json, path: string, p: seq<string>, s: Json, t: Json)
    returns (r: Json)
    requires s.Arr? && t.Arr? && !Eq(cast, s, t)
    requires Split(path) == Ok(p) && At(doc, p) == Ok(s) && Sized(s) && Sized(t)
    ensures Eq(cast, r, t)
    ensures Run(cast, doc, Diff(cast, s, t, path)) == Outcome(SetAt(doc, p, r), None)
    decreases s, 1, |s.elems| + 1
  {
    var xs, ys := s.elems, t.elems;
    var n := Min(|xs|, |ys|);
    var cur := ElemsRestore(cast, doc, path, p, s, t, n);
    var one, two, three := DiffElems(cast, s, t, path, n), Removals(path, n, |xs|), Appends(path, ys[n..]);
    AtSetAt(doc, p, Arr(cur));
    RemovalsTruncate(cast, SetAt(doc, p, Arr(cur)), path, p, cur, n);
    Then(cast, doc, p, one, Arr(cur), two, Arr(cur[..n]));
    AtSetAt(doc, p, Arr(cur[..n]));
    AppendsExtend(cast, SetAt(doc, p, Arr(cur[..n])), path, p, cur[..n], ys[n..]);
    r := Arr(cur[..n] + ys[n..]);
    Then(cast, doc, p, one + two, Arr(cur[..n]), three, r);
    forall i | 0 <= i < |ys| ensures Eq(cast, r.elems[i], ys[i]) {
      if i >= n { EqReflexive(cast, ys[i]); }
    }
  }

  lemma {:induction false} ElemStep(cast: Cast, doc: Json, path: string, p: seq<string>, s: Json, t: Json,
                                    cur: seq<Json>, i: nat)
    returns (r: Json)
    requires s.Arr? && t.Arr? && i < |s.elems| && i < |t.elems| && i < |cur| && cur[i] == s.elems[i]
    requires Split(path) == Ok(p) && At(doc, p) == Ok(Arr(cur)) && Sized(s) && Sized(t)
    ensures Eq(cast, r, t.elems[i])
    ensures Run(cast, doc, Diff(cast, s.elems[i], t.elems[i], IndexPath(path, i)))
         == Outcome(SetAt(doc, p, Arr(cur[i := r])), None)
    decreases s, 0, 0
  {
    SplitIndex(path, i);
    ArrayIndexDecimal(i);
    assert Child(Arr(cur), Decimal(i)) == Ok(cur[i]);
    SetAtAppend(doc, p, Decimal(i), cur[i]);
    r := DiffRestores(cast, doc, IndexPath(path, i), p + [Decimal(i)], s.elems[i], t.elems[i]);
    SetAtAppend(doc, p, Decimal(i), r);
  }

  /** After the first n recursive calls, the first n elements match the target, the rest is untouched. */
  ghost predicate ElemsRestored(cast: Cast, cur: seq<Json>, s: seq<Json>, t: seq<Json>, n: nat)
    requires n <= |s| && n <= |t|
  {
    && |cur| == |s|
    && (forall i | 0 <= i < n :: Eq(cast, cur[i], t[i]))
    && (forall i | n <= i < |s| :: cur[i] == s[i])
  }

  lemma {:induction false} ElemsRestore(cast: Cast, doc: Json, path: string, p: seq<string>, s: Json, t: Json, n: nat)
    returns (cur: seq<Json>)
    requires s.Arr? && t.Arr? && n <= |s.elems| && n <= |t.elems|
    requires Split(path) == Ok(p) && At(doc, p) == Ok(s) && Sized(s) && Sized(t)
    ensures ElemsRestored(cast, cur, s.elems, t.elems, n)
    ensures Run(cast, doc, DiffElems(cast, s, t, path, n)) == Outcome(SetAt(doc, p, Arr(cur)), None)
    decreases s, 1, n
  {
    if n == 0 {
      cur := s.elems;
      RunNone(cast, doc, p);
    } else {
      var i := n - 1;
      var before := ElemsRestore(cast, doc, path, p, s, t, i);
      AtSetAt(doc, p, Arr(before));
      var r := ElemStep(cast, SetAt(doc, p, Arr(before)), path, p, s, t, before, i);
      cur := before[i := r];
      Then(cast, doc, p, DiffElems(cast, s, t, path, i), Arr(before),
           Diff(cast, s.elems[i], t.elems[i], IndexPath(path, i)), Arr(cur));
    }
  }

  // Objects

  /** The members once the source keys in done have been handled by the first pass. */
  ghost predicate MembersRestored(cast: Cast, cur: map<string, Json>, s: map<string, Json>, t: map<string, Json>,
                                  done: seq<string>)
  {
    && (forall k | k in s && k !in done :: k in cur && cur[k] == s[k])
    && (forall k | k in s && k in done && k in t :: k in cur && Eq(cast, cur[k], t[k]))
    && (forall k | k in cur :: k in s && (k in done ==> k in t))
  }

  lemma {:induction false} MemberStep(cast: Cast, doc: Json, path: string, p: seq<string>, s: Json, t: Json,
                                      k: string, cur: map<string, Json>)
    returns (cur': map<string, Json>)
    requires s.Obj? && t.Obj? && k in s.members && k in cur && cur[k] == s.members[k]
    requires Split(path) == Ok(p) && At(doc, p) == Ok(Obj(cur)) && Sized(s) && Sized(t)
    ensures cur' == if k in t.members && k in cur' then cur[k := cur'[k]] else cur - {k}
    ensures k in t.members ==> k in cur' && Eq(cast, cur'[k], t.members[k])
    ensures Run(cast, doc, DiffMember(cast, s, t, path, k)) == Outcome(SetAt(doc, p, Obj(cur')), None)
    decreases s, 0, 0
  {
    SplitKey(path, k);
    if k in t.members {
      assert Child(Obj(cur), k) == Ok(cur[k]);
      SetAtAppend(doc, p, k, cur[k]);
      var r := DiffRestores(cast, doc, KeyPath(path, k), p + [k], s.members[k], t.members[k]);
      SetAtAppend(doc, p, k, r);
      cur' := cur[k := r];
    } else {
      ExecuteRemove(cast, doc, KeyPath(path, k), p, k);
      cur' := cur - {k};
    }
  }

  predicate DistinctKeys(keys: seq<string>, ks: set<string>) {
    keys == [] ||
    var init, k := keys[..|keys| - 1], keys[|keys| - 1];
    k in ks && k !in init && DistinctKeys(init, ks)
  }

  lemma {:induction false} KeysAreDistinct(keys: seq<string>, ks: set<string>)
    requires forall k | k in keys :: k in ks
    requires forall i, j | 0 <= i < j < |keys| :: keys[i] != keys[j]
    ensures DistinctKeys(keys, ks)
  {
    if keys == [] {
    } else {
      KeysAreDistinct(keys[..|keys| - 1], ks);
    }
  }

  lemma {:induction false} MemberThen(cast: Cast, doc: Json, path: string, p: seq<string>, s: Json, t: Json,
                                      k: string, ops: seq<Json>, before: map<string, Json>)
    returns (cur: map<string, Json>)
    requires s.Obj? && t.Obj? && k in s.members && k in before && before[k] == s.members[k]
    requires Split(path) == Ok(p) && At(doc, p).Ok? && Sized(s) && Sized(t)
    requires Run(cast, doc, ops) == Outcome(SetAt(doc, p, Obj(before)), None)
    ensures cur == if k in t.members && k in cur then before[k := cur[k]] else before - {k}
    ensures k in t.members ==> k in cur && Eq(cast, cur[k], t.members[k])
    ensures Run(cast, doc, ops + DiffMember(cast, s, t, path, k)) == Outcome(SetAt(doc, p, Obj(cur)), None)
    decreases s, 0, 1
  {
    AtSetAt(doc, p, Obj(before));
    cur := MemberStep(cast, SetAt(doc, p, Obj(before)), path, p, s, t, k, before);
    Then(cast, doc, p, ops, Obj(before), DiffMember(cast, s, t, path, k), Obj(cur));
  }

  lemma {:induction false} MembersRestore(cast: Cast, doc: Json, path: string, p: seq<string>, s: Json, t: Json,
                                          keys: seq<string>)
    returns (cur: map<string, Json>)
    requires s.Obj? && t.Obj?
    requires Split(path) == Ok(p) && At(doc, p) == Ok(s) && Sized(s) && Sized(t)
    requires DistinctKeys(keys, s.members.Keys)
    ensures MembersRestored(cast, cur, s.members, t.members, keys)
    ensures Run(cast, doc, DiffMembers(cast, s, t, path, keys)) == Outcome(SetAt(doc, p, Obj(cur)), None)
    decreases s, 1, |keys|
  {
    if keys == [] {
      cur := s.members;
      RunNone(cast, doc, p);
    } else {
      var init, k := keys[..|keys| - 1], keys[|keys| - 1];
      var before := MembersRestore(cast, doc, path, p, s, t, init);
      cur := MemberThen(cast, doc, path, p, s, t, k, DiffMembers(cast, s, t, path, init), before);
      MemberRestored(cast, before, cur, s.members, t.members, keys);
    }
  }

  lemma LastDistinct(keys: seq<string>, ks: set<string>)
    requires keys != [] && DistinctKeys(keys, ks)
    ensures keys[|keys| - 1] in ks && keys[|keys| - 1] !in keys[..|keys| - 1]
  {}

  lemma MemberRestored(cast: Cast, before: map<string, Json>, cur: map<string, Json>, s: map<string, Json>,
                       t: map<string, Json>, keys: seq<string>)
    requires keys != [] && DistinctKeys(keys, s.Keys) && MembersRestored(cast, before, s, t, keys[..|keys| - 1])
    requires var k := keys[|keys| - 1];
             && (k in t ==> k in cur && Eq(cast, cur[k], t[k]))
             && cur == if k in t then before[k := cur[k]] else before - {k}
    ensures MembersRestored(cast, cur, s, t, keys)
  {
    var init, k := keys[..|keys| - 1], keys[|keys| - 1];
    assert keys == init + [k];
    LastDistinct(keys, s.Keys);
    MemberHandled(cast, before, cur, s, t, init, k);
  }

  lemma MemberHandled(cast: Cast, before: map<string, Json>, cur: map<string, Json>, s: map<string, Json>,
                      t: map<string, Json>, done: seq<string>, k: string)
    requires MembersRestored(cast, before, s, t, done) && k in s && k !in done
    requires k in t ==> k in cur && Eq(cast, cur[k], t[k])
    requires cur == if k in t && k in cur then before[k := cur[k]] else before - {k}
    ensures MembersRestored(cast, cur, s, t, done + [k])
  {}

  /** One key of the second pass. */
  lemma AdditionRuns(cast: Cast, doc: Json, path: string, p: seq<string>, s: Json, t: Json,
                     init: seq<string>, k: string, cur: map<string, Json>)
    requires s.Obj? && t.Obj? && k in t.members && Split(path) == Ok(p) && At(doc, p).Ok?
    requires Run(cast, doc, Additions(s, t, path, init)) == Outcome(SetAt(doc, p, Obj(cur)), None)
    ensures Run(cast, doc, Additions(s, t, path, init) + Addition(s, t, path, k))
            == Outcome(SetAt(doc, p, Obj(if k in s.members then cur else cur[k := t.members[k]])), None)
  {
    if k in s.members {
      assert Additions(s, t, path, init) + [] == Additions(s, t, path, init);
    } else {
      AtSetAt(doc, p, Obj(cur));
      SplitKey(path, k);
      ExecuteAdd(cast, SetAt(doc, p, Obj(cur)), KeyPath(path, k), p, k, t.members[k]);
      Then(cast, doc, p, Additions(s, t, path, init), Obj(cur),
           Addition(s, t, path, k), Obj(cur[k := t.members[k]]));
    }
  }

  /** The second pass adds exactly the handled target keys that the source lacks. */
  lemma {:induction false} AdditionsComplete(cast: Cast, doc: Json, path: string, p: seq<string>, s: Json, t: Json,
                                             keys: seq<string>, base: map<string, Json>)
    returns (cur: map<string, Json>)
    requires s.Obj? && t.Obj?
    requires Split(path) == Ok(p) && At(doc, p) == Ok(Obj(base))
    requires forall k | k in keys :: k in t.members
    ensures forall k | k in base && (k in s.members || k !in keys) :: k in cur && cur[k] == base[k]
    ensures forall k | k in keys && k !in s.members :: k in cur && cur[k] == t.members[k]
    ensures forall k | k in cur :: k in base || k in keys
    ensures Run(cast, doc, Additions(s, t, path, keys)) == Outcome(SetAt(doc, p, Obj(cur)), None)
    decreases |keys|
  {
    if keys == [] {
      cur := base;
      RunNone(cast, doc, p);
    } else {
      var init, k := keys[..|keys| - 1], keys[|keys| - 1];
      assert keys == init + [k];
      cur := AdditionsComplete(cast, doc, path, p, s, t, init, base);
      AdditionRuns(cast, doc, path, p, s, t, init, k, cur);
      if k !in s.members { cur := cur[k := t.members[k]]; }
    }
  }

  lemma {:induction false} ObjectDiffRestores(cast: Cast, doc: Json, path: string, p: seq<string>, s: Json, t: Json)
    returns (r: Json)
    requires s.Obj? && t.Obj? && !Eq(cast, s, t)
    requires Split(path) == Ok(p) && At(doc, p) == Ok(s) && Sized(s) && Sized(t)
    ensures Eq(cast, r, t)
    ensures Run(cast, doc, Diff(cast, s, t, path)) == Outcome(SetAt(doc, p, r), None)
    decreases s, 1, |SortedKeys(s.members.Keys)| + 1
  {
    var sKeys, tKeys := SortedKeys(s.members.Keys), SortedKeys(t.members.Keys);
    KeysAreDistinct(sKeys, s.members.Keys);
    var base := MembersRestore(cast, doc, path, p, s, t, sKeys);
    AtSetAt(doc, p, Obj(base));
    var cur := AdditionsComplete(cast, SetAt(doc, p, Obj(base)), path, p, s, t, tKeys, base);
    Then(cast, doc, p, DiffMembers(cast, s, t, path, sKeys), Obj(base), Additions(s, t, path, tKeys), Obj(cur));
    r := Obj(cur);
    forall k | k in t.members ensures k in cur && Eq(cast, cur[k], t.members[k]) {
      if k !in s.members { EqReflexive(cast, t.members[k]); }
    }
    assert cur.Keys == t.members.Keys;
  }

  /** The patch computed by diff turns the source into a document equal to the target. */
  lemma PatchOfDiff(cast: Cast, s: Json, t: Json)
    requires Sized(s) && Sized(t)
    ensures var result := PatchFn(cast, s, Arr(Diff(cast, s, t, "")));
            result.thrown.None? && Eq(cast, result.doc, t)
  {
    var r := DiffRestores(cast, s, "", [], s, t);
  }

  /** diff is empty exactly when the documents are equal. */
  lemma {:induction false} DiffEmptyIffEqual(cast: Cast, s: Json, t: Json, path: string)
    ensures Diff(cast, s, t, path) == [] <==> Eq(cast, s, t)
    decreases s, 1, 0
  {
    if !Eq(cast, s, t) && SameType(s, t) {
      if s.Arr? && |s.elems| == |t.elems| {
        var i :| 0 <= i < |s.elems| && !Eq(cast, s.elems[i], t.elems[i]);
        DiffEmptyIffEqual(cast, s.elems[i], t.elems[i], IndexPath(path, i));
        DiffElemsNonEmpty(cast, s, t, path, i, |s.elems|);
      } else if s.Arr? {
        var n := Min(|s.elems|, |t.elems|);
        if n < |t.elems| { assert t.elems[n..] != []; }
      } else if s.Obj? {
        ObjectDiffNonEmpty(cast, s, t, path);
      }
    }
  }

  lemma {:induction false} DiffElemsNonEmpty(cast: Cast, s: Json, t: Json, path: string, i: nat, n: nat)
    requires s.Arr? && t.Arr? && i < n <= |s.elems| && n <= |t.elems|
    requires Diff(cast, s.elems[i], t.elems[i], IndexPath(path, i)) != []
    ensures DiffElems(cast, s, t, path, n) != []
    decreases n
  {
    if i < n - 1 { DiffElemsNonEmpty(cast, s, t, path, i, n - 1); }
  }

  lemma {:induction false} ObjectDiffNonEmpty(cast: Cast, s: Json, t: Json, path: string)
    requires s.Obj? && t.Obj? && !Eq(cast, s, t)
    ensures Diff(cast, s, t, path) != []
    decreases s, 0, 0
  {
    if s.members.Keys == t.members.Keys {
      var k :| k in s.members && !Eq(cast, s.members[k], t.members[k]);
      DiffEmptyIffEqual(cast, s.members[k], t.members[k], KeyPath(path, k));
      DiffMembersNonEmpty(cast, s, t, path, k, SortedKeys(s.members.Keys));
    } else if k :| k in s.members && k !in t.members {
      DiffMembersNonEmpty(cast, s, t, path, k, SortedKeys(s.members.Keys));
    } else {
      var k :| k in t.members && k !in s.members;
      AdditionsNonEmpty(s, t, path, k, SortedKeys(t.members.Keys));
    }
  }

  lemma {:induction false} DiffMembersNonEmpty(cast: Cast, s: Json, t: Json, path: string, k: string, keys: seq<string>)
    requires s.Obj? && t.Obj? && k in keys && DiffMember(cast, s, t, path, k) != []
    ensures DiffMembers(cast, s, t, path, keys) != []
    decreases |keys|
  {
    var init := keys[..|keys| - 1];
    assert keys == init + [keys[|keys| - 1]];
    if k in init { DiffMembersNonEmpty(cast, s, t, path, k, init); }
  }

  lemma {:induction false} AdditionsNonEmpty(s: Json, t: Json, path: string, k: string, keys: seq<string>)
    requires s.Obj? && t.Obj? && k in keys && k in t.members && k !in s.members
    ensures Additions(s, t, path, keys) != []
    decreases |keys|
  {
    var init := keys[..|keys| - 1];
    assert keys == init + [keys[|keys| - 1]];
    if k in init { AdditionsNonEmpty(s, t, path, k, init); }
  }

  // What the other operations promise

  /** A path as an operation uses it: the parent's path and the last token. */
  lemma AddAtInversion(doc: Json, ptr: seq<string>, v: Json) returns (p: seq<string>, k: string)
    requires ptr != [] && AddAt(doc, ptr, v).Ok?
    ensures ptr == p + [k] && p == ptr[..|ptr| - 1] && At(doc, p).Ok? && AddChild(At(doc, p).value, k, v).Ok?
    ensures AddAt(doc, ptr, v) == Ok(SetAt(doc, p, AddChild(At(doc, p).value, k, v).value))
  {
    p, k := ptr[..|ptr| - 1], ptr[|ptr| - 1];
  }

  /** The path names one place of the document, and not the end of an array. */
  predicate NamesPlace(doc: Json, ptr: seq<string>) {
    ptr == [] || ptr[|ptr| - 1] != "-" || (At(doc, ptr[..|ptr| - 1]).Ok? && !At(doc, ptr[..|ptr| - 1]).value.Arr?)
  }

  lemma AddedChild(parent: Json, k: string, v: Json)
    requires AddChild(parent, k, v).Ok?
    ensures Child(AddChild(parent, k, v).value, k) == Ok(v) <==> k != "-" || !parent.Arr?
  {}

  /** An added value is found at the very path it was added to exactly if that names a place; the root does. */
  lemma AddedValueIsThere(doc: Json, ptr: seq<string>, v: Json)
    requires AddAt(doc, ptr, v).Ok?
    ensures At(AddAt(doc, ptr, v).value, ptr) == Ok(v) <==> NamesPlace(doc, ptr)
  {
    if ptr != [] {
      var p, k := AddAtInversion(doc, ptr, v);
      var parent' := AddChild(At(doc, p).value, k, v).value;
      AtSetAt(doc, p, parent');
      AtAppend(SetAt(doc, p, parent'), p, [k]);
      AddedChild(At(doc, p).value, k, v);
      assert [k][1..] == [];
    }
  }

  lemma RemoveChildUndoes(parent: Json, k: string, v: Json)
    requires AddChild(parent, k, v).Ok?
    ensures RemoveChild(AddChild(parent, k, v).value, k) == Ok(parent) <==> MakesPlace(parent, k)
  {
    var parent' := AddChild(parent, k, v).value;
    if parent.Arr? && k == "-" {
      assert ArrayIndex(k).Err?;
    } else if parent.Arr? {
      var x, i := parent.elems, ArrayIndex(k).value;
      assert parent'.elems[..i] + parent'.elems[i + 1..] == x;
    } else if parent.Obj? {
      assert k in parent.members || parent.members[k := v] - {k} == parent.members;
    }
  }

  /** add inserts at an index, or makes a new member. */
  predicate MakesPlace(parent: Json, k: string) {
    (parent.Arr? && k != "-") || (parent.Obj? && k !in parent.members)
  }

  /** remove undoes add exactly when add made a new place that can be named; never at the root. */
  lemma RemoveUndoesAdd(doc: Json, ptr: seq<string>, v: Json)
    requires AddAt(doc, ptr, v).Ok?
    ensures RemoveAt(AddAt(doc, ptr, v).value, ptr) == Ok(doc) <==>
            ptr != [] && At(doc, ptr[..|ptr| - 1]).Ok?
            && MakesPlace(At(doc, ptr[..|ptr| - 1]).value, ptr[|ptr| - 1])
  {
    if ptr != [] {
      var p, k := AddAtInversion(doc, ptr, v);
      var parent' := AddChild(At(doc, p).value, k, v).value;
      AtSetAt(doc, p, parent');
      RemoveChildUndoes(At(doc, p).value, k, v);
      SetAtSame(doc, p);
      if RemoveChild(parent', k).Ok? {
        var parent'' := RemoveChild(parent', k).value;
        SetAtTwice(doc, p, parent', parent'');
        AtSetAt(doc, p, parent'');
      }
    }
  }

  /**
   * A successful move leaves the value that was at the source at the target, exactly if the target names a place of the
   * document without it.
   */
  lemma MoveDelivers(cast: Cast, doc: Json, m: map<string, Json>, from: seq<string>, ptr: seq<string>)
    requires PointerMember(m, "from") == Ok(from) && Dispatch(cast, doc, m, "move", ptr).thrown.None?
    ensures At(doc, from).Ok? && RemoveAt(doc, from).Ok?
    ensures At(Dispatch(cast, doc, m, "move", ptr).doc, ptr) == At(doc, from)
            <==> NamesPlace(RemoveAt(doc, from).value, ptr)
  {
    AddedValueIsThere(RemoveAt(doc, from).value, ptr, At(doc, from).value);
  }
}
