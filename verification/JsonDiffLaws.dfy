/** Every operation that diff emits names a place where the two documents differ, and as deep a one as there is. */
module JsonDiffLaws {
  import opened Common
  import opened JsonValue
  import opened JsonPointer
  import opened JsonPointerLaws
  import opened JsonPatch
  import opened JsonPatchLaws

  /** At this place stand different values that have no members or elements in common kind. */
  ghost predicate Replaced(cast: Cast, s: Json, t: Json, op: Json, p: seq<string>) {
    && At(s, p).Ok? && At(t, p).Ok? && op == ReplaceOp(Pointer(p), At(t, p).value)
    && !Eq(cast, At(s, p).value, At(t, p).value)
    && !(At(s, p).value.Arr? && At(t, p).value.Arr?) && !(At(s, p).value.Obj? && At(t, p).value.Obj?)
  }

  /** This place is in the source only. */
  ghost predicate Gone(s: Json, t: Json, op: Json, p: seq<string>) {
    op == RemoveOp(Pointer(p)) && At(s, p).Ok? && At(t, p).Err?
  }

  /** This member is in the target only. */
  ghost predicate New(s: Json, t: Json, op: Json, p: seq<string>) {
    At(s, p).Err? && At(t, p).Ok? && op == AddOp(Pointer(p), At(t, p).value)
  }

  /** This element of an array of the target is behind the end of the array of the source. */
  ghost predicate Behind(s: Json, t: Json, op: Json, p: seq<string>) {
    && At(s, p).Ok? && At(t, p).Ok? && At(s, p).value.Arr? && At(t, p).value.Arr?
    && exists i :: |At(s, p).value.elems| <= i < |At(t, p).value.elems|
                   && op == AddOp(Pointer(p) + "/-", At(t, p).value.elems[i])
  }

  ghost predicate Difference(cast: Cast, s: Json, t: Json, op: Json, p: seq<string>) {
    Replaced(cast, s, t, op, p) || Gone(s, t, op, p) || New(s, t, op, p) || Behind(s, t, op, p)
  }

  ghost predicate Different(cast: Cast, s: Json, t: Json, op: Json) {
    exists p :: Difference(cast, s, t, op, p)
  }

  ghost predicate AllDifferent(cast: Cast, s: Json, t: Json, ops: seq<Json>) {
    forall i | 0 <= i < |ops| :: Different(cast, s, t, ops[i])
  }

  // Places

  lemma {:induction false} PointerAppend(p: seq<string>, k: string)
    ensures Pointer(p + [k]) == KeyPath(Pointer(p), k)
  {
    if p == [] {
      assert p + [k] == [k] && [k][1..] == [];
    } else {
      assert (p + [k])[0] == p[0] && (p + [k])[1..] == p[1..] + [k];
      PointerAppend(p[1..], k);
      Glue(Escape(p[0]), Pointer(p[1..]), "/" + Escape(k));
      Regroup(Escape(p[0]), Pointer(p[1..]), Escape(k));
    }
  }

  lemma Regroup(a: string, b: string, c: string)
    ensures "/" + (a + (b + "/" + c)) == "/" + (a + b) + "/" + c
  {}

  lemma IndexAppend(p: seq<string>, i: nat)
    ensures Pointer(p + [Decimal(i)]) == IndexPath(Pointer(p), i)
  {
    PointerAppend(p, Decimal(i));
    PlainEscape(Decimal(i));
  }

  lemma {:induction false} PlainEscape(s: string)
    requires AllDigits(s)
    ensures Escape(s) == s
  {
    if s == "" {
    } else {
      assert s == [s[0]] + s[1..];
      PlainEscape(s[1..]);
      EscapeCons(s[0], s[1..]);
    }
  }

  lemma AtChild(doc: Json, p: seq<string>, here: Json, k: string)
    requires At(doc, p) == Ok(here)
    ensures At(doc, p + [k]) == Child(here, k)
  {
    LookedUpFurther(doc, p, [k]);
    assert [k][1..] == [];
  }

  lemma AtElement(doc: Json, p: seq<string>, here: Json, i: nat)
    requires At(doc, p) == Ok(here) && here.Arr? && i < 0xFFFF_FFFF_FFFF_FFFF
    ensures At(doc, p + [Decimal(i)]) == if i < |here.elems| then Ok(here.elems[i]) else Err(OutOfRange(401))
  {
    AtChild(doc, p, here, Decimal(i));
    LookedUp(here, Decimal(i));
  }

  // The parts of the script

  lemma DifferentJoin(cast: Cast, s: Json, t: Json, a: seq<Json>, b: seq<Json>)
    requires AllDifferent(cast, s, t, a) && AllDifferent(cast, s, t, b)
    ensures AllDifferent(cast, s, t, a + b)
  {}

  lemma {:induction false} RemovalsNamed(cast: Cast, s: Json, t: Json, p: seq<string>, x: Json, y: Json, lo: nat, hi: nat)
    requires At(s, p) == Ok(x) && At(t, p) == Ok(y) && x.Arr? && y.Arr?
    requires (lo < hi ==> |y.elems| <= lo) && hi <= |x.elems| < 0xFFFF_FFFF_FFFF_FFFF
    ensures AllDifferent(cast, s, t, Removals(Pointer(p), lo, hi))
    decreases hi
  {
    if lo < hi {
      var k := hi - 1;
      AtElement(s, p, x, k);
      AtElement(t, p, y, k);
      IndexAppend(p, k);
      assert Gone(s, t, RemoveOp(IndexPath(Pointer(p), k)), p + [Decimal(k)]);
      assert Difference(cast, s, t, RemoveOp(IndexPath(Pointer(p), k)), p + [Decimal(k)]);
      RemovalsNamed(cast, s, t, p, x, y, lo, k);
      DifferentJoin(cast, s, t, [RemoveOp(IndexPath(Pointer(p), k))], Removals(Pointer(p), lo, k));
    }
  }

  lemma {:induction false} AppendsNamed(cast: Cast, s: Json, t: Json, p: seq<string>, x: Json, y: Json, n: nat)
    requires At(s, p) == Ok(x) && At(t, p) == Ok(y) && x.Arr? && y.Arr?
    requires Min(|x.elems|, |y.elems|) <= n <= |y.elems|
    ensures AllDifferent(cast, s, t, Appends(Pointer(p), y.elems[Min(|x.elems|, |y.elems|)..n]))
    decreases n
  {
    var lo := Min(|x.elems|, |y.elems|);
    if lo < n {
      var op := AddOp(Pointer(p) + "/-", y.elems[n - 1]);
      assert y.elems[lo..n][..n - lo - 1] == y.elems[lo..n - 1];
      assert Behind(s, t, op, p);
      assert Difference(cast, s, t, op, p);
      AppendsNamed(cast, s, t, p, x, y, n - 1);
      DifferentJoin(cast, s, t, Appends(Pointer(p), y.elems[lo..n - 1]), [op]);
    }
  }

  lemma {:induction false} AdditionsNamed(cast: Cast, s: Json, t: Json, p: seq<string>, x: Json, y: Json, keys: seq<string>)
    requires At(s, p) == Ok(x) && At(t, p) == Ok(y) && x.Obj? && y.Obj?
    requires forall k | k in keys :: k in y.members
    ensures AllDifferent(cast, s, t, Additions(x, y, Pointer(p), keys))
  {
    if keys == [] {
    } else {
      var init, k := keys[..|keys| - 1], keys[|keys| - 1];
      AdditionsNamed(cast, s, t, p, x, y, init);
      if k !in x.members {
        var op := AddOp(KeyPath(Pointer(p), k), y.members[k]);
        AtChild(s, p, x, k);
        AtChild(t, p, y, k);
        PointerAppend(p, k);
        assert New(s, t, op, p + [k]);
        assert Difference(cast, s, t, op, p + [k]);
        DifferentJoin(cast, s, t, Additions(x, y, Pointer(p), init), [op]);
      }
    }
  }

  lemma {:induction false} ElemsNamed(cast: Cast, s: Json, t: Json, p: seq<string>, x: Json, y: Json, n: nat)
    requires At(s, p) == Ok(x) && At(t, p) == Ok(y) && x.Arr? && y.Arr? && Sized(x) && Sized(y)
    requires n <= |x.elems| && n <= |y.elems|
    ensures AllDifferent(cast, s, t, DiffElems(cast, x, y, Pointer(p), n))
    decreases x, 1, n
  {
    if n == 0 {
    } else {
      var k := n - 1;
      ElemsNamed(cast, s, t, p, x, y, k);
      AtElement(s, p, x, k);
      AtElement(t, p, y, k);
      IndexAppend(p, k);
      DiffNamed(cast, s, t, p + [Decimal(k)], x.elems[k], y.elems[k]);
      DifferentJoin(cast, s, t, DiffElems(cast, x, y, Pointer(p), k),
                    Diff(cast, x.elems[k], y.elems[k], IndexPath(Pointer(p), k)));
    }
  }

  lemma {:induction false} MembersNamed(cast: Cast, s: Json, t: Json, p: seq<string>, x: Json, y: Json, keys: seq<string>)
    requires At(s, p) == Ok(x) && At(t, p) == Ok(y) && x.Obj? && y.Obj? && Sized(x) && Sized(y)
    requires forall k | k in keys :: k in x.members
    ensures AllDifferent(cast, s, t, DiffMembers(cast, x, y, Pointer(p), keys))
    decreases x, 1, |keys|
  {
    if keys == [] {
    } else {
      var init, k := keys[..|keys| - 1], keys[|keys| - 1];
      assert k in x.members;
      MembersNamed(cast, s, t, p, x, y, init);
      AtChild(s, p, x, k);
      AtChild(t, p, y, k);
      PointerAppend(p, k);
      if k in y.members {
        DiffNamed(cast, s, t, p + [k], x.members[k], y.members[k]);
      } else {
        assert Gone(s, t, RemoveOp(KeyPath(Pointer(p), k)), p + [k]);
        assert Difference(cast, s, t, RemoveOp(KeyPath(Pointer(p), k)), p + [k]);
      }
      DifferentJoin(cast, s, t, DiffMembers(cast, x, y, Pointer(p), init), DiffMember(cast, x, y, Pointer(p), k));
    }
  }

  lemma {:induction false} DiffNamed(cast: Cast, s: Json, t: Json, p: seq<string>, x: Json, y: Json)
    requires At(s, p) == Ok(x) && At(t, p) == Ok(y) && Sized(x) && Sized(y)
    ensures AllDifferent(cast, s, t, Diff(cast, x, y, Pointer(p)))
    decreases x, 2, 0
  {
    if Eq(cast, x, y) {
    } else if x.Arr? && y.Arr? {
      var n := Min(|x.elems|, |y.elems|);
      ElemsNamed(cast, s, t, p, x, y, n);
      RemovalsNamed(cast, s, t, p, x, y, n, |x.elems|);
      AppendsNamed(cast, s, t, p, x, y, |y.elems|);
      assert y.elems[n..|y.elems|] == y.elems[n..];
      var first := DiffElems(cast, x, y, Pointer(p), n);
      DifferentJoin(cast, s, t, first, Removals(Pointer(p), n, |x.elems|));
      DifferentJoin(cast, s, t, first + Removals(Pointer(p), n, |x.elems|), Appends(Pointer(p), y.elems[n..]));
    } else if x.Obj? && y.Obj? {
      MembersNamed(cast, s, t, p, x, y, SortedKeys(x.members.Keys));
      AdditionsNamed(cast, s, t, p, x, y, SortedKeys(y.members.Keys));
      DifferentJoin(cast, s, t, DiffMembers(cast, x, y, Pointer(p), SortedKeys(x.members.Keys)),
                    Additions(x, y, Pointer(p), SortedKeys(y.members.Keys)));
    } else {
      assert Replaced(cast, s, t, ReplaceOp(Pointer(p), y), p);
      assert Difference(cast, s, t, ReplaceOp(Pointer(p), y), p);
    }
  }

  /** Whatever stands in both documents is not touched, and containers of one kind are never replaced as a whole. */
  lemma DiffNamesDifferences(cast: Cast, s: Json, t: Json)
    requires Sized(s) && Sized(t)
    ensures AllDifferent(cast, s, t, Diff(cast, s, t, ""))
  {
    DiffNamed(cast, s, t, [], s, t);
  }
}
