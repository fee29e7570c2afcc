/** What a merge does at every depth, seen by looking values up along keys, and that this determines it. */
module JsonMergeLaws {
  import opened Common
  import opened JsonValue
  import opened JsonMergePatch

  /** The value that a path of keys leads to; only objects have members. */
  function Lookup(j: Json, path: seq<string>): Option<Json> {
    if path == [] then Some(j)
    else if j.Obj? && path[0] in j.members then Lookup(j.members[path[0]], path[1..])
    else None
  }

  lemma LookupCons(j: Json, k: string, q: seq<string>)
    ensures Lookup(j, [k] + q) == if j.Obj? && k in j.members then Lookup(j.members[k], q) else None
  {
    assert ([k] + q)[1..] == q;
  }

  lemma LookupNull(q: seq<string>, k: string)
    ensures Lookup(Null, q + [k]) == None
  {}

  /** One level: what stands below a member of the result. */
  lemma MergedBelow(target: Json, patch: Json, k: string, q: seq<string>)
    requires patch.Obj? && k in patch.members && !patch.members[k].Null?
    ensures Lookup(MergePatch(target, patch), [k] + q)
            == Lookup(MergePatch(Below(target, k), patch.members[k]), q)
  {
    LookupCons(MergePatch(target, patch), k, q);
  }

  /**
   * Where the patch has objects only, along q, what it does not mention there is as it was: the same value, or absent. A
   * target that is no object somewhere along q has nothing there.
   */
  lemma {:induction false} MergeKeeps(target: Json, patch: Json, q: seq<string>, k: string)
    requires Lookup(patch, q).Some? && Lookup(patch, q).value.Obj? && k !in Lookup(patch, q).value.members
    ensures Lookup(MergePatch(target, patch), q + [k]) == Lookup(target, q + [k])
    decreases |q|
  {
    if q == [] {
      assert [] + [k] == [k] + [];
      LookupCons(MergePatch(target, patch), k, []);
      LookupCons(target, k, []);
    } else {
      var below := Below(target, q[0]);
      assert q + [k] == [q[0]] + (q[1..] + [k]);
      MergeKeeps(below, patch.members[q[0]], q[1..], k);
      MergedBelow(target, patch, q[0], q[1..] + [k]);
      LookupCons(target, q[0], q[1..] + [k]);
      LookupNull(q[1..], k);
    }
  }

  /** Where the patch has a value that is neither an object nor null, the result has exactly that value. */
  lemma {:induction false} MergeSets(target: Json, patch: Json, q: seq<string>)
    requires Lookup(patch, q).Some? && !Lookup(patch, q).value.Obj? && (q != [] ==> !Lookup(patch, q).value.Null?)
    ensures Lookup(MergePatch(target, patch), q) == Lookup(patch, q)
    decreases |q|
  {
    if q == [] {
    } else {
      var below := Below(target, q[0]);
      assert q == [q[0]] + q[1..];
      MergeSets(below, patch.members[q[0]], q[1..]);
      MergedBelow(target, patch, q[0], q[1..]);
    }
  }

  /** Where the patch has a null member, the result has none. */
  lemma {:induction false} MergeDrops(target: Json, patch: Json, q: seq<string>, k: string)
    requires Lookup(patch, q + [k]) == Some(Null)
    ensures Lookup(MergePatch(target, patch), q + [k]) == None
    decreases |q|
  {
    if q == [] {
      assert [] + [k] == [k] + [];
      LookupCons(patch, k, []);
      LookupCons(MergePatch(target, patch), k, []);
    } else {
      var below := Below(target, q[0]);
      assert q + [k] == [q[0]] + (q[1..] + [k]);
      LookupCons(patch, q[0], q[1..] + [k]);
      LookupNull(q[1..], k);
      MergeDrops(below, patch.members[q[0]], q[1..], k);
      MergedBelow(target, patch, q[0], q[1..] + [k]);
    }
  }

  /** Where the patch has an object, the result has one. */
  lemma {:induction false} MergeOpens(target: Json, patch: Json, q: seq<string>)
    requires Lookup(patch, q).Some? && Lookup(patch, q).value.Obj?
    ensures Lookup(MergePatch(target, patch), q).Some? && Lookup(MergePatch(target, patch), q).value.Obj?
    decreases |q|
  {
    if q == [] {
    } else {
      var below := Below(target, q[0]);
      assert q == [q[0]] + q[1..];
      MergeOpens(below, patch.members[q[0]], q[1..]);
      MergedBelow(target, patch, q[0], q[1..]);
    }
  }

  predicate Keeps(target: Json, patch: Json, r: Json, q: seq<string>, k: string) {
    Lookup(patch, q).Some? && Lookup(patch, q).value.Obj? && k !in Lookup(patch, q).value.members ==>
      Lookup(r, q + [k]) == Lookup(target, q + [k])
  }

  predicate Sets(patch: Json, r: Json, q: seq<string>) {
    Lookup(patch, q).Some? && !Lookup(patch, q).value.Obj? && (q != [] ==> !Lookup(patch, q).value.Null?) ==>
      Lookup(r, q) == Lookup(patch, q)
  }

  predicate Drops(patch: Json, r: Json, q: seq<string>, k: string) {
    Lookup(patch, q + [k]) == Some(Null) ==> Lookup(r, q + [k]) == None
  }

  predicate Opens(patch: Json, r: Json, q: seq<string>) {
    Lookup(patch, q).Some? && Lookup(patch, q).value.Obj? ==> Lookup(r, q).Some? && Lookup(r, q).value.Obj?
  }

  /** A document that agrees with the target and the patch at every depth in these four ways. */
  ghost predicate Merges(target: Json, patch: Json, r: Json) {
    && (forall q: seq<string>, k: string :: Keeps(target, patch, r, q, k))
    && (forall q: seq<string> :: Sets(patch, r, q))
    && (forall q: seq<string>, k: string :: Drops(patch, r, q, k))
    && (forall q: seq<string> :: Opens(patch, r, q))
  }

  /** There is exactly one such document, and the merge gives it. */
  lemma MergeExact(target: Json, patch: Json, r: Json)
    ensures r == MergePatch(target, patch) <==> Merges(target, patch, r)
  {
    var m := MergePatch(target, patch);
    forall q: seq<string>, k: string ensures Keeps(target, patch, m, q, k) {
      if Lookup(patch, q).Some? && Lookup(patch, q).value.Obj? && k !in Lookup(patch, q).value.members {
        MergeKeeps(target, patch, q, k);
      }
    }
    forall q: seq<string> ensures Sets(patch, m, q) {
      if Lookup(patch, q).Some? && !Lookup(patch, q).value.Obj? && (q != [] ==> !Lookup(patch, q).value.Null?) {
        MergeSets(target, patch, q);
      }
    }
    forall q: seq<string>, k: string ensures Drops(patch, m, q, k) {
      if Lookup(patch, q + [k]) == Some(Null) { MergeDrops(target, patch, q, k); }
    }
    forall q: seq<string> ensures Opens(patch, m, q) {
      if Lookup(patch, q).Some? && Lookup(patch, q).value.Obj? { MergeOpens(target, patch, q); }
    }
    if Merges(target, patch, r) { MergesUnique(target, patch, r, m); }
  }

  lemma {:induction false} MergesUnique(target: Json, patch: Json, a: Json, b: Json)
    requires Merges(target, patch, a) && Merges(target, patch, b)
    ensures a == b
    decreases patch
  {
    assert Sets(patch, a, []) && Sets(patch, b, []) && Opens(patch, a, []) && Opens(patch, b, []);
    if patch.Obj? {
      forall k: string
        ensures k in a.members <==> k in b.members
        ensures k in a.members && k in b.members ==> a.members[k] == b.members[k]
      {
        MemberUnique(target, patch, a, b, k);
      }
      assert a.members.Keys == b.members.Keys;
      assert a.members == b.members;
    }
  }

  lemma MemberUnique(target: Json, patch: Json, a: Json, b: Json, k: string)
    requires patch.Obj? && a.Obj? && b.Obj? && Merges(target, patch, a) && Merges(target, patch, b)
    ensures k in a.members <==> k in b.members
    ensures k in a.members && k in b.members ==> a.members[k] == b.members[k]
    decreases patch, 0
  {
    assert [] + [k] == [k] + [];
    LookupCons(a, k, []);
    LookupCons(b, k, []);
    LookupCons(patch, k, []);
    assert Keeps(target, patch, a, [], k) && Keeps(target, patch, b, [], k);
    assert Drops(patch, a, [], k) && Drops(patch, b, [], k);
    if k in patch.members && !patch.members[k].Null? {
      MergesBelow(target, patch, a, k);
      MergesBelow(target, patch, b, k);
      MergesUnique(Below(target, k), patch.members[k], a.members[k], b.members[k]);
    }
  }

  /** The member of a target, null if there is none. */
  function Below(target: Json, k: string): Json {
    if target.Obj? && k in target.members then target.members[k] else Null
  }

  lemma KeepsBelow(target: Json, patch: Json, r: Json, k: string, q: seq<string>, l: string)
    requires patch.Obj? && r.Obj? && k in patch.members && k in r.members && Keeps(target, patch, r, [k] + q, l)
    ensures Keeps(Below(target, k), patch.members[k], r.members[k], q, l)
  {
    assert [k] + q + [l] == [k] + (q + [l]);
    LookupCons(patch, k, q);
    LookupCons(r, k, q + [l]);
    LookupCons(target, k, q + [l]);
    LookupNull(q, l);
  }

  lemma DropsBelow(patch: Json, r: Json, k: string, q: seq<string>, l: string)
    requires patch.Obj? && r.Obj? && k in patch.members && k in r.members && Drops(patch, r, [k] + q, l)
    ensures Drops(patch.members[k], r.members[k], q, l)
  {
    assert [k] + q + [l] == [k] + (q + [l]);
    LookupCons(patch, k, q + [l]);
    LookupCons(r, k, q + [l]);
  }

  lemma MergesBelow(target: Json, patch: Json, r: Json, k: string)
    requires patch.Obj? && r.Obj? && Merges(target, patch, r) && k in patch.members && !patch.members[k].Null?
    ensures k in r.members && Merges(Below(target, k), patch.members[k], r.members[k])
  {
    LookupCons(patch, k, []);
    LookupCons(r, k, []);
    assert Sets(patch, r, [k] + []) && Opens(patch, r, [k] + []);
    forall q: seq<string>, l: string ensures Keeps(Below(target, k), patch.members[k], r.members[k], q, l) {
      KeepsBelow(target, patch, r, k, q, l);
    }
    forall q: seq<string>, l: string ensures Drops(patch.members[k], r.members[k], q, l) { DropsBelow(patch, r, k, q, l); }
    forall q: seq<string>
      ensures Sets(patch.members[k], r.members[k], q) && Opens(patch.members[k], r.members[k], q)
    {
      assert Sets(patch, r, [k] + q) && Opens(patch, r, [k] + q);
      LookupCons(patch, k, q);
      LookupCons(r, k, q);
    }
  }
}
