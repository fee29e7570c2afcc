/** JSON Merge Patch: the in-place recursion of merge_patch against section 2 of RFC 7396. */
module JsonMergePatch {
  import opened JsonValue

  function MembersOf(target: Json): map<string, Json> {
    if target.Obj? then target.members else map[]
  }

  /** What a key maps to before it is merged: operator[] creates a missing member as null. */
  function Existing(base: map<string, Json>, k: string): Json {
    if k in base then base[k] else Null
  }

  /** The function of section 2 of RFC 7396, all members at once. */
  function MergePatch(target: Json, patch: Json): Json
    decreases patch
  {
    if patch.Obj? then
      var base := MembersOf(target);
      Obj(map k | k in base.Keys + patch.members.Keys && !(k in patch.members && patch.members[k].Null?) ::
            if k in patch.members then MergePatch(Existing(base, k), patch.members[k]) else base[k])
    else patch
  }

  /** The members once the patch keys in done have been visited. */
  function Merged(base: map<string, Json>, patch: map<string, Json>, done: set<string>): map<string, Json>
    requires done <= patch.Keys
  {
    map k | k in base.Keys + done && !(k in done && patch[k].Null?) ::
      if k in done then MergePatch(Existing(base, k), patch[k]) else base[k]
  }

  lemma MergedStep(base: map<string, Json>, patch: map<string, Json>, done: set<string>, k: string)
    requires done <= patch.Keys && k in patch && k !in done
    ensures Existing(Merged(base, patch, done), k) == Existing(base, k)
    ensures Merged(base, patch, done + {k}) ==
            if patch[k].Null? then Merged(base, patch, done) - {k}
            else Merged(base, patch, done)[k := MergePatch(Existing(base, k), patch[k])]
  {}

  /** merge_patch: members are visited in key order, erased or merged in place. */
  method MergeInto(target: Json, patch: Json) returns (result: Json)
    ensures result == MergePatch(target, patch)
    decreases patch
  {
    if !patch.Obj? { return patch; }
    var base := MembersOf(target);
    result := Obj(base);
    var keys := SortedKeys(patch.members.Keys);
    assert Merged(base, patch.members, Visited(keys, 0)) == base;
    for n := 0 to |keys|
      invariant Visited(keys, n) <= patch.members.Keys
      invariant result == Obj(Merged(base, patch.members, Visited(keys, n)))
    {
      var k := keys[n];
      VisitedStep(keys, n);
      assert k in patch.members;
      MergedStep(base, patch.members, Visited(keys, n), k);
      if patch.members[k].Null? {
        result := Obj(result.members - {k});
      } else {
        var child := MergeInto(Existing(result.members, k), patch.members[k]);
        result := Obj(result.members[k := child]);
      }
    }
    MergedAll(target, patch, Visited(keys, |keys|));
  }

  function Visited(keys: seq<string>, n: nat): set<string>
    requires n <= |keys|
  {
    set i | 0 <= i < n :: keys[i]
  }

  lemma VisitedStep(keys: seq<string>, n: nat)
    requires n < |keys| && forall i, j | 0 <= i < j < |keys| :: keys[i] != keys[j]
    ensures keys[n] in keys && keys[n] !in Visited(keys, n)
    ensures Visited(keys, n + 1) == Visited(keys, n) + {keys[n]}
  {}

  lemma MergedAll(target: Json, patch: Json, done: set<string>)
    requires patch.Obj? && done == patch.members.Keys
    ensures Obj(Merged(MembersOf(target), patch.members, done)) == MergePatch(target, patch)
  {
    assert Merged(MembersOf(target), patch.members, done) == MergePatch(target, patch).members;
  }

  /** Merging the same patch twice equals merging it once. */
  lemma {:induction false} MergeIdempotent(target: Json, patch: Json)
    ensures MergePatch(MergePatch(target, patch), patch) == MergePatch(target, patch)
    decreases patch
  {
    if patch.Obj? {
      var base := MembersOf(target);
      var once, twice := MergePatch(target, patch).members, MergePatch(MergePatch(target, patch), patch).members;
      assert twice.Keys == once.Keys;
      forall k | k in once ensures twice[k] == once[k] {
        if k in patch.members { MergeIdempotent(Existing(base, k), patch.members[k]); }
      }
      assert twice == once;
    }
  }

  /** A merge touches only the mentioned members, drops the null ones and nothing else. */
  lemma MergeFrame(target: Json, patch: Json, k: string)
    requires patch.Obj?
    ensures var r, base := MergePatch(target, patch), MembersOf(target);
            r.Obj? && if k !in patch.members then Existing(r.members, k) == Existing(base, k) && (k in r.members <==> k in base)
                      else (k in r.members <==> !patch.members[k].Null?)
  {}

  /** No member of an object, at any depth that only objects lead to, is null. */
  ghost predicate NullFree(j: Json) {
    j.Obj? ==> forall k | k in j.members :: !j.members[k].Null? && NullFree(j.members[k])
  }

  /** A merge onto null gives the patch itself exactly when the patch carries no null member. */
  lemma {:induction false} MergeOntoNull(patch: Json)
    ensures MergePatch(Null, patch) == patch <==> NullFree(patch)
    decreases patch
  {
    if patch.Obj? {
      var r := MergePatch(Null, patch).members;
      forall k | k in patch.members ensures MergePatch(Null, patch.members[k]) == patch.members[k] <==> NullFree(patch.members[k]) {
        MergeOntoNull(patch.members[k]);
      }
      if NullFree(patch) {
        assert r.Keys == patch.members.Keys;
        assert r == patch.members;
      } else {
        var k :| k in patch.members && !(!patch.members[k].Null? && NullFree(patch.members[k]));
        if !patch.members[k].Null? { assert r[k] != patch.members[k]; }
      }
    }
  }
}
