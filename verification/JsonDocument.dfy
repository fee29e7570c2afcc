/** A document that is edited in place. */
module JsonDocument {
  import opened Common
  import opened JsonValue
  import opened JsonPointer
  import opened JsonPatch
  import opened JsonPatchRoundTrip
  import opened JsonMergePatch

  class Document {
    var root: Json

    constructor (root: Json)
      ensures this.root == root
    {
      this.root := root;
    }

    /** patch_inplace: on an exception the operations before it have taken effect. */
    method PatchInplace(cast: Cast, patch: Json) returns (thrown: Option<Error>)
      modifies this
      ensures Outcome(root, thrown) == PatchFn(cast, old(root), patch)
    {
      if !patch.Arr? { return Some(ParseError(104)); }
      thrown := None;
      var ops := patch.elems;
      for n := 0 to |ops|
        invariant Run(cast, root, ops[n..]) == Run(cast, old(root), ops)
      {
        var r := Execute(cast, root, ops[n]);
        assert ops[n..][1..] == ops[n + 1..];
        root := r.doc;
        if r.thrown.Some? { return r.thrown; }
      }
    }

    /** patch: the same on a copy. */
    method Patch(cast: Cast, patch: Json) returns (result: Json, thrown: Option<Error>)
      ensures Outcome(result, thrown) == PatchFn(cast, root, patch)
    {
      var copy := new Document(root);
      thrown := copy.PatchInplace(cast, patch);
      result := copy.root;
    }

    method MergePatch(patch: Json)
      modifies this
      ensures root == JsonMergePatch.MergePatch(old(root), patch)
    {
      root := MergeInto(root, patch);
    }

    /** diff against a target, then patch_inplace: never throws, and the document equals the target. */
    method Become(cast: Cast, target: Json) returns (patch: Json)
      requires Sized(root) && Sized(target)
      modifies this
      ensures Eq(cast, root, target)
      ensures patch.Arr? && (patch.elems == [] <==> Eq(cast, old(root), target))
    {
      var ops := ComputeDiff(cast, root, target, "");
      patch := Arr(ops);
      PatchOfDiff(cast, root, target);
      DiffEmptyIffEqual(cast, root, target, "");
      var _ := PatchInplace(cast, patch);
    }
  }
}
