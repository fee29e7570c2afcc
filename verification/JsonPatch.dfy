/** JSON Patch (RFC 6902): the interpreter of patch_inplace, the compiler diff, and patch(diff). */
module JsonPatch {
  import opened Common
  import opened JsonValue
  import opened JsonPointer

  // Locations

  /** One step of get_checked. */
  function Child(doc: Json, token: string): Result<Json, Error> {
    match doc
    case Obj(m) => if token in m then Ok(m[token]) else Err(OutOfRange(403))
    case Arr(x) =>
      if token == "-" then Err(OutOfRange(402))
      else
        (match ArrayIndex(token)
         case Err(e) => Err(e)
         case Ok(i) => if i < |x| then Ok(x[i]) else Err(OutOfRange(401)))
    case _ => Err(OutOfRange(404))
  }

  function At(doc: Json, ptr: seq<string>): Result<Json, Error>
    decreases |ptr|
  {
    if ptr == [] then Ok(doc)
    else
      match Child(doc, ptr[0])
      case Err(e) => Err(e)
      case Ok(c) => At(c, ptr[1..])
  }

  function SetChild(doc: Json, token: string, v: Json): Json
    requires Child(doc, token).Ok?
  {
    if doc.Obj? then Obj(doc.members[token := v])
    else Arr(doc.elems[ArrayIndex(token).value := v])
  }

  /** The document after an assignment through the reference that At returns. */
  function SetAt(doc: Json, ptr: seq<string>, v: Json): Json
    requires At(doc, ptr).Ok?
    decreases |ptr|
  {
    if ptr == [] then v
    else SetChild(doc, ptr[0], SetAt(Child(doc, ptr[0]).value, ptr[1..], v))
  }

  // Operations

  /** The switch of operation_add on the type of the parent. */
  function AddChild(parent: Json, token: string, v: Json): Result<Json, Error> {
    match parent
    case Null => Ok(Obj(map[token := v]))
    case Obj(m) => Ok(Obj(m[token := v]))
    case Arr(x) =>
      if token == "-" then Ok(Arr(x + [v]))
      else
        (match ArrayIndex(token)
         case Err(e) => Err(e)
         case Ok(i) => if i > |x| then Err(OutOfRange(401)) else Ok(Arr(x[..i] + [v] + x[i..])))
    case _ => Err(AssertionFailed)
  }

  /** operation_add */
  function AddAt(doc: Json, ptr: seq<string>, v: Json): Result<Json, Error> {
    if ptr == [] then Ok(v)
    else if |ptr| > 1 && At(doc, [ptr[0]]).Err? then Err(At(doc, [ptr[0]]).error)
    else
      var parentPtr := ptr[..|ptr| - 1];
      match At(doc, parentPtr)
      case Err(e) => Err(e)
      case Ok(parent) =>
        match AddChild(parent, ptr[|ptr| - 1], v)
        case Err(e) => Err(e)
        case Ok(parent') => Ok(SetAt(doc, parentPtr, parent'))
  }

  /** The tail of operation_remove: a parent that is neither object nor array is left alone. */
  function RemoveChild(parent: Json, token: string): Result<Json, Error> {
    match parent
    case Obj(m) => if token in m then Ok(Obj(m - {token})) else Err(OutOfRange(403))
    case Arr(x) =>
      (match ArrayIndex(token)
       case Err(e) => Err(e)
       case Ok(i) => if i < |x| then Ok(Arr(x[..i] + x[i + 1..])) else Err(OutOfRange(401)))
    case _ => Ok(parent)
  }

  /** operation_remove */
  function RemoveAt(doc: Json, ptr: seq<string>): Result<Json, Error> {
    if ptr == [] then Err(OutOfRange(405))
    else
      var parentPtr := ptr[..|ptr| - 1];
      match At(doc, parentPtr)
      case Err(e) => Err(e)
      case Ok(parent) =>
        match RemoveChild(parent, ptr[|ptr| - 1])
        case Err(e) => Err(e)
        case Ok(parent') => Ok(SetAt(doc, parentPtr, parent'))
  }

  /** get_value with string_type */
  function StringMember(val: map<string, Json>, key: string): Result<string, Error> {
    if key in val && val[key].Str? then Ok(val[key].s) else Err(ParseError(105))
  }

  /** get_value without string_type */
  function AnyMember(val: map<string, Json>, key: string): Result<Json, Error> {
    if key in val then Ok(val[key]) else Err(ParseError(105))
  }

  function PointerMember(val: map<string, Json>, key: string): Result<seq<string>, Error> {
    match StringMember(val, key)
    case Err(e) => Err(e)
    case Ok(s) => Split(s)
  }

  /** The document afterwards, and the exception thrown if there was one. */
  datatype Outcome = Outcome(doc: Json, thrown: Option<Error>)

  function Settle(doc: Json, r: Result<Json, Error>): Outcome {
    match r
    case Ok(d) => Outcome(d, None)
    case Err(e) => Outcome(doc, Some(e))
  }

  /** One iteration of the loop of patch_inplace. */
  function Execute(cast: Cast, doc: Json, val: Json): Outcome {
    if !val.Obj? then Outcome(doc, Some(ParseError(104)))
    else
      var m := val.members;
      match StringMember(m, "op")
      case Err(e) => Outcome(doc, Some(e))
      case Ok(op) =>
        match PointerMember(m, "path")
        case Err(e) => Outcome(doc, Some(e))
        case Ok(ptr) => Dispatch(cast, doc, m, op, ptr)
  }

  function Dispatch(cast: Cast, doc: Json, m: map<string, Json>, op: string, ptr: seq<string>): Outcome {
    if op == "add" then
      (match AnyMember(m, "value")
       case Err(e) => Outcome(doc, Some(e))
       case Ok(v) => Settle(doc, AddAt(doc, ptr, v)))
    else if op == "remove" then
      Settle(doc, RemoveAt(doc, ptr))
    else if op == "replace" then
      (match AnyMember(m, "value")
       case Err(e) => Outcome(doc, Some(e))
       case Ok(v) =>
         match At(doc, ptr)
         case Err(e) => Outcome(doc, Some(e))
         case Ok(_) => Outcome(SetAt(doc, ptr, v), None))
    else if op == "move" then
      (match PointerMember(m, "from")
       case Err(e) => Outcome(doc, Some(e))
       case Ok(from) =>
         match At(doc, from)
         case Err(e) => Outcome(doc, Some(e))
         case Ok(v) =>
           match RemoveAt(doc, from)
           case Err(e) => Outcome(doc, Some(e))
           case Ok(doc') => Settle(doc', AddAt(doc', ptr, v)))
    else if op == "copy" then
      (match PointerMember(m, "from")
       case Err(e) => Outcome(doc, Some(e))
       case Ok(from) =>
         match At(doc, from)
         case Err(e) => Outcome(doc, Some(e))
         case Ok(v) => Settle(doc, AddAt(doc, ptr, v)))
    else if op == "test" then
      Outcome(doc, Test(cast, doc, m, ptr))
    else
      Outcome(doc, Some(ParseError(105)))
  }

  /** Only out_of_range is caught while a test is evaluated. */
  function Test(cast: Cast, doc: Json, m: map<string, Json>, ptr: seq<string>): Option<Error> {
    match At(doc, ptr)
    case Err(OutOfRange(_)) => Some(OtherError(501))
    case Err(e) => Some(e)
    case Ok(found) =>
      match AnyMember(m, "value")
      case Err(e) => Some(e)
      case Ok(v) => if Eq(cast, found, v) then None else Some(OtherError(501))
  }

  function Run(cast: Cast, doc: Json, ops: seq<Json>): Outcome
    decreases |ops|
  {
    if ops == [] then Outcome(doc, None)
    else
      var r := Execute(cast, doc, ops[0]);
      if r.thrown.Some? then r else Run(cast, r.doc, ops[1..])
  }

  /** patch_inplace as a function of the document. */
  function PatchFn(cast: Cast, doc: Json, patch: Json): Outcome {
    if !patch.Arr? then Outcome(doc, Some(ParseError(104))) else Run(cast, doc, patch.elems)
  }

  // diff

  function AddOp(path: string, v: Json): Json { Obj(map["op" := Str("add"), "path" := Str(path), "value" := v]) }

  function RemoveOp(path: string): Json { Obj(map["op" := Str("remove"), "path" := Str(path)]) }

  function ReplaceOp(path: string, v: Json): Json {
    Obj(map["op" := Str("replace"), "path" := Str(path), "value" := v])
  }

  function IndexPath(path: string, i: nat): string { path + "/" + Decimal(i) }

  function KeyPath(path: string, k: string): string { path + "/" + Escape(k) }

  function Diff(cast: Cast, s: Json, t: Json, path: string): seq<Json>
    decreases s, 2, 0
  {
    if Eq(cast, s, t) then []
    else if !SameType(s, t) then [ReplaceOp(path, t)]
    else if s.Arr? then
      var n := Min(|s.elems|, |t.elems|);
      DiffElems(cast, s, t, path, n) + Removals(path, n, |s.elems|) + Appends(path, t.elems[n..])
    else if s.Obj? then
      DiffMembers(cast, s, t, path, SortedKeys(s.members.Keys))
      + Additions(s, t, path, SortedKeys(t.members.Keys))
    else [ReplaceOp(path, t)]
  }

  /** First pass over the first n common elements. */
  function DiffElems(cast: Cast, s: Json, t: Json, path: string, n: nat): seq<Json>
    requires s.Arr? && t.Arr? && n <= |s.elems| && n <= |t.elems|
    decreases s, 1, n
  {
    if n == 0 then []
    else DiffElems(cast, s, t, path, n - 1) + Diff(cast, s.elems[n - 1], t.elems[n - 1], IndexPath(path, n - 1))
  }

  /** Removal of the elements lo..hi, last one first. */
  function Removals(path: string, lo: nat, hi: nat): seq<Json>
    decreases hi - lo
  {
    if hi <= lo then [] else [RemoveOp(IndexPath(path, hi - 1))] + Removals(path, lo, hi - 1)
  }

  function Appends(path: string, vs: seq<Json>): seq<Json> {
    if vs == [] then [] else Appends(path, vs[..|vs| - 1]) + [AddOp(path + "/-", vs[|vs| - 1])]
  }

  /** First pass over these source keys. */
  function DiffMembers(cast: Cast, s: Json, t: Json, path: string, keys: seq<string>): seq<Json>
    requires s.Obj? && t.Obj?
    decreases s, 1, |keys|
  {
    if keys == [] then []
    else
      DiffMembers(cast, s, t, path, keys[..|keys| - 1]) + DiffMember(cast, s, t, path, keys[|keys| - 1])
  }

  function DiffMember(cast: Cast, s: Json, t: Json, path: string, k: string): seq<Json>
    requires s.Obj? && t.Obj?
    decreases s, 0, 0
  {
    if k !in s.members then []
    else if k in t.members then Diff(cast, s.members[k], t.members[k], KeyPath(path, k))
    else [RemoveOp(KeyPath(path, k))]
  }

  /** Second pass over these target keys. */
  function Additions(s: Json, t: Json, path: string, keys: seq<string>): seq<Json>
    requires s.Obj? && t.Obj?
  {
    if keys == [] then []
    else Additions(s, t, path, keys[..|keys| - 1]) + Addition(s, t, path, keys[|keys| - 1])
  }

  function Addition(s: Json, t: Json, path: string, k: string): seq<Json>
    requires s.Obj? && t.Obj?
  {
    if k in s.members || k !in t.members then [] else [AddOp(KeyPath(path, k), t.members[k])]
  }

  lemma DiffMembersStep(cast: Cast, s: Json, t: Json, path: string, keys: seq<string>, n: nat)
    requires s.Obj? && t.Obj? && n < |keys|
    ensures DiffMembers(cast, s, t, path, keys[..n + 1])
         == DiffMembers(cast, s, t, path, keys[..n]) + DiffMember(cast, s, t, path, keys[n])
  {
    assert keys[..n + 1][..n] == keys[..n];
  }

  lemma AdditionsStep(s: Json, t: Json, path: string, keys: seq<string>, n: nat)
    requires s.Obj? && t.Obj? && n < |keys|
    ensures Additions(s, t, path, keys[..n + 1])
         == Additions(s, t, path, keys[..n]) + Addition(s, t, path, keys[n])
  {
    assert keys[..n + 1][..n] == keys[..n];
  }

  /** diff with its loops: the removals go in at a fixed position, so they come out in reverse. */
  method ComputeDiff(cast: Cast, source: Json, target: Json, path: string) returns (result: seq<Json>)
    ensures result == Diff(cast, source, target, path)
    decreases source
  {
    result := [];
    if Eq(cast, source, target) { return; }
    if !SameType(source, target) {
      result := [ReplaceOp(path, target)];
      return;
    }
    match source
    case Arr(xs) =>
      result := ComputeArrayDiff(cast, source, target, path);
    case Obj(ms) =>
      result := ComputeObjectDiff(cast, source, target, path);
    case _ =>
      result := [ReplaceOp(path, target)];
  }

  method ComputeArrayDiff(cast: Cast, source: Json, target: Json, path: string) returns (result: seq<Json>)
    requires source.Arr? && target.Arr?
    ensures result == var n := Min(|source.elems|, |target.elems|);
                      DiffElems(cast, source, target, path, n) + Removals(path, n, |source.elems|)
                      + Appends(path, target.elems[n..])
    decreases source, 0
  {
    var xs, ys := source.elems, target.elems;
    var i := 0;
    result := [];
    while i < |xs| && i < |ys|
      invariant i <= Min(|xs|, |ys|)
      invariant result == DiffElems(cast, source, target, path, i)
    {
      var sub := ComputeDiff(cast, xs[i], ys[i], IndexPath(path, i));
      result := result + sub;
      i := i + 1;
    }
    result := InsertRemovals(result, path, i, |xs|);
    result := PushAppends(result, path, ys, i);
  }

  method InsertRemovals(prefix: seq<Json>, path: string, first: nat, size: nat) returns (result: seq<Json>)
    requires first <= size
    ensures result == prefix + Removals(path, first, size)
  {
    result := prefix;
    var endIndex := |prefix|;
    var i := first;
    while i < size
      invariant first <= i <= size
      invariant result == prefix + Removals(path, first, i)
    {
      result := result[..endIndex] + [RemoveOp(IndexPath(path, i))] + result[endIndex..];
      i := i + 1;
    }
  }

  method PushAppends(prefix: seq<Json>, path: string, ys: seq<Json>, first: nat) returns (result: seq<Json>)
    requires first <= |ys|
    ensures result == prefix + Appends(path, ys[first..])
  {
    result := prefix;
    var i := first;
    while i < |ys|
      invariant first <= i <= |ys|
      invariant result == prefix + Appends(path, ys[first..i])
    {
      result := result + [AddOp(path + "/-", ys[i])];
      i := i + 1;
      assert ys[first..i][..i - first - 1] == ys[first..i - 1];
    }
    assert ys[first..i] == ys[first..];
  }

  method ComputeObjectDiff(cast: Cast, source: Json, target: Json, path: string) returns (result: seq<Json>)
    requires source.Obj? && target.Obj?
    ensures result == DiffMembers(cast, source, target, path, SortedKeys(source.members.Keys))
                      + Additions(source, target, path, SortedKeys(target.members.Keys))
    decreases source, 0
  {
    var keys := SortedKeys(source.members.Keys);
    result := [];
    for n := 0 to |keys|
      invariant result == DiffMembers(cast, source, target, path, keys[..n])
    {
      var k := keys[n];
      DiffMembersStep(cast, source, target, path, keys, n);
      if k in target.members {
        var sub := ComputeDiff(cast, source.members[k], target.members[k], KeyPath(path, k));
        result := result + sub;
      } else {
        result := result + [RemoveOp(KeyPath(path, k))];
      }
    }
    assert keys[..|keys|] == keys;
    result := PushAdditions(result, source, target, path);
  }

  method PushAdditions(prefix: seq<Json>, source: Json, target: Json, path: string) returns (result: seq<Json>)
    requires source.Obj? && target.Obj?
    ensures result == prefix + Additions(source, target, path, SortedKeys(target.members.Keys))
  {
    var keys := SortedKeys(target.members.Keys);
    result := prefix;
    ghost var added := [];
    for n := 0 to |keys|
      invariant result == prefix + added
      invariant added == Additions(source, target, path, keys[..n])
    {
      AdditionsStep(source, target, path, keys, n);
      if keys[n] !in source.members {
        result, added := PushAddition(result, prefix, added, source, target, path, keys[n]);
      }
    }
    assert keys[..|keys|] == keys;
  }

  method PushAddition(result0: seq<Json>, ghost prefix: seq<Json>, ghost added0: seq<Json>,
                      source: Json, target: Json, path: string, k: string)
    returns (result: seq<Json>, ghost added: seq<Json>)
    requires source.Obj? && target.Obj? && k in target.members && k !in source.members
    requires result0 == prefix + added0
    ensures added == added0 + Addition(source, target, path, k) && result == prefix + added
  {
    result := result0 + [AddOp(KeyPath(path, k), target.members[k])];
    added := added0 + Addition(source, target, path, k);
  }
}
