/** What the operations of a patch mean, in terms of the documents before and after, and what equality is. */
module JsonPatchLaws {
  import opened Common
  import opened JsonValue
  import opened JsonPointer
  import opened JsonPatch
  import opened JsonPatchRoundTrip

  // Equality

  predicate NoNumbers(j: Json) {
    match j
    case Arr(x) => forall i | 0 <= i < |x| :: NoNumbers(x[i])
    case Obj(m) => forall k | k in m :: NoNumbers(m[k])
    case _ => !j.Integer? && !j.Unsigned? && !j.Float?
  }

  /** Against a document without numbers, equality is sameness. */
  lemma {:induction false} EqIsSame(cast: Cast, s: Json, t: Json)
    requires NoNumbers(t)
    ensures Eq(cast, s, t) <==> s == t
  {
    if s.Arr? && t.Arr? {
      if |s.elems| == |t.elems| {
        forall i | 0 <= i < |s.elems| ensures Eq(cast, s.elems[i], t.elems[i]) <==> s.elems[i] == t.elems[i] {
          EqIsSame(cast, s.elems[i], t.elems[i]);
        }
      }
    } else if s.Obj? && t.Obj? {
      if s.members.Keys == t.members.Keys {
        forall k | k in s.members ensures Eq(cast, s.members[k], t.members[k]) <==> s.members[k] == t.members[k] {
          EqIsSame(cast, s.members[k], t.members[k]);
        }
        assert (forall k | k in s.members :: s.members[k] == t.members[k]) ==> s.members == t.members;
      }
    }
  }

  datatype Kind = IntegerKind | UnsignedKind | FloatKind

  /** All numbers are of this kind. */
  predicate OnlyKind(j: Json, kind: Kind) {
    match j
    case Arr(x) => forall i | 0 <= i < |x| :: OnlyKind(x[i], kind)
    case Obj(m) => forall k | k in m :: OnlyKind(m[k], kind)
    case Integer(_) => kind == IntegerKind
    case Unsigned(_) => kind == UnsignedKind
    case Float(_) => kind == FloatKind
    case _ => true
  }

  /** Among documents with numbers of one kind only, equality is sameness too. */
  lemma {:induction false} EqOfOneKind(cast: Cast, s: Json, t: Json, kind: Kind)
    requires OnlyKind(s, kind) && OnlyKind(t, kind)
    ensures Eq(cast, s, t) <==> s == t
  {
    if s.Arr? && t.Arr? {
      if |s.elems| == |t.elems| {
        forall i | 0 <= i < |s.elems| ensures Eq(cast, s.elems[i], t.elems[i]) <==> s.elems[i] == t.elems[i] {
          EqOfOneKind(cast, s.elems[i], t.elems[i], kind);
        }
      }
    } else if s.Obj? && t.Obj? {
      if s.members.Keys == t.members.Keys {
        forall k | k in s.members ensures Eq(cast, s.members[k], t.members[k]) <==> s.members[k] == t.members[k] {
          EqOfOneKind(cast, s.members[k], t.members[k], kind);
        }
        assert (forall k | k in s.members :: s.members[k] == t.members[k]) ==> s.members == t.members;
      }
    }
  }

  /** Numbers of two kinds: an unsigned is seen as a signed 64-bit integer, an integer as the float it is cast to. */
  lemma EqOfTwoKinds(cast: Cast, x: int, u: nat, f: real)
    ensures u < 0x8000_0000_0000_0000 ==> (Eq(cast, Unsigned(u), Integer(x)) <==> u == x)
    ensures 0x8000_0000_0000_0000 <= u < 0x1_0000_0000_0000_0000 ==>
              (Eq(cast, Unsigned(u), Integer(x)) <==> u - 0x1_0000_0000_0000_0000 == x)
    ensures Eq(cast, Integer(x), Unsigned(u)) <==> Eq(cast, Unsigned(u), Integer(x))
    ensures Eq(cast, Integer(x), Float(f)) <==> cast(x) == f
    ensures Eq(cast, Float(f), Integer(x)) <==> cast(x) == f
    ensures Eq(cast, Unsigned(u), Float(f)) <==> cast(u) == f
    ensures Eq(cast, Float(f), Unsigned(u)) <==> cast(u) == f
  {}

  /** A number equals numbers only. */
  lemma EqOfNumber(cast: Cast, n: Json, j: Json)
    requires (n.Integer? || n.Unsigned? || n.Float?) && !j.Integer? && !j.Unsigned? && !j.Float?
    ensures !Eq(cast, n, j) && !Eq(cast, j, n)
  {}

  /** A container is compared member by member, whatever numbers are in it. */
  lemma EqOfContainers(cast: Cast, s: Json, t: Json)
    ensures s.Arr? && t.Arr? ==>
              (Eq(cast, s, t) <==> |s.elems| == |t.elems| && forall i | 0 <= i < |s.elems| :: Eq(cast, s.elems[i], t.elems[i]))
    ensures s.Obj? && t.Obj? ==>
              (Eq(cast, s, t) <==> s.members.Keys == t.members.Keys
                                   && forall k | k in s.members :: Eq(cast, s.members[k], t.members[k]))
  {}

  /** The central law without the library's notion of equality: the patch gives the very target. */
  lemma PatchOfDiffIsTarget(cast: Cast, s: Json, t: Json)
    requires Sized(s) && Sized(t) && NoNumbers(t)
    ensures PatchFn(cast, s, Arr(Diff(cast, s, t, ""))) == Outcome(t, None)
  {
    PatchOfDiff(cast, s, t);
    EqIsSame(cast, PatchFn(cast, s, Arr(Diff(cast, s, t, ""))).doc, t);
  }

  // Patches of one operation

  function TestOp(path: string, v: Json): Json { Obj(map["op" := Str("test"), "path" := Str(path), "value" := v]) }

  function MoveOp(from: string, path: string): Json {
    Obj(map["op" := Str("move"), "from" := Str(from), "path" := Str(path)])
  }

  function CopyOp(from: string, path: string): Json {
    Obj(map["op" := Str("copy"), "from" := Str(from), "path" := Str(path)])
  }

  lemma OneOperation(cast: Cast, doc: Json, op: Json, more: seq<Json>)
    ensures PatchFn(cast, doc, Arr([op])) == Execute(cast, doc, op)
    ensures var r := Execute(cast, doc, op);
            PatchFn(cast, doc, Arr([op] + more)) == if r.thrown.Some? then r else PatchFn(cast, r.doc, Arr(more))
  {
    RunOne(cast, doc, op);
    assert ([op] + more)[1..] == more;
  }

  /** The members of an operation, as text. */
  lemma Dispatched(cast: Cast, doc: Json, op: Json, name: string, path: string, ptr: seq<string>)
    requires op.Obj? && "op" in op.members && op.members["op"] == Str(name)
    requires "path" in op.members && op.members["path"] == Str(path) && Split(path) == Ok(ptr)
    ensures Execute(cast, doc, op) == Dispatch(cast, doc, op.members, name, ptr)
  {}

  /** test never changes the document, and succeeds exactly if the value is at the place. */
  lemma TestDecides(cast: Cast, doc: Json, path: string, ptr: seq<string>, v: Json)
    requires Split(path) == Ok(ptr)
    ensures var r := PatchFn(cast, doc, Arr([TestOp(path, v)]));
            && r.doc == doc
            && (NoNumbers(v) ==> (r.thrown == None <==> At(doc, ptr) == Ok(v)))
            && (At(doc, ptr).Ok? ==> r.thrown == if Eq(cast, At(doc, ptr).value, v) then None else Some(OtherError(501)))
            && (At(doc, ptr).Err? ==>
                  r.thrown == Some(if At(doc, ptr).error.OutOfRange? then OtherError(501) else At(doc, ptr).error))
  {
    OneOperation(cast, doc, TestOp(path, v), []);
    Dispatched(cast, doc, TestOp(path, v), "test", path, ptr);
    if At(doc, ptr).Ok? && NoNumbers(v) { EqIsSame(cast, At(doc, ptr).value, v); }
  }

  /** A failing test stops the operations behind it; a successful one lets them run on the same document. */
  lemma TestStops(cast: Cast, doc: Json, path: string, ptr: seq<string>, v: Json, more: seq<Json>)
    requires Split(path) == Ok(ptr) && NoNumbers(v)
    ensures var r := PatchFn(cast, doc, Arr([TestOp(path, v)] + more));
            if At(doc, ptr) == Ok(v) then r == PatchFn(cast, doc, Arr(more)) else r.doc == doc && r.thrown != None
  {
    TestDecides(cast, doc, path, ptr, v);
    OneOperation(cast, doc, TestOp(path, v), more);
  }

  /** add at a member, at an index, at the end, and at the root. */
  lemma AddDecides(cast: Cast, doc: Json, path: string, p: seq<string>, k: string, v: Json, parent: Json)
    requires Split(path) == Ok(p + [k]) && At(doc, p) == Ok(parent)
    ensures var r := PatchFn(cast, doc, Arr([AddOp(path, v)]));
            match parent
            case Obj(m) => r.thrown == None && At(r.doc, p) == Ok(Obj(m[k := v]))
            case Null => r.thrown == None && At(r.doc, p) == Ok(Obj(map[k := v]))
            case Arr(x) =>
              && (k == "-" ==> r.thrown == None && At(r.doc, p) == Ok(Arr(x + [v])))
              && (forall i: nat :: i < 0xFFFF_FFFF_FFFF_FFFF && k == Decimal(i) ==>
                    if i <= |x| then r.thrown == None && At(r.doc, p) == Ok(Arr(x[..i] + [v] + x[i..]))
                    else r == Outcome(doc, Some(OutOfRange(401))))
            case _ => r == Outcome(doc, Some(AssertionFailed))
  {
    OneOperation(cast, doc, AddOp(path, v), []);
    Dispatched(cast, doc, AddOp(path, v), "add", path, p + [k]);
    AddToParent(doc, p, k, v, parent);
    if parent.Arr? {
      forall i: nat | i < 0xFFFF_FFFF_FFFF_FFFF && k == Decimal(i) ensures k != "-" && ArrayIndex(k) == Ok(i) {
        ArrayIndexDecimal(i);
      }
    }
    var child := AddChild(parent, k, v);
    if child.Ok? { AtSetAt(doc, p, child.value); }
  }

  lemma AddToParent(doc: Json, p: seq<string>, k: string, v: Json, parent: Json)
    requires At(doc, p) == Ok(parent)
    ensures var child := AddChild(parent, k, v);
            AddAt(doc, p + [k], v) == if child.Err? then Err(child.error) else Ok(SetAt(doc, p, child.value))
  {
    assert (p + [k])[..|p|] == p;
    if p != [] { FirstStep(doc, p); }
  }

  lemma FirstStep(doc: Json, p: seq<string>)
    requires p != [] && At(doc, p).Ok?
    ensures At(doc, [p[0]]).Ok?
  {
    assert [p[0]][1..] == [];
  }

  lemma AddRoot(cast: Cast, doc: Json, v: Json)
    ensures PatchFn(cast, doc, Arr([AddOp("", v)])) == Outcome(v, None)
  {
    OneOperation(cast, doc, AddOp("", v), []);
    Dispatched(cast, doc, AddOp("", v), "add", "", []);
  }

  /** remove at a member and at an index, and what stops it. */
  lemma RemoveDecides(cast: Cast, doc: Json, path: string, p: seq<string>, k: string, parent: Json)
    requires Split(path) == Ok(p + [k]) && At(doc, p) == Ok(parent)
    ensures var r := PatchFn(cast, doc, Arr([RemoveOp(path)]));
            match parent
            case Obj(m) =>
              if k in m then r.thrown == None && At(r.doc, p) == Ok(Obj(m - {k}))
              else r == Outcome(doc, Some(OutOfRange(403)))
            case Arr(x) =>
              && (forall i: nat :: i < 0xFFFF_FFFF_FFFF_FFFF && k == Decimal(i) ==>
                    if i < |x| then r.thrown == None && At(r.doc, p) == Ok(Arr(x[..i] + x[i + 1..]))
                    else r == Outcome(doc, Some(OutOfRange(401))))
              && (k == "-" ==> r == Outcome(doc, Some(OutOfRange(404))))
            case _ => r == Outcome(doc, None)
  {
    OneOperation(cast, doc, RemoveOp(path), []);
    Dispatched(cast, doc, RemoveOp(path), "remove", path, p + [k]);
    assert (p + [k])[..|p|] == p;
    if parent.Arr? {
      forall i: nat | i < 0xFFFF_FFFF_FFFF_FFFF && k == Decimal(i) ensures ArrayIndex(k) == Ok(i) { ArrayIndexDecimal(i); }
      assert k == "-" ==> !AllDigits(k) by { if k == "-" { assert k[0] == '-'; } }
    }
    SetAtSame(doc, p);
    var child := RemoveChild(parent, k);
    if child.Ok? { AtSetAt(doc, p, child.value); }
  }

  lemma RemoveRoot(cast: Cast, doc: Json)
    ensures PatchFn(cast, doc, Arr([RemoveOp("")])) == Outcome(doc, Some(OutOfRange(405)))
  {
    OneOperation(cast, doc, RemoveOp(""), []);
    Dispatched(cast, doc, RemoveOp(""), "remove", "", []);
  }

  /** replace: the value is there afterwards, or nothing was there before and nothing changes. */
  lemma ReplaceDecides(cast: Cast, doc: Json, path: string, ptr: seq<string>, v: Json)
    requires Split(path) == Ok(ptr)
    ensures var r := PatchFn(cast, doc, Arr([ReplaceOp(path, v)]));
            if At(doc, ptr).Ok? then r.thrown == None && At(r.doc, ptr) == Ok(v)
            else r == Outcome(doc, Some(At(doc, ptr).error))
  {
    OneOperation(cast, doc, ReplaceOp(path, v), []);
    Dispatched(cast, doc, ReplaceOp(path, v), "replace", path, ptr);
    if At(doc, ptr).Ok? { AtSetAt(doc, ptr, v); }
  }

  /** Section 4.3 of RFC 6902: replace is remove followed by add at the same place. */
  lemma ReplaceIsRemoveAdd(cast: Cast, doc: Json, path: string, ptr: seq<string>, v: Json)
    requires Split(path) == Ok(ptr) && ptr != [] && At(doc, ptr).Ok?
    ensures PatchFn(cast, doc, Arr([ReplaceOp(path, v)])) == PatchFn(cast, doc, Arr([RemoveOp(path), AddOp(path, v)]))
  {
    var p, k := ptr[..|ptr| - 1], ptr[|ptr| - 1];
    assert ptr == p + [k];
    AtParent(doc, p, k);
    var parent := At(doc, p).value;
    OneOperation(cast, doc, ReplaceOp(path, v), []);
    Dispatched(cast, doc, ReplaceOp(path, v), "replace", path, ptr);
    OneOperation(cast, doc, RemoveOp(path), [AddOp(path, v)]);
    assert [RemoveOp(path)] + [AddOp(path, v)] == [RemoveOp(path), AddOp(path, v)];
    Dispatched(cast, doc, RemoveOp(path), "remove", path, ptr);
    ReplacedChild(parent, k, v);
    var without := RemoveChild(parent, k).value;
    var doc' := SetAt(doc, p, without);
    AtSetAt(doc, p, without);
    OneOperation(cast, doc', AddOp(path, v), []);
    Dispatched(cast, doc', AddOp(path, v), "add", path, ptr);
    AddToParent(doc', p, k, v, without);
    SetAtTwice(doc, p, without, SetChild(parent, k, v));
    SetAtLast(doc, p, k, v);
  }

  lemma ReplacedChild(parent: Json, k: string, v: Json)
    requires Child(parent, k).Ok?
    ensures RemoveChild(parent, k).Ok? && AddChild(RemoveChild(parent, k).value, k, v) == Ok(SetChild(parent, k, v))
  {
    if parent.Arr? {
      var x, i := parent.elems, ArrayIndex(k).value;
      var y := x[..i] + x[i + 1..];
      assert y[..i] + [v] + y[i..] == x[i := v];
    } else {
      assert (parent.members - {k})[k := v] == parent.members[k := v];
    }
  }

  lemma AtParent(doc: Json, p: seq<string>, k: string)
    requires At(doc, p + [k]).Ok?
    ensures At(doc, p).Ok? && Child(At(doc, p).value, k).Ok?
  {
    AtSplit(doc, p, [k]);
    assert [k][1..] == [];
  }

  lemma {:induction false} AtSplit(doc: Json, p: seq<string>, q: seq<string>)
    requires At(doc, p + q).Ok?
    ensures At(doc, p).Ok? && At(At(doc, p).value, q) == At(doc, p + q)
    decreases |p|
  {
    if p == [] {
      assert p + q == q;
    } else {
      assert (p + q)[1..] == p[1..] + q;
      AtSplit(Child(doc, p[0]).value, p[1..], q);
    }
  }

  lemma {:induction false} SetAtLast(doc: Json, p: seq<string>, k: string, v: Json)
    requires At(doc, p).Ok? && Child(At(doc, p).value, k).Ok? && At(doc, p + [k]).Ok?
    ensures SetAt(doc, p + [k], v) == SetAt(doc, p, SetChild(At(doc, p).value, k, v))
    decreases |p|
  {
    if p == [] {
      assert p + [k] == [k] && [k][1..] == [];
    } else {
      assert (p + [k])[1..] == p[1..] + [k];
      SetAtLast(Child(doc, p[0]).value, p[1..], k, v);
    }
  }

  /** Section 4.5 of RFC 6902: copy is add with the value at the source, which stays. */
  lemma CopyIsAdd(cast: Cast, doc: Json, from: string, path: string)
    requires Split(from).Ok? && Split(path).Ok?
    ensures var r, found := PatchFn(cast, doc, Arr([CopyOp(from, path)])), At(doc, Split(from).value);
            if found.Ok? then r == PatchFn(cast, doc, Arr([AddOp(path, found.value)]))
            else r == Outcome(doc, Some(found.error))
  {
    var ptr := Split(path).value;
    OneOperation(cast, doc, CopyOp(from, path), []);
    Dispatched(cast, doc, CopyOp(from, path), "copy", path, ptr);
    var found := At(doc, Split(from).value);
    if found.Ok? {
      OneOperation(cast, doc, AddOp(path, found.value), []);
      Dispatched(cast, doc, AddOp(path, found.value), "add", path, ptr);
    }
  }

  /** Section 4.4 of RFC 6902: move is remove of the source followed by add of the value that was there. */
  lemma MoveIsRemoveAdd(cast: Cast, doc: Json, from: string, path: string)
    requires Split(from).Ok? && Split(path).Ok?
    ensures var r, found := PatchFn(cast, doc, Arr([MoveOp(from, path)])), At(doc, Split(from).value);
            if found.Ok? then r == PatchFn(cast, doc, Arr([RemoveOp(from), AddOp(path, found.value)]))
            else r == Outcome(doc, Some(found.error))
  {
    var source, ptr := Split(from).value, Split(path).value;
    OneOperation(cast, doc, MoveOp(from, path), []);
    Dispatched(cast, doc, MoveOp(from, path), "move", path, ptr);
    var found := At(doc, source);
    if found.Ok? {
      var add := AddOp(path, found.value);
      OneOperation(cast, doc, RemoveOp(from), [add]);
      assert [RemoveOp(from)] + [add] == [RemoveOp(from), add];
      Dispatched(cast, doc, RemoveOp(from), "remove", from, source);
      var r := Execute(cast, doc, RemoveOp(from));
      OneOperation(cast, r.doc, add, []);
      Dispatched(cast, r.doc, add, "add", path, ptr);
    }
  }

  // What is refused

  /** A patch that is no array, an operation that is no object, and members that are missing or of the wrong type. */
  lemma Malformed(cast: Cast, doc: Json, op: Json, more: seq<Json>)
    ensures !op.Arr? ==> PatchFn(cast, doc, op) == Outcome(doc, Some(ParseError(104)))
    ensures !op.Obj? ==> PatchFn(cast, doc, Arr([op] + more)) == Outcome(doc, Some(ParseError(104)))
    ensures op.Obj? && !("op" in op.members && op.members["op"].Str? && "path" in op.members && op.members["path"].Str?)
            ==> PatchFn(cast, doc, Arr([op] + more)) == Outcome(doc, Some(ParseError(105)))
  {
    OneOperation(cast, doc, op, more);
  }

  /** With both members there: an unknown name, a missing value or source, and a path that is no pointer. */
  lemma Refused(cast: Cast, doc: Json, op: Json, name: string, path: string, more: seq<Json>)
    requires op.Obj? && "op" in op.members && op.members["op"] == Str(name)
    requires "path" in op.members && op.members["path"] == Str(path)
    ensures Split(path).Err? ==> PatchFn(cast, doc, Arr([op] + more)) == Outcome(doc, Some(Split(path).error))
    ensures Split(path).Ok? && name !in ["add", "remove", "replace", "move", "copy", "test"] ==>
              PatchFn(cast, doc, Arr([op] + more)) == Outcome(doc, Some(ParseError(105)))
    ensures Split(path).Ok? && (name == "add" || name == "replace") && "value" !in op.members ==>
              PatchFn(cast, doc, Arr([op] + more)) == Outcome(doc, Some(ParseError(105)))
    ensures Split(path).Ok? && (name == "move" || name == "copy")
            && !("from" in op.members && op.members["from"].Str?) ==>
              PatchFn(cast, doc, Arr([op] + more)) == Outcome(doc, Some(ParseError(105)))
  {
    OneOperation(cast, doc, op, more);
  }

  /** Looking up a member, an element, and what is not there. */
  lemma LookedUp(doc: Json, k: string)
    ensures var r := At(doc, [k]);
            match doc
            case Obj(m) => r == if k in m then Ok(m[k]) else Err(OutOfRange(403))
            case Arr(x) =>
              && (k == "-" ==> r == Err(OutOfRange(402)))
              && forall i: nat :: i < 0xFFFF_FFFF_FFFF_FFFF && k == Decimal(i) ==>
                   r == if i < |x| then Ok(x[i]) else Err(OutOfRange(401))
            case _ => r == Err(OutOfRange(404))
  {
    assert [k][1..] == [];
    if doc.Arr? {
      forall i: nat | i < 0xFFFF_FFFF_FFFF_FFFF && k == Decimal(i) ensures k != "-" && ArrayIndex(k) == Ok(i) {
        ArrayIndexDecimal(i);
      }
    }
  }

  /** A longer pointer goes on from where a shorter one ends. */
  lemma {:induction false} LookedUpFurther(doc: Json, p: seq<string>, q: seq<string>)
    ensures At(doc, p + q) == if At(doc, p).Err? then At(doc, p) else At(At(doc, p).value, q)
    decreases |p|
  {
    if p == [] {
      assert p + q == q;
    } else if Child(doc, p[0]).Ok? {
      assert (p + q)[1..] == p[1..] + q;
      LookedUpFurther(Child(doc, p[0]).value, p[1..], q);
    }
  }

  // Indices

  lemma {:induction false} DigitsAreDecimal(s: string)
    requires s != "" && AllDigits(s) && (s[0] == '0' ==> |s| == 1)
    ensures Decimal(DecimalValue(s)) == s && (s[0] != '0' ==> DecimalValue(s) > 0)
  {
    var n := |s| - 1;
    var last := s[n] as int - '0' as int;
    assert s == s[..n] + [s[n]];
    if n == 0 {
      assert s[..0] == "";
    } else {
      DigitsAreDecimal(s[..n]);
      assert DecimalValue(s) / 10 == DecimalValue(s[..n]) && DecimalValue(s) % 10 == last;
    }
  }

  /** A token is an index exactly if it is the decimal text of a number below the largest size_t. */
  lemma IndexExact(s: string, n: nat)
    ensures ArrayIndex(s) == Ok(n) <==> s == Decimal(n) && n < 0xFFFF_FFFF_FFFF_FFFF
  {
    if ArrayIndex(s) == Ok(n) { DigitsAreDecimal(s); }
    if s == Decimal(n) && n < 0xFFFF_FFFF_FFFF_FFFF { ArrayIndexDecimal(n); }
  }

  /** What other tokens are refused with. */
  lemma IndexRefused(s: string)
    ensures |s| > 1 && s[0] == '0' ==> ArrayIndex(s) == Err(ParseError(106))
    ensures |s| > 1 && !('0' <= s[0] <= '9') ==> ArrayIndex(s) == Err(ParseError(109))
    ensures s == "" || (|s| == 1 && !('0' <= s[0] <= '9')) ==> ArrayIndex(s) == Err(OutOfRange(404))
    ensures |s| > 1 && '1' <= s[0] <= '9' && !AllDigits(s) ==> ArrayIndex(s) == Err(OutOfRange(404))
    ensures s != "" && s[0] != '0' && AllDigits(s) ==>
              (DecimalValue(s) > 0xFFFF_FFFF_FFFF_FFFF ==> ArrayIndex(s) == Err(OutOfRange(404)))
              && (DecimalValue(s) == 0xFFFF_FFFF_FFFF_FFFF ==> ArrayIndex(s) == Err(OutOfRange(410)))
  {}
}
