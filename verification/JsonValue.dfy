/** JSON documents as basic_json<> stores them: objects are std::map, so iteration follows key order. */
module JsonValue {
  import opened Common

  datatype Json =
    | Null
    | Bool(b: bool)
    | Integer(i: int)
    | Unsigned(u: nat)
    | Float(f: real)
    | Str(s: string)
    | Arr(elems: seq<Json>)
    | Obj(members: map<string, Json>)

  /** How an integer becomes a double; every result below holds for any such conversion. */
  type Cast = int -> real

  predicate SameType(a: Json, b: Json) {
    match a
    case Null => b.Null?
    case Bool(_) => b.Bool?
    case Integer(_) => b.Integer?
    case Unsigned(_) => b.Unsigned?
    case Float(_) => b.Float?
    case Str(_) => b.Str?
    case Arr(_) => b.Arr?
    case Obj(_) => b.Obj?
  }

  const TWO_TO_THE_63: int := 0x8000_0000_0000_0000
  const TWO_TO_THE_64: int := 0x1_0000_0000_0000_0000

  /** static_cast<int64_t> of a uint64_t: the upper half wraps to the negatives. */
  function ToSigned(u: nat): int {
    var m := u % TWO_TO_THE_64;
    if m < TWO_TO_THE_63 then m else m - TWO_TO_THE_64
  }

  /** operator==: numbers of different kinds are compared after a cast, NaN excluded. */
  predicate Eq(cast: Cast, a: Json, b: Json) {
    match (a, b)
    case (Null, Null) => true
    case (Bool(x), Bool(y)) => x == y
    case (Str(x), Str(y)) => x == y
    case (Arr(x), Arr(y)) => |x| == |y| && forall i | 0 <= i < |x| :: Eq(cast, x[i], y[i])
    case (Obj(x), Obj(y)) => x.Keys == y.Keys && forall k | k in x.Keys :: Eq(cast, x[k], y[k])
    case (Integer(x), Integer(y)) => x == y
    case (Unsigned(x), Unsigned(y)) => x == y
    case (Float(x), Float(y)) => x == y
    case (Integer(x), Float(y)) => cast(x) == y
    case (Float(x), Integer(y)) => x == cast(y)
    case (Unsigned(x), Float(y)) => cast(x) == y
    case (Float(x), Unsigned(y)) => x == cast(y)
    case (Unsigned(x), Integer(y)) => ToSigned(x) == y
    case (Integer(x), Unsigned(y)) => x == ToSigned(y)
    case _ => false
  }

  lemma EqReflexive(cast: Cast, a: Json)
    ensures Eq(cast, a, a)
  {
    match a
    case Arr(x) => forall i | 0 <= i < |x| ensures Eq(cast, x[i], x[i]) { EqReflexive(cast, x[i]); }
    case Obj(x) => forall k | k in x.Keys ensures Eq(cast, x[k], x[k]) { EqReflexive(cast, x[k]); }
    case _ =>
  }

  /** Every array has fewer elements than the largest size_t, as any std::vector does. */
  predicate Sized(a: Json) {
    match a
    case Arr(x) => |x| < TWO_TO_THE_64 - 1 && forall i | 0 <= i < |x| :: Sized(x[i])
    case Obj(x) => forall k | k in x.Keys :: Sized(x[k])
    case _ => true
  }

  // Key order of std::map

  predicate IsLeast(k: string, ks: set<string>) {
    k in ks && forall j | j in ks :: KeyLessEq(k, j)
  }

  lemma LeastKeyExists(ks: set<string>)
    requires ks != {}
    ensures exists k :: IsLeast(k, ks)
  {
    var k :| k in ks;
    KeyTotal(k, k);
    var rest := ks - {k};
    if rest == {} {
      assert forall j | j in ks :: j == k by { assert forall j | j in ks && j != k :: j in rest; }
      assert IsLeast(k, ks);
    } else {
      LeastKeyExists(rest);
      var m :| IsLeast(m, rest);
      KeyTotal(k, m);
      if KeyLessEq(k, m) {
        forall j | j in ks ensures KeyLessEq(k, j) {
          if j != k { KeyTransitive(k, m, j); }
        }
        assert IsLeast(k, ks);
      } else {
        assert IsLeast(m, ks);
      }
    }
  }

  lemma LeastKeyUnique(ks: set<string>)
    ensures forall k, j | IsLeast(k, ks) && IsLeast(j, ks) :: k == j
  {
    forall k, j | IsLeast(k, ks) && IsLeast(j, ks) ensures k == j { KeyAntisymmetric(k, j); }
  }

  /** The iteration order of a std::map with these keys. */
  function SortedKeys(ks: set<string>): (r: seq<string>)
    ensures forall k :: k in r <==> k in ks
    ensures forall i, j | 0 <= i < j < |r| :: r[i] != r[j] && KeyLessEq(r[i], r[j])
  {
    if ks == {} then []
    else
      LeastKeyExists(ks);
      LeastKeyUnique(ks);
      var k :| IsLeast(k, ks);
      [k] + SortedKeys(ks - {k})
  }
}
