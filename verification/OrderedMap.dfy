/** ordered_map: a vector of entries searched from the front, with erasures that shift entries in place. */
module OrderedMap {
  // Entries as a value

  function Position<K(!new, ==), V(!new)>(es: seq<(K, V)>, key: K): (p: nat)
    ensures p <= |es|
    ensures p < |es| ==> es[p].0 == key
    ensures forall i | 0 <= i < p :: es[i].0 != key
  {
    if es == [] || es[0].0 == key then 0 else 1 + Position(es[1..], key)
  }

  predicate Has<K(!new, ==), V(!new)>(es: seq<(K, V)>, key: K) {
    Position(es, key) < |es|
  }

  function Emplaced<K(!new, ==), V(!new)>(es: seq<(K, V)>, key: K, t: V): seq<(K, V)> {
    if Has(es, key) then es else es + [(key, t)]
  }

  function Assigned<K(!new, ==), V(!new)>(es: seq<(K, V)>, key: K, t: V): seq<(K, V)> {
    if Has(es, key) then es[Position(es, key) := (key, t)] else es + [(key, t)]
  }

  function Erased<K(!new), V(!new)>(es: seq<(K, V)>, first: nat, last: nat): seq<(K, V)>
    requires first <= last <= |es|
  {
    es[..first] + es[last..]
  }

  function KeyErased<K(!new, ==), V(!new)>(es: seq<(K, V)>, key: K): seq<(K, V)> {
    if Has(es, key) then Erased(es, Position(es, key), Position(es, key) + 1) else es
  }

  // The container

  class OrderedMap<K(!new, ==), V(!new)> {
    var entries: seq<(K, V)>
    /** T{} */
    const blank: V

    constructor (blank: V)
      ensures entries == [] && this.blank == blank
    {
      entries := [];
      this.blank := blank;
    }

    method Find(key: K) returns (it: nat)
      ensures it == Position(entries, key)
    {
      it := 0;
      while it != |entries|
        invariant it <= |entries| && forall i | 0 <= i < it :: entries[i].0 != key
      {
        if entries[it].0 == key { return; }
        it := it + 1;
      }
    }

    method Emplace(key: K, t: V) returns (it: nat, inserted: bool)
      modifies this`entries
      ensures entries == Emplaced(old(entries), key, t)
      ensures inserted == !Has(old(entries), key)
      ensures it == Position(old(entries), key) && it < |entries| && entries[it].0 == key
    {
      it := 0;
      while it != |entries|
        invariant it <= |entries| && forall i | 0 <= i < it :: entries[i].0 != key
      {
        if entries[it].0 == key { return it, false; }
        it := it + 1;
      }
      entries := entries + [(key, t)];
      return |entries| - 1, true;
    }

    /** operator[]: the reference it gives is the position of the entry whose value it names. */
    method Index(key: K) returns (it: nat)
      modifies this`entries
      ensures entries == Emplaced(old(entries), key, blank)
      ensures it < |entries| && entries[it].0 == key
      ensures !Has(old(entries), key) ==> entries[it].1 == blank
      ensures it == Position(old(entries), key)
    {
      var inserted: bool;
      it, inserted := Emplace(key, blank);
    }

    /** m[key] = t */
    method Assign(key: K, t: V)
      modifies this`entries
      ensures entries == Assigned(old(entries), key, t)
    {
      var it := Index(key);
      entries := entries[it := (key, t)];
    }

    method EraseKey(key: K) returns (count: nat)
      modifies this`entries
      ensures entries == KeyErased(old(entries), key)
      ensures count == if Has(old(entries), key) then 1 else 0
    {
      var it := Find(key);
      if it == |entries| { return 0; }
      ghost var p, was := it, entries;
      while it + 1 != |entries|
        invariant p <= it < |entries| == |was|
        invariant forall i | 0 <= i < p :: entries[i] == was[i]
        invariant forall i | p <= i < it :: entries[i] == was[i + 1]
        invariant forall i | it <= i < |was| :: entries[i] == was[i]
        decreases |entries| - it
      {
        entries := entries[it := entries[it + 1]];
        it := it + 1;
      }
      assert forall i | p <= i < |was| - 1 :: entries[i] == was[i + 1];
      entries := entries[..|entries| - 1];
      assert entries == Erased(was, p, p + 1);
      return 1;
    }

    method EraseRange(first: nat, last: nat) returns (next: nat)
      requires first <= last <= |entries|
      modifies this`entries
      ensures entries == Erased(old(entries), first, last) && next == first
    {
      if first == last {
        assert entries == entries[..first] + entries[first..];
        return first;
      }
      var affected := last - first;
      var it := first;
      ghost var was := entries;
      while it + affected != |entries|
        invariant first <= it && it + affected <= |entries| == |was|
        invariant forall i | 0 <= i < first :: entries[i] == was[i]
        invariant forall i | first <= i < it :: entries[i] == was[i + affected]
        invariant forall i | it <= i < |was| :: entries[i] == was[i]
        decreases |entries| - it
      {
        entries := entries[it := entries[it + affected]];
        it := it + 1;
      }
      entries := entries[..|entries| - affected];
      assert entries == Erased(was, first, last);
      return first;
    }

    method Erase(pos: nat) returns (next: nat)
      requires pos < |entries|
      modifies this`entries
      ensures entries == Erased(old(entries), pos, pos + 1) && next == pos
    {
      next := EraseRange(pos, pos + 1);
    }
  }

  // Runs of operations

  datatype Op<K, V> =
    | OpEmplace(key: K, t: V)
    | OpAssign(key: K, t: V)
    | OpEraseKey(key: K)
    | OpEraseRange(first: nat, last: nat)

  predicate Applies<K, V>(op: Op<K, V>, es: seq<(K, V)>) {
    op.OpEraseRange? ==> op.first <= op.last <= |es|
  }

  function Apply<K(!new, ==), V(!new)>(es: seq<(K, V)>, op: Op<K, V>): seq<(K, V)>
    requires Applies(op, es)
  {
    match op
    case OpEmplace(k, t) => Emplaced(es, k, t)
    case OpAssign(k, t) => Assigned(es, k, t)
    case OpEraseKey(k) => KeyErased(es, k)
    case OpEraseRange(first, last) => Erased(es, first, last)
  }

  /** The entries after a run from the empty container. */
  function Run<K(!new, ==), V(!new)>(ops: seq<Op<K, V>>): seq<(K, V)>
    requires Runs(ops)
    decreases |ops|, 1
  {
    if ops == [] then [] else Apply(Run(ops[..|ops| - 1]), ops[|ops| - 1])
  }

  predicate Runs<K(!new, ==), V(!new)>(ops: seq<Op<K, V>>)
    decreases |ops|, 0
  {
    ops == [] || (Runs(ops[..|ops| - 1]) && Applies(ops[|ops| - 1], Run(ops[..|ops| - 1])))
  }

  predicate DistinctKeys<K(!new, ==), V(!new)>(es: seq<(K, V)>) {
    forall i, j | 0 <= i < j < |es| :: es[i].0 != es[j].0
  }

  lemma PositionIs<K(!new), V(!new)>(es: seq<(K, V)>, i: nat)
    requires DistinctKeys(es) && i < |es|
    ensures Position(es, es[i].0) == i
  {}

  lemma ErasedDistinct<K(!new), V(!new)>(es: seq<(K, V)>, first: nat, last: nat)
    requires DistinctKeys(es) && first <= last <= |es|
    ensures DistinctKeys(Erased(es, first, last))
  {
    var r := Erased(es, first, last);
    forall i, j | 0 <= i < j < |r| ensures r[i].0 != r[j].0 {
      assert r[i] == es[if i < first then i else i + last - first];
      assert r[j] == es[if j < first then j else j + last - first];
    }
  }

  lemma ApplyDistinct<K(!new), V(!new)>(es: seq<(K, V)>, op: Op<K, V>)
    requires DistinctKeys(es) && Applies(op, es)
    ensures DistinctKeys(Apply(es, op))
  {
    match op
    case OpEmplace(_, _) =>
    case OpAssign(_, _) =>
    case OpEraseKey(k) => if Has(es, k) { ErasedDistinct(es, Position(es, k), Position(es, k) + 1); }
    case OpEraseRange(first, last) => ErasedDistinct(es, first, last);
  }

  /** Keys stay distinct, so every key names at most one entry, after any run. */
  lemma {:induction false} RunDistinct<K(!new), V(!new)>(ops: seq<Op<K, V>>)
    requires Runs(ops)
    ensures DistinctKeys(Run(ops))
  {
    if ops == [] {
    } else {
      RunDistinct(ops[..|ops| - 1]);
      ApplyDistinct(Run(ops[..|ops| - 1]), ops[|ops| - 1]);
    }
  }

  // Refinement of a mathematical map

  function Names<K(!new), V(!new)>(es: seq<(K, V)>): set<K> {
    set i | 0 <= i < |es| :: es[i].0
  }

  lemma NamesAreKeys<K(!new), V(!new)>(es: seq<(K, V)>, k: K)
    ensures k in Names(es) <==> Has(es, k)
  {
    if Has(es, k) { assert es[Position(es, k)].0 == k; }
  }

  function ToMap<K(!new, ==), V(!new)>(es: seq<(K, V)>): map<K, V> {
    map k | k in Names(es) :: NamesAreKeys(es, k); es[Position(es, k)].1
  }

  /** What an operation does to the map; a range erasure takes out the keys it finds at those positions. */
  function MapApply<K(!new), V(!new)>(m: map<K, V>, op: Op<K, V>, range: set<K>): map<K, V> {
    match op
    case OpEmplace(k, t) => if k in m then m else m[k := t]
    case OpAssign(k, t) => m[k := t]
    case OpEraseKey(k) => m - {k}
    case OpEraseRange(_, _) => m - range
  }

  lemma ErasedKeeps<K(!new), V(!new)>(es: seq<(K, V)>, first: nat, last: nat, p: nat)
    requires DistinctKeys(es) && first <= last <= |es| && p < |es| && !(first <= p < last)
    ensures var r := Erased(es, first, last); Has(r, es[p].0) && r[Position(r, es[p].0)] == es[p]
  {
    var r, q := Erased(es, first, last), if p < first then p else p - last + first;
    ErasedDistinct(es, first, last);
    assert r[q] == es[p];
    PositionIs(r, q);
  }

  lemma ErasedHas<K(!new), V(!new)>(es: seq<(K, V)>, first: nat, last: nat, k: K)
    requires DistinctKeys(es) && first <= last <= |es| && Has(Erased(es, first, last), k)
    ensures Has(es, k) && !(first <= Position(es, k) < last)
  {
    var r := Erased(es, first, last);
    var i := Position(r, k);
    var p := if i < first then i else i + last - first;
    assert es[p] == r[i];
    PositionIs(es, p);
  }

  lemma ErasedLookup<K(!new), V(!new)>(es: seq<(K, V)>, first: nat, last: nat, k: K)
    requires DistinctKeys(es) && first <= last <= |es|
    ensures var r := Erased(es, first, last);
            && (Has(r, k) <==> Has(es, k) && !(first <= Position(es, k) < last))
            && (Has(r, k) ==> r[Position(r, k)] == es[Position(es, k)])
  {
    var r := Erased(es, first, last);
    if Has(r, k) { ErasedHas(es, first, last, k); }
    if Has(es, k) && !(first <= Position(es, k) < last) { ErasedKeeps(es, first, last, Position(es, k)); }
  }

  lemma RangeNames<K(!new), V(!new)>(es: seq<(K, V)>, first: nat, last: nat, k: K)
    requires DistinctKeys(es) && first <= last <= |es|
    ensures k in Names(es[first..last]) <==> Has(es, k) && first <= Position(es, k) < last
  {
    var range := es[first..last];
    NamesAreKeys(range, k);
    if Has(range, k) { PositionIs(es, first + Position(range, k)); }
    if Has(es, k) && first <= Position(es, k) < last { assert range[Position(es, k) - first].0 == k; }
  }

  lemma ErasedNames<K(!new), V(!new)>(es: seq<(K, V)>, first: nat, last: nat)
    requires DistinctKeys(es) && first <= last <= |es|
    ensures ToMap(Erased(es, first, last)) == ToMap(es) - Names(es[first..last])
  {
    var r := Erased(es, first, last);
    forall k ensures k in Names(r) <==> k in Names(es) && k !in Names(es[first..last]) {
      NamesAreKeys(r, k);
      NamesAreKeys(es, k);
      ErasedLookup(es, first, last, k);
      RangeNames(es, first, last, k);
    }
    forall k | k in Names(r) ensures ToMap(r)[k] == ToMap(es)[k] {
      NamesAreKeys(r, k);
      ErasedLookup(es, first, last, k);
    }
  }

  lemma StoredLookup<K(!new), V(!new)>(es: seq<(K, V)>, key: K, t: V, k: K)
    ensures Has(Assigned(es, key, t), k) <==> k == key || Has(es, k)
    ensures var r := Assigned(es, key, t);
            Has(r, k) ==> r[Position(r, k)].1 == if k == key then t else es[Position(es, k)].1
  {
    var r := Assigned(es, key, t);
    var p, q := Position(es, key), Position(es, k);
    assert r[p] == (key, t) && forall i | 0 <= i < |es| && i != p :: r[i] == es[i];
    if k != key && q < |es| { assert r[q] == es[q]; }
  }

  lemma StoredNames<K(!new), V(!new)>(es: seq<(K, V)>, key: K, t: V)
    ensures ToMap(Assigned(es, key, t)) == ToMap(es)[key := t]
  {
    var r := Assigned(es, key, t);
    forall k ensures k in Names(r) <==> k == key || k in Names(es) {
      NamesAreKeys(r, k);
      NamesAreKeys(es, k);
      StoredLookup(es, key, t, k);
    }
    forall k | k in Names(r) ensures ToMap(r)[k] == ToMap(es)[key := t][k] {
      NamesAreKeys(r, k);
      StoredLookup(es, key, t, k);
    }
  }

  /** Every operation does to the entries what it does to the map they stand for. */
  lemma ApplyRefines<K(!new), V(!new)>(es: seq<(K, V)>, op: Op<K, V>)
    requires DistinctKeys(es) && Applies(op, es)
    ensures ToMap(Apply(es, op))
            == MapApply(ToMap(es), op, if op.OpEraseRange? then Names(es[op.first..op.last]) else {})
  {
    match op
    case OpEmplace(k, t) =>
      NamesAreKeys(es, k);
      if !Has(es, k) { StoredNames(es, k, t); }
    case OpAssign(k, t) => StoredNames(es, k, t);
    case OpEraseKey(k) =>
      NamesAreKeys(es, k);
      var p := Position(es, k);
      if Has(es, k) {
        ErasedNames(es, p, p + 1);
        assert es[p..p + 1] == [es[p]];
        assert Names([es[p]]) == {k} by { assert [es[p]][0].0 == k; }
      }
    case OpEraseRange(first, last) => ErasedNames(es, first, last);
  }

  // Order

  /** The number of the operation that brought in the entry that key has now. */
  function InsertedAt<K(!new, ==), V(!new)>(ops: seq<Op<K, V>>, key: K): (n: nat)
    requires Runs(ops) && Has(Run(ops), key)
    ensures n < |ops|
  {
    var before := ops[..|ops| - 1];
    if Has(Run(before), key) then InsertedAt(before, key) else |ops| - 1
  }

  /** At most one entry is new, and it is the last; the others keep their order. */
  lemma ApplyKeepsOrder<K(!new), V(!new)>(es: seq<(K, V)>, op: Op<K, V>, i: nat, j: nat)
    requires DistinctKeys(es) && Applies(op, es) && i < j < |Apply(es, op)|
    ensures var r := Apply(es, op);
            Has(es, r[i].0) && (Has(es, r[j].0) ==> Position(es, r[i].0) < Position(es, r[j].0))
  {
    match op
    case OpEmplace(_, _) => Followed(es, Apply(es, op), i, j, i, j);
    case OpAssign(_, _) => Followed(es, Apply(es, op), i, j, i, j);
    case OpEraseKey(k) =>
      if Has(es, k) {
        ErasedKeepsOrder(es, Position(es, k), Position(es, k) + 1, i, j);
      } else {
        Followed(es, es, i, j, i, j);
      }
    case OpEraseRange(first, last) => ErasedKeepsOrder(es, first, last, i, j);
  }

  lemma ErasedKeepsOrder<K(!new), V(!new)>(es: seq<(K, V)>, first: nat, last: nat, i: nat, j: nat)
    requires DistinctKeys(es) && first <= last <= |es| && i < j < |Erased(es, first, last)|
    ensures var r := Erased(es, first, last);
            Has(es, r[i].0) && (Has(es, r[j].0) ==> Position(es, r[i].0) < Position(es, r[j].0))
  {
    var p, q := if i < first then i else i + last - first, if j < first then j else j + last - first;
    Followed(es, Erased(es, first, last), i, j, p, q);
  }

  lemma Followed<K(!new), V(!new)>(es: seq<(K, V)>, r: seq<(K, V)>, i: nat, j: nat, p: nat, q: nat)
    requires DistinctKeys(es) && i < j < |r| && p < q && p < |es|
    requires es[p].0 == r[i].0 && if q < |es| then es[q].0 == r[j].0 else !Has(es, r[j].0)
    ensures Has(es, r[i].0) && (Has(es, r[j].0) ==> Position(es, r[i].0) < Position(es, r[j].0))
  {
    PositionIs(es, p);
    if q < |es| { PositionIs(es, q); }
  }

  /** Iteration follows the order of insertion, after any run: erasing never reorders what stays. */
  lemma {:induction false} InsertionOrder<K(!new), V(!new)>(ops: seq<Op<K, V>>, i: nat, j: nat)
    requires Runs(ops) && i < j < |Run(ops)|
    ensures Has(Run(ops), Run(ops)[i].0) && Has(Run(ops), Run(ops)[j].0)
    ensures InsertedAt(ops, Run(ops)[i].0) < InsertedAt(ops, Run(ops)[j].0)
  {
    RunDistinct(ops);
    PositionIs(Run(ops), i);
    PositionIs(Run(ops), j);
    var before := ops[..|ops| - 1];
    var es, a, b := Run(before), Run(ops)[i].0, Run(ops)[j].0;
    RunDistinct(before);
    ApplyKeepsOrder(es, ops[|ops| - 1], i, j);
    if Has(es, b) {
      InsertionOrder(before, Position(es, a), Position(es, b));
    }
  }
}
