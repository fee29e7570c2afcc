/** json_value::destroy: the tree is taken apart with an explicit stack instead of recursion. */
module JsonDestroy {
  import opened JsonValue

  /** The direct children, in iteration order. */
  function Children(j: Json): (cs: seq<Json>)
    ensures Below(j, cs)
  {
    match j
    case Arr(x) => x
    case Obj(m) =>
      var keys := SortedKeys(m.Keys);
      assert forall k | k in m :: (j decreases to m[k]);
      seq(|keys|, i requires 0 <= i < |keys| => assert keys[i] in keys; m[keys[i]])
    case _ => []
  }

  /** clear() on a container. */
  function Cleared(j: Json): Json {
    match j
    case Arr(_) => Arr([])
    case Obj(_) => Obj(map[])
    case _ => j
  }

  ghost predicate Below(j: Json, cs: seq<Json>) {
    forall i | 0 <= i < |cs| :: (j decreases to cs[i])
  }

  function Size(j: Json): nat
    decreases j, 1, 0
  {
    1 + SizeBelow(j, Children(j))
  }

  function SizeBelow(j: Json, cs: seq<Json>): nat
    requires Below(j, cs)
    decreases j, 0, |cs|
  {
    if cs == [] then 0 else SizeBelow(j, cs[..|cs| - 1]) + Size(cs[|cs| - 1])
  }

  /** The number of nodes of a sequence of values. */
  function ForestSize(js: seq<Json>): nat {
    if js == [] then 0 else ForestSize(js[..|js| - 1]) + Size(js[|js| - 1])
  }

  /** Every proper descendant, with multiplicity. */
  function Descendants(j: Json): multiset<Json>
    decreases j, 1, 0
  {
    NodesBelow(j, Children(j))
  }

  function NodesBelow(j: Json, cs: seq<Json>): multiset<Json>
    requires Below(j, cs)
    decreases j, 0, |cs|
  {
    if cs == [] then multiset{}
    else
      var c := cs[|cs| - 1];
      NodesBelow(j, cs[..|cs| - 1]) + multiset{c} + Descendants(c)
  }

  /** The given values and everything below them. */
  function ForestNodes(js: seq<Json>): multiset<Json> {
    if js == [] then multiset{}
    else
      var c := js[|js| - 1];
      ForestNodes(js[..|js| - 1]) + multiset{c} + Descendants(c)
  }

  lemma {:induction false} ForestBelow(j: Json, cs: seq<Json>)
    requires Below(j, cs)
    ensures ForestSize(cs) == SizeBelow(j, cs)
    ensures ForestNodes(cs) == NodesBelow(j, cs)
  {
    if cs == [] {
    } else {
      ForestBelow(j, cs[..|cs| - 1]);
    }
  }

  lemma ChildrenForest(j: Json)
    ensures ForestSize(Children(j)) + 1 == Size(j)
    ensures ForestNodes(Children(j)) == Descendants(j)
  {
    ForestBelow(j, Children(j));
  }

  lemma {:induction false} ForestAppend(a: seq<Json>, b: seq<Json>)
    ensures ForestSize(a + b) == ForestSize(a) + ForestSize(b)
    ensures ForestNodes(a + b) == ForestNodes(a) + ForestNodes(b)
  {
    if b == [] {
      assert a + b == a;
    } else {
      assert (a + b)[..|a + b| - 1] == a + b[..|b| - 1];
      ForestAppend(a, b[..|b| - 1]);
    }
  }

  lemma PopPush(stack: seq<Json>)
    requires stack != []
    ensures var top, rest := stack[|stack| - 1], stack[..|stack| - 1];
            ForestSize(rest + Children(top)) + 1 == ForestSize(stack) &&
            ForestNodes(rest + Children(top)) + multiset{top} == ForestNodes(stack)
  {
    var top, rest := stack[|stack| - 1], stack[..|stack| - 1];
    ChildrenForest(top);
    ForestAppend(rest, Children(top));
  }

  /** A value that was moved out leaves null behind. */
  ghost predicate MovedOut(j: Json) {
    forall i | 0 <= i < |Children(j)| :: Children(j)[i] == Null
  }

  /** Moves the children of an item to the stack, one by one. */
  method MoveChildren(item0: Json, stack0: seq<Json>) returns (item: Json, stack: seq<Json>)
    ensures stack == stack0 + Children(item0)
    ensures SameType(item, item0) && MovedOut(item)
  {
    item, stack := item0, stack0;
    if item.Arr? {
      item, stack := MoveElements(item0.elems, stack0);
    } else if item.Obj? {
      item, stack := MoveMembers(item0.members, stack0);
    } else {
      assert stack0 + [] == stack0;
    }
  }

  method MoveElements(x: seq<Json>, stack0: seq<Json>) returns (item: Json, stack: seq<Json>)
    ensures stack == stack0 + x && item.Arr? && MovedOut(item)
  {
    var elems := x;
    stack := stack0;
    for i := 0 to |x|
      invariant |elems| == |x| && stack == stack0 + x[..i]
      invariant forall j | 0 <= j < |x| :: elems[j] == if j < i then Null else x[j]
    {
      stack := stack + [elems[i]];
      elems := elems[i := Null];
      assert x[..i + 1] == x[..i] + [x[i]];
    }
    assert x[..|x|] == x;
    item := Arr(elems);
  }

  /** The values of an object are moved in the order of its keys. */
  method MoveMembers(m: map<string, Json>, stack0: seq<Json>) returns (item: Json, stack: seq<Json>)
    ensures stack == stack0 + Children(Obj(m)) && item.Obj? && MovedOut(item)
  {
    var keys := SortedKeys(m.Keys);
    KeysDiffer(keys, m.Keys);
    var members: map<string, Json>;
    members, stack := MoveValues(m, keys, Children(Obj(m)), stack0);
    assert forall k | k in members :: k in keys;
    NothingLeft(members);
    item := Obj(members);
  }

  lemma KeysDiffer(keys: seq<string>, ks: set<string>)
    requires keys == SortedKeys(ks)
    ensures forall i | 0 <= i < |keys| :: keys[i] !in keys[..i]
  {}

  lemma NothingLeft(members: map<string, Json>)
    requires forall k | k in members :: members[k] == Null
    ensures MovedOut(Obj(members))
  {}

  method MoveValues(m: map<string, Json>, keys: seq<string>, ghost children: seq<Json>, stack0: seq<Json>)
    returns (members: map<string, Json>, stack: seq<Json>)
    requires |children| == |keys| && forall i | 0 <= i < |keys| :: keys[i] in m && m[keys[i]] == children[i]
    requires forall i | 0 <= i < |keys| :: keys[i] !in keys[..i]
    ensures stack == stack0 + children && members.Keys == m.Keys
    ensures forall k | k in keys :: members[k] == Null
  {
    members, stack := m, stack0;
    for i := 0 to |keys|
      invariant members.Keys == m.Keys && stack == stack0 + children[..i]
      invariant forall k | k in m :: members[k] == if k in keys[..i] then Null else m[k]
    {
      stack := stack + [members[keys[i]]];
      members := members[keys[i] := Null];
      assert children[..i + 1] == children[..i] + [children[i]] && keys[..i + 1] == keys[..i] + [keys[i]];
    }
    assert children[..|keys|] == children && keys[..|keys|] == keys;
  }

  /** Each node goes to its destructor without children. */
  ghost predicate DestructedEmpty(popped: seq<Json>, destructed: seq<Json>) {
    && |destructed| == |popped|
    && forall i | 0 <= i < |popped| :: SameType(destructed[i], popped[i]) && Children(destructed[i]) == []
  }

  lemma DestructOne(popped: seq<Json>, destructed: seq<Json>, j: Json, item: Json)
    requires DestructedEmpty(popped, destructed) && SameType(item, j)
    ensures DestructedEmpty(popped + [j], destructed + [Cleared(item)])
  {}

  /** What was popped and what the stack still stands for make up everything below the root. */
  ghost predicate TakenApart(root: Json, popped: seq<Json>, stack: seq<Json>) {
    multiset(popped) + ForestNodes(stack) == Descendants(root) && |popped| + 1 + ForestSize(stack) == Size(root)
  }

  lemma TakeApart(root: Json, popped: seq<Json>, stack: seq<Json>)
    requires stack != [] && TakenApart(root, popped, stack)
    ensures var top, rest := stack[|stack| - 1], stack[..|stack| - 1];
            TakenApart(root, popped + [top], rest + Children(top)) && ForestSize(rest + Children(top)) < ForestSize(stack)
  {
    PopPush(stack);
    assert multiset(popped + [stack[|stack| - 1]]) == multiset(popped) + multiset{stack[|stack| - 1]};
  }

  lemma AllTakenApart(root: Json, popped: seq<Json>)
    requires TakenApart(root, popped, [])
    ensures multiset(popped) == Descendants(root) && |popped| + 1 == Size(root)
  {}

  /** destroy: every descendant is popped exactly once and destructed without children; the root keeps nulls only. */
  method Destroy(root: Json) returns (popped: seq<Json>, destructed: seq<Json>, shell: Json)
    ensures multiset(popped) == Descendants(root)
    ensures |popped| + 1 == Size(root)
    ensures DestructedEmpty(popped, destructed)
    ensures SameType(shell, root) && MovedOut(shell)
  {
    var stack;
    shell, stack := MoveChildren(root, []);
    assert stack == Children(root);
    popped, destructed := [], [];
    ChildrenForest(root);
    while stack != []
      invariant TakenApart(root, popped, stack) && DestructedEmpty(popped, destructed)
      decreases ForestSize(stack)
    {
      TakeApart(root, popped, stack);
      var current, item := stack[|stack| - 1], Null;
      item, stack := MoveChildren(current, stack[..|stack| - 1]);
      DestructOne(popped, destructed, current, item);
      popped, destructed := popped + [current], destructed + [Cleared(item)];
    }
    AllTakenApart(root, popped);
  }
}
