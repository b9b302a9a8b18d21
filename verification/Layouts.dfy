/**
 The split tree of a view, and what remains of it when some terminals have left.
 */
module Layouts {
  import opened Options

  type Id(==, !new)

  datatype Axis = Horizontal | Vertical

  /** `weights[i]` is the share of `children[i]`; missing weights count as equal shares. */
  datatype Layout =
    | Terminal(id: Id)
    | Split(axis: Axis, children: seq<Layout>, weights: seq<nat>)

  // ----- Removing terminals -----

  function Retain(layout: Layout, removed: set<Id>): Option<Layout>
    decreases layout, 1
  {
    match layout
    case Terminal(id) => if id in removed then None else Some(layout)
    case Split(axis, children, weights) =>
      var (kept, keptWeights) := RetainAll(children, weights, removed);
      Collapse(axis, kept, keptWeights)
  }

  function Collapse(axis: Axis, children: seq<Layout>, weights: seq<nat>): Option<Layout> {
    if |children| == 0 then None
    else if |children| == 1 then Some(children[0])
    else Some(Split(axis, children, weights))
  }

  function RetainAll(children: seq<Layout>, weights: seq<nat>, removed: set<Id>): (seq<Layout>, seq<nat>)
    decreases children, 0
  {
    if children == [] then ([], [])
    else
      var (kept, keptWeights) := RetainAll(children[1..], Rest(weights), removed);
      match Retain(children[0], removed)
      case None => (kept, keptWeights)
      case Some(child) => ([child] + kept, First(weights) + keptWeights)
  }

  function First(weights: seq<nat>): seq<nat> {
    if weights == [] then [] else [weights[0]]
  }

  function Rest(weights: seq<nat>): seq<nat> {
    if weights == [] then [] else weights[1..]
  }

  /** The tree as it is rebuilt, with a loop over the children of each split. */
  method RetainLayout(layout: Layout, removed: set<Id>) returns (result: Option<Layout>)
    ensures result == Retain(layout, removed)
    decreases layout
  {
    match layout
    case Terminal(id) =>
      result := if id in removed then None else Some(layout);
    case Split(axis, children, weights) =>
      var kept: seq<Layout>, keptWeights: seq<nat> := [], [];
      ghost var all := RetainAll(children, weights, removed);
      ghost var slots := weights;
      assert children[0..] == children;
      for index := 0 to |children|
        invariant slots == if index < |weights| then weights[index..] else []
        invariant Continues(all, kept, keptWeights, RetainAll(children[index..], slots, removed))
      {
        hide Retain;
        var child := RetainLayout(children[index], removed);
        assert children[index..][1..] == children[index + 1..];
        ghost var rest := RetainAll(children[index + 1..], Rest(slots), removed);
        if child.Some? {
          ContinuesWith(all, kept, keptWeights, [child.value], First(slots), rest);
          kept := kept + [child.value];
          if index < |weights| {
            keptWeights := keptWeights + [weights[index]];
          } else {
            assert keptWeights + [] == keptWeights;
          }
        }
        slots := Rest(slots);
      }
      assert children[|children|..] == [] && RetainAll([], slots, removed) == ([], []);
      assert kept + [] == kept && keptWeights + [] == keptWeights;
      result := if |kept| == 0 then None
                else if |kept| == 1 then Some(kept[0])
                else Some(Split(axis, kept, keptWeights));
  }

  /** The parts collected so far and the rest are the whole. */
  ghost predicate Continues(all: (seq<Layout>, seq<nat>), kept: seq<Layout>, weights: seq<nat>,
                            rest: (seq<Layout>, seq<nat>)) {
    all.0 == kept + rest.0 && all.1 == weights + rest.1
  }

  lemma ContinuesWith(all: (seq<Layout>, seq<nat>), kept: seq<Layout>, weights: seq<nat>,
                      child: seq<Layout>, weight: seq<nat>, rest: (seq<Layout>, seq<nat>))
    requires Continues(all, kept, weights, (child + rest.0, weight + rest.1))
    ensures Continues(all, kept + child, weights + weight, rest)
  {
    assert kept + (child + rest.0) == kept + child + rest.0;
    assert weights + (weight + rest.1) == weights + weight + rest.1;
  }

  // ----- What remains -----

  function Leaves(layout: Layout): seq<Id>
    decreases layout, 1
  {
    match layout
    case Terminal(id) => [id]
    case Split(_, children, _) => AllLeaves(children)
  }

  function AllLeaves(children: seq<Layout>): seq<Id>
    decreases children, 0
  {
    if children == [] then [] else Leaves(children[0]) + AllLeaves(children[1..])
  }

  function Without(ids: seq<Id>, removed: set<Id>): seq<Id> {
    if ids == [] then []
    else (if ids[0] in removed then [] else [ids[0]]) + Without(ids[1..], removed)
  }

  lemma WithoutConcat(a: seq<Id>, b: seq<Id>, removed: set<Id>)
    ensures Without(a + b, removed) == Without(a, removed) + Without(b, removed)
  {
    if a == [] {
      assert a + b == b;
    } else {
      assert (a + b)[1..] == a[1..] + b;
      WithoutConcat(a[1..], b, removed);
    }
  }

  function OptionalLeaves(layout: Option<Layout>): seq<Id> {
    if layout.None? then [] else Leaves(layout.value)
  }

  /** Exactly the terminals that have not been removed remain, in their order. */
  lemma {:induction false} RetainKeepsLeaves(layout: Layout, removed: set<Id>)
    ensures OptionalLeaves(Retain(layout, removed)) == Without(Leaves(layout), removed)
    decreases layout, 1
  {
    if layout.Split? {
      var (kept, _) := RetainAll(layout.children, layout.weights, removed);
      RetainAllKeepsLeaves(layout.children, layout.weights, removed);
      if |kept| == 1 {
        assert AllLeaves(kept) == Leaves(kept[0]) + AllLeaves([]);
      }
    }
  }

  lemma {:induction false} RetainAllKeepsLeaves(children: seq<Layout>, weights: seq<nat>, removed: set<Id>)
    ensures AllLeaves(RetainAll(children, weights, removed).0) == Without(AllLeaves(children), removed)
    decreases children, 0
  {
    if children != [] {
      RetainKeepsLeaves(children[0], removed);
      RetainAllKeepsLeaves(children[1..], Rest(weights), removed);
      WithoutConcat(Leaves(children[0]), AllLeaves(children[1..]), removed);
      var (kept, _) := RetainAll(children[1..], Rest(weights), removed);
      var child := Retain(children[0], removed);
      if child.Some? {
        assert ([child.value] + kept)[1..] == kept;
      }
    }
  }

  /** Every split has at least two children, and either no weights or one for each child. */
  ghost predicate WellFormed(layout: Layout)
    decreases layout, 1
  {
    layout.Split? ==>
      2 <= |layout.children| && (layout.weights == [] || |layout.weights| == |layout.children|)
      && AllWellFormed(layout.children)
  }

  ghost predicate AllWellFormed(children: seq<Layout>)
    decreases children, 0
  {
    children != [] ==> WellFormed(children[0]) && AllWellFormed(children[1..])
  }

  /** No split is left with a single child, and weights still belong to all children or to none. */
  lemma {:induction false} RetainIsWellFormed(layout: Layout, removed: set<Id>)
    requires WellFormed(layout)
    ensures Retain(layout, removed).Some? ==> WellFormed(Retain(layout, removed).value)
    decreases layout, 1
  {
    if layout.Split? {
      RetainAllIsWellFormed(layout.children, layout.weights, removed);
    }
  }

  lemma {:induction false} RetainAllIsWellFormed(children: seq<Layout>, weights: seq<nat>, removed: set<Id>)
    requires AllWellFormed(children) && (weights == [] || |weights| == |children|)
    ensures
      var (kept, keptWeights) := RetainAll(children, weights, removed);
      && AllWellFormed(kept)
      && (weights == [] ==> keptWeights == [])
      && (|weights| == |children| ==> |keptWeights| == |kept|)
    decreases children, 0
  {
    if children != [] {
      RetainIsWellFormed(children[0], removed);
      RetainAllIsWellFormed(children[1..], Rest(weights), removed);
      var (kept, _) := RetainAll(children[1..], Rest(weights), removed);
      var child := Retain(children[0], removed);
      if child.Some? {
        assert ([child.value] + kept)[1..] == kept;
      }
    }
  }

  lemma {:induction false} SameCounts(children: seq<Layout>, weights: seq<nat>, removed: set<Id>)
    requires |weights| == |children|
    ensures |RetainAll(children, weights, removed).0| == |RetainAll(children, weights, removed).1|
  {
    if children != [] {
      SameCounts(children[1..], weights[1..], removed);
    }
  }

  lemma RegroupAround<T>(head: seq<T>, before: seq<T>, item: T, after: seq<T>)
    ensures head + (before + [item] + after) == (head + before) + [item] + after
  {}

  lemma Unfolded(children: seq<Layout>, weights: seq<nat>, removed: set<Id>)
    requires |weights| == |children| && children != []
    ensures
      var (kept, keptWeights) := RetainAll(children[1..], weights[1..], removed);
      var child := Retain(children[0], removed);
      RetainAll(children, weights, removed) ==
      ((if child.Some? then [child.value] else []) + kept, (if child.Some? then [weights[0]] else []) + keptWeights)
  {
    var (kept, keptWeights) := RetainAll(children[1..], weights[1..], removed);
    assert [] + kept == kept && [] + keptWeights == keptWeights;
  }

  /** What remains of child `i` stays in its slot: it stands between what remains of the children
      before it and after it, and at the same place among the weights is the weight it had. */
  lemma {:induction false} SlotKeepsWeight(children: seq<Layout>, weights: seq<nat>, removed: set<Id>, i: nat)
    requires |weights| == |children| && i < |children| && Retain(children[i], removed).Some?
    ensures
      var (kept, keptWeights) := RetainAll(children, weights, removed);
      var (before, weightsBefore) := RetainAll(children[..i], weights[..i], removed);
      var (after, weightsAfter) := RetainAll(children[i + 1..], weights[i + 1..], removed);
      && |before| == |weightsBefore|
      && kept == before + [Retain(children[i], removed).value] + after
      && keptWeights == weightsBefore + [weights[i]] + weightsAfter
    decreases i
  {
    var (after, weightsAfter) := RetainAll(children[i + 1..], weights[i + 1..], removed);
    var item := Retain(children[i], removed).value;
    Unfolded(children, weights, removed);
    if i == 0 {
      assert children[..0] == [] && RetainAll([], weights[..0], removed) == ([], []);
      RegroupAround([], [], item, after);
      RegroupAround([], [], weights[0], weightsAfter);
    } else {
      var rest, restWeights := children[1..], weights[1..];
      SlotKeepsWeight(rest, restWeights, removed, i - 1);
      hide RetainAll, Retain;
      assert children[..i][1..] == rest[..i - 1] && weights[..i][1..] == restWeights[..i - 1];
      assert rest[i..] == children[i + 1..] && restWeights[i..] == weights[i + 1..];
      SameCounts(children[..i], weights[..i], removed);
      Unfolded(children[..i], weights[..i], removed);
      var (before, weightsBefore) := RetainAll(rest[..i - 1], restWeights[..i - 1], removed);
      var child := Retain(children[0], removed);
      RegroupAround(if child.Some? then [child.value] else [], before, item, after);
      RegroupAround(if child.Some? then [weights[0]] else [], weightsBefore, weights[i], weightsAfter);
    }
  }

  /** Removing nothing changes nothing. */
  lemma {:induction false} RetainNothingRemoved(layout: Layout)
    requires WellFormed(layout)
    ensures Retain(layout, {}) == Some(layout)
    decreases layout, 1
  {
    if layout.Split? {
      RetainAllNothingRemoved(layout.children, layout.weights);
    }
  }

  lemma {:induction false} RetainAllNothingRemoved(children: seq<Layout>, weights: seq<nat>)
    requires AllWellFormed(children) && |weights| <= |children|
    ensures RetainAll(children, weights, {}) == (children, weights)
    decreases children, 0
  {
    if children != [] {
      RetainNothingRemoved(children[0]);
      RetainAllNothingRemoved(children[1..], Rest(weights));
      assert [children[0]] + children[1..] == children;
      assert First(weights) + Rest(weights) == weights;
    }
  }

  /** Removing in two steps is removing at once, for every tree. */
  lemma {:induction false} RetainComposes(layout: Layout, first: set<Id>, second: set<Id>)
    ensures Retain(layout, first + second) ==
            match Retain(layout, first) case None => None case Some(kept) => Retain(kept, second)
    decreases layout, 1
  {
    if layout.Split? {
      var (kept, weights) := RetainAll(layout.children, layout.weights, first);
      RetainAllComposes(layout.children, layout.weights, first, second);
      if |kept| == 1 {
        RetainOne(kept[0], weights, second);
        assert kept == [kept[0]];
      }
    }
  }

  lemma RetainOne(child: Layout, weights: seq<nat>, removed: set<Id>)
    ensures var (kept, _) := RetainAll([child], weights, removed);
            match Retain(child, removed) case None => kept == [] case Some(c) => kept == [c]
  {
    assert [child][1..] == [];
    assert RetainAll([], Rest(weights), removed) == ([], []);
  }

  lemma {:induction false} RetainAllComposes(children: seq<Layout>, weights: seq<nat>, first: set<Id>, second: set<Id>)
    ensures
      var (kept, keptWeights) := RetainAll(children, weights, first);
      RetainAll(children, weights, first + second) == RetainAll(kept, keptWeights, second)
    ensures |RetainAll(children, weights, first).1| <= |RetainAll(children, weights, first).0|
    ensures weights == [] ==> RetainAll(children, weights, first).1 == []
    decreases children, 0
  {
    if children != [] {
      RetainComposes(children[0], first, second);
      RetainAllComposes(children[1..], Rest(weights), first, second);
      var (rest, restWeights) := RetainAll(children[1..], Rest(weights), first);
      var child := Retain(children[0], first);
      if child.Some? {
        assert ([child.value] + rest)[1..] == rest;
        assert Rest(First(weights) + restWeights) == restWeights;
        assert First(First(weights) + restWeights) == First(weights);
      }
    }
  }

  // ----- How terminals lie to each other -----

  /** The axis along which two terminals lie apart: that of the innermost split with both of them. */
  function Between(layout: Layout, a: Id, b: Id): Option<Axis>
    decreases layout, 1
  {
    match layout
    case Terminal(_) => None
    case Split(axis, children, _) => BetweenAny(axis, children, a, b)
  }

  function BetweenAny(axis: Axis, children: seq<Layout>, a: Id, b: Id): Option<Axis>
    decreases children, 0
  {
    if children == [] then None
    else
      var first, others := Leaves(children[0]), AllLeaves(children[1..]);
      if a in first && b in first then Between(children[0], a, b)
      else if (a in first && b in others) || (b in first && a in others) then Some(axis)
      else BetweenAny(axis, children[1..], a, b)
  }

  lemma {:induction false} BetweenHasBoth(layout: Layout, a: Id, b: Id)
    ensures Between(layout, a, b).Some? ==> a in Leaves(layout) && b in Leaves(layout)
    decreases layout, 1
  {
    if layout.Split? {
      BetweenAnyHasBoth(layout.axis, layout.children, a, b);
    }
  }

  lemma {:induction false} BetweenAnyHasBoth(axis: Axis, children: seq<Layout>, a: Id, b: Id)
    ensures BetweenAny(axis, children, a, b).Some? ==> a in AllLeaves(children) && b in AllLeaves(children)
    decreases children, 0
  {
    if children != [] {
      BetweenHasBoth(children[0], a, b);
      BetweenAnyHasBoth(axis, children[1..], a, b);
    }
  }

  lemma {:induction false} WithoutHas(ids: seq<Id>, removed: set<Id>, id: Id)
    requires id !in removed
    ensures id in Without(ids, removed) <==> id in ids
  {
    if ids != [] {
      WithoutHas(ids[1..], removed, id);
    }
  }

  lemma RetainHas(layout: Layout, removed: set<Id>, id: Id)
    requires id !in removed
    ensures id in OptionalLeaves(Retain(layout, removed)) <==> id in Leaves(layout)
  {
    RetainKeepsLeaves(layout, removed);
    WithoutHas(Leaves(layout), removed, id);
  }

  lemma RetainAllHas(children: seq<Layout>, weights: seq<nat>, removed: set<Id>, id: Id)
    requires id !in removed
    ensures id in AllLeaves(RetainAll(children, weights, removed).0) <==> id in AllLeaves(children)
  {
    RetainAllKeepsLeaves(children, weights, removed);
    WithoutHas(AllLeaves(children), removed, id);
  }

  /** Two terminals that stay lie apart along the same axis as before: side by side, or one above the
      other, whatever else has left. */
  lemma {:induction false} AxisIsKept(layout: Layout, removed: set<Id>, a: Id, b: Id)
    requires a !in removed && b !in removed
    ensures
      var kept := Retain(layout, removed);
      (if kept.Some? then Between(kept.value, a, b) else None) == Between(layout, a, b)
    decreases layout, 1
  {
    if layout.Split? {
      var (kept, weights) := RetainAll(layout.children, layout.weights, removed);
      AxesAreKept(layout.axis, layout.children, layout.weights, removed, a, b);
      if |kept| == 1 {
        BetweenHasBoth(kept[0], a, b);
        assert kept[1..] == [];
      }
    }
  }

  lemma {:induction false} AxesAreKept(axis: Axis, children: seq<Layout>, weights: seq<nat>, removed: set<Id>,
                                       a: Id, b: Id)
    requires a !in removed && b !in removed
    ensures BetweenAny(axis, RetainAll(children, weights, removed).0, a, b) == BetweenAny(axis, children, a, b)
    decreases children, 0
  {
    if children != [] {
      var first, kept := Retain(children[0], removed), RetainAll(children[1..], Rest(weights), removed).0;
      AxisIsKept(children[0], removed, a, b);
      AxesAreKept(axis, children[1..], Rest(weights), removed, a, b);
      RetainHas(children[0], removed, a);
      RetainHas(children[0], removed, b);
      RetainAllHas(children[1..], Rest(weights), removed, a);
      RetainAllHas(children[1..], Rest(weights), removed, b);
      if first.Some? {
        assert ([first.value] + kept)[1..] == kept;
      }
    }
  }
}
