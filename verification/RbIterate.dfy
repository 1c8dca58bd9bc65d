/** The stackless walk over a range of a tree. */
module RbIterate {
  import opened RbTheory
  import opened RbHeap
  import opened RbOrder
  import opened RbSwap
  import opened RbSearch

  /** The calls still to come over `s` after the calls `past`. The callback `fn` sees all calls so far. */
  ghost function Calls<D>(s: seq<RbNode<D>>, cmpf: (D, D) -> int, to: D, fn: seq<RbNode<D>> -> bool,
      past: seq<RbNode<D>>): seq<RbNode<D>>
    decreases |s|
  {
    if s == [] || cmpf(s[0].data, to) > 0 then past
    else if !fn(past + [s[0]]) then past + [s[0]]
    else Calls(s[1..], cmpf, to, fn, past + [s[0]])
  }

  /** Where the walk stands: at the node to visit next, on the way down, or on the way up. */
  datatype Phase = AtNode | Entering | Leaving

  /** How many nodes lie before the next one to visit. */
  ghost function Next<N>(phase: Phase, k: Ctx<N>, t: Tree<N>): nat
    requires t.Node?
  {
    match phase
    case AtNode => Position(k, t)
    case Entering => |Before(k)|
    case Leaving => |Before(k)| + |InOrder(t)|
  }

  /** What the last step of the walk must have been. */
  ghost predicate CameFrom<D>(phase: Phase, prev: RbNode?<D>, k: Ctx<RbNode<D>>, t: Tree<RbNode<D>>)
    requires t.Node?
  {
    match phase
    case AtNode => prev == Root(t.left)
    case Entering => prev != null && prev == Holder(k, null)
    case Leaving => prev != null && prev == Root(t.right)
  }

  ghost function Fuel<N>(phase: Phase, k: Ctx<N>, t: Tree<N>): nat {
    match phase
    case AtNode => 0
    case Entering => Height(t)
    case Leaving => Depth(k) + 1
  }

  /** The phase in which a finished subtree leaves its parent. */
  ghost function AfterChild<N>(k: Ctx<N>): Phase {
    if k.InLeft? then AtNode else Leaving
  }

  lemma ClimbPhase<D>(k: Ctx<RbNode<D>>, t: Tree<RbNode<D>>)
    requires !k.Top? && t.Node?
    ensures Next(AfterChild(k), k.up, Wrap(k, t)) == |Before(k)| + |InOrder(t)|
    ensures CameFrom(AfterChild(k), t.item, k.up, Wrap(k, t))
    ensures AfterChild(k) == Leaving ==> Depth(k.up) < Depth(k)
  {
  }

  lemma NeighboursDiffer<D>(rbt: RbTree<D>, cursor: RbNode<D>, k: Ctx<RbNode<D>>, t: Tree<RbNode<D>>)
    requires Cursor(rbt, cursor, k, t)
    ensures cursor.left == Root(t.left) && cursor.right == Root(t.right) && cursor.parent == Holder(k, null)
    ensures cursor.left != null ==> cursor.left != cursor.right && cursor.left != cursor.parent
    ensures cursor.right != null ==> cursor.right != cursor.parent
  {
    var m := Snapshot(Items(rbt.model));
    CursorLinks(rbt, cursor, k, t);
    PlugItems(k, t);
    LinkedAtGap(k, t, m);
  }

  lemma CallsStep<D>(s: seq<RbNode<D>>, i: nat, cmpf: (D, D) -> int, to: D, fn: seq<RbNode<D>> -> bool,
      past: seq<RbNode<D>>)
    requires i < |s|
    ensures Calls(s[i..], cmpf, to, fn, past) ==
      if cmpf(s[i].data, to) > 0 then past
      else if !fn(past + [s[i]]) then past + [s[i]]
      else Calls(s[i + 1..], cmpf, to, fn, past + [s[i]])
  {
    assert s[i..][0] == s[i] && s[i..][1..] == s[i + 1..];
  }

  lemma {:induction false} FindPosition<N>(k: Ctx<N>, t: Tree<N>, i: int) returns (k': Ctx<N>, t': Tree<N>)
    requires |Before(k)| <= i < |Before(k)| + |InOrder(t)|
    ensures Plug(k', t') == Plug(k, t) && t'.Node? && Position(k', t') == i
    decreases t
  {
    if i < Position(k, t) {
      k', t' := FindPosition(InLeft(k, t.item, t.colour, t.right), t.left, i);
    } else if i == Position(k, t) {
      k', t' := k, t;
    } else {
      k', t' := FindPosition(InRight(t.left, t.item, t.colour, k), t.right, i);
    }
  }

  lemma CursorAt<N>(whole: Tree<N>, i: int) returns (k: Ctx<N>, t: Tree<N>)
    requires 0 <= i < |InOrder(whole)|
    ensures Plug(k, t) == whole && t.Node? && Position(k, t) == i && t.item == InOrder(whole)[i]
  {
    k, t := FindPosition(Top, whole, i);
    AtPosition(k, t);
  }

  method Start<D>(rbt: RbTree<D>, from: D, cmpf: (D, D) -> int)
      returns (cursor: RbNode?<D>, trapped: bool, ghost first: int, ghost k: Ctx<RbNode<D>>, ghost t: Tree<RbNode<D>>)
    requires rbt.Valid() && Rising(cmpf, from, rbt.Nodes())
    ensures trapped <==> AllBelow(cmpf, from, rbt.Nodes())
    ensures trapped <==> cursor == null
    ensures !trapped ==> LeastWithin(cmpf, from, rbt.Nodes(), first)
    ensures !trapped ==> Cursor(rbt, cursor, k, t) && Position(k, t) == first
  {
    ghost var s := rbt.Nodes();
    cursor, trapped, first := SearchMin(rbt, from, cmpf);
    if cursor == null {
      trapped := true;
      k, t := Top, Leaf;
    } else {
      MinResultIsLeast(cmpf, from, s, cursor, trapped, first);
      k, t := CursorAt(rbt.model, first);
    }
  }

  /** One turn of the loop at a node whose left side is done. */
  lemma CursorIndex<D>(rbt: RbTree<D>, cursor: RbNode<D>, k: Ctx<RbNode<D>>, t: Tree<RbNode<D>>)
    requires Cursor(rbt, cursor, k, t)
    ensures t.Node? && var s, i := rbt.Nodes(), Position(k, t); i < |s| && s[i] == cursor
  {
    AtPosition(k, t);
  }

  /** Down to the right, or else up. */
  method GoOn<D>(rbt: RbTree<D>, cursor0: RbNode<D>, ghost k0: Ctx<RbNode<D>>, ghost t0: Tree<RbNode<D>>)
      returns (cursor: RbNode?<D>, ghost phase: Phase, ghost k: Ctx<RbNode<D>>, ghost t: Tree<RbNode<D>>)
    requires Cursor(rbt, cursor0, k0, t0)
    ensures cursor != null ==> t.Node? && Cursor(rbt, cursor, k, t) && CameFrom(phase, cursor0, k, t)
    ensures cursor != null ==> Next(phase, k, t) == Position(k0, t0) + 1 <= |rbt.Nodes()|
    ensures cursor == null ==> Position(k0, t0) + 1 == |rbt.Nodes()|
  {
    k, t, phase := k0, t0, AtNode;
    NeighboursDiffer(rbt, cursor0, k, t);
    AtPosition(k, t);
    if cursor0.right != null {
      cursor := cursor0.right;
      k, t, phase := InRight(t.left, t.item, t.colour, k), t.right, Entering;
    } else {
      cursor := cursor0.parent;
      if cursor != null {
        ClimbPhase(k, t);
        k, t, phase := k.up, Wrap(k, t), AfterChild(k);
      }
    }
  }

  method VisitAndMove<D>(rbt: RbTree<D>, cursor0: RbNode<D>, to: D, cmpf: (D, D) -> int, fn: seq<RbNode<D>> -> bool,
      past: seq<RbNode<D>>, ghost k0: Ctx<RbNode<D>>, ghost t0: Tree<RbNode<D>>)
      returns (calls: seq<RbNode<D>>, stop: bool, cursor: RbNode?<D>, ghost phase: Phase,
        ghost k: Ctx<RbNode<D>>, ghost t: Tree<RbNode<D>>)
    requires Cursor(rbt, cursor0, k0, t0)
    ensures !stop && cursor != null ==> t.Node?
    ensures var s, i := rbt.Nodes(), Position(k0, t0);
      && i < |s|
      && Calls(s[i..], cmpf, to, fn, past) ==
         (if stop || cursor == null then calls else Calls(s[i + 1..], cmpf, to, fn, calls))
      && (!stop && cursor != null ==> Next(phase, k, t) == i + 1 <= |s|)
    ensures !stop && cursor != null ==> Cursor(rbt, cursor, k, t) && CameFrom(phase, cursor0, k, t)
  {
    hide InOrder, Before, Cursor, CameFrom, Next;
    CursorIndex(rbt, cursor0, k0, t0);
    ghost var s, i := rbt.Nodes(), Position(k0, t0);
    k, t, phase := k0, t0, AtNode;
    calls, cursor, stop := past, cursor0, true;
    CallsStep(s, i, cmpf, to, fn, past);
    var c := cmpf(cursor0.data, to);
    if c > 0 {
      return;
    }
    calls := past + [cursor0];
    if !fn(calls) {
      return;
    }
    stop := false;
    cursor, phase, k, t := GoOn(rbt, cursor0, k0, t0);
  }

  /** One turn of the loop at a node that is not visited now. */
  method Move<D>(rbt: RbTree<D>, cursor0: RbNode<D>, prev0: RbNode?<D>, ghost phase0: Phase,
      ghost k0: Ctx<RbNode<D>>, ghost t0: Tree<RbNode<D>>)
      returns (cursor: RbNode?<D>, prev: RbNode?<D>, ghost phase: Phase, ghost k: Ctx<RbNode<D>>,
        ghost t: Tree<RbNode<D>>)
    requires Cursor(rbt, cursor0, k0, t0) && CameFrom(phase0, prev0, k0, t0) && prev0 != cursor0.left
    ensures cursor != null ==> Cursor(rbt, cursor, k, t) && CameFrom(phase, prev, k, t)
    ensures cursor != null ==> Next(phase, k, t) == Next(phase0, k0, t0) && Fuel(phase, k, t) < Fuel(phase0, k0, t0)
    ensures cursor == null ==> Next(phase0, k0, t0) == |rbt.Nodes()|
  {
    cursor, phase, k, t := cursor0, phase0, k0, t0;
    NeighboursDiffer(rbt, cursor, k, t);
    if prev0 == cursor.right {
      prev := cursor;
      cursor := cursor.parent;
      if cursor != null {
        ClimbPhase(k, t);
        k, t, phase := k.up, Wrap(k, t), AfterChild(k);
      } else {
        InOrderPlug(k, t);
      }
    } else {
      if cursor.left != null {
        prev := cursor;
        cursor := cursor.left;
        k, t := InLeft(k, t.item, t.colour, t.right), t.left;
      } else {
        prev := cursor.left;
        phase := AtNode;
      }
    }
  }

  /** Visit the nodes from the first one not below `from` up to the last one not above `to`, or up to
      the first visit that says stop. An empty tree and a tree below `from` end in a null dereference. */
  method IterRange<D>(rbt: RbTree<D>, from: D, to: D, cmpf: (D, D) -> int, fn: seq<RbNode<D>> -> bool)
      returns (calls: seq<RbNode<D>>, trapped: bool, ghost first: int)
    requires rbt.Valid() && Rising(cmpf, from, rbt.Nodes()) && cmpf(from, to) < 0
    ensures trapped <==> AllBelow(cmpf, from, rbt.Nodes())
    ensures trapped ==> calls == []
    ensures !trapped ==> LeastWithin(cmpf, from, rbt.Nodes(), first)
    ensures !trapped ==> calls == Calls(rbt.Nodes()[first..], cmpf, to, fn, [])
  {
    hide InOrder, RbTree.Spells;
    calls := [];
    var cursor;
    ghost var k, t;
    cursor, trapped, first, k, t := Start(rbt, from, cmpf);
    if trapped {
      return;
    }
    ghost var s := rbt.Nodes();
    NeighboursDiffer(rbt, cursor, k, t);
    AtPosition(k, t);
    var prev := cursor.left;
    ghost var phase := AtNode;
    while cursor != null
      invariant cursor != null ==> Cursor(rbt, cursor, k, t) && CameFrom(phase, prev, k, t) && Next(phase, k, t) <= |s|
      invariant cursor != null ==>
        Calls(s[first..], cmpf, to, fn, []) == Calls(s[Next(phase, k, t)..], cmpf, to, fn, calls)
      invariant cursor == null ==> calls == Calls(s[first..], cmpf, to, fn, [])
      decreases if cursor == null then 0 else 1 + |s| - Next(phase, k, t),
                if cursor == null then 0 else Fuel(phase, k, t)
    {
      NeighboursDiffer(rbt, cursor, k, t);
      if prev == cursor.left {
        prev := cursor;
        var stop;
        calls, stop, cursor, phase, k, t := VisitAndMove(rbt, cursor, to, cmpf, fn, calls, k, t);
        if stop {
          return;
        }
      } else {
        cursor, prev, phase, k, t := Move(rbt, cursor, prev, phase, k, t);
      }
    }
  }
}
