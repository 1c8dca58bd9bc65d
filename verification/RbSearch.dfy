/** The three searches. The two bounded ones overshoot, turn back and climb. */
module RbSearch {
  import opened RbTheory
  import opened RbHeap
  import opened RbOrder

  /** The index of the node at the gap of `k` among all nodes. */
  ghost function Position<N>(k: Ctx<N>, t: Tree<N>): nat
    requires t.Node?
  {
    |Before(k)| + |InOrder(t.left)|
  }

  lemma PositionChain<N>(bk: seq<N>, l: seq<N>, x: N, r: seq<N>, ak: seq<N>)
    ensures bk + (l + [x] + r) + ak == (bk + l) + [x] + (r + ak)
  {
  }

  lemma SplitAt<N>(a: seq<N>, x: N, b: seq<N>)
    ensures var s := a + [x] + b;
      |a| < |s| && s[|a|] == x && s[..|a|] == a && s[|a| + 1..] == b
  {
  }

  lemma AtPosition<N>(k: Ctx<N>, t: Tree<N>)
    requires t.Node?
    ensures var s := InOrder(Plug(k, t));
      && Position(k, t) < |s| && s[Position(k, t)] == t.item
      && s[..Position(k, t)] == Before(k) + InOrder(t.left)
      && s[Position(k, t) + 1..] == InOrder(t.right) + After(k)
  {
    InOrderPlug(k, t);
    PositionChain(Before(k), InOrder(t.left), t.item, InOrder(t.right), After(k));
    SplitAt(Before(k) + InOrder(t.left), t.item, InOrder(t.right) + After(k));
  }

  /** Everything before the gap is below `v`, and everything after it is above. */
  ghost predicate Bracketed<D, V>(cmpf: (D, V) -> int, v: V, k: Ctx<RbNode<D>>) {
    AllBelow(cmpf, v, Before(k)) && AllAbove(cmpf, v, After(k))
  }

  /** A cursor into the tree, with what surrounds it. */
  ghost predicate Cursor<D>(rbt: RbTree<D>, cursor: RbNode?<D>, k: Ctx<RbNode<D>>, t: Tree<RbNode<D>>)
    reads rbt, Items(rbt.model)
  {
    rbt.Spells(rbt.model) && Plug(k, t) == rbt.model && cursor == Root(t)
  }

  lemma CursorLinks<D>(rbt: RbTree<D>, cursor: RbNode<D>, k: Ctx<RbNode<D>>, t: Tree<RbNode<D>>)
    requires Cursor(rbt, cursor, k, t)
    ensures cursor.left == Root(t.left) && cursor.right == Root(t.right) && cursor.parent == Holder(k, null)
  {
    rbt.Here(rbt.model, k, t);
  }

  /** Going down keeps the brackets, as long as the sign says that way. */
  lemma BracketedDown<D, V>(cmpf: (D, V) -> int, v: V, k: Ctx<RbNode<D>>, t: Tree<RbNode<D>>)
    requires t.Node? && Rising(cmpf, v, InOrder(Plug(k, t))) && Bracketed(cmpf, v, k)
    ensures cmpf(t.item.data, v) > 0 ==> Bracketed(cmpf, v, InLeft(k, t.item, t.colour, t.right))
    ensures cmpf(t.item.data, v) < 0 ==> Bracketed(cmpf, v, InRight(t.left, t.item, t.colour, k))
  {
    hide InOrder, Plug, Rising;
    RisingAround(cmpf, v, k, t);
  }

  // ---------------------------------------------------------------- exact search

  method Search<D, V>(rbt: RbTree<D>, v: V, cmpf: (D, V) -> int) returns (r: RbNode?<D>, ghost comparisons: nat)
    requires rbt.Valid() && Rising(cmpf, v, rbt.Nodes())
    ensures rbt.Valid()
    ensures r != null ==> r in rbt.Nodes() && cmpf(r.data, v) == 0
    ensures r == null ==> forall n :: n in rbt.Nodes() ==> cmpf(n.data, v) != 0
    ensures comparisons <= Height(rbt.model)
  {
    var node := rbt.root;
    ghost var k, t := Top, rbt.model;
    comparisons := 0;
    while node != null
      invariant Cursor(rbt, node, k, t) && Bracketed(cmpf, v, k)
      invariant comparisons == Depth(k)
      decreases t
    {
      CursorLinks(rbt, node, k, t);
      BracketedDown(cmpf, v, k, t);
      DepthHeight(k, t);
      var c := cmpf(node.data, v);
      comparisons := comparisons + 1;
      if c == 0 {
        AtPosition(k, t);
        return node, comparisons;
      } else if c > 0 {
        node := node.left;
        k, t := InLeft(k, t.item, t.colour, t.right), t.left;
      } else {
        node := node.right;
        k, t := InRight(t.left, t.item, t.colour, k), t.right;
      }
    }
    r := null;
    InOrderPlug(k, Leaf);
    DepthHeight(k, Leaf);
  }

  // ---------------------------------------------------------------- the two descents

  method DescendRight<D, V>(rbt: RbTree<D>, v: V, cmpf: (D, V) -> int, from: RbNode<D>,
      ghost k0: Ctx<RbNode<D>>, ghost t0: Tree<RbNode<D>>)
      returns (cursor: RbNode<D>, c: int, ghost k: Ctx<RbNode<D>>, ghost t: Tree<RbNode<D>>)
    requires Cursor(rbt, from, k0, t0) && Bracketed(cmpf, v, k0) && Rising(cmpf, v, rbt.Nodes())
    ensures Cursor(rbt, cursor, k, t) && Bracketed(cmpf, v, k) && c == cmpf(cursor.data, v)
    ensures c >= 0 || t.right.Leaf?
    ensures (t == t0 && k == k0) || Height(t) < Height(t0)
  {
    cursor, k, t := from, k0, t0;
    c := cmpf(cursor.data, v);
    CursorLinks(rbt, cursor, k, t);
    while c < 0 && cursor.right != null
      invariant Cursor(rbt, cursor, k, t) && Bracketed(cmpf, v, k) && c == cmpf(cursor.data, v)
      invariant cursor.right == Root(t.right)
      invariant (t == t0 && k == k0) || Height(t) < Height(t0)
      decreases Height(t)
    {
      BracketedDown(cmpf, v, k, t);
      CursorLinks(rbt, cursor, k, t);
      cursor := cursor.right;
      k, t := InRight(t.left, t.item, t.colour, k), t.right;
      CursorLinks(rbt, cursor, k, t);
      c := cmpf(cursor.data, v);
    }
  }

  method DescendLeft<D, V>(rbt: RbTree<D>, v: V, cmpf: (D, V) -> int, from: RbNode<D>, ghost k0: Ctx<RbNode<D>>,
      ghost t0: Tree<RbNode<D>>)
      returns (cursor: RbNode<D>, c: int, ghost k: Ctx<RbNode<D>>, ghost t: Tree<RbNode<D>>)
    requires Cursor(rbt, from, k0, t0) && Bracketed(cmpf, v, k0) && Rising(cmpf, v, rbt.Nodes())
    ensures Cursor(rbt, cursor, k, t) && Bracketed(cmpf, v, k) && c == cmpf(cursor.data, v)
    ensures c <= 0 || t.left.Leaf?
    ensures (t == t0 && k == k0) || Height(t) < Height(t0)
  {
    cursor, k, t := from, k0, t0;
    c := cmpf(cursor.data, v);
    CursorLinks(rbt, cursor, k, t);
    while c > 0 && cursor.left != null
      invariant Cursor(rbt, cursor, k, t) && Bracketed(cmpf, v, k) && c == cmpf(cursor.data, v)
      invariant cursor.left == Root(t.left)
      invariant (t == t0 && k == k0) || Height(t) < Height(t0)
      decreases Height(t)
    {
      BracketedDown(cmpf, v, k, t);
      CursorLinks(rbt, cursor, k, t);
      cursor := cursor.left;
      k, t := InLeft(k, t.item, t.colour, t.right), t.left;
      CursorLinks(rbt, cursor, k, t);
      c := cmpf(cursor.data, v);
    }
  }

  // ---------------------------------------------------------------- bounded search from above

  /** `s[i]` is the last node not above `v`, or equals `v`. */
  ghost predicate GreatestWithin<D, V>(cmpf: (D, V) -> int, v: V, s: seq<RbNode<D>>, i: int) {
    0 <= i < |s| && cmpf(s[i].data, v) <= 0 && (cmpf(s[i].data, v) == 0 || AllAbove(cmpf, v, s[i + 1..]))
  }

  /** The sequence changes from below to above `v` at `p`. */
  ghost predicate TurnsAt<D, V>(cmpf: (D, V) -> int, v: V, s: seq<RbNode<D>>, p: nat) {
    p <= |s| && AllBelow(cmpf, v, s[..p]) && AllAbove(cmpf, v, s[p..])
  }

  /** Climb until the node is not above `v`. */
  method ClimbDown<D, V>(rbt: RbTree<D>, v: V, cmpf: (D, V) -> int, from: RbNode<D>, ghost k0: Ctx<RbNode<D>>,
      ghost t0: Tree<RbNode<D>>)
      returns (cursor: RbNode<D>, c: int)
    requires Cursor(rbt, from, k0, t0) && cmpf(from.data, v) > 0
    requires TurnsAt(cmpf, v, rbt.Nodes(), |Before(k0)|)
    ensures Cursor(rbt, from, k0, t0)
    ensures c == cmpf(cursor.data, v)
    ensures c > 0 ==> Before(k0) == []
    ensures c <= 0 ==> Before(k0) != [] && cursor == rbt.Nodes()[|Before(k0)| - 1]
  {
    hide InOrder;
    ghost var k, t, s := k0, t0, rbt.Nodes();
    ghost var p := |Before(k0)|;
    cursor := from;
    c := cmpf(cursor.data, v);
    CursorLinks(rbt, cursor, k, t);
    while c > 0 && cursor.parent != null
      invariant Cursor(rbt, cursor, k, t) && c == cmpf(cursor.data, v) && cursor.parent == Holder(k, null)
      invariant c > 0 ==> Before(k) == Before(k0)
      invariant c <= 0 ==> p > 0 && cursor == s[p - 1]
      decreases Depth(k)
    {
      ghost var q := Position(k.up, Wrap(k, t));
      AtPosition(k.up, Wrap(k, t));
      assert s[q] == if q < p then s[..p][q] else s[p..][q - p];
      cursor := cursor.parent;
      k, t := k.up, Wrap(k, t);
      CursorLinks(rbt, cursor, k, t);
      c := cmpf(cursor.data, v);
    }
  }

  lemma TurnsAtSplit<D, V>(cmpf: (D, V) -> int, v: V, s: seq<RbNode<D>>, p: nat, a: seq<RbNode<D>>, b: seq<RbNode<D>>)
    requires p < |s| && AllBelow(cmpf, v, s[..p]) && cmpf(s[p].data, v) > 0 && s[p + 1..] == a + b
    requires AllAbove(cmpf, v, a) && AllAbove(cmpf, v, b)
    ensures TurnsAt(cmpf, v, s, p)
  {
    forall i | 0 <= i < |s[p..]| ensures cmpf(s[p..][i].data, v) > 0 {
      if i > 0 {
        assert s[p..][i] == (a + b)[i - 1];
      }
    }
  }

  lemma TurnsAtLeftmost<D, V>(cmpf: (D, V) -> int, v: V, k: Ctx<RbNode<D>>, t: Tree<RbNode<D>>)
    requires t.Node? && t.left.Leaf? && cmpf(t.item.data, v) > 0
    requires Bracketed(cmpf, v, k) && Rising(cmpf, v, InOrder(Plug(k, t)))
    ensures TurnsAt(cmpf, v, InOrder(Plug(k, t)), |Before(k)|)
  {
    hide Plug, Before, After, AllAbove, AllBelow, Rising, TurnsAt;
    AtPosition(k, t);
    RisingAround(cmpf, v, k, t);
    assert InOrder(t.left) == [] && Before(k) + [] == Before(k);
    TurnsAtSplit(cmpf, v, InOrder(Plug(k, t)), |Before(k)|, InOrder(t.right), After(k));
  }

  /** No result, with everything above `v`, or the greatest node not above it. */
  ghost predicate MaxResult<D, V>(cmpf: (D, V) -> int, v: V, s: seq<RbNode<D>>, r: RbNode?<D>, i: int) {
    if r == null then AllAbove(cmpf, v, s) else GreatestWithin(cmpf, v, s, i) && r == s[i]
  }

  /** A bounded search comes back empty exactly when there is nothing to find, and what it finds is maximal. */
  lemma MaxResultIsGreatest<D, V>(cmpf: (D, V) -> int, v: V, s: seq<RbNode<D>>, r: RbNode?<D>, i: int)
    requires MaxResult(cmpf, v, s, r, i)
    ensures r == null <==> forall n :: n in s ==> cmpf(n.data, v) > 0
    ensures r != null ==> r in s && cmpf(r.data, v) <= 0
    ensures r != null && cmpf(r.data, v) < 0 ==> forall j :: 0 <= j < |s| && cmpf(s[j].data, v) <= 0 ==> j <= i
  {
    if r != null {
      assert r in s;
      forall j | 0 <= j < |s| && i < j && cmpf(r.data, v) < 0 ensures cmpf(s[j].data, v) > 0 {
        assert s[j] == s[i + 1..][j - i - 1];
      }
    }
  }

  lemma GreatestHere<D, V>(cmpf: (D, V) -> int, v: V, k: Ctx<RbNode<D>>, t: Tree<RbNode<D>>)
    requires t.Node? && Bracketed(cmpf, v, k)
    requires cmpf(t.item.data, v) == 0 || (cmpf(t.item.data, v) < 0 && t.right.Leaf?)
    ensures GreatestWithin(cmpf, v, InOrder(Plug(k, t)), Position(k, t))
    ensures InOrder(Plug(k, t))[Position(k, t)] == t.item
  {
    AtPosition(k, t);
    assert t.right.Leaf? ==> InOrder(t.right) + After(k) == After(k);
  }

  lemma GreatestBeforeTurn<D, V>(cmpf: (D, V) -> int, v: V, s: seq<RbNode<D>>, p: nat)
    requires TurnsAt(cmpf, v, s, p)
    ensures p == 0 ==> AllAbove(cmpf, v, s)
    ensures p > 0 ==> GreatestWithin(cmpf, v, s, p - 1)
  {
    assert p == 0 ==> s[p..] == s;
    assert p > 0 ==> s[..p][p - 1] == s[p - 1];
  }

  /** After the two descents: the search is over, or the sign asks for another round. */
  method SettleMax<D, V>(rbt: RbTree<D>, limit: V, cmpf: (D, V) -> int, cursor: RbNode<D>, c: int,
      ghost k: Ctx<RbNode<D>>, ghost t: Tree<RbNode<D>>) returns (done: bool, r: RbNode?<D>, ghost at: int)
    requires Cursor(rbt, cursor, k, t) && Bracketed(cmpf, limit, k) && Rising(cmpf, limit, rbt.Nodes())
    requires c == cmpf(cursor.data, limit) && (c <= 0 || t.left.Leaf?)
    ensures done ==> MaxResult(cmpf, limit, rbt.Nodes(), r, at)
    ensures Cursor(rbt, cursor, k, t)
    ensures !done ==> c < 0 && t.right.Node?
  {
    hide InOrder;
    CursorLinks(rbt, cursor, k, t);
    if c == 0 {
      GreatestHere(cmpf, limit, k, t);
      return true, cursor, Position(k, t);
    }
    if c > 0 && cursor.left == null {
      TurnsAtLeftmost(cmpf, limit, k, t);
      GreatestBeforeTurn(cmpf, limit, rbt.Nodes(), |Before(k)|);
      var last, sign := ClimbDown(rbt, limit, cmpf, cursor, k, t);
      return true, if sign > 0 then null else last, |Before(k)| - 1;
    }
    if c < 0 && cursor.right == null {
      GreatestHere(cmpf, limit, k, t);
      return true, cursor, Position(k, t);
    }
    done, r, at := false, null, -1;
  }

  method SearchMax<D, V>(rbt: RbTree<D>, limit: V, cmpf: (D, V) -> int) returns (r: RbNode?<D>, ghost at: int)
    requires rbt.Valid() && Rising(cmpf, limit, rbt.Nodes())
    ensures rbt.Valid() && MaxResult(cmpf, limit, rbt.Nodes(), r, at)
    ensures r == null <==> AllAbove(cmpf, limit, rbt.Nodes())
    ensures r != null ==> r in rbt.Nodes() && cmpf(r.data, limit) <= 0
  {
    r, at := null, -1;
    if rbt.root == null {
      return;
    }
    var cursor: RbNode<D> := rbt.root;
    ghost var k, t := Top, rbt.model;
    var done := false;
    while !done
      invariant Cursor(rbt, cursor, k, t) && Bracketed(cmpf, limit, k)
      invariant done ==> MaxResult(cmpf, limit, rbt.Nodes(), r, at)
      decreases !done, Height(t)
    {
      var c;
      cursor, c, k, t := DescendRight(rbt, limit, cmpf, cursor, k, t);
      cursor, c, k, t := DescendLeft(rbt, limit, cmpf, cursor, k, t);
      done, r, at := SettleMax(rbt, limit, cmpf, cursor, c, k, t);
    }
  }

  // ---------------------------------------------------------------- bounded search from below

  /** `s[i]` is the first node not below `v`, or equals `v`. */
  ghost predicate LeastWithin<D, V>(cmpf: (D, V) -> int, v: V, s: seq<RbNode<D>>, i: int) {
    0 <= i < |s| && cmpf(s[i].data, v) >= 0 && (cmpf(s[i].data, v) == 0 || AllBelow(cmpf, v, s[..i]))
  }

  /** Climb until the node is not below `v`; `trapped` says that the climb went past the root. */
  method ClimbUp<D, V>(rbt: RbTree<D>, v: V, cmpf: (D, V) -> int, from: RbNode<D>, ghost k0: Ctx<RbNode<D>>,
      ghost t0: Tree<RbNode<D>>)
      returns (cursor: RbNode?<D>, trapped: bool)
    requires Cursor(rbt, from, k0, t0) && cmpf(from.data, v) < 0 && |After(k0)| <= |rbt.Nodes()|
    requires TurnsAt(cmpf, v, rbt.Nodes(), |rbt.Nodes()| - |After(k0)|)
    ensures Cursor(rbt, from, k0, t0)
    ensures trapped <==> After(k0) == []
    ensures trapped ==> cursor == null
    ensures !trapped ==> cursor == rbt.Nodes()[|rbt.Nodes()| - |After(k0)|]
  {
    hide InOrder;
    ghost var k, t, s := k0, t0, rbt.Nodes();
    ghost var p := |s| - |After(k0)|;
    var node: RbNode<D> := from;
    var c := cmpf(node.data, v);
    CursorLinks(rbt, node, k, t);
    while c < 0
      invariant Cursor(rbt, node, k, t) && c == cmpf(node.data, v) && node.parent == Holder(k, null)
      invariant c < 0 ==> After(k) == After(k0)
      invariant c >= 0 ==> p < |s| && node == s[p]
      decreases Depth(k)
    {
      if node.parent == null {
        return null, true;
      }
      ghost var q := Position(k.up, Wrap(k, t));
      AtPosition(k.up, Wrap(k, t));
      assert s[q] == if q < p then s[..p][q] else s[p..][q - p];
      node := node.parent;
      k, t := k.up, Wrap(k, t);
      CursorLinks(rbt, node, k, t);
      c := cmpf(node.data, v);
    }
    return node, false;
  }

  lemma TurnsBehind<D, V>(cmpf: (D, V) -> int, v: V, s: seq<RbNode<D>>, p: nat, a: seq<RbNode<D>>, b: seq<RbNode<D>>)
    requires p < |s| && s[..p] == a + b && cmpf(s[p].data, v) < 0 && AllAbove(cmpf, v, s[p + 1..])
    requires AllBelow(cmpf, v, a) && AllBelow(cmpf, v, b)
    ensures TurnsAt(cmpf, v, s, p + 1)
  {
    var head := s[..p + 1];
    forall i | 0 <= i < |head| ensures cmpf(head[i].data, v) < 0 {
      if i < p {
        assert head[i] == (a + b)[i];
      }
    }
  }

  lemma TurnsAtRightmost<D, V>(cmpf: (D, V) -> int, v: V, k: Ctx<RbNode<D>>, t: Tree<RbNode<D>>)
    requires t.Node? && t.right.Leaf? && cmpf(t.item.data, v) < 0
    requires Bracketed(cmpf, v, k) && Rising(cmpf, v, InOrder(Plug(k, t)))
    ensures |InOrder(Plug(k, t))| == Position(k, t) + 1 + |After(k)|
    ensures TurnsAt(cmpf, v, InOrder(Plug(k, t)), Position(k, t) + 1)
  {
    hide Plug, Before, After, AllAbove, AllBelow, Rising, TurnsAt;
    AtPosition(k, t);
    RisingAround(cmpf, v, k, t);
    assert InOrder(t.right) == [] && [] + After(k) == After(k);
    TurnsBehind(cmpf, v, InOrder(Plug(k, t)), Position(k, t), Before(k), InOrder(t.left));
  }

  lemma LeastHere<D, V>(cmpf: (D, V) -> int, v: V, k: Ctx<RbNode<D>>, t: Tree<RbNode<D>>)
    requires t.Node? && Bracketed(cmpf, v, k)
    requires cmpf(t.item.data, v) == 0 || (cmpf(t.item.data, v) > 0 && t.left.Leaf?)
    ensures LeastWithin(cmpf, v, InOrder(Plug(k, t)), Position(k, t))
    ensures InOrder(Plug(k, t))[Position(k, t)] == t.item
  {
    AtPosition(k, t);
    assert t.left.Leaf? ==> Before(k) + InOrder(t.left) == Before(k);
  }

  lemma LeastAfterTurn<D, V>(cmpf: (D, V) -> int, v: V, s: seq<RbNode<D>>, p: nat)
    requires TurnsAt(cmpf, v, s, p)
    ensures p == |s| ==> AllBelow(cmpf, v, s)
    ensures p < |s| ==> LeastWithin(cmpf, v, s, p)
  {
    assert p == |s| ==> s[..p] == s;
    assert p < |s| ==> s[p..][0] == s[p];
  }

  /** A null dereference with everything below `v`; no result from an empty tree; or the least node not below. */
  ghost predicate MinResult<D, V>(cmpf: (D, V) -> int, v: V, s: seq<RbNode<D>>, r: RbNode?<D>, trapped: bool, i: int) {
    if trapped then r == null && s != [] && AllBelow(cmpf, v, s)
    else if r == null then s == []
    else LeastWithin(cmpf, v, s, i) && r == s[i]
  }

  /** The search from below dereferences null exactly when the tree has nodes and all are below the limit;
      otherwise it finds the least node that is not. */
  lemma MinResultIsLeast<D, V>(cmpf: (D, V) -> int, v: V, s: seq<RbNode<D>>, r: RbNode?<D>, trapped: bool, i: int)
    requires MinResult(cmpf, v, s, r, trapped, i)
    ensures trapped <==> s != [] && forall n :: n in s ==> cmpf(n.data, v) < 0
    ensures !trapped && s != [] ==> r != null && r in s && cmpf(r.data, v) >= 0
    ensures !trapped && r != null && cmpf(r.data, v) > 0 ==>
            forall j :: 0 <= j < |s| && cmpf(s[j].data, v) >= 0 ==> i <= j
  {
    if !trapped && r != null {
      assert r in s;
      forall j | 0 <= j < |s| && j < i && cmpf(r.data, v) > 0 ensures cmpf(s[j].data, v) < 0 {
        assert s[j] == s[..i][j];
      }
    }
  }

  method SettleMin<D, V>(rbt: RbTree<D>, limit: V, cmpf: (D, V) -> int, cursor: RbNode<D>, c: int,
      ghost k: Ctx<RbNode<D>>, ghost t: Tree<RbNode<D>>)
      returns (done: bool, r: RbNode?<D>, trapped: bool, ghost at: int)
    requires Cursor(rbt, cursor, k, t) && Bracketed(cmpf, limit, k) && Rising(cmpf, limit, rbt.Nodes())
    requires c == cmpf(cursor.data, limit) && (c >= 0 || t.right.Leaf?)
    ensures done ==> MinResult(cmpf, limit, rbt.Nodes(), r, trapped, at)
    ensures Cursor(rbt, cursor, k, t)
    ensures !done ==> c > 0 && t.left.Node?
  {
    hide InOrder, Items, TurnsAt;
    CursorLinks(rbt, cursor, k, t);
    if c == 0 {
      LeastHere(cmpf, limit, k, t);
      return true, cursor, false, Position(k, t);
    }
    if c < 0 && cursor.right == null {
      TurnsAtRightmost(cmpf, limit, k, t);
      LeastAfterTurn(cmpf, limit, rbt.Nodes(), Position(k, t) + 1);
      r, trapped := ClimbUp(rbt, limit, cmpf, cursor, k, t);
      return true, r, trapped, |rbt.Nodes()| - |After(k)|;
    }
    if c > 0 && cursor.left == null {
      LeastHere(cmpf, limit, k, t);
      return true, cursor, false, Position(k, t);
    }
    done, r, trapped, at := false, null, false, -1;
  }

  method SearchMin<D, V>(rbt: RbTree<D>, limit: V, cmpf: (D, V) -> int) returns (r: RbNode?<D>, trapped: bool,
      ghost at: int)
    requires rbt.Valid() && Rising(cmpf, limit, rbt.Nodes())
    ensures rbt.Valid() && MinResult(cmpf, limit, rbt.Nodes(), r, trapped, at)
    ensures trapped <==> rbt.Nodes() != [] && AllBelow(cmpf, limit, rbt.Nodes())
    ensures r != null ==> r in rbt.Nodes() && cmpf(r.data, limit) >= 0
    ensures r == null ==> trapped || rbt.Nodes() == []
  {
    r, trapped, at := null, false, -1;
    if rbt.root == null {
      return;
    }
    var cursor: RbNode<D> := rbt.root;
    ghost var k, t := Top, rbt.model;
    var done := false;
    while !done
      invariant Cursor(rbt, cursor, k, t) && Bracketed(cmpf, limit, k)
      invariant done ==> MinResult(cmpf, limit, rbt.Nodes(), r, trapped, at)
      decreases !done, Height(t)
    {
      var c;
      cursor, c, k, t := DescendLeft(rbt, limit, cmpf, cursor, k, t);
      cursor, c, k, t := DescendRight(rbt, limit, cmpf, cursor, k, t);
      done, r, trapped, at := SettleMin(rbt, limit, cmpf, cursor, c, k, t);
    }
  }
}
