/** Insertion: descend to a leaf, hang the new node there in red, and climb back repairing. */
module RbInsert {
  import opened RbTheory
  import opened RbHeap
  import opened RbOrder
  import opened RbRotate

  /** All is well except that the red root of `t` may hang from a red node. */
  ghost predicate RedAtGap<N>(k: Ctx<N>, t: Tree<N>) {
    t.Node? && t.colour == Red && IsRb(t) && CtxRb(k, BlackHeight(t), Black)
  }

  /** ... and it does. */
  ghost predicate RedRed<N>(k: Ctx<N>, t: Tree<N>) {
    RedAtGap(k, t) && !k.Top? && k.colour == Red
  }

  lemma RedParentHasBlackParent<N>(k: Ctx<N>, t: Tree<N>)
    requires RedRed(k, t)
    ensures !k.up.Top? && k.up.colour == Black
    ensures CtxRb(k.up, BlackHeight(t), Red)
    ensures IsRb(Aside(k)) && BlackHeight(Aside(k)) == BlackHeight(t) && ColourOf(Aside(k)) == Black
    ensures IsRb(Aside(k.up)) && BlackHeight(Aside(k.up)) == BlackHeight(t)
    ensures CtxRb(k.up.up, BlackHeight(t) + 1, Black)
  {
    CtxRbStep(k, BlackHeight(t), Black);
    CtxRbStep(k.up, BlackHeight(t), Red);
  }

  lemma NothingToRepair<N>(k: Ctx<N>, t: Tree<N>)
    requires RedAtGap(k, t) && !k.Top? && k.colour == Black
    ensures IsRbRoot(Plug(k, t))
  {
    PlugRb(k, t);
  }

  lemma BlackenRoot<N>(t: Tree<N>)
    requires RedAtGap(Top, t)
    ensures IsRbRoot(t.(colour := Black)) && InOrder(t.(colour := Black)) == InOrder(t)
  {
  }

  /** The subtree at the grandparent after the recolouring step. */
  ghost function Recoloured<N>(k: Ctx<N>, t: Tree<N>): Tree<N>
    requires !k.Top? && !k.up.Top? && Aside(k.up).Node?
  {
    var p, u := Wrap(k, t), Aside(k.up);
    var g := Wrap(WithAside(k.up, u.(colour := Black)), p.(colour := Black));
    g.(colour := Red)
  }

  lemma RecolouredIsRed<N>(k: Ctx<N>, t: Tree<N>)
    requires RedRed(k, t) && !k.up.Top? && ColourOf(Aside(k.up)) == Red
    ensures Aside(k.up).Node?
    ensures RedAtGap(k.up.up, Recoloured(k, t))
  {
    RedParentHasBlackParent(k, t);
  }

  lemma RecolouredInOrder<N>(k: Ctx<N>, t: Tree<N>)
    requires !k.Top? && !k.up.Top? && Aside(k.up).Node?
    ensures InOrder(Plug(k.up.up, Recoloured(k, t))) == InOrder(Plug(k, t))
  {
    InOrderPlug(k.up.up, Recoloured(k, t));
    InOrderPlug(k.up.up, Wrap(k.up, Wrap(k, t)));
  }

  lemma RecolouredMovesUp<N>(k: Ctx<N>, t: Tree<N>)
    requires RedRed(k, t) && !k.up.Top? && ColourOf(Aside(k.up)) == Red
    ensures Aside(k.up).Node?
    ensures RedAtGap(k.up.up, Recoloured(k, t))
    ensures InOrder(Plug(k.up.up, Recoloured(k, t))) == InOrder(Plug(k, t))
  {
    hide InOrder, Plug;
    RecolouredIsRed(k, t);
    RecolouredInOrder(k, t);
  }

  /** The final step when node, parent and grandparent lie on one line. */
  ghost function Straightened<N>(k: Ctx<N>, t: Tree<N>): Tree<N>
    requires !k.Top? && !k.up.Top? && k.InLeft? == k.up.InLeft?
  {
    if k.InLeft? then
      Node(t, k.item, Black, Node(k.right, k.up.item, Red, k.up.right))
    else
      Node(Node(k.up.left, k.up.item, Red, k.left), k.item, Black, t)
  }

  lemma Reassociated<N>(a: seq<N>, x: N, b: seq<N>, y: N, c: seq<N>)
    ensures (a + [x] + b) + [y] + c == a + [x] + (b + [y] + c)
  {
  }

  lemma StraightenedInOrder<N>(k: Ctx<N>, t: Tree<N>)
    requires !k.Top? && !k.up.Top? && k.InLeft? == k.up.InLeft?
    ensures InOrder(Straightened(k, t)) == InOrder(Wrap(k.up, Wrap(k, t)))
  {
    if k.InLeft? {
      Reassociated(InOrder(t), k.item, InOrder(k.right), k.up.item, InOrder(k.up.right));
    } else {
      Reassociated(InOrder(k.up.left), k.up.item, InOrder(k.left), k.item, InOrder(t));
    }
  }

  /** A black node over two red ones of equal black height, in either order. */
  lemma RedBesideRed<N>(t: Tree<N>, x: N, a: Tree<N>, y: N, b: Tree<N>, left: bool)
    requires IsRb(t) && ColourOf(t) == Red && IsRb(a) && IsRb(b) && ColourOf(a) == Black && ColourOf(b) == Black
    requires BlackHeight(t) == BlackHeight(a) == BlackHeight(b)
    ensures var s := if left then Node(t, x, Black, Node(a, y, Red, b)) else Node(Node(b, y, Red, a), x, Black, t);
            IsRb(s) && BlackHeight(s) == BlackHeight(t) + 1 && ColourOf(s) == Black
  {
    if left {
      assert IsRb(Node(a, y, Red, b));
    } else {
      assert IsRb(Node(b, y, Red, a));
    }
  }

  lemma StraightenedIsRb<N>(k: Ctx<N>, t: Tree<N>)
    requires RedRed(k, t) && !k.up.Top? && ColourOf(Aside(k.up)) == Black
    requires k.InLeft? == k.up.InLeft?
    ensures IsRbRoot(Plug(k.up.up, Straightened(k, t)))
  {
    RedParentHasBlackParent(k, t);
    RedBesideRed(t, k.item, Aside(k), k.up.item, Aside(k.up), k.InLeft?);
    PlugRb(k.up.up, Straightened(k, t));
  }

  lemma StraightenedRepairs<N>(k: Ctx<N>, t: Tree<N>)
    requires RedRed(k, t) && !k.up.Top? && ColourOf(Aside(k.up)) == Black
    requires k.InLeft? == k.up.InLeft?
    ensures IsRbRoot(Plug(k.up.up, Straightened(k, t)))
    ensures InOrder(Plug(k.up.up, Straightened(k, t))) == InOrder(Plug(k, t))
  {
    hide InOrder, IsRbRoot;
    StraightenedIsRb(k, t);
    StraightenedInOrder(k, t);
    InOrderPlug(k.up.up, Straightened(k, t));
    InOrderPlug(k.up.up, Wrap(k.up, Wrap(k, t)));
  }

  /** The context of the parent, and the parent, once a bent line has been turned straight. */
  ghost function UnbentCtx<N>(k: Ctx<N>, t: Tree<N>): Ctx<N>
    requires !k.Top? && t.Node?
  {
    if k.InLeft? then InRight(t.left, t.item, t.colour, k.up) else InLeft(k.up, t.item, t.colour, t.right)
  }

  ghost function Unbent<N>(k: Ctx<N>, t: Tree<N>): Tree<N>
    requires !k.Top? && t.Node?
  {
    if k.InLeft? then Node(t.right, k.item, k.colour, k.right) else Node(k.left, k.item, k.colour, t.left)
  }

  lemma UnbentKeeps<N>(k: Ctx<N>, t: Tree<N>)
    requires RedRed(k, t)
    ensures RedRed(UnbentCtx(k, t), Unbent(k, t))
    ensures InOrder(Plug(UnbentCtx(k, t), Unbent(k, t))) == InOrder(Plug(k, t))
  {
    RedParentHasBlackParent(k, t);
    CtxRbStep(UnbentCtx(k, t), BlackHeight(t), Black);
    var g := Wrap(k, t);
    InOrderPlug(k.up, g);
    if k.InLeft? {
      RotatedRightInOrder(g);
      InOrderPlug(k.up, RotatedRight(g));
    } else {
      RotatedLeftInOrder(g);
      InOrderPlug(k.up, RotatedLeft(g));
    }
  }

  // ---------------------------------------------------------------- the code

  lemma UnbentPlug<N>(k: Ctx<N>, t: Tree<N>)
    requires !k.Top? && t.Node?
    ensures k.InLeft? ==> Plug(UnbentCtx(k, t), Unbent(k, t)) == Plug(k.up, RotatedRight(Wrap(k, t)))
    ensures k.InRight? ==> Plug(UnbentCtx(k, t), Unbent(k, t)) == Plug(k.up, RotatedLeft(Wrap(k, t)))
  {
  }

  /** If node, parent and grandparent do not lie on one line, turn the parent so that they do. */
  method Unbend<D>(rbt: RbTree<D>, bent: RbNode<D>, ghost k: Ctx<RbNode<D>>, ghost t: Tree<RbNode<D>>)
      returns (node: RbNode<D>)
    requires rbt.Spells(Plug(k, t)) && t.Node? && t.item == bent
    requires !k.Top? && !k.up.Top?
    modifies rbt`root, Items(Plug(k, t))
    ensures k.InLeft? == k.up.InLeft? ==> node == bent && rbt.Spells(Plug(k, t))
    ensures k.InLeft? != k.up.InLeft? ==>
      && node == Unbent(k, t).item && rbt.Spells(Plug(UnbentCtx(k, t), Unbent(k, t)))
      && Items(Plug(UnbentCtx(k, t), Unbent(k, t))) == Items(Plug(k, t))
  {
    node := bent;
    rbt.At(k, t);
    rbt.At(k.up, Wrap(k, t));
    UnbentPlug(k, t);
    var parent := node.parent;
    var grandparent := parent.parent;
    if node == parent.right && parent == grandparent.left {
      RotateLeft(rbt, parent, k.up, Wrap(k, t));
      rbt.At(UnbentCtx(k, t).up, Wrap(UnbentCtx(k, t), Unbent(k, t)));
      node := node.left;
    } else if node == parent.left && parent == grandparent.right {
      RotateRight(rbt, parent, k.up, Wrap(k, t));
      rbt.At(UnbentCtx(k, t).up, Wrap(UnbentCtx(k, t), Unbent(k, t)));
      node := node.right;
    }
  }

  /** Node, parent and grandparent lie on one line: turn the grandparent and recolour. */
  method TurnGrandparent<D>(rbt: RbTree<D>, node: RbNode<D>, ghost k: Ctx<RbNode<D>>, ghost t: Tree<RbNode<D>>)
    requires rbt.Spells(Plug(k, t)) && t.Node? && t.item == node
    requires !k.Top? && !k.up.Top? && k.InLeft? == k.up.InLeft?
    modifies rbt`root, Items(Plug(k, t))
    ensures rbt.Spells(Plug(k.up.up, Straightened(k, t)))
    ensures Items(Plug(k.up.up, Straightened(k, t))) == Items(Plug(k, t))
  {
    ghost var gk, g := k.up.up, Wrap(k.up, Wrap(k, t));
    rbt.At(k, t);
    rbt.At(k.up, Wrap(k, t));
    var parent := node.parent;
    var grandparent := parent.parent;
    if node == parent.left && parent == grandparent.left {
      RotateRight(rbt, grandparent, gk, g);
      g := RotatedRight(g);
    } else if node == parent.right && parent == grandparent.right {
      RotateLeft(rbt, grandparent, gk, g);
      g := RotatedLeft(g);
    } else {
      assert false;
    }
    SetColour(rbt, parent, Black, gk, g);
    g := g.(colour := Black);
    SetColour(rbt, grandparent, Red,
      if k.InLeft? then InRight(g.left, g.item, g.colour, gk) else InLeft(gk, g.item, g.colour, g.right),
      if k.InLeft? then g.right else g.left);
  }

  /** Parent and uncle are red: make them black and the grandparent red. */
  method PushRedUp<D>(rbt: RbTree<D>, node: RbNode<D>, ghost k: Ctx<RbNode<D>>, ghost t: Tree<RbNode<D>>)
      returns (grandparent: RbNode<D>)
    requires rbt.Spells(Plug(k, t)) && t.Node? && t.item == node
    requires !k.Top? && !k.up.Top? && Aside(k.up).Node?
    modifies Items(Plug(k, t))
    ensures rbt.Spells(Plug(k.up.up, Recoloured(k, t)))
    ensures Items(Plug(k.up.up, Recoloured(k, t))) == Items(Plug(k, t))
    ensures grandparent == Recoloured(k, t).item
  {
    ghost var p := Wrap(k, t);
    rbt.At(k, t);
    rbt.At(k.up, p);
    var parent := node.parent;
    var uncle := Sibling(parent);
    grandparent := parent.parent;
    SetColour(rbt, parent, Black, k.up, p);
    p := p.(colour := Black);
    SetColour(rbt, uncle, Black, Across(k.up, p), Aside(k.up));
    ghost var g := Wrap(WithAside(k.up, Aside(k.up).(colour := Black)), p);
    SetColour(rbt, grandparent, Red, k.up.up, g);
  }

  /** The last step of the repair: the parent is red and the uncle is not. */
  method TurnAndStop<D>(rbt: RbTree<D>, bent: RbNode<D>, ghost k0: Ctx<RbNode<D>>, ghost t0: Tree<RbNode<D>>)
      returns (ghost repaired: Tree<RbNode<D>>)
    requires rbt.Spells(Plug(k0, t0)) && t0.Node? && t0.item == bent
    requires RedRed(k0, t0) && !k0.up.Top? && ColourOf(Aside(k0.up)) == Black
    modifies rbt`root, Items(Plug(k0, t0))
    ensures rbt.Spells(repaired) && IsRbRoot(repaired)
    ensures InOrder(repaired) == InOrder(Plug(k0, t0)) && Items(repaired) == Items(Plug(k0, t0))
  {
    ghost var k, t := k0, t0;
    UnbentKeeps(k, t);
    var node := Unbend(rbt, bent, k, t);
    if k.InLeft? != k.up.InLeft? {
      k, t := UnbentCtx(k, t), Unbent(k, t);
    }
    StraightenedRepairs(k, t);
    TurnGrandparent(rbt, node, k, t);
    repaired := Plug(k.up.up, Straightened(k, t));
  }

  /** Repair after `inserted` was hung in red at the gap of `k0`. */
  method InsertFix<D>(rbt: RbTree<D>, inserted: RbNode<D>, ghost k0: Ctx<RbNode<D>>, ghost t0: Tree<RbNode<D>>)
      returns (ghost repaired: Tree<RbNode<D>>)
    requires rbt.Spells(Plug(k0, t0)) && t0.Node? && t0.item == inserted
    requires RedAtGap(k0, t0)
    modifies rbt`root, Items(Plug(k0, t0))
    ensures rbt.Spells(repaired) && IsRbRoot(repaired)
    ensures InOrder(repaired) == InOrder(Plug(k0, t0)) && Items(repaired) == Items(Plug(k0, t0))
  {
    var node := inserted;
    ghost var k, t := k0, t0;
    while true
      invariant rbt.Spells(Plug(k, t)) && t.Node? && t.item == node
      invariant RedAtGap(k, t)
      invariant InOrder(Plug(k, t)) == InOrder(Plug(k0, t0)) && Items(Plug(k, t)) == Items(Plug(k0, t0))
      decreases Depth(k)
    {
      ParentIs(rbt, k, t);
      var parent := node.parent;
      if parent == null {
        SetColour(rbt, node, Black, k, t);
        BlackenRoot(t);
        return t.(colour := Black);
      }
      if ColourAt(parent) == Black {
        NothingToRepair(k, t);
        return Plug(k, t);
      }
      RedParentHasBlackParent(k, t);
      SiblingIs(rbt, k.up, Wrap(k, t));
      var uncle := Sibling(parent);
      if ColourAt(uncle) == Red {
        RecolouredMovesUp(k, t);
        node := PushRedUp(rbt, node, k, t);
        assert Depth(k.up.up) < Depth(k.up) < Depth(k);
        k, t := k.up.up, Recoloured(k, t);
      } else {
        repaired := TurnAndStop(rbt, node, k, t);
        return;
      }
    }
  }

  method InitNode<D>(n: RbNode<D>)
    modifies n
    ensures LinksOf(n) == Links(null, null, null, Red)
  {
    n.left := null;
    n.right := null;
    n.parent := null;
    n.colour := Red;
  }

  ghost function WithLeaf<D>(m: Fields<D>, n: RbNode<D>, parent: RbNode?<D>, goLeft: bool): Fields<D>
    requires n in m && (parent != null ==> parent in m)
  {
    var m1 := m[n := m[n].(parent := parent)];
    if parent == null then m1
    else if goLeft then m1[parent := m1[parent].(left := n)]
    else m1[parent := m1[parent].(right := n)]
  }

  method LinkLeaf<D>(rbt: RbTree<D>, n: RbNode<D>, parent: RbNode?<D>, goLeft: bool, ghost s: set<RbNode<D>>)
    requires n in s && (parent != null ==> parent in s)
    modifies rbt`root, s
    ensures Snapshot(s) == WithLeaf(old(Snapshot(s)), n, parent, goLeft)
    ensures rbt.root == if parent == null then n else old(rbt.root)
  {
    PutParent(n, parent, s);
    if parent != null {
      if goLeft {
        PutLeft(parent, n, s);
      } else {
        PutRight(parent, n, s);
      }
    } else {
      rbt.root := n;
    }
  }

  lemma RepWithLeaf<D>(k: Ctx<RbNode<D>>, n: RbNode<D>, goLeft: bool, m: Fields<D>)
    requires CtxRep(k, null, null, m) && CtxDistinct(k) && n !in CtxItems(k)
    requires n in m && m[n] == Links(null, null, null, Red)
    requires !k.Top? ==> goLeft == k.InLeft?
    ensures !k.Top? ==> k.item in m
    ensures Rep(Plug(k, Node(Leaf, n, Red, Leaf)), null, WithLeaf(m, n, Holder(k, null), goLeft))
  {
    var m' := WithLeaf(m, n, Holder(k, null), goLeft);
    CtxRepRefilled(k, null, n, null, m, m');
    RepPlug(k, Node(Leaf, n, Red, Leaf), null, m');
  }

  /** Hang the fresh red node `n` at the gap of `k`. */
  method Hang<D>(rbt: RbTree<D>, n: RbNode<D>, parent: RbNode?<D>, goLeft: bool, ghost k: Ctx<RbNode<D>>)
    requires rbt.Spells(Plug(k, Leaf)) && n !in CtxItems(k) && LinksOf(n) == Links(null, null, null, Red)
    requires parent == Holder(k, null) && (!k.Top? ==> goLeft == k.InLeft?)
    modifies rbt`root, CtxItems(k), n
    ensures rbt.Spells(Plug(k, Node(Leaf, n, Red, Leaf)))
    ensures Items(Plug(k, Node(Leaf, n, Red, Leaf))) == CtxItems(k) + {n}
  {
    ghost var s, t := CtxItems(k) + {n}, Node(Leaf, n, Red, Leaf);
    ghost var m, m0 := Snapshot(s), Snapshot(Items(Plug(k, Leaf)));
    rbt.At(k, Leaf);
    RepPlug(k, Leaf, null, m0);
    CtxRepKept(k, null, null, m0, m);
    RepWithLeaf(k, n, goLeft, m);
    PlugItems(k, t);
    PlugRoot(k, t);
    LinkLeaf(rbt, n, parent, goLeft, s);
    assert Snapshot(Items(Plug(k, t))) == WithLeaf(m, n, parent, goLeft);
  }

  /** `n` goes before the first node that does not compare below it. */
  ghost function Inserted<D>(cmpf: (D, D) -> int, n: RbNode<D>, s: seq<RbNode<D>>): seq<RbNode<D>> {
    var r := Rank(cmpf, n.data, s);
    s[..r] + [n] + s[r..]
  }

  lemma GapIsRank<D>(cmpf: (D, D) -> int, n: RbNode<D>, k: Ctx<RbNode<D>>)
    requires AllBelow(cmpf, n.data, Before(k)) && NoneBelow(cmpf, n.data, After(k))
    ensures InOrder(Plug(k, Node(Leaf, n, Red, Leaf))) == Inserted(cmpf, n, InOrder(Plug(k, Leaf)))
  {
    InOrderPlug(k, Leaf);
    InOrderPlug(k, Node(Leaf, n, Red, Leaf));
    RankSplits(cmpf, n.data, Before(k), After(k));
    assert Before(k) + [] + After(k) == Before(k) + After(k);
    assert [] + [n] + [] == [n];
  }

  /** The descent: where a node with data `v` belongs. */
  method FindGap<D>(rbt: RbTree<D>, v: D, cmpf: (D, D) -> int)
      returns (parent: RbNode?<D>, goLeft: bool, ghost k: Ctx<RbNode<D>>)
    requires rbt.Valid() && Rising(cmpf, v, rbt.Nodes())
    ensures Plug(k, Leaf) == rbt.model && rbt.Spells(Plug(k, Leaf)) && IsRbRoot(Plug(k, Leaf))
    ensures parent == Holder(k, null) && (!k.Top? ==> goLeft == k.InLeft?)
    ensures AllBelow(cmpf, v, Before(k)) && NoneBelow(cmpf, v, After(k))
  {
    parent := null;
    var cursor := rbt.root;
    var cmpResult := 0;
    k := Top;
    ghost var t := rbt.model;
    while cursor != null
      invariant rbt.Spells(rbt.model) && Plug(k, t) == rbt.model && cursor == Root(t)
      invariant parent == Holder(k, null) && (!k.Top? ==> (cmpResult >= 0) == k.InLeft?)
      invariant AllBelow(cmpf, v, Before(k)) && NoneBelow(cmpf, v, After(k))
      decreases t
    {
      rbt.Here(rbt.model, k, t);
      RisingAround(cmpf, v, k, t);
      parent := cursor;
      cmpResult := cmpf(cursor.data, v);
      if cmpResult >= 0 {
        cursor := cursor.left;
        k, t := InLeft(k, t.item, t.colour, t.right), t.left;
      } else {
        cursor := cursor.right;
        k, t := InRight(t.left, t.item, t.colour, k), t.right;
      }
    }
    goLeft := cmpResult >= 0;
  }

  method PrepareNode<D>(rbt: RbTree<D>, n: RbNode<D>)
    requires rbt.Valid() && n !in Items(rbt.model)
    modifies n
    ensures rbt.Valid() && LinksOf(n) == Links(null, null, null, Red)
  {
    ghost var m := Snapshot(Items(rbt.model));
    InitNode(n);
    assert Snapshot(Items(rbt.model)) == m;
  }

  method HangAndFix<D>(rbt: RbTree<D>, n: RbNode<D>, parent: RbNode?<D>, goLeft: bool, ghost k: Ctx<RbNode<D>>)
      returns (ghost repaired: Tree<RbNode<D>>)
    requires rbt.Spells(Plug(k, Leaf)) && IsRbRoot(Plug(k, Leaf))
    requires n !in Items(Plug(k, Leaf)) && LinksOf(n) == Links(null, null, null, Red)
    requires parent == Holder(k, null) && (!k.Top? ==> goLeft == k.InLeft?)
    modifies rbt`root, Items(Plug(k, Leaf)), n
    ensures rbt.Spells(repaired) && IsRbRoot(repaired)
    ensures InOrder(repaired) == InOrder(Plug(k, Node(Leaf, n, Red, Leaf)))
    ensures Items(repaired) == Items(Plug(k, Leaf)) + {n}
  {
    PlugItems(k, Leaf);
    PlugRb(k, Leaf);
    Hang(rbt, n, parent, goLeft, k);
    repaired := InsertFix(rbt, n, k, Node(Leaf, n, Red, Leaf));
  }

  method Insert<D>(rbt: RbTree<D>, n: RbNode<D>, cmpf: (D, D) -> int)
    requires rbt.Valid() && n !in Items(rbt.model)
    requires Rising(cmpf, n.data, rbt.Nodes())
    modifies rbt, Items(rbt.model), n
    ensures rbt.Valid() && Items(rbt.model) == old(Items(rbt.model)) + {n}
    ensures rbt.Nodes() == Inserted(cmpf, n, old(rbt.Nodes()))
  {
    hide InOrder, Items, Rep;
    PrepareNode(rbt, n);
    var parent, goLeft, k := FindGap(rbt, n.data, cmpf);
    GapIsRank(cmpf, n, k);
    ghost var repaired := HangAndFix(rbt, n, parent, goLeft, k);
    rbt.model := repaired;
  }
}
