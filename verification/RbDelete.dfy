/** Deletion: exchange the node with its in-order neighbour if it has two children, repair the
    black heights while the node still hangs in the tree, and only then unlink it. */
module RbDelete {
  import opened RbTheory
  import opened RbDeleteTheory
  import opened RbHeap
  import opened RbRotate
  import opened RbSwap

  /** Convert to a case with a black sibling. */
  method TurnRedSibling<D>(rbt: RbTree<D>, parent: RbNode<D>, sibling: RbNode<D>, ghost k: Ctx<RbNode<D>>,
      ghost f: Tree<RbNode<D>>)
    requires rbt.Spells(Plug(k, f)) && f.Node? && !k.Top? && Aside(k).Node?
    requires parent == k.item && sibling == Aside(k).item
    requires k.colour == Black
    modifies rbt`root, Items(Plug(k, f))
    ensures rbt.Spells(Plug(RedSiblingTurned(k), f))
    ensures Items(Plug(RedSiblingTurned(k), f)) == Items(Plug(k, f))
  {
    rbt.At(k, f);
    ghost var w := Wrap(k, f);
    if parent.right == sibling {
      RotateLeft(rbt, parent, k.up, w);
      w := RotatedLeft(w);
    } else {
      RotateRight(rbt, parent, k.up, w);
      w := RotatedRight(w);
    }
    SetColour(rbt, sibling, Black, k.up, w);
    SetColour(rbt, parent, Red,
      if k.InLeft? then InLeft(k.up, w.item, Black, w.right) else InRight(w.left, w.item, Black, k.up),
      if k.InLeft? then w.left else w.right);
  }

  method ReddenSibling<D>(rbt: RbTree<D>, sibling: RbNode<D>, ghost k: Ctx<RbNode<D>>, ghost f: Tree<RbNode<D>>)
    requires rbt.Spells(Plug(k, f)) && f.Node? && !k.Top? && Aside(k).Node? && sibling == Aside(k).item
    modifies Items(Plug(k, f))
    ensures rbt.Spells(Plug(SiblingReddened(k), f))
    ensures Items(Plug(SiblingReddened(k), f)) == Items(Plug(k, f))
  {
    SetColour(rbt, sibling, Red, Across(k, f), Aside(k));
  }

  method BlackenParent<D>(rbt: RbTree<D>, parent: RbNode<D>, ghost k: Ctx<RbNode<D>>, ghost f: Tree<RbNode<D>>)
    requires rbt.Spells(Plug(k, f)) && !k.Top? && parent == k.item
    modifies Items(Plug(k, f))
    ensures rbt.Spells(Plug(ParentBlackened(k), f))
    ensures Items(Plug(ParentBlackened(k), f)) == Items(Plug(k, f))
  {
    SetColour(rbt, parent, Black, k.up, Wrap(k, f));
  }

  /** The near nephew is red: it takes the place of the sibling. */
  method TurnNearNephew<D>(rbt: RbTree<D>, node: RbNode<D>, parent: RbNode<D>, sibling: RbNode<D>,
      ghost k: Ctx<RbNode<D>>, ghost f: Tree<RbNode<D>>)
    requires rbt.Spells(Plug(k, f)) && f.Node? && !k.Top? && Aside(k).Node? && Near(k).Node?
    requires node == f.item && parent == k.item && sibling == Aside(k).item
    modifies rbt`root, Items(Plug(k, f))
    ensures rbt.Spells(Plug(NearNephewTurned(k), f))
    ensures Items(Plug(NearNephewTurned(k), f)) == Items(Plug(k, f))
  {
    rbt.At(k, f);
    ghost var a, s := Across(k, f), Aside(k);
    SetColour(rbt, sibling, Red, a, s);
    s := s.(colour := Red);
    rbt.At(a, s);
    if parent.right == node {
      SetColour(rbt, sibling.right, Black, InRight(s.left, s.item, Red, a), s.right);
      s := Node(s.left, s.item, Red, s.right.(colour := Black));
      RotateLeft(rbt, sibling, a, s);
    } else {
      SetColour(rbt, sibling.left, Black, InLeft(a, s.item, Red, s.right), s.left);
      s := Node(s.left.(colour := Black), s.item, Red, s.right);
      RotateRight(rbt, sibling, a, s);
    }
  }

  /** The far nephew is red: the last turn. */
  method TurnFarNephew<D>(rbt: RbTree<D>, node: RbNode<D>, parent: RbNode<D>, sibling: RbNode<D>,
      ghost k: Ctx<RbNode<D>>, ghost f: Tree<RbNode<D>>)
    requires rbt.Spells(Plug(k, f)) && f.Node? && !k.Top? && Aside(k).Node? && Far(k).Node?
    requires node == f.item && parent == k.item && sibling == Aside(k).item
    modifies rbt`root, Items(Plug(k, f))
    ensures rbt.Spells(Plug(FarNephewTurned(k), f))
    ensures Items(Plug(FarNephewTurned(k), f)) == Items(Plug(k, f))
  {
    rbt.At(k, f);
    ghost var a, s := Across(k, f), Aside(k);
    rbt.At(a, s);
    SetColour(rbt, sibling, ColourAt(parent), a, s);
    s := s.(colour := k.colour);
    ghost var k1 := ParentBlackened(WithAside(k, s));
    BlackenParent(rbt, parent, WithAside(k, s), f);
    a := Across(k1, f);
    rbt.At(k1, f);
    rbt.At(a, s);
    if parent.right == node {
      SetColour(rbt, sibling.left, Black, InLeft(a, s.item, s.colour, s.right), s.left);
      s := Node(s.left.(colour := Black), s.item, s.colour, s.right);
      RotateRight(rbt, parent, k.up, Node(s, parent, Black, f));
    } else {
      SetColour(rbt, sibling.right, Black, InRight(s.left, s.item, s.colour, a), s.right);
      s := Node(s.left, s.item, s.colour, s.right.(colour := Black));
      RotateLeft(rbt, parent, k.up, Node(f, parent, Black, s));
    }
  }

  lemma NephewsAre<D>(rbt: RbTree<D>, k: Ctx<RbNode<D>>, f: Tree<RbNode<D>>)
    requires rbt.Spells(Plug(k, f)) && f.Node? && !k.Top? && Aside(k).Node?
    ensures var s := Aside(k);
      && s.item in Items(Plug(k, f))
      && s.item.left == Root(s.left) && ColourAt(s.item.left) == ColourOf(s.left)
      && s.item.right == Root(s.right) && ColourAt(s.item.right) == ColourOf(s.right)
      && (k.item.right == f.item <==> k.InRight?) && (k.item.left == f.item <==> k.InLeft?)
    ensures f.item.parent == k.item
  {
    var a, s := Across(k, f), Aside(k);
    rbt.At(k, f);
    rbt.At(a, s);
    rbt.At(InLeft(a, s.item, s.colour, s.right), s.left);
    rbt.At(InRight(s.left, s.item, s.colour, a), s.right);
  }

  /** The sibling is black and has a red child: one or two turns, and the repair is done. */
  method FixRedNephew<D>(rbt: RbTree<D>, node: RbNode<D>, parent0: RbNode<D>, sibling0: RbNode<D>,
      ghost k0: Ctx<RbNode<D>>, ghost f: Tree<RbNode<D>>, ghost f': Tree<RbNode<D>>)
      returns (ghost k: Ctx<RbNode<D>>)
    requires rbt.Spells(Plug(k0, f)) && f.Node? && !k0.Top? && Aside(k0).Node?
    requires node == f.item && parent0 == k0.item && sibling0 == Aside(k0).item
    requires Short(k0, f') && ColourOf(Aside(k0)) == Black
    requires ColourOf(Aside(k0).left) == Red || ColourOf(Aside(k0).right) == Red
    modifies rbt`root, Items(Plug(k0, f))
    ensures rbt.Spells(Plug(k, f)) && Items(Plug(k, f)) == Items(Plug(k0, f))
    ensures IsRbRoot(Plug(k, f')) && SameOrder(k0, k)
  {
    var parent, sibling := parent0, sibling0;
    k := k0;
    NephewsAre(rbt, k, f);
    if parent.right == node && ColourAt(sibling.left) == Black && ColourAt(sibling.right) == Red {
      NearNephewTurnedStaysShort(k, f');
      NearNephewTurnedOrder(k);
      TurnNearNephew(rbt, node, parent, sibling, k, f);
      k := NearNephewTurned(k);
    } else if parent.left == node && ColourAt(sibling.left) == Red && ColourAt(sibling.right) == Black {
      NearNephewTurnedStaysShort(k, f');
      NearNephewTurnedOrder(k);
      TurnNearNephew(rbt, node, parent, sibling, k, f);
      k := NearNephewTurned(k);
    }
    SiblingIs(rbt, k, f);
    sibling := Sibling(node);
    parent := node.parent;
    FarNephewTurnedRepairs(k, f');
    FarNephewTurnedOrder(k);
    TurnFarNephew(rbt, node, parent, sibling, k, f);
    k := FarNephewTurned(k);
  }

  /** The outermost step of `k` alone. */
  ghost function OneStep<N>(k: Ctx<N>): Ctx<N>
    requires !k.Top?
  {
    if k.InLeft? then InLeft(Top, k.item, k.colour, k.right) else InRight(k.left, k.item, k.colour, Top)
  }

  lemma Chained<N>(a: seq<N>, b: seq<N>, c: seq<N>)
    ensures (a + b) + c == a + (b + c)
  {
  }

  lemma OneStepOrder<N>(k: Ctx<N>, t: Tree<N>)
    requires !k.Top?
    ensures Plug(OneStep(k), t) == Wrap(k, t)
    ensures Before(k) == Before(k.up) + Before(OneStep(k)) && After(k) == After(OneStep(k)) + After(k.up)
  {
  }

  lemma PlugInside<N>(inner: Ctx<N>, outer: Ctx<N>, t: Tree<N>)
    requires !outer.Top?
    ensures Plug(Compose(inner, OneStep(outer)), t) == Wrap(outer, Plug(inner, t))
    ensures Before(outer.up) + Before(Compose(inner, OneStep(outer))) == Before(outer) + Before(inner)
    ensures After(Compose(inner, OneStep(outer))) + After(outer.up) == After(inner) + After(outer)
  {
    PlugCompose(inner, OneStep(outer), t);
    BeforeAfterCompose(inner, OneStep(outer));
    OneStepOrder(outer, Plug(inner, t));
    Chained(Before(outer.up), Before(OneStep(outer)), Before(inner));
    Chained(After(inner), After(OneStep(outer)), After(outer.up));
  }

  /** One round of the repair at `node`. Unless it is done, the short subtree is now that of the parent. */
  method FixRound<D>(rbt: RbTree<D>, node: RbNode<D>, parent0: RbNode<D>, ghost k0: Ctx<RbNode<D>>,
      ghost f: Tree<RbNode<D>>, ghost f': Tree<RbNode<D>>) returns (done: bool, ghost k: Ctx<RbNode<D>>)
    requires rbt.Spells(Plug(k0, f)) && f.Node? && node == f.item && !k0.Top? && parent0 == k0.item
    requires Short(k0, f')
    modifies rbt`root, Items(Plug(k0, f))
    ensures rbt.Spells(Plug(k, f)) && Items(Plug(k, f)) == Items(Plug(k0, f)) && SameOrder(k0, k)
    ensures done ==> IsRbRoot(Plug(k, f'))
    ensures !done ==> !k.Top? && Depth(k.up) < Depth(k0) && Short(k.up, Wrap(k, f'))
    ensures !done ==> node.parent == Wrap(k, f).item
  {
    k := k0;
    var parent := parent0;
    SiblingIsNode(k, f');
    SiblingIs(rbt, k, f);
    var sibling := Sibling(node);
    if ColourAt(sibling) == Red {
      RedSiblingTurnedStaysShort(k, f');
      RedSiblingTurnedOrder(k);
      TurnRedSibling(rbt, parent, sibling, k, f);
      k := RedSiblingTurned(k);
      SiblingIsNode(k, f');
      SiblingIs(rbt, k, f);
      parent := node.parent;
      sibling := Sibling(node);
    }
    NephewsAre(rbt, k, f);
    ParentIs(rbt, k, f);
    var childrenBlack := ColourAt(sibling.left) == Black && ColourAt(sibling.right) == Black;
    if ColourAt(sibling) == Black && childrenBlack {
      done := ColourAt(parent) == Red;
      if !done {
        ShortMovesUp(k, f');
        ReddenSibling(rbt, sibling, k, f);
        k := SiblingReddened(k);
        ParentIs(rbt, k, f);
      } else {
        RedParentPays(k, f');
        ReddenSibling(rbt, sibling, k, f);
        BlackenParent(rbt, parent, SiblingReddened(k), f);
        k := ParentBlackened(SiblingReddened(k));
      }
    } else {
      done := true;
      k := FixRedNephew(rbt, node, parent, sibling, k, f, f');
    }
  }

  /** Repair while `deletee`, a black leaf at the gap of `k0`, still hangs in the tree. Afterwards it hangs
      at the gap of `k`, and the tree is a red-black tree once the gap is empty. */
  method DeleteFix<D>(rbt: RbTree<D>, deletee: RbNode<D>, ghost k0: Ctx<RbNode<D>>) returns (ghost k: Ctx<RbNode<D>>)
    requires rbt.Spells(Plug(k0, Node(Leaf, deletee, Black, Leaf)))
    requires CtxRb(k0, 1, Black)
    modifies rbt`root, Items(Plug(k0, Node(Leaf, deletee, Black, Leaf)))
    ensures rbt.Spells(Plug(k, Node(Leaf, deletee, Black, Leaf)))
    ensures Items(Plug(k, Node(Leaf, deletee, Black, Leaf))) == Items(Plug(k0, Node(Leaf, deletee, Black, Leaf)))
    ensures IsRbRoot(Plug(k, Leaf)) && SameOrder(k0, k)
  {
    ghost var d := Node(Leaf, deletee, Black, Leaf);
    ghost var s := Items(Plug(k0, d));
    var node := deletee;
    // The deletee hangs at the gap of `inner` below `node`, which hangs at the gap of `outer`.
    ghost var inner: Ctx<RbNode<D>>, outer := Top, k0;
    var done := false;
    while !done
      invariant rbt.Spells(Plug(outer, Plug(inner, d))) && Items(Plug(outer, Plug(inner, d))) == s
      invariant Before(outer) + Before(inner) == Before(k0) && After(inner) + After(outer) == After(k0)
      invariant !done ==> Plug(inner, d).Node? && Plug(inner, d).item == node && Short(outer, Plug(inner, Leaf))
      invariant done ==> IsRbRoot(Plug(outer, Plug(inner, Leaf)))
      decreases !done, Depth(outer)
    {
      ghost var f, f' := Plug(inner, d), Plug(inner, Leaf);
      ParentIs(rbt, outer, f);
      var parent := node.parent;
      if parent == null {
        break;
      }
      done, outer := FixRound(rbt, node, parent, outer, f, f');
      if !done {
        PlugInside(inner, outer, d);
        PlugInside(inner, outer, Leaf);
        inner, outer := Compose(inner, OneStep(outer)), outer.up;
        node := node.parent;
      }
    }
    k := Compose(inner, outer);
    BeforeAfterCompose(inner, outer);
    PlugCompose(inner, outer, d);
    PlugCompose(inner, outer, Leaf);
  }

  // ---------------------------------------------------------------- unlinking

  ghost predicate OneChildAtMost<N>(u: Tree<N>) {
    u.Node? && (u.left.Leaf? || u.right.Leaf?)
  }

  /** The only child, if there is one. */
  ghost function Child<N>(u: Tree<N>): Tree<N>
    requires OneChildAtMost(u)
  {
    if u.right.Node? then u.right else u.left
  }

  lemma RepUnlinked<D>(k: Ctx<RbNode<D>>, u: Tree<RbNode<D>>, m: Fields<D>)
    requires Rep(Plug(k, u), null, m) && ZipDistinct(k, u) && OneChildAtMost(u)
    ensures u.item in m && (m[u.item].parent != null ==> m[u.item].parent in m)
    ensures Child(u).Node? ==> Child(u).item in m
    ensures Rep(Plug(k, Child(u)), null, WithSubtreeReplaced(m, u.item, Root(Child(u))))
  {
    var d, ch := u.item, Child(u);
    RepPlug(k, u, null, m);
    assert Rep(ch, d, m) && Distinct(ch);
    assert ch.Node? ==> ch.item in Items(ch);
    assert !k.Top? ==> k.item in m && k.item in CtxItems(k);
    var m' := WithSubtreeReplaced(m, d, Root(ch));
    CtxRepRefilled(k, d, Root(ch), null, m, m');
    RepRehung(ch, d, Holder(k, null), m, m');
    RepPlug(k, ch, null, m');
  }

  lemma UnlinkedShape<D>(k: Ctx<RbNode<D>>, u: Tree<RbNode<D>>)
    requires ZipDistinct(k, u) && OneChildAtMost(u)
    ensures Distinct(Plug(k, Child(u))) && Items(Plug(k, Child(u))) == Items(Plug(k, u)) - {u.item}
    ensures Root(Plug(k, Child(u))) == Outermost(k, Root(Child(u)))
    ensures u.item in Items(Plug(k, u))
  {
    PlugItems(k, u);
    PlugItems(k, Child(u));
    PlugRoot(k, Child(u));
  }

  method Unlink<D>(rbt: RbTree<D>, deletee: RbNode<D>, child: RbNode?<D>, ghost k: Ctx<RbNode<D>>,
      ghost u: Tree<RbNode<D>>)
    requires rbt.Spells(Plug(k, u)) && OneChildAtMost(u) && u.item == deletee && child == Root(Child(u))
    modifies rbt`root, Items(Plug(k, u))
    ensures rbt.Spells(Plug(k, Child(u)))
    ensures Items(Plug(k, Child(u))) == Items(Plug(k, u)) - {deletee}
  {
    ghost var s := Items(Plug(k, u));
    ghost var m := Snapshot(s);
    rbt.At(k, u);
    RepUnlinked(k, u, m);
    UnlinkedShape(k, u);
    ReplaceSubtree(rbt, deletee, child, s);
    RepKept(Plug(k, Child(u)), null, Snapshot(s), Snapshot(s - {deletee}));
  }

  // ---------------------------------------------------------------- the neighbour

  /** The rightmost node of the left subtree. */
  method FindSuccessor<D>(rbt: RbTree<D>, subtree: RbNode<D>, ghost k: Ctx<RbNode<D>>, ghost t: Tree<RbNode<D>>)
      returns (n: RbNode<D>, ghost j: Ctx<RbNode<D>>, ghost u: Tree<RbNode<D>>)
    requires rbt.Spells(Plug(k, t)) && t.Node? && t.left.Node? && subtree == t.item
    ensures rbt.Spells(Plug(k, t))
    ensures t.left == Plug(j, u) && After(j) == [] && u.Node? && u.right.Leaf? && n == u.item
    ensures InOrder(t.left) != [] && n == InOrder(t.left)[|InOrder(t.left)| - 1]
  {
    ghost var outer := InLeft(k, t.item, t.colour, t.right);
    rbt.At(k, t);
    rbt.At(outer, t.left);
    n := subtree.left;
    j, u := Top, t.left;
    while n.right != null
      invariant rbt.Spells(Plug(k, t))
      invariant t.left == Plug(j, u) && After(j) == [] && u.Node? && n == u.item
      invariant LinksOf(n).right == Root(u.right)
      decreases u
    {
      n := n.right;
      j, u := InRight(u.left, u.item, u.colour, j), u.right;
      PlugCompose(j, outer, u);
      rbt.Here(Plug(k, t), Compose(j, outer), u);
    }
    InOrderPlug(j, u);
    assert InOrder(u) == InOrder(u.left) + [n] && InOrder(t.left) == Before(j) + (InOrder(u.left) + [n]);
  }

  /** Where the deletee hangs once it has changed places with the node at the gap of `j`. */
  ghost function LoweredCtx<N>(k: Ctx<N>, t: Tree<N>, j: Ctx<N>, u: Tree<N>): Ctx<N>
    requires t.Node? && u.Node?
  {
    Compose(j, InLeft(k, u.item, t.colour, t.right))
  }

  ghost function Lowered<N>(t: Tree<N>, u: Tree<N>): Tree<N>
    requires t.Node? && u.Node?
  {
    Node(u.left, t.item, u.colour, u.right)
  }

  lemma LoweredIsRenamed<N>(k: Ctx<N>, t: Tree<N>, j: Ctx<N>, u: Tree<N>)
    requires ZipDistinct(k, t) && t.Node? && u.Node? && t.left == Plug(j, u)
    ensures Plug(LoweredCtx(k, t, j, u), Lowered(t, u)) == Renamed(Plug(k, t), t.item, u.item)
    ensures u.item in Items(t) && t.item != u.item
  {
    var x, y := t.item, u.item;
    PlugItems(j, u);
    assert Distinct(u);
    RenamedPlug(k, t, x, y);
    RenamedCtxFresh(k, x, y);
    RenamedPlug(j, u, x, y);
    RenamedCtxFresh(j, x, y);
    RenamedFresh(t.right, x, y);
    RenamedFresh(u.left, x, y);
    RenamedFresh(u.right, x, y);
    PlugCompose(j, InLeft(k, y, t.colour, t.right), Lowered(t, u));
  }

  lemma LoweredChain<N>(bk: seq<N>, bj: seq<N>, l: seq<N>, y: N, x: N, r: seq<N>, ak: seq<N>)
    ensures bk + ((bj + (l + [y] + []) + []) + [x] + r) + ak == (bk + bj + l + [y]) + [x] + (r + ak)
    ensures [] + ([y] + r + ak) == [y] + (r + ak)
  {
  }

  lemma LoweredOrder<N>(k: Ctx<N>, t: Tree<N>, j: Ctx<N>, u: Tree<N>)
    requires t.Node? && u.Node? && t.left == Plug(j, u) && u.right.Leaf? && After(j) == []
    ensures var b, a := Before(k) + Before(j) + InOrder(u.left), InOrder(t.right) + After(k);
      && InOrder(Plug(k, t)) == (b + [u.item]) + [t.item] + a
      && Before(LoweredCtx(k, t, j, u)) + InOrder(u.left) == b && After(LoweredCtx(k, t, j, u)) == [u.item] + a
  {
    InOrderPlug(k, t);
    InOrderPlug(j, u);
    BeforeAfterCompose(j, InLeft(k, u.item, t.colour, t.right));
    LoweredChain(Before(k), Before(j), InOrder(u.left), u.item, t.item, InOrder(t.right), After(k));
  }

  /** The sequence without the first `n`. */
  ghost function Removed<N>(s: seq<N>, n: N): seq<N> {
    if s == [] then [] else if s[0] == n then s[1..] else [s[0]] + Removed(s[1..], n)
  }

  lemma {:induction false} RemovedSplit<N>(a: seq<N>, n: N, b: seq<N>)
    requires n !in a
    ensures Removed(a + [n] + b, n) == a + b
  {
    if a == [] {
      assert a + [n] + b == [n] + b;
      assert a + b == b;
    } else {
      var s := a + [n] + b;
      assert s[0] == a[0] && s[1..] == a[1..] + [n] + b;
      RemovedSplit(a[1..], n, b);
      assert a + b == [a[0]] + (a[1..] + b);
    }
  }

  /** Every node hangs somewhere. */
  lemma {:induction false} Locate<N>(k: Ctx<N>, t: Tree<N>, n: N) returns (k': Ctx<N>, t': Tree<N>)
    requires n in Items(t)
    ensures Plug(k', t') == Plug(k, t) && t'.Node? && t'.item == n
    decreases t
  {
    if n == t.item {
      k', t' := k, t;
    } else if n in Items(t.left) {
      k', t' := Locate(InLeft(k, t.item, t.colour, t.right), t.left, n);
    } else {
      k', t' := Locate(InRight(t.left, t.item, t.colour, k), t.right, n);
    }
  }

  lemma GapChain<N>(bk: seq<N>, l: seq<N>, x: N, r: seq<N>, ak: seq<N>)
    ensures bk + (l + [x] + r) + ak == (bk + l) + [x] + (r + ak)
    ensures l == [] ==> (bk + l) + (r + ak) == bk + r + ak
    ensures r == [] ==> (bk + l) + (r + ak) == bk + l + ak
  {
  }

  lemma FirstIsAlone<N>(b: seq<N>, n: N, a: seq<N>)
    requires NoDuplicates(b + [n] + a)
    ensures n !in b
  {
    var s := b + [n] + a;
    forall i | 0 <= i < |b| ensures b[i] != n {
      assert s[i] == b[i] && s[|b|] == n;
    }
  }

  lemma RemovedAtGap<N>(k: Ctx<N>, u: Tree<N>)
    requires ZipDistinct(k, u) && OneChildAtMost(u)
    ensures Before(k) + InOrder(Child(u)) + After(k) == Removed(InOrder(Plug(k, u)), u.item)
  {
    InOrderPlug(k, u);
    PlugItems(k, u);
    DistinctInOrder(Plug(k, u));
    var b, a := Before(k) + InOrder(u.left), InOrder(u.right) + After(k);
    GapChain(Before(k), InOrder(u.left), u.item, InOrder(u.right), After(k));
    FirstIsAlone(b, u.item, a);
    RemovedSplit(b, u.item, a);
  }

  lemma RemovedWhenLowered<N>(k: Ctx<N>, t: Tree<N>, j: Ctx<N>, u: Tree<N>)
    requires ZipDistinct(k, t) && t.Node? && u.Node? && t.left == Plug(j, u) && u.right.Leaf? && After(j) == []
    ensures var k' := LoweredCtx(k, t, j, u);
      Before(k') + InOrder(u.left) + After(k') == Removed(InOrder(Plug(k, t)), t.item)
  {
    hide LoweredCtx, Removed, Plug, InOrder, Before, After;
    LoweredOrder(k, t, j, u);
    PlugItems(k, t);
    DistinctInOrder(Plug(k, t));
    var b, a := Before(k) + Before(j) + InOrder(u.left), InOrder(t.right) + After(k);
    FirstIsAlone(b + [u.item], t.item, a);
    RemovedSplit(b + [u.item], t.item, a);
    assert (b + [u.item]) + a == b + ([u.item] + a);
  }

  lemma NotSiblings<D>(rbt: RbTree<D>, k: Ctx<RbNode<D>>, t: Tree<RbNode<D>>, j: Ctx<RbNode<D>>, u: Tree<RbNode<D>>)
    requires rbt.Spells(Plug(k, t)) && t.Node? && u.Node? && t.left == Plug(j, u)
    ensures t.item.parent != u.item.parent
    ensures t.item in Items(Plug(k, t)) && u.item in Items(Plug(k, t))
  {
    var outer := InLeft(k, t.item, t.colour, t.right);
    PlugCompose(j, outer, u);
    PlugItems(j, u);
    rbt.At(k, t);
    rbt.At(Compose(j, outer), u);
    assert j.Top? ==> Holder(Compose(j, outer), null) == t.item;
    assert !j.Top? ==> Holder(Compose(j, outer), null) == j.item && j.item in CtxItems(j);
    assert !k.Top? ==> k.item in CtxItems(k);
  }

  /** If `deletee` has two children, exchange it with the rightmost node of its left subtree. */
  method DescendIfFull<D>(rbt: RbTree<D>, deletee: RbNode<D>, ghost k0: Ctx<RbNode<D>>, ghost u0: Tree<RbNode<D>>)
      returns (ghost k: Ctx<RbNode<D>>, ghost u: Tree<RbNode<D>>, ghost j: Ctx<RbNode<D>>, ghost v: Tree<RbNode<D>>)
    requires rbt.Spells(Plug(k0, u0)) && IsRbRoot(Plug(k0, u0)) && u0.Node? && u0.item == deletee
    modifies rbt`root, Items(Plug(k0, u0))
    ensures rbt.Spells(Plug(k, u)) && IsRbRoot(Plug(k, u)) && Items(Plug(k, u)) == Items(Plug(k0, u0))
    ensures OneChildAtMost(u) && u.item == deletee
    ensures Before(k) + InOrder(Child(u)) + After(k) == Removed(InOrder(Plug(k0, u0)), deletee)
    ensures OneChildAtMost(u0) ==> k == k0 && u == u0
    ensures !OneChildAtMost(u0) ==>
      && u0.left == Plug(j, v) && After(j) == [] && v.Node? && v.right.Leaf?
      && k == LoweredCtx(k0, u0, j, v) && u == Lowered(u0, v)
  {
    k, u, j, v := k0, u0, Top, Leaf;
    rbt.At(k, u);
    rbt.At(InLeft(k, u.item, u.colour, u.right), u.left);
    rbt.At(InRight(u.left, u.item, u.colour, k), u.right);
    if deletee.left != null && deletee.right != null {
      var successor;
      successor, j, v := FindSuccessor(rbt, deletee, k, u);
      LoweredIsRenamed(k, u, j, v);
      NotSiblings(rbt, k, u, j, v);
      SwapNodes(rbt, deletee, successor, Plug(k, u));
      RenamedRb(Plug(k, u), deletee, successor);
      RemovedWhenLowered(k, u, j, v);
      k, u := LoweredCtx(k, u, j, v), Lowered(u, v);
    } else {
      RemovedAtGap(k, u);
    }
  }

  // ---------------------------------------------------------------- deletion

  lemma OnlyChildIsRedLeaf<N>(k: Ctx<N>, u: Tree<N>)
    requires IsRbRoot(Plug(k, u)) && OneChildAtMost(u)
    ensures ColourOf(Child(u)) == Black ==> Child(u).Leaf? && u.left.Leaf? && u.right.Leaf?
    ensures u.colour == Red ==> ColourOf(Child(u)) == Black && IsRbRoot(Plug(k, Child(u)))
    ensures u.colour == Black && Child(u).Leaf? ==> CtxRb(k, 1, Black)
    ensures u.colour == Black && Child(u).Node? ==> IsRbRoot(Plug(k, Child(u).(colour := Black)))
  {
    PlugRb(k, u);
    if u.colour == Red {
      CtxRbTighter(k, 0);
      PlugRb(k, Child(u));
    } else if Child(u).Node? {
      PlugRb(k, Child(u).(colour := Black));
    }
  }

  lemma ChildIs<D>(rbt: RbTree<D>, k: Ctx<RbNode<D>>, u: Tree<RbNode<D>>)
    requires rbt.Spells(Plug(k, u)) && OneChildAtMost(u)
    ensures u.item in Items(Plug(k, u)) && u.item.colour == u.colour
    ensures (if u.item.right != null then u.item.right else u.item.left) == Root(Child(u))
    ensures ColourAt(Root(Child(u))) == ColourOf(Child(u))
    ensures Child(u).Node? ==> Child(u).item in Items(Plug(k, u))
  {
    rbt.At(k, u);
    rbt.At(InLeft(k, u.item, u.colour, u.right), u.left);
    rbt.At(InRight(u.left, u.item, u.colour, k), u.right);
  }

  /** Make the tree such that it is a red-black tree without `deletee`, which still hangs in it. */
  method RepairWithout<D>(rbt: RbTree<D>, deletee: RbNode<D>, child: RbNode?<D>, ghost k0: Ctx<RbNode<D>>,
      ghost u0: Tree<RbNode<D>>)
      returns (ghost k: Ctx<RbNode<D>>, ghost u: Tree<RbNode<D>>)
    requires rbt.Spells(Plug(k0, u0)) && IsRbRoot(Plug(k0, u0)) && OneChildAtMost(u0)
    requires u0.item == deletee && child == Root(Child(u0))
    modifies rbt`root, Items(Plug(k0, u0))
    ensures rbt.Spells(Plug(k, u)) && Items(Plug(k, u)) == Items(Plug(k0, u0)) && OneChildAtMost(u)
    ensures u.item == deletee && child == Root(Child(u))
    ensures IsRbRoot(Plug(k, Child(u)))
    ensures InOrder(Plug(k, Child(u))) == Before(k0) + InOrder(Child(u0)) + After(k0)
  {
    k, u := k0, u0;
    OnlyChildIsRedLeaf(k, u);
    InOrderPlug(k, Child(u));
    ChildIs(rbt, k, u);
    if deletee.colour == Black {
      if ColourAt(child) == Red {
        SetColour(rbt, child, Black,
          if u.right.Node? then InRight(u.left, deletee, Black, k) else InLeft(k, deletee, Black, u.right), Child(u));
        InOrderPlug(k, Child(u).(colour := Black));
        u := if u.right.Node? then Node(u.left, deletee, Black, u.right.(colour := Black))
             else Node(u.left.(colour := Black), deletee, Black, u.right);
      } else {
        k := DeleteFix(rbt, deletee, k);
        InOrderPlug(k, Leaf);
      }
    }
  }

  method Delete<D>(rbt: RbTree<D>, deletee: RbNode<D>)
    requires rbt.Valid() && deletee in Items(rbt.model)
    modifies rbt, Items(rbt.model)
    ensures rbt.Valid() && Items(rbt.model) == old(Items(rbt.model)) - {deletee}
    ensures rbt.Nodes() == Removed(old(rbt.Nodes()), deletee)
  {
    hide InOrder, Rep;
    ghost var k, u := Locate(Top, rbt.model, deletee);
    ghost var j, v;
    k, u, j, v := DescendIfFull(rbt, deletee, k, u);
    ChildIs(rbt, k, u);
    var child := if deletee.right != null then deletee.right else deletee.left;
    k, u := RepairWithout(rbt, deletee, child, k, u);
    Unlink(rbt, deletee, child, k, u);
    rbt.model := Plug(k, Child(u));
  }
}
