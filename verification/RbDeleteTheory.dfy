/** The repair after a black node has gone, as steps on the context around the short subtree. */
module RbDeleteTheory {
  import opened RbTheory

  /** `k` needs one more black level at its gap than the subtree `f` has; otherwise all is well. */
  ghost predicate Short<N>(k: Ctx<N>, f: Tree<N>) {
    IsRb(f) && ColourOf(f) == Black && CtxRb(k, BlackHeight(f) + 1, Black)
  }

  ghost predicate SameOrder<N>(k: Ctx<N>, k': Ctx<N>) {
    Before(k') == Before(k) && After(k') == After(k)
  }

  /** The sibling of a short subtree exists. */
  lemma SiblingIsNode<N>(k: Ctx<N>, f: Tree<N>)
    requires Short(k, f) && !k.Top?
    ensures Aside(k).Node? && IsRb(Aside(k)) && BlackHeight(Aside(k)) == BlackHeight(f) + 1
    ensures IsRb(Aside(k).left) && IsRb(Aside(k).right)
  {
    CtxRbStep(k, BlackHeight(f) + 1, Black);
  }

  // ---------------------------------------------------------------- a red sibling

  /** Turn the parent towards the short side, and exchange the colours of parent and sibling. */
  ghost function RedSiblingTurned<N>(k: Ctx<N>): Ctx<N>
    requires !k.Top? && Aside(k).Node?
  {
    if k.InLeft? then
      InLeft(InLeft(k.up, k.right.item, Black, k.right.right), k.item, Red, k.right.left)
    else
      InRight(k.left.right, k.item, Red, InRight(k.left.left, k.left.item, Black, k.up))
  }

  lemma RedSiblingTurnedStaysShort<N>(k: Ctx<N>, f: Tree<N>)
    requires Short(k, f) && !k.Top? && ColourOf(Aside(k)) == Red
    ensures k.colour == Black && Aside(k).Node?
    ensures Short(RedSiblingTurned(k), f)
    ensures RedSiblingTurned(k).colour == Red && ColourOf(Aside(RedSiblingTurned(k))) == Black
  {
    var h, k' := BlackHeight(f) + 1, RedSiblingTurned(k);
    CtxRbStep(k, h, Black);
    CtxRbStep(k', h, Black);
    CtxRbStep(k'.up, h, Red);
  }

  lemma RedSiblingTurnedOrder<N>(k: Ctx<N>)
    requires !k.Top? && Aside(k).Node?
    ensures SameOrder(k, RedSiblingTurned(k))
  {
    if k.InLeft? {
      Regroup([k.item], InOrder(k.right.left), [k.right.item], InOrder(k.right.right), After(k.up));
    } else {
      Regroup(Before(k.up), InOrder(k.left.left), [k.left.item], InOrder(k.left.right), [k.item]);
    }
  }

  // ---------------------------------------------------------------- a black sibling with black children

  ghost function SiblingReddened<N>(k: Ctx<N>): Ctx<N>
    requires !k.Top? && Aside(k).Node?
  {
    WithAside(k, Aside(k).(colour := Red))
  }

  ghost function ParentBlackened<N>(k: Ctx<N>): Ctx<N>
    requires !k.Top?
  {
    if k.InLeft? then InLeft(k.up, k.item, Black, k.right) else InRight(k.left, k.item, Black, k.up)
  }

  lemma ShortMovesUp<N>(k: Ctx<N>, f: Tree<N>)
    requires Short(k, f) && !k.Top? && Aside(k).Node? && Aside(k).colour == Black && k.colour == Black
    requires ColourOf(Aside(k).left) == Black && ColourOf(Aside(k).right) == Black
    ensures Short(k.up, Wrap(SiblingReddened(k), f))
  {
    CtxRbStep(k, BlackHeight(f) + 1, Black);
  }

  /** What may be red may be black. */
  lemma CtxRbTighter<N>(k: Ctx<N>, h: nat)
    requires CtxRb(k, h, Red)
    ensures CtxRb(k, h, Black)
  {
  }

  lemma RedParentPays<N>(k: Ctx<N>, f: Tree<N>)
    requires Short(k, f) && !k.Top? && Aside(k).Node? && Aside(k).colour == Black && k.colour == Red
    requires ColourOf(Aside(k).left) == Black && ColourOf(Aside(k).right) == Black
    ensures IsRbRoot(Plug(ParentBlackened(SiblingReddened(k)), f))
    ensures SameOrder(k, ParentBlackened(SiblingReddened(k)))
  {
    var k' := ParentBlackened(SiblingReddened(k));
    CtxRbStep(k, BlackHeight(f) + 1, Black);
    CtxRbStep(k', BlackHeight(f), Black);
    CtxRbTighter(k.up, BlackHeight(f) + 1);
    PlugRb(k', f);
  }

  // ---------------------------------------------------------------- a black sibling, the near nephew red

  /** The child of the sibling on the side of the gap, and the one away from it. */
  ghost function Near<N>(k: Ctx<N>): Tree<N>
    requires !k.Top? && Aside(k).Node?
  {
    if k.InLeft? then Aside(k).left else Aside(k).right
  }

  ghost function Far<N>(k: Ctx<N>): Tree<N>
    requires !k.Top? && Aside(k).Node?
  {
    if k.InLeft? then Aside(k).right else Aside(k).left
  }

  /** Turn the sibling away from the gap: the near nephew takes its place. */
  ghost function NearNephewTurned<N>(k: Ctx<N>): Ctx<N>
    requires !k.Top? && Aside(k).Node? && Near(k).Node?
  {
    var s, n := Aside(k), Near(k);
    if k.InLeft? then
      k.(right := Node(n.left, n.item, Black, Node(n.right, s.item, Red, s.right)))
    else
      k.(left := Node(Node(s.left, s.item, Red, n.left), n.item, Black, n.right))
  }

  lemma NephewsSwapRanks<N>(k: Ctx<N>)
    requires !k.Top? && Aside(k).Node? && Aside(k).colour == Black && IsRb(Aside(k))
    requires Near(k).Node? && Near(k).colour == Red && ColourOf(Far(k)) == Black
    ensures var s := Aside(NearNephewTurned(k)); IsRb(s) && s.colour == Black && BlackHeight(s) == BlackHeight(Aside(k))
    ensures ColourOf(Far(NearNephewTurned(k))) == Red
  {
    var n := Near(k);
    assert IsRb(n) && IsRb(Far(k)) && BlackHeight(n) == BlackHeight(Far(k));
    assert ColourOf(n.left) == Black && ColourOf(n.right) == Black;
  }

  lemma NearNephewTurnedStaysShort<N>(k: Ctx<N>, f: Tree<N>)
    requires Short(k, f) && !k.Top? && Aside(k).Node? && Aside(k).colour == Black
    requires Near(k).Node? && Near(k).colour == Red && ColourOf(Far(k)) == Black
    ensures Short(NearNephewTurned(k), f)
    ensures Aside(NearNephewTurned(k)).colour == Black && ColourOf(Far(NearNephewTurned(k))) == Red
  {
    SiblingIsNode(k, f);
    CtxRbStep(k, BlackHeight(f) + 1, Black);
    NephewsSwapRanks(k);
    CtxRbStep(NearNephewTurned(k), BlackHeight(f) + 1, Black);
  }

  lemma NearNephewTurnedOrder<N>(k: Ctx<N>)
    requires !k.Top? && Aside(k).Node? && Near(k).Node?
    ensures SameOrder(k, NearNephewTurned(k))
  {
    var s, s' := Aside(k), Aside(NearNephewTurned(k));
    if k.InLeft? {
      RotatedRightInOrder(s);
    } else {
      RotatedLeftInOrder(s);
    }
    assert InOrder(s') == InOrder(s);
  }

  // ---------------------------------------------------------------- a black sibling, the far nephew red

  /** Turn the parent towards the short side; the far nephew becomes black. */
  ghost function FarNephewTurned<N>(k: Ctx<N>): Ctx<N>
    requires !k.Top? && Aside(k).Node? && Far(k).Node?
  {
    var s, n := Aside(k), Far(k).(colour := Black);
    if k.InLeft? then
      InLeft(InLeft(k.up, s.item, k.colour, n), k.item, Black, s.left)
    else
      InRight(s.right, k.item, Black, InRight(n, s.item, k.colour, k.up))
  }

  lemma FarNephewTurnedRepairs<N>(k: Ctx<N>, f: Tree<N>)
    requires Short(k, f) && !k.Top? && Aside(k).Node? && Aside(k).colour == Black
    requires Far(k).Node? && Far(k).colour == Red
    ensures IsRbRoot(Plug(FarNephewTurned(k), f))
  {
    var h, k' := BlackHeight(f), FarNephewTurned(k);
    CtxRbStep(k, h + 1, Black);
    CtxRbStep(k', h, Black);
    CtxRbStep(k'.up, h + 1, Black);
    PlugRb(k', f);
  }

  lemma FarNephewTurnedOrder<N>(k: Ctx<N>)
    requires !k.Top? && Aside(k).Node? && Far(k).Node?
    ensures SameOrder(k, FarNephewTurned(k))
  {
    if k.InLeft? {
      Regroup([k.item], InOrder(k.right.left), [k.right.item], InOrder(k.right.right), After(k.up));
    } else {
      Regroup(Before(k.up), InOrder(k.left.left), [k.left.item], InOrder(k.left.right), [k.item]);
    }
  }
}
