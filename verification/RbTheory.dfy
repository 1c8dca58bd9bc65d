/** Binary search trees with red and black nodes, as values.

    A tree is taken apart into a subtree and the context around it, so that an algorithm which
    climbs from a node to the root can be followed one step at a time. */
module RbTheory {
  import opened Arith

  datatype Colour = Red | Black

  datatype Tree<N> =
    | Leaf
    | Node(left: Tree<N>, item: N, colour: Colour, right: Tree<N>)

  /** A tree with one subtree missing. The gap is innermost, the root of the tree is outermost. */
  datatype Ctx<N> =
    | Top
    | InLeft(up: Ctx<N>, item: N, colour: Colour, right: Tree<N>)
    | InRight(left: Tree<N>, item: N, colour: Colour, up: Ctx<N>)

  ghost function Plug<N>(k: Ctx<N>, t: Tree<N>): Tree<N>
    decreases k
  {
    match k
    case Top => t
    case InLeft(up, n, c, r) => Plug(up, Node(t, n, c, r))
    case InRight(l, n, c, up) => Plug(up, Node(l, n, c, t))
  }

  /** One step up: the subtree at the node that the gap of `k` hangs from. */
  ghost function Wrap<N>(k: Ctx<N>, t: Tree<N>): (w: Tree<N>)
    requires !k.Top?
    ensures w.Node? && Plug(k.up, w) == Plug(k, t)
  {
    if k.InLeft? then Node(t, k.item, k.colour, k.right) else Node(k.left, k.item, k.colour, t)
  }

  /** The subtree next to the gap. */
  ghost function Aside<N>(k: Ctx<N>): Tree<N>
    requires !k.Top?
  {
    if k.InLeft? then k.right else k.left
  }

  /** The same context with `s` next to the gap. */
  ghost function WithAside<N>(k: Ctx<N>, s: Tree<N>): Ctx<N>
    requires !k.Top?
  {
    if k.InLeft? then k.(right := s) else k.(left := s)
  }

  /** Where the subtree next to the gap hangs, once `t` fills the gap. */
  ghost function Across<N>(k: Ctx<N>, t: Tree<N>): Ctx<N>
    requires !k.Top?
  {
    if k.InLeft? then InRight(t, k.item, k.colour, k.up) else InLeft(k.up, k.item, k.colour, t)
  }

  /** The context that has `outer` around `inner`. */
  ghost function Compose<N>(inner: Ctx<N>, outer: Ctx<N>): Ctx<N>
    decreases inner
  {
    match inner
    case Top => outer
    case InLeft(up, n, c, r) => InLeft(Compose(up, outer), n, c, r)
    case InRight(l, n, c, up) => InRight(l, n, c, Compose(up, outer))
  }

  lemma {:induction false} PlugCompose<N>(inner: Ctx<N>, outer: Ctx<N>, t: Tree<N>)
    ensures Plug(Compose(inner, outer), t) == Plug(outer, Plug(inner, t))
    decreases inner
  {
    match inner
    case Top =>
    case InLeft(up, n, c, r) => PlugCompose(up, outer, Node(t, n, c, r));
    case InRight(l, n, c, up) => PlugCompose(up, outer, Node(l, n, c, t));
  }

  // ---------------------------------------------------------------- order

  ghost function InOrder<N>(t: Tree<N>): seq<N> {
    match t
    case Leaf => []
    case Node(l, n, _, r) => InOrder(l) + [n] + InOrder(r)
  }

  /** The items that stand before the gap. */
  ghost function Before<N>(k: Ctx<N>): seq<N>
    decreases k
  {
    match k
    case Top => []
    case InLeft(up, _, _, _) => Before(up)
    case InRight(l, n, _, up) => Before(up) + InOrder(l) + [n]
  }

  /** The items that stand after the gap. */
  ghost function After<N>(k: Ctx<N>): seq<N>
    decreases k
  {
    match k
    case Top => []
    case InLeft(up, n, _, r) => [n] + InOrder(r) + After(up)
    case InRight(_, _, _, up) => After(up)
  }

  lemma Regroup<N>(a: seq<N>, b: seq<N>, c: seq<N>, d: seq<N>, e: seq<N>)
    ensures a + (b + c + d) + e == a + b + (c + d + e)
    ensures a + (b + c + d) + e == (a + b + c) + d + e
  {
  }

  lemma {:induction false} InOrderPlug<N>(k: Ctx<N>, t: Tree<N>)
    ensures InOrder(Plug(k, t)) == Before(k) + InOrder(t) + After(k)
    decreases k
  {
    match k
    case Top =>
    case InLeft(up, n, c, r) =>
      InOrderPlug(up, Node(t, n, c, r));
      Regroup(Before(up), InOrder(t), [n], InOrder(r), After(up));
    case InRight(l, n, c, up) =>
      InOrderPlug(up, Node(l, n, c, t));
      Regroup(Before(up), InOrder(l), [n], InOrder(t), After(up));
  }

  lemma {:induction false} BeforeAfterCompose<N>(inner: Ctx<N>, outer: Ctx<N>)
    ensures Before(Compose(inner, outer)) == Before(outer) + Before(inner)
    ensures After(Compose(inner, outer)) == After(inner) + After(outer)
    decreases inner
  {
    match inner
    case Top =>
    case InLeft(up, n, c, r) =>
      BeforeAfterCompose(up, outer);
      assert [n] + InOrder(r) + (After(up) + After(outer)) == ([n] + InOrder(r) + After(up)) + After(outer);
    case InRight(l, n, c, up) =>
      BeforeAfterCompose(up, outer);
      assert (Before(outer) + Before(up)) + InOrder(l) + [n] == Before(outer) + (Before(up) + InOrder(l) + [n]);
  }

  // ---------------------------------------------------------------- items and disjointness

  ghost function Items<N>(t: Tree<N>): set<N> {
    match t
    case Leaf => {}
    case Node(l, n, _, r) => Items(l) + {n} + Items(r)
  }

  ghost function CtxItems<N>(k: Ctx<N>): set<N>
    decreases k
  {
    match k
    case Top => {}
    case InLeft(up, n, _, r) => CtxItems(up) + {n} + Items(r)
    case InRight(l, n, _, up) => Items(l) + {n} + CtxItems(up)
  }

  /** No item occurs twice. */
  ghost predicate Distinct<N>(t: Tree<N>) {
    match t
    case Leaf => true
    case Node(l, n, _, r) =>
      n !in Items(l) && n !in Items(r) && Items(l) !! Items(r) && Distinct(l) && Distinct(r)
  }

  ghost predicate CtxDistinct<N>(k: Ctx<N>)
    decreases k
  {
    match k
    case Top => true
    case InLeft(up, n, _, r) =>
      n !in CtxItems(up) && n !in Items(r) && CtxItems(up) !! Items(r) && CtxDistinct(up) && Distinct(r)
    case InRight(l, n, _, up) =>
      n !in CtxItems(up) && n !in Items(l) && CtxItems(up) !! Items(l) && CtxDistinct(up) && Distinct(l)
  }

  ghost predicate ZipDistinct<N>(k: Ctx<N>, t: Tree<N>) {
    CtxDistinct(k) && Distinct(t) && CtxItems(k) !! Items(t)
  }

  lemma {:induction false} PlugItems<N>(k: Ctx<N>, t: Tree<N>)
    ensures Items(Plug(k, t)) == CtxItems(k) + Items(t)
    ensures Distinct(Plug(k, t)) <==> ZipDistinct(k, t)
    decreases k
  {
    match k
    case Top =>
    case InLeft(up, n, c, r) => PlugItems(up, Node(t, n, c, r));
    case InRight(l, n, c, up) => PlugItems(up, Node(l, n, c, t));
  }

  lemma {:induction false} ComposeItems<N>(inner: Ctx<N>, outer: Ctx<N>)
    ensures CtxItems(Compose(inner, outer)) == CtxItems(inner) + CtxItems(outer)
    decreases inner
  {
    match inner
    case Top =>
    case InLeft(up, n, c, r) => ComposeItems(up, outer);
    case InRight(l, n, c, up) => ComposeItems(up, outer);
  }

  lemma {:induction false} InOrderItems<N>(t: Tree<N>)
    ensures forall x :: x in InOrder(t) ==> x in Items(t)
    ensures forall x :: x in Items(t) ==> x in InOrder(t)
  {
    match t
    case Leaf =>
    case Node(l, n, _, r) => InOrderItems(l); InOrderItems(r);
  }

  ghost predicate NoDuplicates<N>(s: seq<N>) {
    forall i, j :: 0 <= i < j < |s| ==> s[i] != s[j]
  }

  lemma NoDuplicatesAround<N>(a: seq<N>, n: N, b: seq<N>)
    requires NoDuplicates(a) && NoDuplicates(b) && n !in a && n !in b
    requires forall x :: x in a ==> x !in b
    ensures NoDuplicates(a + [n] + b)
  {
    var s := a + [n] + b;
    forall i, j | 0 <= i < j < |s| ensures s[i] != s[j] {
      if i < |a| {
        assert s[i] in a;
      }
      if j > |a| {
        assert s[j] == b[j - |a| - 1];
        assert s[j] in b;
        assert i > |a| ==> s[i] == b[i - |a| - 1];
      }
    }
  }

  lemma {:induction false} DistinctInOrder<N>(t: Tree<N>)
    requires Distinct(t)
    ensures NoDuplicates(InOrder(t))
  {
    match t
    case Leaf =>
    case Node(l, n, _, r) =>
      DistinctInOrder(l);
      DistinctInOrder(r);
      InOrderItems(l);
      InOrderItems(r);
      assert n !in InOrder(l) && n !in InOrder(r);
      assert forall x :: x in InOrder(l) ==> x in Items(l) && x !in Items(r) && x !in InOrder(r);
      NoDuplicatesAround(InOrder(l), n, InOrder(r));
  }

  // ---------------------------------------------------------------- rotations

  ghost function RotatedLeft<N>(t: Tree<N>): Tree<N>
    requires t.Node? && t.right.Node?
  {
    Node(Node(t.left, t.item, t.colour, t.right.left), t.right.item, t.right.colour, t.right.right)
  }

  ghost function RotatedRight<N>(t: Tree<N>): Tree<N>
    requires t.Node? && t.left.Node?
  {
    Node(t.left.left, t.left.item, t.left.colour, Node(t.left.right, t.item, t.colour, t.right))
  }

  lemma TurnedAround<N>(a: seq<N>, x: N, b: seq<N>, y: N, c: seq<N>)
    ensures (a + [x] + b) + [y] + c == a + [x] + (b + [y] + c)
  {
  }

  lemma RotatedLeftInOrder<N>(t: Tree<N>)
    requires t.Node? && t.right.Node?
    ensures InOrder(RotatedLeft(t)) == InOrder(t)
  {
    TurnedAround(InOrder(t.left), t.item, InOrder(t.right.left), t.right.item, InOrder(t.right.right));
    assert InOrder(RotatedLeft(t).left) == InOrder(t.left) + [t.item] + InOrder(t.right.left);
  }

  lemma RotatedRightInOrder<N>(t: Tree<N>)
    requires t.Node? && t.left.Node?
    ensures InOrder(RotatedRight(t)) == InOrder(t)
  {
    TurnedAround(InOrder(t.left.left), t.left.item, InOrder(t.left.right), t.item, InOrder(t.right));
    assert InOrder(RotatedRight(t).right) == InOrder(t.left.right) + [t.item] + InOrder(t.right);
  }

  lemma RotatedLeftDistinct<N>(t: Tree<N>)
    requires t.Node? && t.right.Node? && Distinct(t)
    ensures Distinct(RotatedLeft(t)) && Items(RotatedLeft(t)) == Items(t)
  {
    assert Distinct(t.right);
    assert Items(t) == Items(t.left) + {t.item} + (Items(t.right.left) + {t.right.item} + Items(t.right.right));
  }

  lemma RotatedRightDistinct<N>(t: Tree<N>)
    requires t.Node? && t.left.Node? && Distinct(t)
    ensures Distinct(RotatedRight(t)) && Items(RotatedRight(t)) == Items(t)
  {
    assert Distinct(t.left);
    assert Items(t) == (Items(t.left.left) + {t.left.item} + Items(t.left.right)) + {t.item} + Items(t.right);
  }

  // ---------------------------------------------------------------- the red-black rules

  ghost function ColourOf<N>(t: Tree<N>): Colour {
    if t.Leaf? then Black else t.colour
  }

  ghost function Weight(c: Colour): nat {
    if c == Black then 1 else 0
  }

  ghost function BlackHeight<N>(t: Tree<N>): nat {
    match t
    case Leaf => 0
    case Node(l, _, c, _) => BlackHeight(l) + Weight(c)
  }

  /** Equal black heights and no red child of a red node, everywhere in `t`. */
  ghost predicate IsRb<N>(t: Tree<N>) {
    match t
    case Leaf => true
    case Node(l, _, c, r) =>
      && IsRb(l) && IsRb(r) && BlackHeight(l) == BlackHeight(r)
      && (c == Red ==> ColourOf(l) == Black && ColourOf(r) == Black)
  }

  /** A whole red-black tree: the root is black too. */
  ghost predicate IsRbRoot<N>(t: Tree<N>) {
    IsRb(t) && ColourOf(t) == Black
  }

  /** The gap of `k` can be filled by a red-black subtree of black height `h` whose root has colour `hc`. */
  ghost predicate CtxRb<N>(k: Ctx<N>, h: nat, hc: Colour)
    decreases k
  {
    match k
    case Top => hc == Black
    case InLeft(up, _, c, r) =>
      && IsRb(r) && BlackHeight(r) == h
      && (c == Red ==> hc == Black && ColourOf(r) == Black)
      && CtxRb(up, h + Weight(c), c)
    case InRight(l, _, c, up) =>
      && IsRb(l) && BlackHeight(l) == h
      && (c == Red ==> hc == Black && ColourOf(l) == Black)
      && CtxRb(up, h + Weight(c), c)
  }

  /** One step of `CtxRb`. */
  lemma CtxRbStep<N>(k: Ctx<N>, h: nat, hc: Colour)
    requires !k.Top?
    ensures CtxRb(k, h, hc) <==>
      && IsRb(Aside(k)) && BlackHeight(Aside(k)) == h
      && (k.colour == Red ==> hc == Black && ColourOf(Aside(k)) == Black)
      && CtxRb(k.up, h + Weight(k.colour), k.colour)
  {
  }

  lemma {:induction false} PlugRb<N>(k: Ctx<N>, t: Tree<N>)
    ensures IsRbRoot(Plug(k, t)) <==> IsRb(t) && CtxRb(k, BlackHeight(t), ColourOf(t))
    decreases k
  {
    match k
    case Top =>
    case InLeft(up, n, c, r) => PlugRb(up, Node(t, n, c, r));
    case InRight(l, n, c, up) => PlugRb(up, Node(l, n, c, t));
  }

  // ---------------------------------------------------------------- height

  ghost function Height<N>(t: Tree<N>): nat {
    match t
    case Leaf => 0
    case Node(l, _, _, r) => 1 + Max(Height(l), Height(r))
  }

  ghost function Depth<N>(k: Ctx<N>): nat
    decreases k
  {
    match k
    case Top => 0
    case InLeft(up, _, _, _) => 1 + Depth(up)
    case InRight(_, _, _, up) => 1 + Depth(up)
  }

  lemma {:induction false} DepthHeight<N>(k: Ctx<N>, t: Tree<N>)
    ensures Depth(k) + Height(t) <= Height(Plug(k, t))
    decreases k
  {
    match k
    case Top =>
    case InLeft(up, n, c, r) => DepthHeight(up, Node(t, n, c, r));
    case InRight(l, n, c, up) => DepthHeight(up, Node(l, n, c, t));
  }

  lemma {:induction false} HeightByBlackHeight<N>(t: Tree<N>)
    requires IsRb(t)
    ensures Height(t) <= 2 * BlackHeight(t) + 1 - Weight(ColourOf(t))
  {
    match t
    case Leaf =>
    case Node(l, _, _, r) => HeightByBlackHeight(l); HeightByBlackHeight(r);
  }

  lemma {:induction false} SizeByBlackHeight<N>(t: Tree<N>)
    requires IsRb(t)
    ensures Pow2(BlackHeight(t)) <= |InOrder(t)| + 1
  {
    match t
    case Leaf =>
    case Node(l, _, _, r) => SizeByBlackHeight(l); SizeByBlackHeight(r);
  }

  lemma SquareMonotone(a: nat, b: nat)
    requires a <= b
    ensures a * a <= b * b
  {
    assert a * a <= a * b <= b * b;
  }

  /** The height of a red-black tree is at most twice the binary logarithm of its size plus one. */
  lemma HeightIsLogarithmic<N>(t: Tree<N>)
    requires IsRbRoot(t)
    ensures Pow2(Height(t)) <= (|InOrder(t)| + 1) * (|InOrder(t)| + 1)
  {
    HeightByBlackHeight(t);
    SizeByBlackHeight(t);
    Pow2Monotone(Height(t), 2 * BlackHeight(t));
    Pow2Double(BlackHeight(t));
    SquareMonotone(Pow2(BlackHeight(t)), |InOrder(t)| + 1);
  }
}
