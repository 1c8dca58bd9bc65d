/** Exchanging two nodes of a tree by rewriting links amounts to renaming one to the other. */
module RbSwap {
  import opened RbTheory
  import opened RbHeap

  // ---------------------------------------------------------------- renaming

  ghost function Other<N>(n: N, x: N, y: N): N {
    if n == x then y else if n == y then x else n
  }

  ghost function Renamed<N>(t: Tree<N>, x: N, y: N): Tree<N> {
    match t
    case Leaf => Leaf
    case Node(l, n, c, r) => Node(Renamed(l, x, y), Other(n, x, y), c, Renamed(r, x, y))
  }

  ghost function RenamedCtx<N>(k: Ctx<N>, x: N, y: N): Ctx<N>
    decreases k
  {
    match k
    case Top => Top
    case InLeft(up, n, c, r) => InLeft(RenamedCtx(up, x, y), Other(n, x, y), c, Renamed(r, x, y))
    case InRight(l, n, c, up) => InRight(Renamed(l, x, y), Other(n, x, y), c, RenamedCtx(up, x, y))
  }

  lemma {:induction false} RenamedPlug<N>(k: Ctx<N>, t: Tree<N>, x: N, y: N)
    ensures Renamed(Plug(k, t), x, y) == Plug(RenamedCtx(k, x, y), Renamed(t, x, y))
    decreases k
  {
    match k
    case Top =>
    case InLeft(up, n, c, r) => RenamedPlug(up, Node(t, n, c, r), x, y);
    case InRight(l, n, c, up) => RenamedPlug(up, Node(l, n, c, t), x, y);
  }

  lemma {:induction false} RenamedCompose<N>(j: Ctx<N>, k: Ctx<N>, x: N, y: N)
    ensures RenamedCtx(Compose(j, k), x, y) == Compose(RenamedCtx(j, x, y), RenamedCtx(k, x, y))
    decreases j
  {
    match j
    case Top =>
    case InLeft(up, _, _, _) => RenamedCompose(up, k, x, y);
    case InRight(_, _, _, up) => RenamedCompose(up, k, x, y);
  }

  lemma {:induction false} RenamedFresh<N>(t: Tree<N>, x: N, y: N)
    requires x !in Items(t) && y !in Items(t)
    ensures Renamed(t, x, y) == t
  {
    match t
    case Leaf =>
    case Node(l, _, _, r) => RenamedFresh(l, x, y); RenamedFresh(r, x, y);
  }

  lemma {:induction false} RenamedCtxFresh<N>(k: Ctx<N>, x: N, y: N)
    requires x !in CtxItems(k) && y !in CtxItems(k)
    ensures RenamedCtx(k, x, y) == k
    decreases k
  {
    match k
    case Top =>
    case InLeft(up, _, _, r) => RenamedCtxFresh(up, x, y); RenamedFresh(r, x, y);
    case InRight(l, _, _, up) => RenamedCtxFresh(up, x, y); RenamedFresh(l, x, y);
  }

  ghost function RenamedSet<N>(s: set<N>, x: N, y: N): set<N> {
    (s - {x, y}) + (if y in s then {x} else {}) + (if x in s then {y} else {})
  }

  lemma RenamedSetUnion<N>(a: set<N>, n: N, b: set<N>, x: N, y: N)
    ensures RenamedSet(a + {n} + b, x, y) == RenamedSet(a, x, y) + {Other(n, x, y)} + RenamedSet(b, x, y)
  {
  }

  lemma RenamedSetDisjoint<N>(a: set<N>, n: N, b: set<N>, x: N, y: N)
    ensures a !! b ==> RenamedSet(a, x, y) !! RenamedSet(b, x, y)
    ensures n !in a ==> Other(n, x, y) !in RenamedSet(a, x, y)
    ensures n !in b ==> Other(n, x, y) !in RenamedSet(b, x, y)
  {
  }

  lemma {:induction false} RenamedItems<N>(t: Tree<N>, x: N, y: N)
    ensures Items(Renamed(t, x, y)) == RenamedSet(Items(t), x, y)
    ensures Distinct(t) ==> Distinct(Renamed(t, x, y))
  {
    match t
    case Leaf =>
    case Node(l, n, _, r) =>
      RenamedItems(l, x, y);
      RenamedItems(r, x, y);
      RenamedSetUnion(Items(l), n, Items(r), x, y);
      RenamedSetDisjoint(Items(l), n, Items(r), x, y);
  }

  lemma {:induction false} RenamedRb<N>(t: Tree<N>, x: N, y: N)
    ensures IsRb(Renamed(t, x, y)) <==> IsRb(t)
    ensures ColourOf(Renamed(t, x, y)) == ColourOf(t) && BlackHeight(Renamed(t, x, y)) == BlackHeight(t)
  {
    match t
    case Leaf =>
    case Node(l, _, _, r) => RenamedRb(l, x, y); RenamedRb(r, x, y);
  }

  ghost function OtherLink<D>(n: RbNode?<D>, x: RbNode<D>, y: RbNode<D>): RbNode?<D> {
    if n == x then y else if n == y then x else n
  }

  ghost function RenamedLinks<D>(l: Links<D>, x: RbNode<D>, y: RbNode<D>): Links<D> {
    Links(OtherLink(l.left, x, y), OtherLink(l.right, x, y), OtherLink(l.parent, x, y), l.colour)
  }

  /** `m'` is `m` with `x` and `y` exchanged everywhere. */
  ghost predicate Exchanged<D>(x: RbNode<D>, y: RbNode<D>, m: Fields<D>, m': Fields<D>) {
    forall n :: n in m ==> Other(n, x, y) in m' && m'[Other(n, x, y)] == RenamedLinks(m[n], x, y)
  }

  lemma {:induction false} RepRenamed<D>(t: Tree<RbNode<D>>, p: RbNode?<D>, x: RbNode<D>, y: RbNode<D>,
      m: Fields<D>, m': Fields<D>)
    requires Rep(t, p, m) && Exchanged(x, y, m, m')
    ensures Rep(Renamed(t, x, y), OtherLink(p, x, y), m')
  {
    match t
    case Leaf =>
    case Node(l, n, _, r) => RepRenamed(l, n, x, y, m, m'); RepRenamed(r, n, x, y, m, m');
  }

  // ---------------------------------------------------------------- consistent links

  /** Child and parent links of `n` are mutual, and no two of its links lead to the same node. */
  ghost predicate LinkedAt<D>(n: RbNode<D>, m: Fields<D>)
    requires n in m
  {
    var l := m[n];
    && (l.left != null ==> l.left in m && m[l.left].parent == n && l.left != l.right && l.left != l.parent)
    && (l.right != null ==> l.right in m && m[l.right].parent == n && l.right != l.parent)
    && (l.parent != null ==> l.parent in m && (m[l.parent].left == n || m[l.parent].right == n))
  }

  ghost predicate Linked<D>(m: Fields<D>) {
    forall n :: n in m ==> LinkedAt(n, m)
  }

  /** The links of the node at the gap are consistent with those around it. */
  lemma {:induction false} OutermostIsOutside<D>(k: Ctx<RbNode<D>>, x: RbNode?<D>)
    requires !k.Top?
    ensures Outermost(k, x) != null && Outermost(k, x) in CtxItems(k)
    decreases k
  {
    if !k.up.Top? {
      OutermostIsOutside(k.up, k.item);
    }
  }

  lemma LinkedAtGap<D>(k: Ctx<RbNode<D>>, t: Tree<RbNode<D>>, m: Fields<D>)
    requires Rep(Plug(k, t), null, m) && ZipDistinct(k, t) && t.Node?
    ensures t.item in m && LinkedAt(t.item, m)
    ensures m[t.item].parent == null <==> t.item == Root(Plug(k, t))
  {
    RepPlug(k, t, null, m);
    PlugRoot(k, t);
    if !k.Top? {
      OutermostIsOutside(k, t.item);
    }
    assert Rep(t.left, t.item, m) && Rep(t.right, t.item, m);
    assert t.left.Node? ==> t.left.item in Items(t.left);
    assert t.right.Node? ==> t.right.item in Items(t.right);
    assert !k.Top? ==> k.item in m && k.item in CtxItems(k);
  }

  /** All links in a tree are consistent. */
  lemma {:induction false} TreeIsLinked<D>(k: Ctx<RbNode<D>>, t: Tree<RbNode<D>>, m: Fields<D>)
    requires Rep(Plug(k, t), null, m) && ZipDistinct(k, t)
    ensures forall n :: n in Items(t) ==> n in m && LinkedAt(n, m)
    ensures forall n :: n in Items(t) ==> n in m && (m[n].parent == null <==> n == Root(Plug(k, t)))
    decreases t
  {
    match t
    case Leaf =>
    case Node(l, n, c, r) =>
      LinkedAtGap(k, t, m);
      TreeIsLinked(InLeft(k, n, c, r), l, m);
      TreeIsLinked(InRight(l, n, c, k), r, m);
  }

  // ---------------------------------------------------------------- the writes

  /** `n` and the nodes it is linked to belong to `m`, and it is not linked to itself. */
  ghost predicate Inside<D>(n: RbNode<D>, m: Fields<D>) {
    && n in m && m[n].left != n && m[n].right != n && m[n].parent != n
    && (m[n].left != null ==> m[n].left in m)
    && (m[n].right != null ==> m[n].right in m)
    && (m[n].parent != null ==> m[n].parent in m)
  }

  lemma LinkedIsInside<D>(n: RbNode<D>, m: Fields<D>)
    requires Linked(m) && n in m
    ensures Inside(n, m)
  {
    assert LinkedAt(n, m);
  }

  ghost function WithParent<D>(m: Fields<D>, n: RbNode?<D>, p: RbNode?<D>): Fields<D>
    requires n != null ==> n in m
  {
    if n == null then m else m[n := m[n].(parent := p)]
  }

  /** Child `a` of `p` becomes `b`. */
  ghost function WithChild<D>(m: Fields<D>, p: RbNode?<D>, a: RbNode<D>, b: RbNode<D>): Fields<D>
    requires p != null ==> p in m
  {
    if p == null then m
    else if m[p].left == a then m[p := m[p].(left := b)]
    else m[p := m[p].(right := b)]
  }

  /** `y` takes over the place of `x`. */
  ghost function UpperHalf<D>(m: Fields<D>, x: RbNode<D>, y: RbNode<D>): Fields<D>
    requires Inside(x, m) && y in m
  {
    var l := m[x];
    var m1 := WithParent(m, l.left, y);
    var m2 := WithParent(m1, l.right, y);
    var m3 := WithChild(m2, l.parent, x, y);
    m3[y := Links(if l.left != y then l.left else x, if l.right != y then l.right else x, l.parent, l.colour)]
  }

  /** `x` takes over the place that `y` had in `m`; the upper half is written in `w` already. */
  ghost function LowerHalf<D>(m: Fields<D>, w: Fields<D>, x: RbNode<D>, y: RbNode<D>): Fields<D>
    requires Inside(y, m) && x in m && w.Keys == m.Keys
  {
    var l := m[y];
    var w1 := WithParent(w, l.left, x);
    var w2 := WithParent(w1, l.right, x);
    var w3 := if l.parent == x then w2 else WithChild(w2, l.parent, y, x);
    w3[x := Links(l.left, l.right, if l.parent == x then y else l.parent, l.colour)]
  }

  ghost function Redirected<D>(n: RbNode?<D>, a: RbNode<D>, b: RbNode<D>): RbNode?<D> {
    if n == a then b else n
  }

  ghost function RedirectedLinks<D>(l: Links<D>, a: RbNode<D>, b: RbNode<D>): Links<D> {
    Links(Redirected(l.left, a, b), Redirected(l.right, a, b), Redirected(l.parent, a, b), l.colour)
  }

  /** Two nodes that are not siblings, or siblings given from right to left. */
  ghost predicate Swappable<D>(m: Fields<D>, x: RbNode<D>, y: RbNode<D>)
    requires x in m && y in m
  {
    m[x].parent != m[y].parent || (m[x].parent != null && m[x].parent in m && m[m[x].parent].left == y)
  }

  lemma UpperHalfAt<D>(m: Fields<D>, x: RbNode<D>, y: RbNode<D>, n: RbNode<D>)
    requires Inside(x, m) && y in m && LinkedAt(x, m) && x != y && m[x].parent != y && n in m && LinkedAt(n, m)
    ensures UpperHalf(m, x, y).Keys == m.Keys
    ensures n != y ==> UpperHalf(m, x, y)[n] == RedirectedLinks(m[n], x, y)
    ensures UpperHalf(m, x, y)[y] == RenamedLinks(m[x], x, y)
  {
  }

  /** The nodes other than the two when only the children of `y` have been given their new parent. */
  lemma LowerChildrenAt<D>(m: Fields<D>, w: Fields<D>, x: RbNode<D>, y: RbNode<D>, n: RbNode<D>)
    requires Inside(x, m) && Inside(y, m) && LinkedAt(x, m) && LinkedAt(y, m) && x != y && m[x].parent != y
    requires Swappable(m, x, y) && w.Keys == m.Keys
    requires forall z :: z in m && z != y ==> w[z] == RedirectedLinks(m[z], x, y)
    requires n in m && LinkedAt(n, m) && n != x && n != y
    ensures var w2 := WithParent(WithParent(w, m[y].left, x), m[y].right, x);
      w2[n] == w[n].(parent := OtherLink(m[n].parent, x, y))
  {
  }

  lemma LowerHalfAtHolder<D>(m: Fields<D>, w: Fields<D>, x: RbNode<D>, y: RbNode<D>, n: RbNode<D>)
    requires Inside(x, m) && Inside(y, m) && LinkedAt(x, m) && LinkedAt(y, m) && x != y && m[x].parent != y
    requires Swappable(m, x, y) && w.Keys == m.Keys
    requires forall z :: z in m && z != y ==> w[z] == RedirectedLinks(m[z], x, y)
    requires n in m && LinkedAt(n, m) && n != x && n != y
    requires m[y].parent == n
    ensures LowerHalf(m, w, x, y)[n] == RenamedLinks(m[n], x, y)
  {
    LowerChildrenAt(m, w, x, y, n);
    assert m[n].left == y || m[n].right == y;
  }

  lemma LowerHalfElsewhere<D>(m: Fields<D>, w: Fields<D>, x: RbNode<D>, y: RbNode<D>, n: RbNode<D>)
    requires Inside(x, m) && Inside(y, m) && LinkedAt(x, m) && LinkedAt(y, m) && x != y && m[x].parent != y
    requires Swappable(m, x, y) && w.Keys == m.Keys
    requires forall z :: z in m && z != y ==> w[z] == RedirectedLinks(m[z], x, y)
    requires n in m && LinkedAt(n, m) && n != x && n != y
    requires m[y].parent != n
    ensures LowerHalf(m, w, x, y)[n] == RenamedLinks(m[n], x, y)
  {
    hide UpperHalf;
    LowerChildrenAt(m, w, x, y, n);
    assert m[n].left != y && m[n].right != y;
  }

  lemma LowerHalfAt<D>(m: Fields<D>, w: Fields<D>, x: RbNode<D>, y: RbNode<D>, n: RbNode<D>)
    requires Inside(x, m) && Inside(y, m) && LinkedAt(x, m) && LinkedAt(y, m) && x != y && m[x].parent != y
    requires Swappable(m, x, y) && w.Keys == m.Keys
    requires forall z :: z in m && z != y ==> w[z] == RedirectedLinks(m[z], x, y)
    requires n in m && LinkedAt(n, m) && n != x && n != y
    ensures LowerHalf(m, w, x, y)[n] == RenamedLinks(m[n], x, y)
  {
    hide LowerHalf, RenamedLinks, RedirectedLinks, LinkedAt;
    if m[y].parent == n {
      LowerHalfAtHolder(m, w, x, y, n);
    } else {
      LowerHalfElsewhere(m, w, x, y, n);
    }
  }

  lemma LowerHalfAtTwo<D>(m: Fields<D>, w: Fields<D>, x: RbNode<D>, y: RbNode<D>)
    requires Inside(x, m) && Inside(y, m) && LinkedAt(x, m) && LinkedAt(y, m) && x != y && m[x].parent != y
    requires Swappable(m, x, y) && w.Keys == m.Keys
    requires forall z :: z in m && z != y ==> w[z] == RedirectedLinks(m[z], x, y)
    ensures LowerHalf(m, w, x, y).Keys == m.Keys
    ensures LowerHalf(m, w, x, y)[y] == w[y]
    ensures LowerHalf(m, w, x, y)[x] == RenamedLinks(m[y], x, y)
  {
  }

  lemma SwapExchanges<D>(m: Fields<D>, x: RbNode<D>, y: RbNode<D>)
    requires Linked(m) && Inside(x, m) && Inside(y, m) && x != y
    requires m[x].parent != y && Swappable(m, x, y)
    ensures UpperHalf(m, x, y).Keys == m.Keys
    ensures Exchanged(x, y, m, LowerHalf(m, UpperHalf(m, x, y), x, y))
  {
    var w := UpperHalf(m, x, y);
    forall n | n in m ensures w.Keys == m.Keys && (n != y ==> w[n] == RedirectedLinks(m[n], x, y)) {
      UpperHalfAt(m, x, y, n);
    }
    UpperHalfAt(m, x, y, x);
    var m' := LowerHalf(m, w, x, y);
    LowerHalfAtTwo(m, w, x, y);
    forall n | n in m ensures Other(n, x, y) in m' && m'[Other(n, x, y)] == RenamedLinks(m[n], x, y) {
      if n != x && n != y {
        LowerHalfAt(m, w, x, y, n);
      }
    }
  }

  /** Siblings given from left to right keep their places and exchange what hangs below them. */
  lemma SiblingsAreMixedUp<D>(m: Fields<D>, x: RbNode<D>, y: RbNode<D>)
    requires Linked(m) && x in m && y in m && x != y
    requires m[x].parent != null && m[x].parent == m[y].parent && m[m[x].parent].left == x
    ensures Inside(x, m) && Inside(y, m) && UpperHalf(m, x, y).Keys == m.Keys
    ensures !Exchanged(x, y, m, LowerHalf(m, UpperHalf(m, x, y), x, y))
  {
    LinkedIsInside(x, m);
    LinkedIsInside(y, m);
    assert LinkedAt(x, m) && LinkedAt(y, m);
    var p: RbNode<D> := m[x].parent;
    assert LinkedAt(p, m);
    UpperHalfAt(m, x, y, x);
    UpperHalfAt(m, x, y, p);
    var m' := LowerHalf(m, UpperHalf(m, x, y), x, y);
    assert m'[p].left == x && RenamedLinks(m[p], x, y).left == y;
    assert Other(p, x, y) == p;
  }

  /** The rewriting exchanges the two nodes exactly when they are not siblings given from left to right. */
  lemma SwapIsExact<D>(m: Fields<D>, x: RbNode<D>, y: RbNode<D>)
    requires Linked(m) && x in m && y in m && x != y && m[x].parent != y
    requires m[x].parent != null || m[y].parent != null
    ensures Inside(x, m) && Inside(y, m) && UpperHalf(m, x, y).Keys == m.Keys
    ensures Exchanged(x, y, m, LowerHalf(m, UpperHalf(m, x, y), x, y)) <==> Swappable(m, x, y)
  {
    LinkedIsInside(x, m);
    LinkedIsInside(y, m);
    assert LinkedAt(x, m) && LinkedAt(y, m);
    if Swappable(m, x, y) {
      SwapExchanges(m, x, y);
    } else {
      SiblingsAreMixedUp(m, x, y);
    }
  }

  lemma {:induction false} RenamedSymmetric<N>(t: Tree<N>, x: N, y: N)
    ensures Renamed(t, x, y) == Renamed(t, y, x)
  {
    match t
    case Leaf =>
    case Node(l, _, _, r) => RenamedSymmetric(l, x, y); RenamedSymmetric(r, x, y);
  }

  method TrySetParent<D>(n: RbNode?<D>, p: RbNode?<D>, ghost s: set<RbNode<D>>)
    requires n != null ==> n in s
    modifies if n == null then {} else {n}
    ensures Snapshot(s) == WithParent(old(Snapshot(s)), n, p)
  {
    if n != null {
      PutParent(n, p, s);
    }
  }

  method SetChild<D>(p: RbNode<D>, a: RbNode<D>, b: RbNode<D>, ghost s: set<RbNode<D>>)
    requires p in s
    modifies p
    ensures Snapshot(s) == WithChild(old(Snapshot(s)), p, a, b)
  {
    if p.left == a {
      PutLeft(p, b, s);
    } else {
      PutRight(p, b, s);
    }
  }

  method PutLinks<D>(n: RbNode<D>, left: RbNode?<D>, right: RbNode?<D>, parent: RbNode?<D>, colour: Colour,
      ghost s: set<RbNode<D>>)
    requires n in s
    modifies n
    ensures Snapshot(s) == old(Snapshot(s))[n := Links(left, right, parent, colour)]
  {
    n.left := left;
    n.right := right;
    n.parent := parent;
    n.colour := colour;
  }

  method TakeUpperPlace<D>(rbt: RbTree<D>, x: RbNode<D>, y: RbNode<D>, ghost s: set<RbNode<D>>)
    requires Inside(x, Snapshot(s)) && y in s && x != y && x.parent != y
    modifies rbt`root, s
    ensures Snapshot(s) == UpperHalf(old(Snapshot(s)), x, y)
    ensures rbt.root == if old(x.parent) == null then y else old(rbt.root)
  {
    ghost var m := Snapshot(s);
    TrySetParent(x.left, y, s);
    ghost var m1 := Snapshot(s);
    assert LinksOf(x) == m1[x] == m[x];
    TrySetParent(x.right, y, s);
    ghost var m2 := Snapshot(s);
    assert LinksOf(x) == m2[x] == m[x];
    var xp := x.parent;
    if xp != null {
      SetChild(xp, x, y, s);
    } else {
      rbt.root := y;
    }
    ghost var m3 := Snapshot(s);
    assert m3 == WithChild(m2, m[x].parent, x, y) && LinksOf(x) == m3[x] == m[x];
    PutLinks(y, if x.left != y then x.left else x, if x.right != y then x.right else x, xp, x.colour, s);
  }

  /** The links `l` are those that `y` had at first. */
  method TakeLowerPlace<D>(rbt: RbTree<D>, x: RbNode<D>, y: RbNode<D>, l: Links<D>, ghost m: Fields<D>,
      ghost s: set<RbNode<D>>)
    requires Inside(y, m) && x in m && m.Keys == s && m[y] == l && x != y
    modifies rbt`root, s
    ensures Snapshot(s) == LowerHalf(m, old(Snapshot(s)), x, y)
    ensures rbt.root == if l.parent == null then x else old(rbt.root)
  {
    ghost var w := Snapshot(s);
    TrySetParent(l.left, x, s);
    TrySetParent(l.right, x, s);
    ghost var w2 := Snapshot(s);
    assert w2 == WithParent(WithParent(w, l.left, x), l.right, x);
    var xp: RbNode?<D> := y;
    if l.parent != null {
      if l.parent != x {
        SetChild(l.parent, y, x, s);
        xp := l.parent;
      }
    } else {
      rbt.root := x;
      xp := null;
    }
    ghost var w3 := Snapshot(s);
    assert w3 == if l.parent == x then w2 else WithChild(w2, l.parent, y, x);
    PutLinks(x, l.left, l.right, xp, l.colour, s);
  }

  lemma SwapInside<D>(t: Tree<RbNode<D>>, x: RbNode<D>, y: RbNode<D>, m: Fields<D>)
    requires Rep(t, null, m) && Distinct(t) && m.Keys == Items(t) && x in m && y in m && x != y
    requires m[x].parent != y && Swappable(m, x, y)
    ensures Inside(x, m) && Inside(y, m)
    ensures m[x].parent == null <==> x == Root(t)
    ensures m[y].parent == null <==> y == Root(t)
    ensures UpperHalf(m, x, y).Keys == m.Keys
    ensures Exchanged(x, y, m, LowerHalf(m, UpperHalf(m, x, y), x, y))
  {
    TreeIsLinked(Top, t, m);
    LinkedIsInside(x, m);
    LinkedIsInside(y, m);
    SwapExchanges(m, x, y);
  }

  lemma RenamedShape<D>(t: Tree<RbNode<D>>, x: RbNode<D>, y: RbNode<D>)
    requires x in Items(t) && y in Items(t) && Distinct(t)
    ensures Distinct(Renamed(t, x, y)) && Items(Renamed(t, x, y)) == Items(t)
    ensures Root(Renamed(t, x, y)) == OtherLink(Root(t), x, y)
  {
    RenamedItems(t, x, y);
  }

  /** A parent goes first; then the two can be exchanged. */
  lemma SwapsInOrder<D>(rbt: RbTree<D>, t: Tree<RbNode<D>>, x: RbNode<D>, y: RbNode<D>)
    requires rbt.Spells(t) && x in Items(t) && y in Items(t) && x != y
    requires x.parent != y.parent || (x.parent != null && x.parent.left == y)
    ensures var m := Snapshot(Items(t));
      if x.parent == y then m[y].parent != x && Swappable(m, y, x) else m[x].parent != y && Swappable(m, x, y)
  {
    var m := Snapshot(Items(t));
    TreeIsLinked(Top, t, m);
    assert LinkedAt(x, m) && LinkedAt(y, m);
  }

  /** Exchange two nodes by their links alone, unless they are siblings given from left to right. */
  method SwapNodes<D>(rbt: RbTree<D>, first: RbNode<D>, second: RbNode<D>, ghost t: Tree<RbNode<D>>)
    requires rbt.Spells(t) && first in Items(t) && second in Items(t) && first != second
    requires first.parent != second.parent || (first.parent != null && first.parent.left == second)
    modifies rbt`root, Items(t)
    ensures rbt.Spells(Renamed(t, first, second)) && Items(Renamed(t, first, second)) == Items(t)
  {
    hide Renamed, Rep, LowerHalf, UpperHalf, Items;
    var x, y := first, second;
    ghost var s := Items(t);
    ghost var m := Snapshot(s);
    SwapsInOrder(rbt, t, first, second);
    if x.parent == y {
      x, y := y, x;
      RenamedSymmetric(t, first, second);
    }
    SwapInside(t, x, y, m);
    RepRenamed(t, null, x, y, m, LowerHalf(m, UpperHalf(m, x, y), x, y));
    RenamedShape(t, x, y);
    var copy := Links(y.left, y.right, y.parent, y.colour);
    TakeUpperPlace(rbt, x, y, s);
    TakeLowerPlace(rbt, x, y, copy, m, s);
  }
}
