/** The two rotations: what they write, and that they turn the tree. */
module RbRotate {
  import opened RbTheory
  import opened RbHeap

  ghost predicate CanRotateLeft<D>(m: Fields<D>, x: RbNode<D>) {
    && x in m && (m[x].parent != null ==> m[x].parent in m) && m[x].right != null && m[x].right in m
    && (m[m[x].right].left != null ==> m[m[x].right].left in m)
    && m[x].parent != m[x].right && x != m[x].right
  }

  /** What a left rotation at `x` makes of the fields in `m`. */
  ghost function WithRotationLeft<D>(m: Fields<D>, x: RbNode<D>): Fields<D>
    requires CanRotateLeft(m, x)
  {
    var y := m[x].right;
    var m1 := WithSubtreeReplaced(m, x, y);
    var b := m1[y].left;
    var m2 := m1[x := m1[x].(right := b)];
    var m3 := if b == null then m2 else m2[b := m2[b].(parent := x)];
    var m4 := m3[y := m3[y].(left := x)];
    m4[x := m4[x].(parent := y)]
  }

  /** From `m` to `m'`, the fields have become those of the tree after a left rotation of `t`. */
  ghost predicate LeftTurn<D>(k: Ctx<RbNode<D>>, t: Tree<RbNode<D>>, m: Fields<D>, m': Fields<D>)
    requires t.Node? && t.right.Node?
  {
    var Node(a, x, c, Node(b, y, d, e)) := t;
    && (forall n :: n in m && n != x && n != y && n != Root(b) && n != Holder(k, null) ==> n in m' && m'[n] == m[n])
    && x in m' && m'[x] == Links(Root(a), Root(b), y, c)
    && y in m' && m'[y] == Links(x, Root(e), Holder(k, null), d)
    && (b.Node? ==> b.item in m && b.item in m' && m'[b.item] == m[b.item].(parent := x))
    && HolderLinks(k, y, m, m')
  }

  /** The fields that a turn to the left reads, and that the nodes it writes are different ones. */
  ghost predicate LeftPivot<D>(k: Ctx<RbNode<D>>, t: Tree<RbNode<D>>, m: Fields<D>)
    requires t.Node? && t.right.Node?
  {
    var Node(a, x, c, Node(b, y, d, e)) := t;
    var h := Holder(k, null);
    && x in m && y in m && x != y && m[x] == Links(Root(a), y, h, c) && m[y] == Links(Root(b), Root(e), x, d)
    && (b.Node? ==> b.item in m && b.item != x && b.item != y && b.item != h)
    && (h != null ==> h in m && h != x && h != y && (m[h].left == x) == k.InLeft? && (m[h].right == x) == k.InRight?)
  }

  lemma LeftPivotThere<D>(k: Ctx<RbNode<D>>, t: Tree<RbNode<D>>, m: Fields<D>)
    requires t.Node? && t.right.Node? && ZipDistinct(k, t) && Rep(Plug(k, t), null, m)
    ensures LeftPivot(k, t, m)
  {
    var Node(a, x, c, Node(b, y, d, e)) := t;
    RepPlug(k, t, null, m);
    assert Rep(t.right, x, m) && Distinct(t.right);
    assert Rep(b, y, m) && (b.Node? ==> b.item in Items(b));
    assert !k.Top? ==> k.item in m && k.item in CtxItems(k);
  }

  lemma RotationIsLeftTurn<D>(k: Ctx<RbNode<D>>, t: Tree<RbNode<D>>, m: Fields<D>)
    requires t.Node? && t.right.Node? && ZipDistinct(k, t) && Rep(Plug(k, t), null, m)
    ensures CanRotateLeft(m, t.item) && LeftTurn(k, t, m, WithRotationLeft(m, t.item))
  {
    hide ZipDistinct, Rep, Plug;
    LeftPivotThere(k, t, m);
  }

  lemma RepLeftTurned<D>(k: Ctx<RbNode<D>>, t: Tree<RbNode<D>>, m: Fields<D>, m': Fields<D>)
    requires t.Node? && t.right.Node? && ZipDistinct(k, t) && Rep(Plug(k, t), null, m)
    requires LeftTurn(k, t, m, m')
    ensures Rep(Plug(k, RotatedLeft(t)), null, m')
  {
    hide Plug, CtxRep;
    var Node(a, x, c, Node(b, y, d, e)) := t;
    RepPlug(k, t, null, m);
    assert Rep(t.right, x, m) && Distinct(t.right);
    assert Distinct(b) && (b.Node? ==> b.item in Items(b));
    assert !k.Top? ==> k.item in CtxItems(k);
    CtxRepRefilled(k, x, y, null, m, m');
    RepKept(a, x, m, m');
    RepRehung(b, y, x, m, m');
    RepKept(e, y, m, m');
    RepPlug(k, RotatedLeft(t), null, m');
  }

  lemma TurnedLeftShape<D>(k: Ctx<RbNode<D>>, t: Tree<RbNode<D>>)
    requires t.Node? && t.right.Node? && ZipDistinct(k, t)
    ensures Distinct(Plug(k, RotatedLeft(t))) && Items(Plug(k, RotatedLeft(t))) == Items(Plug(k, t))
    ensures Root(Plug(k, RotatedLeft(t))) == Outermost(k, t.right.item)
  {
    RotatedLeftDistinct(t);
    PlugItems(k, t);
    PlugItems(k, RotatedLeft(t));
    PlugRoot(k, RotatedLeft(t));
  }

  method RotateLinksLeft<D>(rbt: RbTree<D>, oldRoot: RbNode<D>, ghost s: set<RbNode<D>>)
    requires CanRotateLeft(Snapshot(s), oldRoot)
    modifies rbt`root, s
    ensures Snapshot(s) == WithRotationLeft(old(Snapshot(s)), oldRoot)
    ensures rbt.root == if old(oldRoot.parent) == null then old(oldRoot.right) else old(rbt.root)
  {
    ghost var m := Snapshot(s);
    var newRoot := oldRoot.right;
    ReplaceSubtree(rbt, oldRoot, newRoot, s);
    ghost var m1 := Snapshot(s);
    var b := newRoot.left;
    assert b == m1[newRoot].left == m[newRoot].left;
    PutRight(oldRoot, b, s);
    ghost var m2 := Snapshot(s);
    assert m2 == m1[oldRoot := m1[oldRoot].(right := b)];
    if oldRoot.right != null {
      PutParent(oldRoot.right, oldRoot, s);
    }
    ghost var m3 := Snapshot(s);
    assert m3 == if b == null then m2 else m2[b := m2[b].(parent := oldRoot)];
    PutLeft(newRoot, oldRoot, s);
    ghost var m4 := Snapshot(s);
    assert m4 == m3[newRoot := m3[newRoot].(left := oldRoot)];
    PutParent(oldRoot, newRoot, s);
  }

  method RotateLeft<D>(rbt: RbTree<D>, oldRoot: RbNode<D>, ghost k: Ctx<RbNode<D>>, ghost t: Tree<RbNode<D>>)
    requires rbt.Spells(Plug(k, t))
    requires t.Node? && t.right.Node? && t.item == oldRoot
    modifies rbt`root, Items(Plug(k, t))
    ensures rbt.Spells(Plug(k, RotatedLeft(t)))
    ensures Items(Plug(k, RotatedLeft(t))) == Items(Plug(k, t))
  {
    ghost var s := Items(Plug(k, t));
    ghost var m := Snapshot(s);
    rbt.At(k, t);
    RotationIsLeftTurn(k, t, m);
    RepLeftTurned(k, t, m, WithRotationLeft(m, oldRoot));
    TurnedLeftShape(k, t);
    RotateLinksLeft(rbt, oldRoot, s);
    assert Snapshot(Items(Plug(k, RotatedLeft(t)))) == WithRotationLeft(m, oldRoot);
  }

  // ---------------------------------------------------------------- the mirror image

  ghost predicate CanRotateRight<D>(m: Fields<D>, x: RbNode<D>) {
    && x in m && (m[x].parent != null ==> m[x].parent in m) && m[x].left != null && m[x].left in m
    && (m[m[x].left].right != null ==> m[m[x].left].right in m)
    && m[x].parent != m[x].left && x != m[x].left
  }

  /** What a right rotation at `x` makes of the fields in `m`. */
  ghost function WithRotationRight<D>(m: Fields<D>, x: RbNode<D>): Fields<D>
    requires CanRotateRight(m, x)
  {
    var y := m[x].left;
    var m1 := WithSubtreeReplaced(m, x, y);
    var b := m1[y].right;
    var m2 := m1[x := m1[x].(left := b)];
    var m3 := if b == null then m2 else m2[b := m2[b].(parent := x)];
    var m4 := m3[y := m3[y].(right := x)];
    m4[x := m4[x].(parent := y)]
  }

  /** From `m` to `m'`, the fields have become those of the tree after a right rotation of `t`. */
  ghost predicate RightTurn<D>(k: Ctx<RbNode<D>>, t: Tree<RbNode<D>>, m: Fields<D>, m': Fields<D>)
    requires t.Node? && t.left.Node?
  {
    var Node(Node(e, y, d, b), x, c, a) := t;
    && (forall n :: n in m && n != x && n != y && n != Root(b) && n != Holder(k, null) ==> n in m' && m'[n] == m[n])
    && x in m' && m'[x] == Links(Root(b), Root(a), y, c)
    && y in m' && m'[y] == Links(Root(e), x, Holder(k, null), d)
    && (b.Node? ==> b.item in m && b.item in m' && m'[b.item] == m[b.item].(parent := x))
    && HolderLinks(k, y, m, m')
  }

  /** The fields that a turn to the right reads, and that the nodes it writes are different ones. */
  ghost predicate RightPivot<D>(k: Ctx<RbNode<D>>, t: Tree<RbNode<D>>, m: Fields<D>)
    requires t.Node? && t.left.Node?
  {
    var Node(Node(e, y, d, b), x, c, a) := t;
    var h := Holder(k, null);
    && x in m && y in m && x != y && m[x] == Links(y, Root(a), h, c) && m[y] == Links(Root(e), Root(b), x, d)
    && (b.Node? ==> b.item in m && b.item != x && b.item != y && b.item != h)
    && (h != null ==> h in m && h != x && h != y && (m[h].left == x) == k.InLeft? && (m[h].right == x) == k.InRight?)
  }

  lemma RightPivotThere<D>(k: Ctx<RbNode<D>>, t: Tree<RbNode<D>>, m: Fields<D>)
    requires t.Node? && t.left.Node? && ZipDistinct(k, t) && Rep(Plug(k, t), null, m)
    ensures RightPivot(k, t, m)
  {
    var Node(Node(e, y, d, b), x, c, a) := t;
    RepPlug(k, t, null, m);
    assert Rep(t.left, x, m) && Distinct(t.left);
    assert Rep(b, y, m) && (b.Node? ==> b.item in Items(b));
    assert !k.Top? ==> k.item in m && k.item in CtxItems(k);
  }

  lemma RotationIsRightTurn<D>(k: Ctx<RbNode<D>>, t: Tree<RbNode<D>>, m: Fields<D>)
    requires t.Node? && t.left.Node? && ZipDistinct(k, t) && Rep(Plug(k, t), null, m)
    ensures CanRotateRight(m, t.item) && RightTurn(k, t, m, WithRotationRight(m, t.item))
  {
    hide ZipDistinct, Rep, Plug;
    RightPivotThere(k, t, m);
  }

  lemma RepRightTurned<D>(k: Ctx<RbNode<D>>, t: Tree<RbNode<D>>, m: Fields<D>, m': Fields<D>)
    requires t.Node? && t.left.Node? && ZipDistinct(k, t) && Rep(Plug(k, t), null, m)
    requires RightTurn(k, t, m, m')
    ensures Rep(Plug(k, RotatedRight(t)), null, m')
  {
    hide Plug, CtxRep;
    var Node(Node(e, y, d, b), x, c, a) := t;
    RepPlug(k, t, null, m);
    assert Rep(t.left, x, m) && Distinct(t.left);
    assert Distinct(b) && (b.Node? ==> b.item in Items(b));
    assert !k.Top? ==> k.item in CtxItems(k);
    CtxRepRefilled(k, x, y, null, m, m');
    RepKept(a, x, m, m');
    RepRehung(b, y, x, m, m');
    RepKept(e, y, m, m');
    RepPlug(k, RotatedRight(t), null, m');
  }

  lemma TurnedRightShape<D>(k: Ctx<RbNode<D>>, t: Tree<RbNode<D>>)
    requires t.Node? && t.left.Node? && ZipDistinct(k, t)
    ensures Distinct(Plug(k, RotatedRight(t))) && Items(Plug(k, RotatedRight(t))) == Items(Plug(k, t))
    ensures Root(Plug(k, RotatedRight(t))) == Outermost(k, t.left.item)
  {
    RotatedRightDistinct(t);
    PlugItems(k, t);
    PlugItems(k, RotatedRight(t));
    PlugRoot(k, RotatedRight(t));
  }

  method RotateLinksRight<D>(rbt: RbTree<D>, oldRoot: RbNode<D>, ghost s: set<RbNode<D>>)
    requires CanRotateRight(Snapshot(s), oldRoot)
    modifies rbt`root, s
    ensures Snapshot(s) == WithRotationRight(old(Snapshot(s)), oldRoot)
    ensures rbt.root == if old(oldRoot.parent) == null then old(oldRoot.left) else old(rbt.root)
  {
    ghost var m := Snapshot(s);
    var newRoot := oldRoot.left;
    ReplaceSubtree(rbt, oldRoot, newRoot, s);
    ghost var m1 := Snapshot(s);
    var b := newRoot.right;
    assert b == m1[newRoot].right == m[newRoot].right;
    PutLeft(oldRoot, b, s);
    ghost var m2 := Snapshot(s);
    assert m2 == m1[oldRoot := m1[oldRoot].(left := b)];
    if oldRoot.left != null {
      PutParent(oldRoot.left, oldRoot, s);
    }
    ghost var m3 := Snapshot(s);
    assert m3 == if b == null then m2 else m2[b := m2[b].(parent := oldRoot)];
    PutRight(newRoot, oldRoot, s);
    ghost var m4 := Snapshot(s);
    assert m4 == m3[newRoot := m3[newRoot].(right := oldRoot)];
    PutParent(oldRoot, newRoot, s);
  }

  method RotateRight<D>(rbt: RbTree<D>, oldRoot: RbNode<D>, ghost k: Ctx<RbNode<D>>, ghost t: Tree<RbNode<D>>)
    requires rbt.Spells(Plug(k, t))
    requires t.Node? && t.left.Node? && t.item == oldRoot
    modifies rbt`root, Items(Plug(k, t))
    ensures rbt.Spells(Plug(k, RotatedRight(t)))
    ensures Items(Plug(k, RotatedRight(t))) == Items(Plug(k, t))
  {
    ghost var s := Items(Plug(k, t));
    ghost var m := Snapshot(s);
    rbt.At(k, t);
    RotationIsRightTurn(k, t, m);
    RepRightTurned(k, t, m, WithRotationRight(m, oldRoot));
    TurnedRightShape(k, t);
    RotateLinksRight(rbt, oldRoot, s);
    assert Snapshot(Items(Plug(k, RotatedRight(t)))) == WithRotationRight(m, oldRoot);
  }
}
