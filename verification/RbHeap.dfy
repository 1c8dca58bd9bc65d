/** The nodes of the intrusive tree, the tree object, and what it means for the links in the
    heap to spell out a given tree. */
module RbHeap {
  import opened RbTheory

  class RbNode<D> {
    const data: D
    var left: RbNode?<D>
    var right: RbNode?<D>
    var parent: RbNode?<D>
    var colour: Colour

    constructor (data: D)
      ensures this.data == data
    {
      this.data := data;
      left, right, parent, colour := null, null, null, Red;
    }
  }

  /** The fields of one node. */
  datatype Links<D> = Links(left: RbNode?<D>, right: RbNode?<D>, parent: RbNode?<D>, colour: Colour)

  /** The fields of a set of nodes. */
  type Fields<D> = map<RbNode<D>, Links<D>>

  ghost function LinksOf<D>(n: RbNode<D>): Links<D>
    reads n
  {
    Links(n.left, n.right, n.parent, n.colour)
  }

  /** The fields of all nodes in `s` as they are now. */
  ghost function Snapshot<D>(s: set<RbNode<D>>): Fields<D>
    reads s
  {
    map n | n in s :: LinksOf(n)
  }

  ghost function Root<D>(t: Tree<RbNode<D>>): RbNode?<D> {
    if t.Leaf? then null else t.item
  }

  /** The node that the gap of `k` hangs from; `top` is the parent of the outermost node of `k`. */
  ghost function Holder<D>(k: Ctx<RbNode<D>>, top: RbNode?<D>): RbNode?<D> {
    if k.Top? then top else k.item
  }

  /** The outermost node when the gap of `k` is filled by `x`. */
  ghost function Outermost<D>(k: Ctx<RbNode<D>>, x: RbNode?<D>): RbNode?<D>
    decreases k
  {
    match k
    case Top => x
    case InLeft(up, n, _, _) => Outermost(up, n)
    case InRight(_, n, _, up) => Outermost(up, n)
  }

  /** The links and colours in `m` are those of `t`, hung below `p`. */
  ghost predicate Rep<D>(t: Tree<RbNode<D>>, p: RbNode?<D>, m: Fields<D>) {
    match t
    case Leaf => true
    case Node(l, n, c, r) =>
      n in m && m[n] == Links(Root(l), Root(r), p, c) && Rep(l, n, m) && Rep(r, n, m)
  }

  /** The same for a context whose gap is filled by the node `x`. */
  ghost predicate CtxRep<D>(k: Ctx<RbNode<D>>, x: RbNode?<D>, top: RbNode?<D>, m: Fields<D>)
    decreases k
  {
    match k
    case Top => true
    case InLeft(up, n, c, r) =>
      n in m && m[n] == Links(x, Root(r), Holder(up, top), c) && Rep(r, n, m) && CtxRep(up, n, top, m)
    case InRight(l, n, c, up) =>
      n in m && m[n] == Links(Root(l), x, Holder(up, top), c) && Rep(l, n, m) && CtxRep(up, n, top, m)
  }

  lemma {:induction false} PlugRoot<D>(k: Ctx<RbNode<D>>, t: Tree<RbNode<D>>)
    ensures Root(Plug(k, t)) == Outermost(k, Root(t))
    decreases k
  {
    match k
    case Top =>
    case InLeft(up, n, c, r) => PlugRoot(up, Node(t, n, c, r));
    case InRight(l, n, c, up) => PlugRoot(up, Node(l, n, c, t));
  }

  lemma {:induction false} RepPlug<D>(k: Ctx<RbNode<D>>, t: Tree<RbNode<D>>, top: RbNode?<D>, m: Fields<D>)
    ensures Rep(Plug(k, t), top, m) <==> CtxRep(k, Root(t), top, m) && Rep(t, Holder(k, top), m)
    decreases k
  {
    match k
    case Top =>
    case InLeft(up, n, c, r) => RepPlug(up, Node(t, n, c, r), top, m);
    case InRight(l, n, c, up) => RepPlug(up, Node(l, n, c, t), top, m);
  }

  /** The nodes of `t` other than its topmost one. */
  ghost function Below<D>(t: Tree<RbNode<D>>): set<RbNode<D>> {
    if t.Leaf? then {} else Items(t.left) + Items(t.right)
  }

  /** The nodes of `k` other than the one its gap hangs from. */
  ghost function Beyond<D>(k: Ctx<RbNode<D>>): set<RbNode<D>> {
    match k
    case Top => {}
    case InLeft(up, _, _, r) => CtxItems(up) + Items(r)
    case InRight(l, _, _, up) => Items(l) + CtxItems(up)
  }

  // ---------------------------------------------------------------- what survives a few writes

  ghost predicate Agree<D>(s: set<RbNode<D>>, m: Fields<D>, m': Fields<D>) {
    forall n :: n in s && n in m ==> n in m' && m[n] == m'[n]
  }

  lemma {:induction false} RepKept<D>(t: Tree<RbNode<D>>, p: RbNode?<D>, m: Fields<D>, m': Fields<D>)
    requires Rep(t, p, m) && Agree(Items(t), m, m')
    ensures Rep(t, p, m')
  {
    match t
    case Leaf =>
    case Node(l, n, _, r) => RepKept(l, n, m, m'); RepKept(r, n, m, m');
  }

  /** Only the parent link of the topmost node of `t` was rewritten. */
  lemma RepRehung<D>(t: Tree<RbNode<D>>, p: RbNode?<D>, q: RbNode?<D>, m: Fields<D>, m': Fields<D>)
    requires Rep(t, p, m)
    requires t.Node? ==> t.item in m && t.item in m' && m'[t.item] == m[t.item].(parent := q)
    requires Agree(Below(t), m, m')
    ensures Rep(t, q, m')
  {
    if t.Node? {
      RepKept(t.left, t.item, m, m');
      RepKept(t.right, t.item, m, m');
    }
  }

  lemma {:induction false} CtxRepKept<D>(k: Ctx<RbNode<D>>, x: RbNode?<D>, top: RbNode?<D>, m: Fields<D>, m': Fields<D>)
    requires CtxRep(k, x, top, m) && Agree(CtxItems(k), m, m')
    ensures CtxRep(k, x, top, m')
    decreases k
  {
    match k
    case Top =>
    case InLeft(up, n, _, r) => CtxRepKept(up, n, top, m, m'); RepKept(r, n, m, m');
    case InRight(l, n, _, up) => CtxRepKept(up, n, top, m, m'); RepKept(l, n, m, m');
  }

  ghost predicate HolderLinks<D>(k: Ctx<RbNode<D>>, y: RbNode?<D>, m: Fields<D>, m': Fields<D>) {
    && (!k.Top? ==> k.item in m && k.item in m')
    && (k.InLeft? ==> m'[k.item] == m[k.item].(left := y))
    && (k.InRight? ==> m'[k.item] == m[k.item].(right := y))
  }

  /** The link into the gap of `k`, and no other field, now leads to `y`. */
  ghost predicate Refilled<D>(k: Ctx<RbNode<D>>, y: RbNode?<D>, m: Fields<D>, m': Fields<D>) {
    && Agree(Beyond(k), m, m') && HolderLinks(k, y, m, m')
  }

  lemma CtxRepRefilled<D>(k: Ctx<RbNode<D>>, x: RbNode?<D>, y: RbNode?<D>, top: RbNode?<D>, m: Fields<D>, m': Fields<D>)
    requires CtxRep(k, x, top, m) && Refilled(k, y, m, m')
    ensures CtxRep(k, y, top, m')
  {
    match k
    case Top =>
    case InLeft(up, n, _, r) => CtxRepKept(up, n, top, m, m'); RepKept(r, n, m, m');
    case InRight(l, n, _, up) => CtxRepKept(up, n, top, m, m'); RepKept(l, n, m, m');
  }

  // ---------------------------------------------------------------- the tree object

  class RbTree<D> {
    var root: RbNode?<D>
    ghost var model: Tree<RbNode<D>>

    /** The links spell out `t`, and no node is linked twice. */
    ghost predicate Spells(t: Tree<RbNode<D>>)
      reads this, Items(t)
    {
      root == Root(t) && Distinct(t) && Rep(t, null, Snapshot(Items(t)))
    }

    /** A red-black tree with a black root, spelled out by the links. */
    ghost predicate Valid()
      reads this, Items(model)
    {
      Spells(model) && IsRbRoot(model)
    }

    /** The nodes in order. */
    ghost function Nodes(): seq<RbNode<D>>
      reads this
    {
      InOrder(model)
    }

    constructor ()
      ensures Valid() && Nodes() == []
    {
      root := null;
      model := Leaf;
    }

    /** What the fields of the node at the gap of `k` hold, and of the node it hangs from. */
    lemma At(k: Ctx<RbNode<D>>, t: Tree<RbNode<D>>)
      requires Spells(Plug(k, t))
      ensures ZipDistinct(k, t) && Items(Plug(k, t)) == CtxItems(k) + Items(t)
      ensures root == Outermost(k, Root(t))
      ensures t.Node? ==> LinksOf(t.item) == Links(Root(t.left), Root(t.right), Holder(k, null), t.colour)
      ensures k.InLeft? ==> LinksOf(k.item) == Links(Root(t), Root(k.right), Holder(k.up, null), k.colour)
      ensures k.InRight? ==> LinksOf(k.item) == Links(Root(k.left), Root(t), Holder(k.up, null), k.colour)
    {
      PlugItems(k, t);
      PlugRoot(k, t);
      RepPlug(k, t, null, Snapshot(Items(Plug(k, t))));
    }

    /** The same for a cursor into an unchanging tree. */
    lemma Here(whole: Tree<RbNode<D>>, k: Ctx<RbNode<D>>, t: Tree<RbNode<D>>)
      requires Spells(whole) && whole == Plug(k, t)
      ensures t.Node? ==> LinksOf(t.item) == Links(Root(t.left), Root(t.right), Holder(k, null), t.colour)
      ensures root == Outermost(k, Root(t))
    {
      At(k, t);
    }
  }

  function ColourAt<D>(n: RbNode?<D>): Colour
    reads n
  {
    if n == null then Black else n.colour
  }

  function Sibling<D>(n: RbNode<D>): RbNode?<D>
    requires n.parent != null
    reads n, n.parent
  {
    if n.parent.left == n then n.parent.right else n.parent.left
  }

  lemma ParentIs<D>(rbt: RbTree<D>, k: Ctx<RbNode<D>>, t: Tree<RbNode<D>>)
    requires rbt.Spells(Plug(k, t)) && t.Node?
    ensures t.item in Items(Plug(k, t))
    ensures t.item.parent == Holder(k, null)
    ensures !k.Top? ==> k.item in Items(Plug(k, t)) && ColourAt(k.item) == k.colour
  {
    rbt.At(k, t);
  }

  lemma SiblingIs<D>(rbt: RbTree<D>, k: Ctx<RbNode<D>>, t: Tree<RbNode<D>>)
    requires rbt.Spells(Plug(k, t)) && t.Node? && !k.Top?
    ensures t.item.parent == k.item && k.item in Items(Plug(k, t))
    ensures Sibling(t.item) == Root(Aside(k)) && ColourAt(Sibling(t.item)) == ColourOf(Aside(k))
    ensures Aside(k).Node? ==> Aside(k).item in Items(Plug(k, t)) && t.item != Aside(k).item
  {
    rbt.At(k, t);
    rbt.At(Across(k, t), Aside(k));
  }

  lemma RepRecoloured<D>(k: Ctx<RbNode<D>>, t: Tree<RbNode<D>>, c: Colour, m: Fields<D>, m': Fields<D>)
    requires t.Node? && ZipDistinct(k, t) && Rep(Plug(k, t), null, m)
    requires t.item in m && m' == m[t.item := m[t.item].(colour := c)]
    ensures Rep(Plug(k, t.(colour := c)), null, m')
  {
    RepPlug(k, t, null, m);
    CtxRepKept(k, t.item, null, m, m');
    RepKept(t.left, t.item, m, m');
    RepKept(t.right, t.item, m, m');
    RepPlug(k, t.(colour := c), null, m');
  }

  // ---------------------------------------------------------------- writing one field

  method PutLeft<D>(n: RbNode<D>, x: RbNode?<D>, ghost s: set<RbNode<D>>)
    requires n in s
    modifies n`left
    ensures Snapshot(s) == old(Snapshot(s))[n := old(LinksOf(n)).(left := x)]
  {
    n.left := x;
  }

  method PutRight<D>(n: RbNode<D>, x: RbNode?<D>, ghost s: set<RbNode<D>>)
    requires n in s
    modifies n`right
    ensures Snapshot(s) == old(Snapshot(s))[n := old(LinksOf(n)).(right := x)]
  {
    n.right := x;
  }

  method PutParent<D>(n: RbNode<D>, x: RbNode?<D>, ghost s: set<RbNode<D>>)
    requires n in s
    modifies n`parent
    ensures Snapshot(s) == old(Snapshot(s))[n := old(LinksOf(n)).(parent := x)]
  {
    n.parent := x;
  }

  method PutColour<D>(n: RbNode<D>, c: Colour, ghost s: set<RbNode<D>>)
    requires n in s
    modifies n`colour
    ensures Snapshot(s) == old(Snapshot(s))[n := old(LinksOf(n)).(colour := c)]
  {
    n.colour := c;
  }

  /** Give the node at the gap of `k` the colour `c`. */
  method SetColour<D>(rbt: RbTree<D>, n: RbNode<D>, c: Colour, ghost k: Ctx<RbNode<D>>, ghost t: Tree<RbNode<D>>)
    requires rbt.Spells(Plug(k, t)) && t.Node? && t.item == n
    modifies Items(Plug(k, t))
    ensures rbt.Spells(Plug(k, t.(colour := c)))
    ensures Items(Plug(k, t.(colour := c))) == Items(Plug(k, t))
  {
    ghost var s := Items(Plug(k, t));
    ghost var m := Snapshot(s);
    rbt.At(k, t);
    PutColour(n, c, s);
    RepRecoloured(k, t, c, m, Snapshot(s));
    PlugItems(k, t.(colour := c));
    PlugRoot(k, t.(colour := c));
  }

  ghost function WithSubtreeReplaced<D>(m: Fields<D>, x: RbNode<D>, y: RbNode?<D>): Fields<D>
    requires x in m && (m[x].parent != null ==> m[x].parent in m) && (y != null ==> y in m)
  {
    var p := m[x].parent;
    var m1 := if p == null then m else if m[p].left == x then m[p := m[p].(left := y)] else m[p := m[p].(right := y)];
    if y == null then m1 else m1[y := m1[y].(parent := p)]
  }

  /** Hang `replacement` where `replacee` hangs now. */
  method ReplaceSubtree<D>(rbt: RbTree<D>, replacee: RbNode<D>, replacement: RbNode?<D>, ghost s: set<RbNode<D>>)
    requires replacee in s && (replacement != null ==> replacement in s)
    requires replacee.parent != null ==> replacee.parent in s
    modifies rbt`root, s
    ensures Snapshot(s) == WithSubtreeReplaced(old(Snapshot(s)), replacee, replacement)
    ensures rbt.root == if old(replacee.parent) == null then replacement else old(rbt.root)
  {
    var p := replacee.parent;
    if p != null {
      if p.left == replacee {
        PutLeft(p, replacement, s);
      } else {
        PutRight(p, replacement, s);
      }
    } else {
      rbt.root := replacement;
    }
    if replacement != null {
      PutParent(replacement, p, s);
    }
  }
}
