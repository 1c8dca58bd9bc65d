/** What a comparison function says about the nodes of a tree, in order. */
module RbOrder {
  import opened RbTheory
  import opened RbHeap

  /** Against `v`, the nodes of `s` come first as smaller, then as equal, then as greater ones. */
  ghost predicate Rising<D, V>(cmpf: (D, V) -> int, v: V, s: seq<RbNode<D>>) {
    forall i, j :: 0 <= i < j < |s| ==>
      && (cmpf(s[i].data, v) >= 0 ==> cmpf(s[j].data, v) >= 0)
      && (cmpf(s[i].data, v) > 0 ==> cmpf(s[j].data, v) > 0)
  }

  ghost predicate AllBelow<D, V>(cmpf: (D, V) -> int, v: V, s: seq<RbNode<D>>) {
    forall i :: 0 <= i < |s| ==> cmpf(s[i].data, v) < 0
  }

  ghost predicate AllAbove<D, V>(cmpf: (D, V) -> int, v: V, s: seq<RbNode<D>>) {
    forall i :: 0 <= i < |s| ==> cmpf(s[i].data, v) > 0
  }

  ghost predicate NoneBelow<D, V>(cmpf: (D, V) -> int, v: V, s: seq<RbNode<D>>) {
    forall i :: 0 <= i < |s| ==> cmpf(s[i].data, v) >= 0
  }

  /** How many nodes stand before the first one that is not below `v`. */
  ghost function Rank<D, V>(cmpf: (D, V) -> int, v: V, s: seq<RbNode<D>>): (r: nat)
    ensures r <= |s|
  {
    if s == [] || cmpf(s[0].data, v) >= 0 then 0 else 1 + Rank(cmpf, v, s[1..])
  }

  lemma {:induction false} RankSplits<D, V>(cmpf: (D, V) -> int, v: V, a: seq<RbNode<D>>, b: seq<RbNode<D>>)
    requires AllBelow(cmpf, v, a) && NoneBelow(cmpf, v, b)
    ensures Rank(cmpf, v, a + b) == |a|
  {
    if a == [] {
      assert a + b == b;
    } else {
      assert (a + b)[1..] == a[1..] + b;
      RankSplits(cmpf, v, a[1..], b);
    }
  }

  /** Where the parts of a split sequence are found in the whole. */
  lemma Parts<N>(b: seq<N>, l: seq<N>, x: N, r: seq<N>, a: seq<N>)
    ensures |b + (l + [x] + r) + a| == |b| + |l| + 1 + |r| + |a|
    ensures forall i :: 0 <= i < |l| ==> l[i] == (b + (l + [x] + r) + a)[|b| + i]
    ensures (b + (l + [x] + r) + a)[|b| + |l|] == x
    ensures forall i :: 0 <= i < |r| ==> r[i] == (b + (l + [x] + r) + a)[|b| + |l| + 1 + i]
  {
  }

  /** The sign at a node is a bound for the signs on either side of it. */
  lemma RisingAround<D, V>(cmpf: (D, V) -> int, v: V, k: Ctx<RbNode<D>>, t: Tree<RbNode<D>>)
    requires Rising(cmpf, v, InOrder(Plug(k, t))) && t.Node?
    ensures cmpf(t.item.data, v) < 0 ==> AllBelow(cmpf, v, InOrder(t.left))
    ensures cmpf(t.item.data, v) > 0 ==> AllAbove(cmpf, v, InOrder(t.right))
    ensures cmpf(t.item.data, v) >= 0 ==> NoneBelow(cmpf, v, InOrder(t.right))
  {
    InOrderPlug(k, t);
    Parts(Before(k), InOrder(t.left), t.item, InOrder(t.right), After(k));
  }

  /** On the data of these nodes `cmpf` is a total preorder. */
  ghost predicate Preorder<D>(cmpf: (D, D) -> int, s: seq<RbNode<D>>) {
    && (forall i, j :: 0 <= i < |s| && 0 <= j < |s| ==>
        (cmpf(s[i].data, s[j].data) <= 0 <==> cmpf(s[j].data, s[i].data) >= 0))
    && (forall i, j, l :: 0 <= i < |s| && 0 <= j < |s| && 0 <= l < |s| ==>
        (cmpf(s[i].data, s[j].data) <= 0 && cmpf(s[j].data, s[l].data) <= 0 ==> cmpf(s[i].data, s[l].data) <= 0))
  }

  ghost predicate Sorted<D>(cmpf: (D, D) -> int, s: seq<RbNode<D>>) {
    forall i, j :: 0 <= i < j < |s| ==> cmpf(s[i].data, s[j].data) <= 0
  }
}
