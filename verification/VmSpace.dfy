/** An address space: the same areas in a red-black tree and in a sorted list. */
module VmSpace {
  import opened RbTheory
  import opened RbHeap
  import opened RbOrder
  import RbInsert
  import RbDelete
  import opened RbSearch
  import opened RbLaws
  import opened Slist
  import opened VmArea

  /** The list runs through the areas of the tree, in the order of the tree. */
  ghost predicate Mirrors(refs: seq<SlistRef<AreaInfo>>, nodes: seq<RbNode<Area>>) {
    && |refs| == |nodes|
    && forall i :: 0 <= i < |refs| ==> nodes[i].data.link == refs[i] && refs[i].elem == nodes[i].data.info
  }

  /** Tree and list agree, the areas ascend, and none begins below `offset`. */
  ghost predicate InStep(offset: nat, refs: seq<SlistRef<AreaInfo>>, nodes: seq<RbNode<Area>>) {
    && Mirrors(refs, nodes) && Ascending(Infos(nodes))
    && forall i :: 0 <= i < |nodes| ==> offset <= nodes[i].data.info.base
  }

  class Space {
    const offset: nat
    const areas: RbTree<Area>
    const sorted: SlistRef<AreaInfo>
    ghost var refs: seq<SlistRef<AreaInfo>>

    ghost predicate Valid()
      reads this, areas, Items(areas.model), sorted, refs
    {
      areas.Valid() && Chain([sorted] + refs) && InStep(offset, refs, areas.Nodes())
    }

    constructor (offset: nat)
      ensures Valid() && Infos(areas.Nodes()) == [] && this.offset == offset
      ensures fresh(areas) && fresh(sorted)
    {
      this.offset := offset;
      areas := new RbTree();
      sorted := new SlistRef(AreaInfo(0, 0));
      refs := [];
    }

    /** The areas of the space, in ascending order. */
    ghost function Areas(): seq<AreaInfo>
      reads this, areas
    {
      Infos(areas.Nodes())
    }
  }

  /** `p` areas lie below the new one, and the others above it. */
  ghost predicate FitsAt(s: seq<AreaInfo>, a: AreaInfo, p: nat) {
    && p <= |s| && Fits(a)
    && (forall i :: 0 <= i < p ==> s[i].base + s[i].length <= a.base)
    && (forall i :: p <= i < |s| ==> a.base + a.length <= s[i].base)
  }

  lemma InsertedAscends(s: seq<AreaInfo>, a: AreaInfo, p: nat)
    requires Ascending(s) && FitsAt(s, a, p)
    ensures Ascending(s[..p] + [a] + s[p..])
  {
    var t := s[..p] + [a] + s[p..];
    forall i | 0 <= i < |t| ensures t[i] == if i < p then s[i] else if i == p then a else s[i - 1] {}
  }

  lemma RemovedAscends(s: seq<AreaInfo>, i: nat)
    requires Ascending(s) && i < |s|
    ensures Ascending(s[..i] + s[i + 1..])
  {
  }

  /** What the search for the left neighbour says about the place of the new area. */
  lemma NeighbourIsRank(nodes: seq<RbNode<Area>>, area: Area, left: RbNode?<Area>, at: int) returns (p: nat)
    requires Ascending(Infos(nodes)) && Fits(area.info)
    requires forall i :: 0 <= i < |nodes| ==> Apart(nodes[i].data.info, area.info)
    requires MaxResult(CompareAreas, area, nodes, left, at)
    ensures p == (if left == null then 0 else at + 1)
    ensures FitsAt(Infos(nodes), area.info, p) && Rank(CompareAreas, area, nodes) == p
    ensures left != null ==> 0 <= at < |nodes| && left == nodes[at]
  {
    var infos := Infos(nodes);
    p := if left == null then 0 else at + 1;
    forall i | 0 <= i < |nodes|
      ensures i < p ==> CompareAreas(nodes[i].data, area) < 0 && infos[i].base + infos[i].length <= area.info.base
      ensures i >= p ==> CompareAreas(nodes[i].data, area) > 0 && area.info.base + area.info.length <= infos[i].base
    {
      if left != null && i > at {
        assert nodes[at + 1..][i - at - 1] == nodes[i];
      }
      assert left != null && i < at ==> infos[i].base < infos[at].base;
    }
    RankSplits(CompareAreas, area, nodes[..p], nodes[p..]);
    assert nodes[..p] + nodes[p..] == nodes;
  }

  lemma MirrorsInserted(refs: seq<SlistRef<AreaInfo>>, nodes: seq<RbNode<Area>>, p: nat,
      link: SlistRef<AreaInfo>, n: RbNode<Area>)
    requires Mirrors(refs, nodes) && p <= |refs| && n.data.link == link && link.elem == n.data.info
    ensures Mirrors(refs[..p] + [link] + refs[p..], nodes[..p] + [n] + nodes[p..])
    ensures Infos(nodes[..p] + [n] + nodes[p..]) == Infos(nodes)[..p] + [n.data.info] + Infos(nodes)[p..]
  {
    var refs', nodes' := refs[..p] + [link] + refs[p..], nodes[..p] + [n] + nodes[p..];
    forall i | 0 <= i < |nodes'|
      ensures refs'[i] == (if i < p then refs[i] else if i == p then link else refs[i - 1])
      ensures nodes'[i] == (if i < p then nodes[i] else if i == p then n else nodes[i - 1])
    {
    }
  }

  lemma HeadedInsert<T>(head: T, s: seq<T>, p: nat, x: T)
    requires p <= |s|
    ensures WithAfter([head] + s, p, x) == [head] + (s[..p] + [x] + s[p..])
  {
  }

  lemma HeadedRemove<T>(head: T, s: seq<T>, i: nat)
    requires i < |s|
    ensures Without([head] + s, i + 1) == [head] + (s[..i] + s[i + 1..])
  {
  }

  /** The area can be put into the space: it is apart from all its areas. */
  ghost predicate MayEnter(offset: nat, nodes: seq<RbNode<Area>>, info: AreaInfo) {
    && offset <= info.base && Fits(info)
    && forall i :: 0 <= i < |nodes| ==> Apart(nodes[i].data.info, info)
  }

  lemma InsertedAgrees(offset: nat, refs: seq<SlistRef<AreaInfo>>, nodes: seq<RbNode<Area>>, area: Area,
      n: RbNode<Area>,
      left: RbNode?<Area>, at: int) returns (p: nat)
    requires InStep(offset, refs, nodes) && MayEnter(offset, nodes, area.info)
    requires n.data == area && area.link.elem == area.info
    requires MaxResult(CompareAreas, area, nodes, left, at)
    ensures p == (if left == null then 0 else at + 1) && p <= |refs|
    ensures left != null ==> left.data.link == refs[p - 1]
    ensures FitsAt(Infos(nodes), area.info, p)
    ensures InStep(offset, refs[..p] + [area.link] + refs[p..], RbInsert.Inserted(CompareAreas, n, nodes))
    ensures Infos(RbInsert.Inserted(CompareAreas, n, nodes)) == Infos(nodes)[..p] + [area.info] + Infos(nodes)[p..]
  {
    p := NeighbourIsRank(nodes, area, left, at);
    InsertedAscends(Infos(nodes), area.info, p);
    MirrorsInserted(refs, nodes, p, area.link, n);
    var nodes' := RbInsert.Inserted(CompareAreas, n, nodes);
    forall i | 0 <= i < |nodes'| ensures offset <= nodes'[i].data.info.base {
      assert nodes'[i] == if i < p then nodes[i] else if i == p then n else nodes[i - 1];
    }
  }

  /** The tree half of an insertion leaves the list alone. */
  method InsertNode(space: Space, area: Area)
    requires space.areas.Valid() && Chain([space.sorted] + space.refs)
    requires area.rb != null && area.rb.data == area && area.rb !in Items(space.areas.model)
    requires Rising(CompareAreas, area, space.areas.Nodes())
    modifies space.areas, Items(space.areas.model), area.rb
    ensures space.areas.Valid() && Items(space.areas.model) == old(Items(space.areas.model)) + {area.rb}
    ensures space.areas.Nodes() == RbInsert.Inserted(CompareAreas, area.rb, old(space.areas.Nodes()))
    ensures Chain([space.sorted] + space.refs)
  {
    RbInsert.Insert(space.areas, area.rb, CompareAreas);
  }

  /** The list half of an insertion. */
  method LinkArea(space: Space, area: Area, leftNode: RbNode?<Area>, ghost p: nat)
    requires space.areas.Valid()
    requires Chain([space.sorted] + space.refs) && area.link !in [space.sorted] + space.refs && p <= |space.refs|
    requires if leftNode == null then p == 0 else p > 0 && leftNode.data.link == space.refs[p - 1]
    modifies space, space.sorted, space.refs, area.link
    ensures space.areas.Valid()
    ensures space.refs == old(space.refs)[..p] + [area.link] + old(space.refs)[p..]
    ensures Chain([space.sorted] + space.refs)
  {
    hide Chain;
    ghost var m := Snapshot(Items(space.areas.model));
    HeadedInsert(space.sorted, space.refs, p, area.link);
    var prev := if leftNode == null then space.sorted else leftNode.data.link;
    Slist.Insert(prev, area.link, [space.sorted] + space.refs, p);
    space.refs := space.refs[..p] + [area.link] + space.refs[p..];
    assert Snapshot(Items(space.areas.model)) == m;
  }

  /** What an insertion needs of the tree and the list, apart from what the areas in them say. */
  ghost predicate Linked(space: Space)
    reads space, space.areas, Items(space.areas.model), space.sorted, space.refs
  {
    space.areas.Valid() && Chain([space.sorted] + space.refs) && Mirrors(space.refs, space.areas.Nodes())
  }

  ghost predicate Unlinked(space: Space, area: Area)
    reads space, space.areas, area
  {
    && area.rb != null && area.rb !in Items(space.areas.model)
    && area.link.elem == area.info && area.link !in [space.sorted] + space.refs
  }

  /** The greatest area not above the new one, and its place in the list. */
  method FindLeftNeighbour(space: Space, area: Area) returns (leftNode: RbNode?<Area>, ghost at: int)
    requires space.areas.Valid() && Mirrors(space.refs, space.areas.Nodes())
    requires Rising(CompareAreas, area, space.areas.Nodes())
    ensures space.areas.Valid() && MaxResult(CompareAreas, area, space.areas.Nodes(), leftNode, at)
    ensures leftNode != null ==> 0 <= at < |space.refs| && leftNode.data.link == space.refs[at]
  {
    leftNode, at := SearchMax(space.areas, area, CompareAreas);
  }

  /** The area hangs in the tree and in the list, wherever that is. */
  ghost predicate Entered(space: Space, area: Area)
    reads space, space.areas, Items(space.areas.model), space.sorted, space.refs, area
  {
    && space.areas.Valid() && Chain([space.sorted] + space.refs)
    && area.rb != null && area.rb in Items(space.areas.model) && area.link in space.refs
  }

  /** The area hangs in tree and list, and without it they are `nodes` and `refs`. */
  ghost predicate EnteredInto(space: Space, area: Area, nodes: seq<RbNode<Area>>, refs: seq<SlistRef<AreaInfo>>)
    reads space, space.areas, Items(space.areas.model), space.sorted, space.refs, area
  {
    && Entered(space, area)
    && RbDelete.Removed<RbNode<Area>>(space.areas.Nodes(), area.rb) == nodes
    && RbDelete.Removed(space.refs, area.link) == refs
  }

  lemma PlacedComesOut(refs: seq<SlistRef<AreaInfo>>, nodes: seq<RbNode<Area>>, link: SlistRef<AreaInfo>,
      n: RbNode<Area>, p: nat)
    requires p <= |refs| && n !in nodes && link !in refs
    ensures RbDelete.Removed(RbInsert.Inserted(CompareAreas, n, nodes), n) == nodes
    ensures RbDelete.Removed(refs[..p] + [link] + refs[p..], link) == refs
  {
    RemovedInserted(CompareAreas, n, nodes);
    RbDelete.RemovedSplit(refs[..p], link, refs[p..]);
  }

  /** vm_space_insert_area: after the greatest area not above it in the list, and where the tree wants it. */
  method PlaceArea(space: Space, area: Area) returns (ghost left: RbNode?<Area>, ghost at: int)
    requires Linked(space) && Unlinked(space, area) && area.rb.data == area
    requires Rising(CompareAreas, area, space.areas.Nodes())
    modifies space, space.areas, Items(space.areas.model), space.sorted, space.refs, area.rb, area.link
    ensures space.areas.Valid() && Items(space.areas.model) == old(Items(space.areas.model)) + {area.rb}
    ensures MaxResult(CompareAreas, area, old(space.areas.Nodes()), left, at)
    ensures space.areas.Nodes() == RbInsert.Inserted(CompareAreas, area.rb, old(space.areas.Nodes()))
    ensures Chain([space.sorted] + space.refs)
    ensures var p := if left == null then 0 else at + 1;
            0 <= p <= |old(space.refs)| && space.refs == old(space.refs)[..p] + [area.link] + old(space.refs)[p..]
    ensures EnteredInto(space, area, old(space.areas.Nodes()), old(space.refs))
  {
    hide MaxResult, Mirrors, Rising, Chain, RbTree.Valid;
    ghost var refs, nodes := space.refs, space.areas.Nodes();
    InOrderItems(space.areas.model);
    var n: RbNode<Area> := area.rb;
    var leftNode;
    leftNode, at := FindLeftNeighbour(space, area);
    left := leftNode;
    ghost var p := if left == null then 0 else at + 1;
    InsertNode(space, area);
    LinkArea(space, area, leftNode, p);
    PlacedComesOut(refs, nodes, area.link, n, p);
  }

  /** An area that is apart from all others enters the space. */
  method InsertArea(space: Space, area: Area) returns (ghost p: nat)
    requires space.Valid() && MayEnter(space.offset, space.areas.Nodes(), area.info)
    requires Unlinked(space, area) && area.rb.data == area
    modifies space, space.areas, Items(space.areas.model), space.sorted, space.refs, area.rb, area.link
    ensures space.Valid() && Items(space.areas.model) == old(Items(space.areas.model)) + {area.rb}
    ensures FitsAt(old(space.Areas()), area.info, p)
    ensures space.Areas() == old(space.Areas())[..p] + [area.info] + old(space.Areas())[p..]
    ensures EnteredInto(space, area, old(space.areas.Nodes()), old(space.refs))
  {
    hide RbTree.Valid, MaxResult, Rising;
    AreasRise(space.areas.Nodes(), area);
    ghost var refs, nodes := space.refs, space.areas.Nodes();
    ghost var left, at := PlaceArea(space, area);
    p := InsertedAgrees(space.offset, refs, nodes, area, area.rb, left, at);
  }

  // ---------------------------------------------------------------- removal

  lemma MirrorsRemoved(refs: seq<SlistRef<AreaInfo>>, nodes: seq<RbNode<Area>>, i: nat)
    requires Mirrors(refs, nodes) && i < |refs|
    ensures Mirrors(refs[..i] + refs[i + 1..], nodes[..i] + nodes[i + 1..])
    ensures Infos(nodes[..i] + nodes[i + 1..]) == Infos(nodes)[..i] + Infos(nodes)[i + 1..]
  {
    var refs', nodes' := refs[..i] + refs[i + 1..], nodes[..i] + nodes[i + 1..];
    forall j | 0 <= j < |nodes'|
      ensures refs'[j] == (if j < i then refs[j] else refs[j + 1])
      ensures nodes'[j] == (if j < i then nodes[j] else nodes[j + 1])
    {
    }
  }

  /** All areas but this one are in order. */
  ghost predicate InOrderWithout(space: Space, area: Area)
    reads space, space.areas, area
    requires area.rb != null
  {
    var nodes := RbDelete.Removed<RbNode<Area>>(space.areas.Nodes(), area.rb);
    InStep(space.offset, RbDelete.Removed(space.refs, area.link), nodes)
  }

  /** What was in order stays in order without any one of the areas. */
  lemma RemovedInStep(offset: nat, refs: seq<SlistRef<AreaInfo>>, nodes: seq<RbNode<Area>>, n: RbNode<Area>)
      returns (i: nat)
    requires InStep(offset, refs, nodes) && AllDifferent(refs) && n in nodes
    ensures i < |refs| && i < |nodes| && nodes[i] == n && n.data.link == refs[i]
    ensures InStep(offset, RbDelete.Removed(refs, n.data.link), RbDelete.Removed(nodes, n))
    ensures Infos(RbDelete.Removed(nodes, n)) == Infos(nodes)[..i] + Infos(nodes)[i + 1..]
  {
    i := RemovedIsSplit(nodes, n);
    RemovedAscends(Infos(nodes), i);
    MirrorsRemoved(refs, nodes, i);
    var j := RemovedIsSplit(refs, n.data.link);
  }

  /** A space in order holds each of its areas in tree and list, and is in order without it. */
  lemma AreaIsEntered(space: Space, area: Area) returns (i: nat)
    requires space.Valid() && area.rb != null && area.rb.data == area && area.rb in Items(space.areas.model)
    ensures Entered(space, area) && InOrderWithout(space, area)
    ensures i < |space.Areas()| && space.Areas()[i] == area.info
    ensures var nodes := RbDelete.Removed<RbNode<Area>>(space.areas.Nodes(), area.rb);
            Infos(nodes) == space.Areas()[..i] + space.Areas()[i + 1..]
  {
    hide RbTree.Valid, InStep;
    InOrderItems(space.areas.model);
    var n: RbNode<Area> := area.rb;
    assert ([space.sorted] + space.refs)[1..] == space.refs;
    i := RemovedInStep(space.offset, space.refs, space.areas.Nodes(), n);
  }

  /** The tree half of a removal leaves the list alone. */
  method RemoveNode(space: Space, n: RbNode<Area>)
    requires space.areas.Valid() && Chain([space.sorted] + space.refs) && n in Items(space.areas.model)
    modifies space.areas, Items(space.areas.model)
    ensures space.areas.Valid() && Items(space.areas.model) == old(Items(space.areas.model)) - {n}
    ensures space.areas.Nodes() == RbDelete.Removed(old(space.areas.Nodes()), n)
    ensures Chain([space.sorted] + space.refs)
  {
    RbDelete.Delete(space.areas, n);
  }

  /** The list half of a removal. */
  method UnlinkArea(space: Space, area: Area, ghost i: nat)
    requires space.areas.Valid()
    requires Chain([space.sorted] + space.refs) && i < |space.refs| && area.link == space.refs[i]
    modifies space, space.sorted, space.refs
    ensures space.areas.Valid()
    ensures space.refs == old(space.refs)[..i] + old(space.refs)[i + 1..]
    ensures Chain([space.sorted] + space.refs)
  {
    hide RbTree.Spells, Chain;
    ghost var m := Snapshot(Items(space.areas.model));
    HeadedRemove(space.sorted, space.refs, i);
    Slist.Remove(space.sorted, area.link, [space.sorted] + space.refs, i + 1);
    space.refs := space.refs[..i] + space.refs[i + 1..];
    assert Snapshot(Items(space.areas.model)) == m;
  }

  /** vm_space_remove_area, in whatever order the areas are. Without the area they may be in order again. */
  method RemoveArea(space: Space, area: Area)
    requires Entered(space, area)
    modifies space, space.areas, Items(space.areas.model), space.sorted, space.refs
    ensures space.areas.Valid() && Items(space.areas.model) == old(Items(space.areas.model)) - {area.rb}
    ensures space.areas.Nodes() == RbDelete.Removed<RbNode<Area>>(old(space.areas.Nodes()), area.rb)
    ensures Chain([space.sorted] + space.refs) && space.refs == RbDelete.Removed(old(space.refs), area.link)
    ensures space.Valid() <==> old(InOrderWithout(space, area))
  {
    hide RbTree.Valid, InStep, Chain;
    var n: RbNode<Area> := area.rb;
    ghost var i := RemovedIsSplit(space.refs, area.link);
    RemoveNode(space, n);
    UnlinkArea(space, area, i);
  }
}
