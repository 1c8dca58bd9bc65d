/** Gaps between the areas of a space, new areas in such gaps, and the lookup at a page fault. */
module VmGap {
  import opened RbTheory
  import opened RbHeap
  import opened RbOrder
  import RbInsert
  import RbDelete
  import opened RbSearch
  import opened Slist
  import opened VmArea
  import opened VmSpace

  // ---------------------------------------------------------------- page fault lookup

  /** The index of the first area holding the address, or -1: a walk along the list. */
  ghost function Scan(s: seq<AreaInfo>, address: nat): (i: int)
    ensures -1 <= i < |s|
  {
    if s == [] then -1
    else if Contains(s[0], address) then 0
    else var i := Scan(s[1..], address); if i < 0 then -1 else i + 1
  }

  lemma {:induction false} ScanFinds(s: seq<AreaInfo>, address: nat)
    ensures var i := Scan(s, address);
      && (i >= 0 ==> Contains(s[i], address))
      && (i < 0 ==> forall j :: 0 <= j < |s| ==> !Contains(s[j], address))
  {
    if s != [] && !Contains(s[0], address) {
      ScanFinds(s[1..], address);
      forall j | 0 <= j < |s| && Scan(s, address) < 0 ensures !Contains(s[j], address) {
        assert j > 0 ==> s[j] == s[1..][j - 1];
      }
    }
  }

  lemma OnlyOneHolds(s: seq<AreaInfo>, address: nat, i: nat, j: nat)
    requires Ascending(s) && i < |s| && j < |s| && Contains(s[i], address) && Contains(s[j], address)
    ensures i == j
  {
  }

  method FindAreaAt(space: Space, address: nat) returns (r: RbNode?<Area>)
    requires space.Valid() && address < WORD
    ensures r == null <==> Scan(space.Areas(), address) < 0
    ensures r != null ==> r in space.areas.Nodes() && r.data.info == space.Areas()[Scan(space.Areas(), address)]
  {
    ghost var nodes, infos := space.areas.Nodes(), space.Areas();
    AddressesRise(nodes, address);
    ScanFinds(infos, address);
    ghost var steps;
    r, steps := Search(space.areas, address, CompareAreaToAddress);
    if r != null {
      ghost var i :| 0 <= i < |nodes| && nodes[i] == r;
      assert Fits(infos[i]);
      ZeroMeansInside(r.data, address);
      OnlyOneHolds(infos, address, i, Scan(infos, address));
    } else {
      forall i | 0 <= i < |infos| ensures !Contains(infos[i], address) {
        assert Fits(infos[i]) && nodes[i] in nodes;
        ZeroMeansInside(nodes[i].data, address);
      }
    }
  }

  // ---------------------------------------------------------------- gaps

  datatype Gap = Gap(base: nat, length: nat)

  /** The areas lie, in ascending order, between `next` and `end`. */
  ghost predicate Between(next: nat, s: seq<AreaInfo>, end: nat)
    decreases |s|
  {
    && next <= end
    && (s != [] ==> Fits(s[0]) && next <= s[0].base && Between(s[0].base + s[0].length, s[1..], end))
  }

  /** The gaps before each area, and the one after the last. */
  ghost function Gaps(next: nat, s: seq<AreaInfo>, end: nat): seq<Gap>
    requires Between(next, s, end)
    decreases |s|
  {
    if s == [] then [Gap(next, end - next)]
    else [Gap(next, s[0].base - next)] + Gaps(s[0].base + s[0].length, s[1..], end)
  }

  ghost predicate InGap(g: Gap, x: nat) {
    g.base <= x < g.base + g.length
  }

  /** The first gap that `accepts` takes; nothing at address 0 if it takes none. */
  ghost function Chosen(gaps: seq<Gap>, accepts: (nat, nat) -> bool): Gap {
    if gaps == [] then Gap(0, 0)
    else if accepts(gaps[0].base, gaps[0].length) then gaps[0]
    else Chosen(gaps[1..], accepts)
  }

  lemma {:induction false} GapsStartAt(next: nat, s: seq<AreaInfo>, end: nat)
    requires Between(next, s, end)
    ensures forall g :: g in Gaps(next, s, end) ==> next <= g.base && g.base + g.length <= end
    decreases |s|
  {
    if s != [] {
      GapsStartAt(s[0].base + s[0].length, s[1..], end);
    }
  }

  lemma {:induction false} AreasStartAt(next: nat, s: seq<AreaInfo>, end: nat)
    requires Between(next, s, end)
    ensures forall i :: 0 <= i < |s| ==> next <= s[i].base && s[i].base + s[i].length <= end
    decreases |s|
  {
    if s != [] {
      AreasStartAt(s[0].base + s[0].length, s[1..], end);
      forall i | 0 <= i < |s| ensures next <= s[i].base && s[i].base + s[i].length <= end {
        assert i > 0 ==> s[i] == s[1..][i - 1];
      }
    }
  }

  /** The gaps are exactly what the areas leave free between `next` and `end`. */
  lemma {:induction false} GapsAreComplement(next: nat, s: seq<AreaInfo>, end: nat, x: nat)
    requires Between(next, s, end) && next <= x < end
    ensures (exists g :: g in Gaps(next, s, end) && InGap(g, x)) <==> (forall i :: 0 <= i < |s| ==> !Contains(s[i], x))
    decreases |s|
  {
    var gaps := Gaps(next, s, end);
    if s == [] {
      assert gaps[0] in gaps && InGap(gaps[0], x);
    } else {
      var after := s[0].base + s[0].length;
      var rest := Gaps(after, s[1..], end);
      GapsStartAt(after, s[1..], end);
      AreasStartAt(after, s[1..], end);
      assert gaps == [gaps[0]] + rest;
      if x < after {
        assert x < s[0].base ==> gaps[0] in gaps && InGap(gaps[0], x);
        forall i | 0 <= i < |s| && x < s[0].base ensures !Contains(s[i], x) {
          assert i > 0 ==> s[i] == s[1..][i - 1];
        }
        assert x >= s[0].base ==> Contains(s[0], x);
      } else {
        GapsAreComplement(after, s[1..], end, x);
        forall i | 0 < i < |s| ensures s[i] == s[1..][i - 1] {}
        assert forall g :: g in gaps && InGap(g, x) ==> g in rest;
        assert forall g :: g in rest ==> g in gaps;
        assert (forall i :: 0 <= i < |s[1..]| ==> !Contains(s[1..][i], x)) ==> forall i :: 0 <= i < |s| ==>
            !Contains(s[i], x);
        if forall i :: 0 <= i < |s| ==> !Contains(s[i], x) {
          forall i | 0 <= i < |s[1..]| ensures !Contains(s[1..][i], x) {
            assert s[1..][i] == s[i + 1];
          }
        }
      }
    }
  }

  /** They come in ascending order and do not overlap. */
  lemma {:induction false} GapsAscend(next: nat, s: seq<AreaInfo>, end: nat)
    requires Between(next, s, end)
    ensures forall i, j :: 0 <= i < j < |Gaps(next, s, end)| ==>
      Gaps(next, s, end)[i].base + Gaps(next, s, end)[i].length <= Gaps(next, s, end)[j].base
    decreases |s|
  {
    if s != [] {
      var after := s[0].base + s[0].length;
      GapsAscend(after, s[1..], end);
      GapsStartAt(after, s[1..], end);
      var gaps, rest := Gaps(next, s, end), Gaps(after, s[1..], end);
      forall i, j | 0 <= i < j < |gaps| ensures gaps[i].base + gaps[i].length <= gaps[j].base {
        assert gaps[j] == rest[j - 1] && rest[j - 1] in rest;
        assert i > 0 ==> gaps[i] == rest[i - 1];
      }
    }
  }

  lemma {:induction false} AscendingIsBetween(next: nat, s: seq<AreaInfo>, end: nat)
    requires Ascending(s) && next <= end
    requires forall i :: 0 <= i < |s| ==> next <= s[i].base && s[i].base + s[i].length <= end
    ensures Between(next, s, end)
    decreases |s|
  {
    if s != [] {
      forall i | 0 <= i < |s[1..]| ensures s[1..][i] == s[i + 1] {}
      AscendingIsBetween(s[0].base + s[0].length, s[1..], end);
    }
  }

  /** The gaps before the `i`-th area were refused; the next one begins at `next`. */
  ghost predicate Walking(offset: nat, s: seq<AreaInfo>, end: nat, accepts: (nat, nat) -> bool, next: nat, i: nat) {
    && i <= |s| && Between(offset, s, end) && Between(next, s[i..], end)
    && Chosen(Gaps(offset, s, end), accepts) == Chosen(Gaps(next, s[i..], end), accepts)
  }

  lemma WalkingBegins(offset: nat, s: seq<AreaInfo>, end: nat, accepts: (nat, nat) -> bool)
    requires Between(offset, s, end)
    ensures Walking(offset, s, end, accepts, offset, 0)
  {
    assert s[0..] == s;
  }

  lemma WalkingStep(offset: nat, s: seq<AreaInfo>, end: nat, accepts: (nat, nat) -> bool, next: nat, i: nat)
    requires Walking(offset, s, end, accepts, next, i) && i < |s|
    ensures next <= s[i].base
    ensures if accepts(next, s[i].base - next)
            then Chosen(Gaps(offset, s, end), accepts) == Gap(next, s[i].base - next)
            else Walking(offset, s, end, accepts, s[i].base + s[i].length, i + 1)
  {
    assert s[i..][0] == s[i] && s[i..][1..] == s[i + 1..];
  }

  lemma WalkingEnds(offset: nat, s: seq<AreaInfo>, end: nat, accepts: (nat, nat) -> bool, next: nat)
    requires Walking(offset, s, end, accepts, next, |s|) && end < WORD
    ensures (end + WORD - next) % WORD == end - next
    ensures Chosen(Gaps(offset, s, end), accepts) ==
      if accepts(next, end - next) then Gap(next, end - next) else Gap(0, 0)
  {
    var last := [Gap(next, end - next)];
    assert s[|s|..] == [] && Gaps(next, [], end) == last;
    assert last[1..] == [] && Chosen(last[1..], accepts) == Gap(0, 0);
    assert Chosen(last, accepts) == if accepts(next, end - next) then last[0] else Chosen(last[1..], accepts);
  }

  /** Walk the list `refs` of the areas `infos` and the gaps between them. */
  method WalkGaps(sorted: SlistRef<AreaInfo>, offset: nat, end: nat, accepts: (nat, nat) -> bool,
      ghost refs: seq<SlistRef<AreaInfo>>, ghost infos: seq<AreaInfo>) returns (base: nat, length: nat)
    requires Chain([sorted] + refs) && |refs| == |infos| && forall i :: 0 <= i < |refs| ==> refs[i].elem == infos[i]
    requires end < WORD && Between(offset, infos, end)
    ensures Gap(base, length) == Chosen(Gaps(offset, infos, end), accepts)
  {
    hide Walking;
    var next: nat := offset;
    var it := sorted.next;
    ghost var i, chain := 0, [sorted] + refs;
    assert it == Successor(chain, 0);
    WalkingBegins(offset, infos, end, accepts);
    while it != null
      invariant Chain(chain) && i <= |infos| && it == Successor(chain, i)
      invariant Walking(offset, infos, end, accepts, next, i)
      decreases |infos| - i
    {
      assert it == chain[i + 1] == refs[i];
      WalkingStep(offset, infos, end, accepts, next, i);
      var a := it.elem;
      if accepts(next, a.base - next) {
        return next, a.base - next;
      }
      next := a.base + a.length;
      it := it.next;
      i := i + 1;
    }
    WalkingEnds(offset, infos, end, accepts, next);
    var tail := (end + WORD - next) % WORD;
    if accepts(next, tail) {
      return next, tail;
    }
    return 0, 0;
  }

  /** `end` is the address after the last usable one, which the source computes from constants. */
  method FindGap(space: Space, end: nat, accepts: (nat, nat) -> bool) returns (base: nat, length: nat)
    requires space.Valid() && end < WORD && Between(space.offset, space.Areas(), end)
    ensures space.Valid()
    ensures Gap(base, length) == Chosen(Gaps(space.offset, space.Areas(), end), accepts)
  {
    ghost var m := Snapshot(Items(space.areas.model));
    base, length := WalkGaps(space.sorted, space.offset, end, accepts, space.refs, space.Areas());
    assert Snapshot(Items(space.areas.model)) == m;
  }

  // ---------------------------------------------------------------- new areas

  /** A long enough gap at or above the offset. */
  function LongEnough(offset: nat, size: nat): (nat, nat) -> bool {
    (base, length) => base >= offset && length >= size
  }

  lemma {:induction false} ChosenIsFirst(gaps: seq<Gap>, accepts: (nat, nat) -> bool) returns (i: nat)
    ensures i <= |gaps|
    ensures forall j :: 0 <= j < i ==> !accepts(gaps[j].base, gaps[j].length)
    ensures if i < |gaps| then Chosen(gaps, accepts) == gaps[i] && accepts(gaps[i].base, gaps[i].length)
            else Chosen(gaps, accepts) == Gap(0, 0)
  {
    if gaps == [] || accepts(gaps[0].base, gaps[0].length) {
      i := 0;
    } else {
      var j := ChosenIsFirst(gaps[1..], accepts);
      i := j + 1;
      forall l | 0 <= l < i ensures !accepts(gaps[l].base, gaps[l].length) {
        assert l > 0 ==> gaps[l] == gaps[1..][l - 1];
      }
    }
  }

  lemma {:induction false} InsideGapIsApartFromOne(next: nat, s: seq<AreaInfo>, end: nat, g: Gap, a: AreaInfo, i: nat)
    requires Between(next, s, end) && g in Gaps(next, s, end) && i < |s|
    requires a.base == g.base && 0 < a.length <= g.length
    ensures Apart(s[i], a)
    decreases |s|
  {
    var after := s[0].base + s[0].length;
    AreasStartAt(after, s[1..], end);
    GapsStartAt(after, s[1..], end);
    assert i > 0 ==> s[i] == s[1..][i - 1];
    if g in Gaps(after, s[1..], end) && i > 0 {
      InsideGapIsApartFromOne(after, s[1..], end, g, a, i - 1);
    }
  }

  /** An area that stays inside a gap is apart from all areas. */
  lemma InsideGapIsApart(next: nat, s: seq<AreaInfo>, end: nat, g: Gap, a: AreaInfo)
    requires Between(next, s, end) && end < WORD && g in Gaps(next, s, end)
    requires a.base == g.base && 0 < a.length <= g.length
    ensures Fits(a) && next <= a.base && forall i :: 0 <= i < |s| ==> Apart(s[i], a)
  {
    GapsStartAt(next, s, end);
    forall i | 0 <= i < |s| ensures Apart(s[i], a) {
      InsideGapIsApartFromOne(next, s, end, g, a, i);
    }
  }

  function Min(x: nat, y: nat): nat {
    if x > y then y else x
  }

  /** What the search for a long enough gap comes back with. */
  lemma GapForNewArea(offset: nat, infos: seq<AreaInfo>, end: nat, size: nat)
    requires Between(offset, infos, end) && end < WORD
    ensures var gaps := Gaps(offset, infos, end);
      var g := Chosen(gaps, LongEnough(offset, size));
      && (g.length < size <==> forall h :: h in gaps ==> h.length < size)
      && forall length: nat :: 0 < length <= g.length && size <= g.length ==>
           && Fits(AreaInfo(g.base, length)) && offset <= g.base
           && forall i :: 0 <= i < |infos| ==> Apart(infos[i], AreaInfo(g.base, length))
  {
    var gaps := Gaps(offset, infos, end);
    var g := Chosen(gaps, LongEnough(offset, size));
    GapsStartAt(offset, infos, end);
    var i := ChosenIsFirst(gaps, LongEnough(offset, size));
    assert i < |gaps| ==> gaps[i] in gaps;
    assert gaps[0] in gaps;
    forall length: nat | 0 < length <= g.length && size <= g.length
      ensures Fits(AreaInfo(g.base, length)) && offset <= g.base
      ensures forall i :: 0 <= i < |infos| ==> Apart(infos[i], AreaInfo(g.base, length))
    {
      InsideGapIsApart(offset, infos, end, g, AreaInfo(g.base, length));
    }
  }

  lemma MayEnterInfos(space: Space, info: AreaInfo)
    requires space.offset <= info.base && Fits(info)
    requires forall i :: 0 <= i < |space.Areas()| ==> Apart(space.Areas()[i], info)
    ensures MayEnter(space.offset, space.areas.Nodes(), info)
  {
    forall i | 0 <= i < |space.areas.Nodes()| ensures Apart(space.areas.Nodes()[i].data.info, info) {
      assert space.Areas()[i] == space.areas.Nodes()[i].data.info;
    }
  }

  method MakeArea(space: Space, base: nat, length: nat) returns (area: Area)
    requires space.Valid()
    ensures space.Valid() && fresh(area) && area.info == AreaInfo(base, length)
    ensures Unlinked(space, area) && fresh(area.rb) && area.rb.data == area && fresh(area.link)
  {
    ghost var m := Snapshot(Items(space.areas.model));
    area := new Area(base, length);
    assert Snapshot(Items(space.areas.model)) == m;
  }

  /** The area of no bytes that a search without success leads to, or one that was asked for. */
  ghost predicate NoBytes(offset: nat, info: AreaInfo) {
    info.length == 0 && (info.base == 0 || info.base == offset)
  }

  /**
   * The assertions, if there are any, that an area of no bytes violates: it begins below the space, or seems to end
   * behind the area in the root, the last address of an empty area at 0 being the highest of all.
   */
  ghost predicate Trips(space: Space, info: AreaInfo)
    reads space, space.areas, space.areas.root
  {
    || space.offset > info.base
    || (space.areas.root != null && !CompareAreasAsserts(space.areas.root.data.info, info))
  }

  lemma FirstIsLowest(s: seq<AreaInfo>, i: nat)
    requires Ascending(s) && i < |s|
    ensures i > 0 ==> s[0].base < s[i].base
  {
    assert Fits(s[0]);
  }

  /** It begins below the space, or at 0 when the area in the root does not. */
  lemma TripsExactly(space: Space, info: AreaInfo)
    requires space.Valid() && NoBytes(space.offset, info)
    ensures Trips(space, info) <==>
              || space.offset > info.base
              || (info.base == 0 && space.areas.root != null && space.areas.root.data.info.base > 0)
  {
    var t := space.areas.model;
    if space.areas.root != null {
      var i := |InOrder(t.left)|;
      assert space.areas.Nodes()[i] == space.areas.root && Fits(space.Areas()[i]);
      assert space.areas.root.data.info == space.Areas()[i];
      assert space.offset <= space.Areas()[i].base;
    }
  }

  /** The comparisons after the first one trip no assertion; with an empty area at 0 there are none. */
  lemma OnlyRootTrips(space: Space, info: AreaInfo, root: RbNode<Area>)
    requires space.Valid() && NoBytes(space.offset, info) && space.areas.root == root && !Trips(space, info)
    ensures info.base > 0 ==> forall n :: n in space.areas.Nodes() ==> CompareAreasAsserts(n.data.info, info)
    ensures info.base == 0 ==> root.data.info.base == 0 && root.left == null
  {
    var t := space.areas.model;
    var nodes, infos := space.areas.Nodes(), space.Areas();
    assert nodes == InOrder(t.left) + [root] + InOrder(t.right);
    var i := |InOrder(t.left)|;
    assert nodes[i] == root && Fits(infos[i]) && infos[i] == root.data.info;
    FirstIsLowest(infos, i);
    if info.base == 0 {
      space.areas.At(Top, t);
      assert t.left.Leaf?;
    } else {
      forall n | n in nodes ensures CompareAreasAsserts(n.data.info, info) {
        var j :| 0 <= j < |nodes| && nodes[j] == n;
        assert Fits(infos[j]) && infos[j] == n.data.info;
      }
    }
  }

  /** It goes in front of all areas; only in the list it goes behind one that begins where it does. */
  lemma EmptyGoesFirst(offset: nat, refs: seq<SlistRef<AreaInfo>>, nodes: seq<RbNode<Area>>, area: Area,
      n: RbNode<Area>,
      left: RbNode?<Area>, at: int)
    requires InStep(offset, refs, nodes) && NoBytes(offset, area.info) && n.data == area
    requires MaxResult(CompareAreas, area, nodes, left, at)
    ensures RbInsert.Inserted(CompareAreas, n, nodes) == [n] + nodes
    ensures (if left == null then 0 else at + 1) ==
      if nodes != [] && nodes[0].data.info.base == area.info.base then 1 else 0
  {
    var infos := Infos(nodes);
    forall i | 0 <= i < |nodes|
      ensures CompareAreas(nodes[i].data, area) >= 0
      ensures CompareAreas(nodes[i].data, area) == 0 ==> i == 0
    {
      assert Fits(infos[0]) && infos[i].base == nodes[i].data.info.base;
      assert i > 0 ==> infos[0].base + infos[0].length <= infos[i].base;
    }
    assert Rank(CompareAreas, area, nodes) == 0;
    assert nodes[..0] + [n] + nodes[0..] == [n] + nodes;
  }

  /** Tree and list with the empty area in them. They disagree where it has the address of the first area. */
  ghost predicate EmptyEntered(space: Space, area: Area, nodes: seq<RbNode<Area>>, refs: seq<SlistRef<AreaInfo>>)
    reads space, space.areas, Items(space.areas.model), space.sorted, space.refs, area, set n | n in nodes
  {
    && space.areas.Valid() && Chain([space.sorted] + space.refs) && area.rb != null
    && space.areas.Nodes() == [area.rb] + nodes
    && space.refs == if nodes != [] && refs != [] && nodes[0].data.info.base == area.info.base
                     then [refs[0], area.link] + refs[1..] else [area.link] + refs
  }

  /** A space that holds an area without bytes is not in order. */
  lemma EmptyAreaSpoils(space: Space, i: nat)
    requires i < |space.Areas()| && space.Areas()[i].length == 0
    ensures !space.Valid()
  {
    assert !Fits(space.Areas()[i]);
  }

  /** A space in order can take any area, as far as tree and list go. */
  lemma ValidIsLinked(space: Space, area: Area)
    requires space.Valid()
    ensures Linked(space) && Rising(CompareAreas, area, space.areas.Nodes())
  {
    AreasRise(space.areas.Nodes(), area);
  }

  /** vm_space_insert_area with an area of no bytes. */
  method InsertEmpty(space: Space, area: Area, asserts: bool) returns (trap: bool)
    requires space.Valid() && NoBytes(space.offset, area.info) && Unlinked(space, area) && area.rb.data == area
    modifies space, space.areas, Items(space.areas.model), space.sorted, space.refs, area.rb, area.link
    ensures trap <==> asserts && old(Trips(space, area.info))
    ensures trap <==>
              && asserts
              && (|| space.offset > area.info.base
                  || (area.info.base == 0 && old(space.areas.root) != null && old(space.areas.root).data.info.base > 0))
    ensures trap ==> space.Valid() && space.Areas() == old(space.Areas())
    ensures trap ==> Items(space.areas.model) == old(Items(space.areas.model))
    ensures trap ==> space.areas.Nodes() == old(space.areas.Nodes()) && space.refs == old(space.refs)
    ensures !trap ==> Items(space.areas.model) == old(Items(space.areas.model)) + {area.rb} && !space.Valid()
    ensures !trap ==> EmptyEntered(space, area, old(space.areas.Nodes()), old(space.refs))
    ensures !trap ==> EnteredInto(space, area, old(space.areas.Nodes()), old(space.refs))
  {
    hide Chain, Mirrors, Ascending, MaxResult, CompareAreasAsserts, Rising, RbTree.Valid, EnteredInto, Entered, InStep;
    TripsExactly(space, area.info);
    if asserts && space.offset > area.info.base {
      return true;
    }
    if asserts && space.areas.root != null && !CompareAreasAsserts(space.areas.root.data.info, area.info) {
      return true;
    }
    ValidIsLinked(space, area);
    ghost var refs, nodes := space.refs, space.areas.Nodes();
    ghost var left, at := PlaceArea(space, area);
    EmptyGoesFirst(space.offset, refs, nodes, area, area.rb, left, at);
    EmptyAreaSpoils(space, 0);
    trap := false;
  }

  /** The empty area at 0 passes for the place of every address. */
  lemma EmptyAreaCatchesAll(a: Area, address: nat)
    requires a.info == AreaInfo(0, 0) && address < WORD
    ensures CompareAreaToAddress(a, address) == 0 && !Contains(a.info, address)
  {
    assert LastAddress(a.info) == WORD - 1;
  }

  /**
   * The area that a request leads to: as much of the first long enough gap as it may use. Without such a gap it is
   * empty.
   */
  ghost function Requested(offset: nat, infos: seq<AreaInfo>, end: nat, minSize: nat, maxSize: nat): (a: AreaInfo)
    requires Between(offset, infos, end)
  {
    var g := Chosen(Gaps(offset, infos, end), LongEnough(offset, minSize));
    AreaInfo(g.base, Min(maxSize, g.length))
  }

  /** From the first gap that is long enough, as much as was asked for at most, or all of it. */
  ghost predicate FirstFit(gaps: seq<Gap>, minSize: nat, maxSize: nat, i: nat, a: AreaInfo) {
    && i <= |gaps| && (forall j :: 0 <= j < i ==> gaps[j].length < minSize)
    && if i == |gaps| then a == AreaInfo(0, 0)
       else
         && a.base == gaps[i].base && minSize <= a.length <= maxSize && a.length <= gaps[i].length
         && (a.length == maxSize || a.length == gaps[i].length)
  }

  lemma RequestedIsFirstFit(offset: nat, infos: seq<AreaInfo>, end: nat, minSize: nat, maxSize: nat) returns (i: nat)
    requires Between(offset, infos, end) && minSize <= maxSize
    ensures FirstFit(Gaps(offset, infos, end), minSize, maxSize, i, Requested(offset, infos, end, minSize, maxSize))
  {
    var gaps := Gaps(offset, infos, end);
    GapsStartAt(offset, infos, end);
    i := ChosenIsFirst(gaps, LongEnough(offset, minSize));
    forall j | 0 <= j < i ensures gaps[j].length < minSize {
      assert gaps[j] in gaps;
    }
  }

  lemma RequestedMayEnter(offset: nat, infos: seq<AreaInfo>, end: nat, minSize: nat, maxSize: nat)
    requires Between(offset, infos, end) && end < WORD && minSize <= maxSize
    ensures var gaps := Gaps(offset, infos, end);
            var a := Requested(offset, infos, end, minSize, maxSize);
            var long := Chosen(gaps, LongEnough(offset, minSize)).length >= minSize;
            && (!long <==> forall g :: g in gaps ==> g.length < minSize)
            && (if long then minSize <= a.length else a == AreaInfo(0, 0))
            && (exists i :: FirstFit(gaps, minSize, maxSize, i, a))
            && (a.length == 0 ==> NoBytes(offset, a))
            && (a.length > 0 ==> Fits(a) && offset <= a.base && forall i :: 0 <= i < |infos| ==> Apart(infos[i], a))
  {
    GapForNewArea(offset, infos, end, minSize);
    var fit := RequestedIsFirstFit(offset, infos, end, minSize, maxSize);
    var gaps := Gaps(offset, infos, end);
    var i := ChosenIsFirst(gaps, LongEnough(offset, minSize));
    if minSize == 0 {
      GapsStartAt(offset, infos, end);
      assert gaps[0] in gaps && gaps[0].base == offset;
      assert LongEnough(offset, minSize)(gaps[0].base, gaps[0].length);
    }
  }

  datatype Reservation = NoObject | Trap | Reserved(area: Area)

  /**
   * vm_new_area_within_space: reserve between `minSize` and `maxSize` bytes. `cacheHasOne` says whether the cache had
   * an area object, `asserts` whether assertions are compiled in. That no gap is long enough goes unnoticed.
   */
  method NewArea(space: Space, minSize: nat, maxSize: nat, end: nat, cacheHasOne: bool, asserts: bool)
      returns (r: Reservation, ghost p: nat, ghost i: nat)
    requires space.Valid() && end < WORD && Between(space.offset, space.Areas(), end) && minSize <= maxSize
    modifies space, space.areas, Items(space.areas.model), space.sorted, space.refs
    ensures r.NoObject? <==> !cacheHasOne
    ensures !r.Reserved? ==> space.Valid() && Items(space.areas.model) == old(Items(space.areas.model))
    ensures !r.Reserved? ==> space.areas.Nodes() == old(space.areas.Nodes()) && space.refs == old(space.refs)
    ensures r.Reserved? ==> fresh(r.area) && r.area.rb != null && fresh(r.area.rb) && r.area.rb.data == r.area
    ensures r.Reserved? ==> fresh(r.area.link) && r.area.rb !in old(Items<RbNode<Area>>(space.areas.model))
    ensures r.Reserved? ==>
      Items<RbNode<Area>>(space.areas.model) == old(Items<RbNode<Area>>(space.areas.model)) + {r.area.rb}
    ensures r.Reserved? ==> EnteredInto(space, r.area, old(space.areas.Nodes()), old(space.refs))
    ensures r.Reserved? ==> (space.Valid() <==> r.area.info.length > 0)
    ensures var a := old(Requested(space.offset, space.Areas(), end, minSize, maxSize));
            && FirstFit(old(Gaps(space.offset, space.Areas(), end)), minSize, maxSize, i, a)
            && (r.Reserved? ==> r.area.info == a)
            && (r.Trap? <==> cacheHasOne && asserts && a.length == 0 && old(Trips(space, a)))
            && (r.Reserved? && a.length == 0 ==> EmptyEntered(space, r.area, old(space.areas.Nodes()), old(space.refs)))
            && (r.Reserved? && a.length > 0 ==>
                  && space.Valid() && FitsAt(old(space.Areas()), a, p)
                  && space.Areas() == old(space.Areas())[..p] + [a] + old(space.Areas())[p..])
  {
    hide RbTree.Valid, Chain, Mirrors, InStep, EmptyEntered, EnteredInto, MayEnter, Ascending, Infos, FitsAt, Trips;
    RequestedMayEnter(space.offset, space.Areas(), end, minSize, maxSize);
    i := RequestedIsFirstFit(space.offset, space.Areas(), end, minSize, maxSize);
    var base, length := FindGap(space, end, LongEnough(space.offset, minSize));
    p := 0;
    if !cacheHasOne {
      return NoObject, p, i;
    }
    var area := MakeArea(space, base, Min(maxSize, length));
    if Min(maxSize, length) > 0 {
      MayEnterInfos(space, area.info);
      p := InsertArea(space, area);
      r := Reserved(area);
    } else {
      var trap := InsertEmpty(space, area, asserts);
      r := if trap then Trap else Reserved(area);
    }
  }

  /**
   * vm_free_area, whatever the order of the areas is, up to the return of the object to its cache. A space in order
   * stays in order, and one that only this area spoils gets back in order.
   */
  method FreeArea(space: Space, area: Area) returns (ghost i: nat)
    requires Entered(space, area)
    modifies space, space.areas, Items(space.areas.model), space.sorted, space.refs
    ensures Items<RbNode<Area>>(space.areas.model) == old(Items<RbNode<Area>>(space.areas.model)) - {area.rb}
    ensures space.areas.Valid()
    ensures space.areas.Nodes() == RbDelete.Removed<RbNode<Area>>(old(space.areas.Nodes()), area.rb)
    ensures Chain([space.sorted] + space.refs) && space.refs == RbDelete.Removed(old(space.refs), area.link)
    ensures space.Valid() <==> old(InOrderWithout(space, area))
    ensures old(space.Valid()) && area.rb.data == area ==>
      && space.Valid() && i < |old(space.Areas())| && old(space.Areas())[i] == area.info
      && space.Areas() == old(space.Areas())[..i] + old(space.Areas())[i + 1..]
  {
    hide RbTree.Valid, Chain, InStep;
    i := 0;
    if space.Valid() && area.rb.data == area {
      i := AreaIsEntered(space, area);
    }
    RemoveArea(space, area);
  }

  /** Nothing is in the list but the freed link and what is left. */
  lemma ComesOutOf<T>(s: seq<T>, x: T, y: T)
    requires y in s
    ensures y == x || y in RbDelete.Removed(s, x)
  {
  }

  /** What was reserved, with bytes or without, can be given back, and then everything is as before. */
  method ReserveAndFree(space: Space, minSize: nat, maxSize: nat, end: nat, cacheHasOne: bool, asserts: bool)
    requires space.Valid() && end < WORD && Between(space.offset, space.Areas(), end) && minSize <= maxSize
    modifies space, space.areas, Items(space.areas.model), space.sorted, space.refs
    ensures space.Valid() && Items(space.areas.model) == old(Items(space.areas.model))
    ensures space.areas.Nodes() == old(space.areas.Nodes()) && space.refs == old(space.refs)
  {
    hide RbTree.Valid, Chain, Mirrors, Ascending, EmptyEntered, FitsAt, Requested, Gaps, Trips, Between;
    var r, p, i := NewArea(space, minSize, maxSize, end, cacheHasOne, asserts);
    if r.Reserved? {
      forall j | 0 <= j < |space.refs| ensures space.refs[j] == r.area.link || space.refs[j] in old(space.refs) {
        ComesOutOf(space.refs, r.area.link, space.refs[j]);
      }
      var _ := FreeArea(space, r.area);
    }
  }
}
