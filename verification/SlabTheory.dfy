/** The slabs of a cache as a value: what taking, returning, adding and dropping do to the objects in use. */
module SlabTheory {
  import opened SlabLayout

  /** A free buffer and the control block that lists it. */
  datatype Buffer = Buffer(ctl: nat, mem: nat)

  datatype Slab = Slab(header: nat, first: nat, inuse: nat, free: seq<Buffer>)

  function Objects(g: Geometry, first: nat): set<nat> {
    set i | 0 <= i < g.capacity :: ObjectAt(g, first, i)
  }

  function Mems(free: seq<Buffer>): set<nat> {
    set i | 0 <= i < |free| :: free[i].mem
  }

  function CtlsOf(free: seq<Buffer>): set<nat> {
    set i | 0 <= i < |free| :: free[i].ctl
  }

  /** The objects of a slab that its users hold: those that are not free. */
  function LiveIn(g: Geometry, s: Slab): set<nat> {
    Objects(g, s.first) - Mems(s.free)
  }

  function Live(g: Geometry, slabs: map<nat, Slab>): set<nat> {
    set p, m | p in slabs && m in LiveIn(g, slabs[p]) :: m
  }

  /** All control blocks of the free buffers of a cache, and all its slab headers. */
  function Ctls(slabs: map<nat, Slab>): set<nat> {
    set p, c | p in slabs && c in CtlsOf(slabs[p].free) :: c
  }

  function Heads(slabs: map<nat, Slab>): set<nat> {
    set p | p in slabs :: slabs[p].header
  }

  ghost predicate DistinctMems(free: seq<Buffer>) {
    forall i, j :: 0 <= i < j < |free| ==> free[i].mem != free[j].mem
  }

  ghost predicate DistinctCtls(free: seq<Buffer>) {
    forall i, j :: 0 <= i < j < |free| ==> free[i].ctl != free[j].ctl
  }

  /** A small slab keeps its header and its control blocks in the page. */
  ghost predicate InPage(g: Geometry, page: nat, s: Slab) {
    && s.header == page + PAGE_HEADER
    && forall b :: b in s.free ==> b.ctl == CtlOf(g, b.mem)
  }

  ghost predicate SlabOk(g: Geometry, page: nat, s: Slab) {
    && Placed(g, page, s.first)
    && s.inuse + |s.free| == g.capacity
    && DistinctMems(s.free)
    && Mems(s.free) <= Objects(g, s.first)
    && (if g.large then DistinctCtls(s.free) else InPage(g, page, s))
  }

  /** Different slabs of a large cache have different headers and share no control block. */
  ghost predicate Separate(slabs: map<nat, Slab>) {
    && (forall p, q :: p in slabs && q in slabs && p != q ==> slabs[p].header != slabs[q].header)
    && (forall p, q :: p in slabs && q in slabs && p != q ==> CtlsOf(slabs[p].free) !! CtlsOf(slabs[q].free))
  }

  ghost predicate SlabsOk(g: Geometry, slabs: map<nat, Slab>) {
    && Proper(g)
    && (forall p :: p in slabs ==> SlabOk(g, p, slabs[p]))
    && (g.large ==> Separate(slabs))
  }

  /** The first free buffer of a slab goes into use. */
  function Taken(s: Slab): Slab
    requires |s.free| > 0
  {
    s.(inuse := s.inuse + 1, free := s.free[1..])
  }

  /** An object comes back and is listed first. */
  function Returned(s: Slab, b: Buffer): Slab
    requires s.inuse > 0
  {
    s.(inuse := s.inuse - 1, free := [b] + s.free)
  }

  lemma FirstBuffer(free: seq<Buffer>)
    requires |free| > 0
    ensures Mems(free) == {free[0].mem} + Mems(free[1..])
    ensures CtlsOf(free) == {free[0].ctl} + CtlsOf(free[1..])
    ensures DistinctMems(free) ==> DistinctMems(free[1..]) && free[0].mem !in Mems(free[1..])
    ensures DistinctCtls(free) ==> DistinctCtls(free[1..]) && free[0].ctl !in CtlsOf(free[1..])
  {
    var rest := free[1..];
    forall i | 0 < i < |free| ensures free[i] == rest[i - 1] {
    }
    forall m | m in Mems(free) ensures m in {free[0].mem} + Mems(rest) {
      var i :| 0 <= i < |free| && free[i].mem == m;
      if i > 0 {
        assert rest[i - 1].mem == m;
      }
    }
    forall c | c in CtlsOf(free) ensures c in {free[0].ctl} + CtlsOf(rest) {
      var i :| 0 <= i < |free| && free[i].ctl == c;
      if i > 0 {
        assert rest[i - 1].ctl == c;
      }
    }
  }

  lemma MoreMems(b: Buffer, free: seq<Buffer>)
    requires DistinctMems(free) && b.mem !in Mems(free)
    ensures DistinctMems([b] + free)
  {
    var more := [b] + free;
    assert forall i :: 0 < i < |more| ==> more[i] == free[i - 1] && free[i - 1].mem in Mems(free);
  }

  lemma MoreCtls(b: Buffer, free: seq<Buffer>)
    requires DistinctCtls(free) && b.ctl !in CtlsOf(free)
    ensures DistinctCtls([b] + free)
  {
    var more := [b] + free;
    assert forall i :: 0 < i < |more| ==> more[i] == free[i - 1] && free[i - 1].ctl in CtlsOf(free);
  }

  lemma MoreBuffers(b: Buffer, free: seq<Buffer>)
    ensures Mems([b] + free) == {b.mem} + Mems(free)
    ensures CtlsOf([b] + free) == {b.ctl} + CtlsOf(free)
    ensures DistinctMems(free) && b.mem !in Mems(free) ==> DistinctMems([b] + free)
    ensures DistinctCtls(free) && b.ctl !in CtlsOf(free) ==> DistinctCtls([b] + free)
  {
    hide Mems, CtlsOf, DistinctMems, DistinctCtls;
    assert ([b] + free)[1..] == free;
    FirstBuffer([b] + free);
    if DistinctMems(free) && b.mem !in Mems(free) {
      MoreMems(b, free);
    }
    if DistinctCtls(free) && b.ctl !in CtlsOf(free) {
      MoreCtls(b, free);
    }
  }

  /** An address in use leads to the slab it belongs to. */
  lemma ObjectsInPage(g: Geometry, page: nat, first: nat, m: nat)
    requires Proper(g) && Placed(g, page, first) && m in Objects(g, first)
    ensures PageOf(m) == page && page + PAGE_HEADER <= m && m + g.stride <= page + PAGE
    ensures !g.large ==> page + PAGE_HEADER + SLAB_HEADER <= m
    ensures g.alignment > 0 ==> m % g.alignment == 0
  {
    var i :| 0 <= i < g.capacity && m == ObjectAt(g, first, i);
    ObjectFits(g, page, first, i);
  }

  /** No object of a slab lies on the header of its page, or on the slab header of a small slab. */
  lemma HeadersAreClear(g: Geometry, page: nat, s: Slab, m: nat)
    requires Proper(g) && SlabOk(g, page, s) && m in Objects(g, s.first)
    ensures page + PAGE_HEADER <= m && m + g.stride <= page + PAGE
    ensures !g.large ==> page + PAGE_HEADER == s.header && s.header + SLAB_HEADER <= m
  {
    ObjectsInPage(g, page, s.first, m);
  }

  lemma LiveInPage(g: Geometry, slabs: map<nat, Slab>, m: nat)
    requires SlabsOk(g, slabs)
    ensures m in Live(g, slabs) <==> PageOf(m) in slabs && m in LiveIn(g, slabs[PageOf(m)])
  {
    if m in Live(g, slabs) {
      var p :| p in slabs && m in LiveIn(g, slabs[p]);
      assert SlabOk(g, p, slabs[p]);
      ObjectsInPage(g, p, slabs[p].first, m);
    }
  }

  /** What replacing, adding or dropping one slab does to the objects in use. */
  lemma LiveSplits(g: Geometry, slabs: map<nat, Slab>, p: nat)
    requires SlabsOk(g, slabs) && p in slabs
    ensures Live(g, slabs) == Live(g, slabs - {p}) + LiveIn(g, slabs[p])
    ensures Live(g, slabs - {p}) !! LiveIn(g, slabs[p])
    ensures SlabsOk(g, slabs - {p})
  {
    var rest := slabs - {p};
    forall m ensures m in Live(g, slabs) <==> m in Live(g, rest) || m in LiveIn(g, slabs[p])
      ensures !(m in Live(g, rest) && m in LiveIn(g, slabs[p]))
    {
      LiveInPage(g, slabs, m);
      LiveInPage(g, rest, m);
      if m in LiveIn(g, slabs[p]) {
        assert SlabOk(g, p, slabs[p]);
        ObjectsInPage(g, p, slabs[p].first, m);
      }
    }
  }

  lemma CtlsSplit(g: Geometry, slabs: map<nat, Slab>, p: nat)
    requires SlabsOk(g, slabs) && p in slabs && g.large
    ensures Ctls(slabs) == Ctls(slabs - {p}) + CtlsOf(slabs[p].free)
    ensures Ctls(slabs - {p}) !! CtlsOf(slabs[p].free)
    ensures Heads(slabs) == Heads(slabs - {p}) + {slabs[p].header}
    ensures slabs[p].header !in Heads(slabs - {p})
  {
    hide SlabOk;
    var rest := slabs - {p};
    assert forall q :: q in rest ==> q in slabs && rest[q] == slabs[q] && q != p;
    forall c | c in Ctls(slabs) ensures c in Ctls(rest) || c in CtlsOf(slabs[p].free) {
      var q :| q in slabs && c in CtlsOf(slabs[q].free);
      if q != p {
        assert q in rest && c in CtlsOf(rest[q].free);
      }
    }
    forall h | h in Heads(slabs) ensures h in Heads(rest) || h == slabs[p].header {
      var q :| q in slabs && h == slabs[q].header;
      if q != p {
        assert q in rest && h == rest[q].header;
      }
    }
  }

  lemma NewSlabIsSeparate(slabs: map<nat, Slab>, p: nat, s: Slab)
    requires Separate(slabs) && p !in slabs
    requires CtlsOf(s.free) !! Ctls(slabs) && s.header !in Heads(slabs)
    ensures Separate(slabs[p := s])
  {
    forall r | r in slabs ensures slabs[r].header != s.header && CtlsOf(slabs[r].free) !! CtlsOf(s.free) {
      assert slabs[r].header in Heads(slabs);
      assert forall c :: c in CtlsOf(slabs[r].free) ==> c in Ctls(slabs);
    }
  }

  /** Adding a slab on a page of its own, with a header and control blocks of its own. */
  lemma SlabAdded(g: Geometry, slabs: map<nat, Slab>, p: nat, s: Slab)
    requires SlabsOk(g, slabs) && p !in slabs && SlabOk(g, p, s)
    requires g.large ==> CtlsOf(s.free) !! Ctls(slabs) && s.header !in Heads(slabs)
    ensures SlabsOk(g, slabs[p := s])
    ensures Live(g, slabs[p := s]) == Live(g, slabs) + LiveIn(g, s)
    ensures Live(g, slabs) !! LiveIn(g, s)
    ensures g.large ==> Ctls(slabs[p := s]) == Ctls(slabs) + CtlsOf(s.free)
    ensures g.large ==> Heads(slabs[p := s]) == Heads(slabs) + {s.header}
  {
    var more := slabs[p := s];
    if g.large {
      NewSlabIsSeparate(slabs, p, s);
    }
    assert SlabsOk(g, more);
    assert more - {p} == slabs;
    LiveSplits(g, more, p);
    if g.large {
      CtlsSplit(g, more, p);
    }
  }

  /** Taking a buffer of slab p puts one more object into use, which nobody held before. */
  lemma TakeHandsOut(g: Geometry, slabs: map<nat, Slab>, p: nat)
    requires SlabsOk(g, slabs) && p in slabs && |slabs[p].free| > 0
    ensures var b, after := slabs[p].free[0], slabs[p := Taken(slabs[p])];
            && SlabsOk(g, after)
            && b.mem !in Live(g, slabs) && Live(g, after) == Live(g, slabs) + {b.mem}
            && PageOf(b.mem) == p && b.mem in Objects(g, slabs[p].first)
            && (g.large ==>
                b.ctl in Ctls(slabs) && Ctls(after) == Ctls(slabs) - {b.ctl} && Heads(after) == Heads(slabs))
  {
    var s := slabs[p];
    var b := s.free[0];
    var rest := slabs - {p};
    LiveSplits(g, slabs, p);
    FirstBuffer(s.free);
    ObjectsInPage(g, p, s.first, b.mem);
    LiveInPage(g, slabs, b.mem);
    if g.large {
      CtlsSplit(g, slabs, p);
    }
    assert InPage(g, p, s) ==> InPage(g, p, Taken(s));
    assert SlabOk(g, p, Taken(s));
    assert LiveIn(g, Taken(s)) == LiveIn(g, s) + {b.mem};
    SlabAdded(g, rest, p, Taken(s));
    assert rest[p := Taken(s)] == slabs[p := Taken(s)];
  }

  function FirstObjects(g: Geometry, first: nat, n: nat): set<nat> {
    set i | 0 <= i < n :: ObjectAt(g, first, i)
  }

  lemma {:induction false} ObjectsCount(g: Geometry, first: nat, n: nat)
    requires Proper(g) && n <= g.capacity
    ensures |FirstObjects(g, first, n)| == n
    ensures n == g.capacity ==> |Objects(g, first)| == n
  {
    assert FirstObjects(g, first, g.capacity) == Objects(g, first);
    if n > 0 {
      ObjectsCount(g, first, n - 1);
      var last := ObjectAt(g, first, n - 1);
      forall i | 0 <= i < n - 1 ensures ObjectAt(g, first, i) != last {
        ObjectsAscend(g, first, i, n - 1);
      }
      assert FirstObjects(g, first, n) == FirstObjects(g, first, n - 1) + {last};
    }
  }

  lemma {:induction false} MemsCount(free: seq<Buffer>)
    requires DistinctMems(free)
    ensures |Mems(free)| == |free|
  {
    if |free| > 0 {
      FirstBuffer(free);
      MemsCount(free[1..]);
    }
  }

  /** The objects in use are as many as the slab counts. */
  lemma InUseCounts(g: Geometry, page: nat, s: Slab)
    requires Proper(g) && SlabOk(g, page, s)
    ensures |LiveIn(g, s)| == s.inuse
  {
    ObjectsCount(g, s.first, g.capacity);
    MemsCount(s.free);
    assert |Objects(g, s.first)| == |LiveIn(g, s)| + |Mems(s.free)| by {
      assert Objects(g, s.first) == LiveIn(g, s) + Mems(s.free);
    }
  }

  lemma InUseIsPositive(g: Geometry, page: nat, s: Slab, m: nat)
    requires Proper(g) && SlabOk(g, page, s) && m in LiveIn(g, s)
    ensures s.inuse > 0
  {
    InUseCounts(g, page, s);
    assert LiveIn(g, s) != {};
  }

  /** Returning an object in use to its slab takes exactly that object out of use. */
  lemma ReturnTakesBack(g: Geometry, slabs: map<nat, Slab>, b: Buffer)
    requires SlabsOk(g, slabs) && b.mem in Live(g, slabs)
    requires if g.large then b.ctl !in Ctls(slabs) else b.ctl == CtlOf(g, b.mem)
    ensures var p := PageOf(b.mem);
            && p in slabs && slabs[p].inuse > 0
            && var after := slabs[p := Returned(slabs[p], b)];
               && SlabsOk(g, after)
               && Live(g, after) == Live(g, slabs) - {b.mem}
               && (g.large ==> Ctls(after) == Ctls(slabs) + {b.ctl} && Heads(after) == Heads(slabs))
  {
    var p := PageOf(b.mem);
    LiveInPage(g, slabs, b.mem);
    var s := slabs[p];
    var rest := slabs - {p};
    InUseIsPositive(g, p, s, b.mem);
    LiveSplits(g, slabs, p);
    MoreBuffers(b, s.free);
    if g.large {
      CtlsSplit(g, slabs, p);
    }
    var t := Returned(s, b);
    assert InPage(g, p, s) && b.ctl == CtlOf(g, b.mem) ==> InPage(g, p, t);
    assert SlabOk(g, p, t);
    assert LiveIn(g, t) == LiveIn(g, s) - {b.mem};
    SlabAdded(g, rest, p, t);
    assert rest[p := t] == slabs[p := t];
  }

  /** The buffers of a new slab, listed as they were made: the last object first. */
  ghost predicate MadeInOrder(g: Geometry, first: nat, free: seq<Buffer>) {
    forall k :: 0 <= k < |free| ==> free[k].mem == ObjectAt(g, first, |free| - 1 - k)
  }

  lemma OneMoreMade(g: Geometry, first: nat, free: seq<Buffer>, ctl: nat)
    requires MadeInOrder(g, first, free)
    ensures MadeInOrder(g, first, [Buffer(ctl, ObjectAt(g, first, |free|))] + free)
  {
    var more := [Buffer(ctl, ObjectAt(g, first, |free|))] + free;
    forall k | 0 <= k < |more| ensures more[k].mem == ObjectAt(g, first, |more| - 1 - k) {
      assert k > 0 ==> more[k] == free[k - 1];
    }
  }

  /** All objects of a new slab are free, and each is listed once. */
  lemma NewSlabIsFree(g: Geometry, first: nat, free: seq<Buffer>)
    requires Proper(g) && |free| == g.capacity && MadeInOrder(g, first, free)
    ensures DistinctMems(free) && Mems(free) == Objects(g, first)
  {
    forall i, j | 0 <= i < j < |free| ensures free[i].mem != free[j].mem {
      ObjectsAscend(g, first, |free| - 1 - j, |free| - 1 - i);
    }
    forall i | 0 <= i < g.capacity ensures ObjectAt(g, first, i) in Mems(free) {
      assert free[|free| - 1 - i].mem == ObjectAt(g, first, i);
    }
  }

  // ------------------------------------------------------------ counting

  ghost function Pick<K, V>(m: map<K, V>): (k: K)
    requires m.Keys != {}
    ensures k in m
  {
    var k :| k in m;
    k
  }

  /** The number of free buffers of a cache. */
  ghost function FreeBuffers(slabs: map<nat, Slab>): nat {
    if slabs.Keys == {} then 0 else var p := Pick(slabs); |slabs[p].free| + FreeBuffers(slabs - {p})
  }

  /** Each slab adds its own free buffers. */
  lemma {:induction false} FreeBuffersSplit(slabs: map<nat, Slab>, p: nat)
    requires p in slabs
    ensures FreeBuffers(slabs) == |slabs[p].free| + FreeBuffers(slabs - {p})
    decreases slabs.Keys
  {
    var q := Pick(slabs);
    if p != q {
      var a, b := slabs - {q}, slabs - {p};
      FreeBuffersSplit(a, p);
      FreeBuffersSplit(b, q);
      assert a - {p} == b - {q};
    }
  }

  lemma FreeBuffersWith(slabs: map<nat, Slab>, p: nat, s: Slab)
    ensures FreeBuffers(slabs[p := s]) == |s.free| + FreeBuffers(slabs - {p})
    ensures p in slabs ==> FreeBuffers(slabs) == |slabs[p].free| + FreeBuffers(slabs - {p})
    ensures p !in slabs ==> slabs - {p} == slabs
  {
    FreeBuffersSplit(slabs[p := s], p);
    assert slabs[p := s] - {p} == slabs - {p};
    if p in slabs {
      FreeBuffersSplit(slabs, p);
    }
  }

  lemma {:induction false} NoFreeBuffers(slabs: map<nat, Slab>)
    requires forall p :: p in slabs ==> slabs[p].free == []
    ensures FreeBuffers(slabs) == 0
    decreases slabs.Keys
  {
    if slabs.Keys != {} {
      NoFreeBuffers(slabs - {Pick(slabs)});
    }
  }

  lemma {:induction false} CtlsCount(free: seq<Buffer>)
    requires DistinctCtls(free)
    ensures |CtlsOf(free)| == |free|
  {
    if |free| > 0 {
      FirstBuffer(free);
      CtlsCount(free[1..]);
    }
  }

  lemma LargeSlabCounts(g: Geometry, slabs: map<nat, Slab>, p: nat)
    requires SlabsOk(g, slabs) && g.large && p in slabs
    ensures |CtlsOf(slabs[p].free)| == |slabs[p].free|
    ensures |slabs| == |slabs - {p}| + 1
  {
    assert SlabOk(g, p, slabs[p]);
    CtlsCount(slabs[p].free);
    assert (slabs - {p}).Keys == slabs.Keys - {p} && |slabs.Keys| == |slabs|;
  }

  lemma NoSlabsNoCtls(slabs: map<nat, Slab>)
    requires slabs.Keys == {}
    ensures Ctls(slabs) == {} && Heads(slabs) == {} && |slabs| == 0
  {
    assert |slabs| == |slabs.Keys|;
  }

  /** A large cache has one control block for each free buffer and one header for each slab. */
  lemma {:induction false} LargeCounts(g: Geometry, slabs: map<nat, Slab>)
    requires SlabsOk(g, slabs) && g.large
    ensures |Ctls(slabs)| == FreeBuffers(slabs)
    ensures |Heads(slabs)| == |slabs|
    decreases slabs.Keys
  {
    hide SlabsOk, Live, Ctls, Heads;
    if slabs.Keys != {} {
      var p := Pick(slabs);
      CtlsSplit(g, slabs, p);
      LargeSlabCounts(g, slabs, p);
      LiveSplits(g, slabs, p);
      LargeCounts(g, slabs - {p});
    } else {
      NoSlabsNoCtls(slabs);
    }
  }
}
