/** All caches together: the registered caches of kmm.c, what they hold of each other, and kmm_cache_trim_all. */
module SlabHeap {
  import opened SlabLayout
  import opened SlabTheory
  import opened SlabCache
  import opened SlabLists
  import opened Slist

  /** Each element of `all` is in exactly one part. */
  ghost predicate Partitions(parts: map<Cache, set<nat>>, all: set<nat>) {
    && (forall c, d :: c in parts && d in parts && c != d ==> parts[c] !! parts[d])
    && (forall c :: c in parts ==> parts[c] <= all)
    && (forall x :: x in all ==> exists c :: c in parts && x in parts[c])
  }

  /** When one part trades with the outside, and none of it concerns the other parts, it stays a partition. */
  lemma OneTraded(parts: map<Cache, set<nat>>, all: set<nat>, c: Cache, parts': map<Cache, set<nat>>, all': set<nat>)
    requires Partitions(parts, all) && parts'.Keys == parts.Keys && c in parts
    requires forall d :: d in parts && d != c ==> parts'[d] == parts[d]
    requires parts'[c] <= all' && all - parts[c] == all' - parts'[c]
    ensures Partitions(parts', all')
  {
    forall d, x | d in parts && d != c && x in parts[d] ensures x in all' && x !in parts'[c] {
      assert x in all - parts[c];
    }
    forall x | x in all' ensures exists d :: d in parts' && x in parts'[d] {
      if x !in parts'[c] {
        assert x in all - parts[c];
        var d :| d in parts && x in parts[d];
        assert d in parts' && x in parts'[d];
      }
    }
  }

  lemma EmptyPart(parts: map<Cache, set<nat>>, all: set<nat>, c: Cache)
    requires Partitions(parts, all) && c !in parts
    ensures Partitions(parts[c := {}], all)
  {
    var more := parts[c := {}];
    forall x | x in all ensures exists d :: d in more && x in more[d] {
      var d :| d in parts && x in parts[d];
      assert d in more && x in more[d];
    }
  }

  lemma NoPart(parts: map<Cache, set<nat>>, all: set<nat>, c: Cache)
    requires Partitions(parts, all) && (c in parts ==> parts[c] == {})
    ensures Partitions(parts - {c}, all)
  {
    var less := parts - {c};
    forall x | x in all ensures exists d :: d in less && x in less[d] {
      var d :| d in parts && x in parts[d];
      assert d in less && x in less[d];
    }
  }

  /** The same for three parts that also trade with each other. */
  lemma ThreeTraded(parts: map<Cache, set<nat>>, all: set<nat>, a: Cache, b: Cache, c: Cache,
                    parts': map<Cache, set<nat>>, all': set<nat>)
    requires Partitions(parts, all) && parts'.Keys == parts.Keys && a in parts && b in parts && c in parts
    requires forall d :: d in parts && d != a && d != b && d != c ==> parts'[d] == parts[d]
    requires a != b && a != c && b != c
    requires parts'[a] !! parts'[b] && parts'[a] !! parts'[c] && parts'[b] !! parts'[c]
    requires parts'[a] <= all' && parts'[b] <= all' && parts'[c] <= all'
    requires all - parts[a] - parts[b] - parts[c] == all' - parts'[a] - parts'[b] - parts'[c]
    ensures Partitions(parts', all')
  {
    var rest := all - parts[a] - parts[b] - parts[c];
    forall d, x | d in parts && d != a && d != b && d != c && x in parts[d]
      ensures x in all' && x !in parts'[a] && x !in parts'[b] && x !in parts'[c]
    {
      assert x in rest;
    }
    forall x | x in all' ensures exists d :: d in parts' && x in parts'[d] {
      if x in rest {
        var d :| d in parts && x in parts[d];
        assert d in parts' && x in parts'[d];
      }
    }
  }

  // The numbers of slabs, of free buffers and of large slabs.

  ghost function SlabCounts(slabs: map<Cache, map<nat, Slab>>): map<Cache, nat> {
    map c | c in slabs :: |slabs[c]|
  }

  ghost function FreeCounts(slabs: map<Cache, map<nat, Slab>>): map<Cache, nat> {
    map c | c in slabs && c.g.large :: FreeBuffers(slabs[c])
  }

  ghost function LargeCount(slabs: map<Cache, map<nat, Slab>>): map<Cache, nat> {
    map c | c in slabs && c.g.large :: |slabs[c]|
  }

  ghost function Sum(sizes: map<Cache, nat>): nat {
    if sizes.Keys == {} then 0 else var c := Pick(sizes); sizes[c] + Sum(sizes - {c})
  }

  lemma OnePartLess(parts: map<Cache, set<nat>>, all: set<nat>, c: Cache)
    requires Partitions(parts, all) && c in parts
    ensures Partitions(parts - {c}, all - parts[c])
    ensures |all| == |parts[c]| + |all - parts[c]|
  {
    var less := parts - {c};
    forall x | x in all - parts[c] ensures exists d :: d in less && x in less[d] {
      var d :| d in parts && x in parts[d];
      assert d in less && x in less[d];
    }
    assert all == parts[c] + (all - parts[c]);
  }

  lemma {:induction false} SizesAddUp(parts: map<Cache, set<nat>>, all: set<nat>, sizes: map<Cache, nat>)
    requires Partitions(parts, all) && sizes.Keys == parts.Keys
    requires forall c :: c in parts ==> |parts[c]| == sizes[c]
    ensures |all| == Sum(sizes)
    decreases parts.Keys
  {
    if sizes.Keys == {} {
      assert all == {};
    } else {
      var c := Pick(sizes);
      OnePartLess(parts, all, c);
      SizesAddUp(parts - {c}, all - parts[c], sizes - {c});
    }
  }

  // What each cache has, by its slabs: pages, and for a large cache control blocks and headers.

  ghost function PageParts(slabs: map<Cache, map<nat, Slab>>): map<Cache, set<nat>> {
    map c | c in slabs :: slabs[c].Keys
  }

  ghost function CtlParts(slabs: map<Cache, map<nat, Slab>>): map<Cache, set<nat>> {
    map c | c in slabs && c.g.large :: Ctls(slabs[c])
  }

  ghost function HeadParts(slabs: map<Cache, map<nat, Slab>>): map<Cache, set<nat>> {
    map c | c in slabs && c.g.large :: Heads(slabs[c])
  }

  lemma NewPageParts(was: map<Cache, map<nat, Slab>>, c: Cache, none: map<nat, Slab>)
    requires c !in was && none.Keys == {}
    ensures PageParts(was[c := none]) == PageParts(was)[c := {}]
  {
    var more := was[c := none];
    assert more[c] == none && forall d :: d in was ==> d != c && more[d] == was[d];
  }

  lemma NewCtlParts(was: map<Cache, map<nat, Slab>>, c: Cache, none: map<nat, Slab>)
    requires c !in was && none.Keys == {}
    ensures CtlParts(was[c := none]) == if c.g.large then CtlParts(was)[c := {}] else CtlParts(was)
  {
    hide Ctls;
    NoSlabsNoCtls(none);
    var more := was[c := none];
    assert more[c] == none && forall d :: d in was ==> d != c && more[d] == was[d];
  }

  lemma NewHeadParts(was: map<Cache, map<nat, Slab>>, c: Cache, none: map<nat, Slab>)
    requires c !in was && none.Keys == {}
    ensures HeadParts(was[c := none]) == if c.g.large then HeadParts(was)[c := {}] else HeadParts(was)
  {
    hide Heads;
    NoSlabsNoCtls(none);
    var more := was[c := none];
    assert more[c] == none && forall d :: d in was ==> d != c && more[d] == was[d];
  }

  /** The size of a cache structure. */
  const CACHE_SIZE := 60

  lemma OwnSizes(size: nat)
    requires size in {CACHE_SIZE, SLAB_HEADER, LARGE_CTL}
    ensures Init(size, 0, false).capacity > 1 && !Init(size, 0, false).large
  {
    var g := Init(size, 0, false);
    assert g.alignment == SMALL_CTL && g.stride == size + SMALL_CTL;
  }

  /** A small cache without slabs. */
  ghost predicate Unused(c: Cache, pager: Pager)
    reads c, pager
  {
    && c.Wired() && !c.g.large && c.g.capacity > 1 && c.pager == pager
    && c.Sound() && c.slabs == map[] && c.Exhausted()
  }

  method OwnCache(size: nat, pager: Pager) returns (c: Cache)
    requires pager.Valid() && size in {CACHE_SIZE, SLAB_HEADER, LARGE_CTL}
    ensures fresh(c) && Unused(c, pager) && c.g == Init(size, 0, false)
  {
    OwnSizes(size);
    c := new Cache(size, 0, false, pager, null, null);
  }

  /**
   * The slabs of every cache, the pages in the hands of the allocator, and the objects in use of the two small
   * caches.
   */
  datatype Books = Books(slabs: map<Cache, map<nat, Slab>>, pages: set<nat>, ctls: set<nat>, heads: set<nat>)

  ghost predicate Balanced(b: Books) {
    && Partitions(PageParts(b.slabs), b.pages)
    && Partitions(CtlParts(b.slabs), b.ctls)
    && Partitions(HeadParts(b.slabs), b.heads)
  }

  ghost predicate Injective(m: map<Cache, nat>) {
    forall c, d :: c in m && d in m && c != d ==> m[c] != m[d]
  }

  lemma ValueAdded(m: map<Cache, nat>, c: Cache, x: nat)
    requires Injective(m) && c !in m && x !in m.Values
    ensures Injective(m[c := x]) && m[c := x].Values == m.Values + {x}
  {
    var more := m[c := x];
    assert c in more && forall d :: d in m ==> d in more && more[d] == m[d];
  }

  lemma ValueRemoved(m: map<Cache, nat>, c: Cache)
    requires Injective(m) && c in m
    ensures Injective(m - {c}) && (m - {c}).Values == m.Values - {m[c]}
  {
    var less := m - {c};
    assert forall d :: d in m && d != c ==> d in less && less[d] == m[d];
  }

  lemma PageStarts(address: nat)
    ensures PageOf(address) % PAGE == 0
  {
    RoundDownBounds(address, PAGE);
  }

  lemma PagesAreApart(p: nat, q: nat)
    requires p % PAGE == 0 && q % PAGE == 0 && p != q
    ensures p + PAGE <= q || q + PAGE <= p
  {
    if p < q + PAGE && q < p + PAGE {
      MultipleIsUnique(p, q, PAGE);
    }
  }

  lemma ObjectsOfSlab(g: Geometry, s: Slab, a: nat, b: nat)
    requires a in Objects(g, s.first) && b in Objects(g, s.first) && a != b
    ensures a + g.stride <= b || b + g.stride <= a
  {
    var i :| 0 <= i < g.capacity && a == ObjectAt(g, s.first, i);
    var j :| 0 <= j < g.capacity && b == ObjectAt(g, s.first, j);
    if i < j {
      ObjectsAscend(g, s.first, i, j);
    } else {
      ObjectsAscend(g, s.first, j, i);
    }
  }

  class Kmm {
    const pager: Pager
    const caches: Cache
    const headers: Cache
    const ctls: Cache
    /** The list of all caches. A new cache is put in front, so the three of the allocator itself come last. */
    var registered: seq<Cache>
    /** The address of the structure of each cache that was created. */
    var structures: map<Cache, nat>
    /** All caches; some lie in structures of their owners and are never put on the list. */
    ghost var all: set<Cache>

    /** The slabs of every cache. */
    ghost function Slabs(): map<Cache, map<nat, Slab>>
      reads `all, all
    {
      map c | c in all :: c.slabs
    }

    ghost predicate Wiring()
      reads `registered, `all
    {
      && |registered| >= 3 && registered[|registered| - 3..] == [ctls, headers, caches]
      && AllDifferent(registered) && (forall c :: c in registered ==> c in all)
      && !caches.g.large && !headers.g.large && !ctls.g.large
      && caches.g.capacity > 1 && headers.g.capacity > 1 && ctls.g.capacity > 1
      && forall c :: c in all ==>
          c.Wired() && c.pager == pager && (c.g.large ==> c.headers == headers && c.ctls == ctls)
    }

    /**
     * Every cache is sound, the pages taken from the provider and not given back are exactly the slabs of the caches,
     * and the objects in use of the two small caches are exactly the headers and control blocks of the large slabs.
     */
    ghost predicate InBalance()
      reads `registered, `all, pager, all, headers, ctls
    {
      && Wiring() && pager.Valid()
      && (forall c :: c in all ==> c.Sound())
      && Partitions(PageParts(Slabs()), pager.held)
      && Partitions(CtlParts(Slabs()), ctls.InUse())
      && Partitions(HeadParts(Slabs()), headers.InUse())
    }

    /** The allocator's own caches hand out objects of the sizes of its own structures. */
    ghost predicate Sized() {
      && caches.g == Init(CACHE_SIZE, 0, false)
      && headers.g == Init(SLAB_HEADER, 0, false)
      && ctls.g == Init(LARGE_CTL, 0, false)
    }

    /** The objects in use of the cache of caches are exactly the structures of the caches that were created. */
    ghost predicate Structured()
      reads `registered, `structures, caches
    {
      && structures.Keys == (set c | c in registered && c !in [ctls, headers, caches])
      && Injective(structures) && caches.InUse() == structures.Values
    }

    ghost predicate Valid()
      reads this, pager, all, headers, ctls, caches
    {
      Sized() && InBalance() && Structured()
    }

    /** The cache structures that can still be had. */
    ghost function Structures(): nat
      reads pager, caches
    {
      caches.Supply(|pager.free|)
    }

    lemma NothingHeld()
      requires registered == [ctls, headers, caches] && all == {ctls, headers, caches} && structures == map[]
      requires pager.Valid() && pager.held == {}
      requires ctls != headers && ctls != caches && headers != caches
      requires Unused(ctls, pager) && Unused(headers, pager) && Unused(caches, pager) && Sized()
      ensures Valid() && Structures() == caches.g.capacity * |pager.free|
    {
      hide Cache.SoundWith, Cache.Sound, Sized;
      assert registered[|registered| - 3..] == registered;
      assert ctls.InUse() == {} && headers.InUse() == {};
    }

    constructor (pager: Pager)
      requires pager.Valid() && pager.held == {}
      ensures Valid() && this.pager == pager && registered == [ctls, headers, caches]
      ensures structures == map[] && all == {ctls, headers, caches}
      ensures fresh(ctls) && fresh(headers) && fresh(caches)
      ensures caches.g == Init(CACHE_SIZE, 0, false) && Structures() == caches.g.capacity * |pager.free|
      ensures headers.g == Init(SLAB_HEADER, 0, false) && ctls.g == Init(LARGE_CTL, 0, false)
    {
      hide Unused, Init, Valid, Structures;
      this.pager := pager;
      var c := OwnCache(CACHE_SIZE, pager);
      var h := OwnCache(SLAB_HEADER, pager);
      var l := OwnCache(LARGE_CTL, pager);
      caches, headers, ctls := c, h, l;
      structures, all := map[], {c, h, l};
      new;
      registered := [ctls, headers, caches];
      NothingHeld();
    }

    lemma Members()
      requires Wiring()
      ensures ctls in registered && headers in registered && caches in registered
      ensures ctls != headers && ctls != caches && headers != caches
    {
      var n := |registered|;
      assert registered[n - 3..][0] == registered[n - 3] && registered[n - 3..][1] == registered[n - 2];
      assert registered[n - 3..][2] == registered[n - 1];
    }

    /** An operation on a cache touches that cache, the pages, and at most two caches of the allocator itself. */
    lemma ReachOf(c: Cache)
      requires InBalance() && c in all
      ensures c.Wired() && c.pager == pager && c.Repr() <= {c, pager, headers, ctls} && {c, pager} <= c.Repr()
      ensures headers in registered && ctls in registered && caches in registered
      ensures caches != headers && caches != ctls
    {
      hide Cache.Sound, Partitions;
      Members();
    }

    lemma CacheIsValid(c: Cache)
      requires InBalance() && c in all
      ensures c.Valid()
    {
      hide Cache.SoundWith;
      Members();
      assert PageParts(Slabs())[c] == c.slabs.Keys;
      if c.g.large {
        assert PageParts(Slabs())[headers] == headers.slabs.Keys && PageParts(Slabs())[ctls] == ctls.slabs.Keys;
        assert CtlParts(Slabs())[c] == Ctls(c.slabs) && HeadParts(Slabs())[c] == Heads(c.slabs);
      }
    }

    /** All that an operation can move between caches. */
    ghost function Ledger(): Books
      reads `registered, `all, pager, all, headers, ctls
    {
      Books(Slabs(), pager.held, ctls.InUse(), headers.InUse())
    }

    /** What is left to others than c, by the books. */
    ghost function LeftToOthers(c: Cache, b: Books): Shares
      requires {headers, ctls, c} <= b.slabs.Keys
    {
      if c.g.large
      then Shares(b.pages - b.slabs[headers].Keys - b.slabs[ctls].Keys - b.slabs[c].Keys,
                  b.ctls - Ctls(b.slabs[c]), b.heads - Heads(b.slabs[c]))
      else Shares(b.pages - b.slabs[c].Keys, {}, {})
    }

    /** Since the books were made, an operation on c has changed no other cache and left to others what they had. */
    ghost predicate OnlyTraded(c: Cache, b: Books)
      requires Wiring() && c in all
      reads `registered, `all, pager, all, headers, ctls
    {
      && Balanced(b) && b.slabs.Keys == Slabs().Keys && {headers, ctls, c} <= b.slabs.Keys
      && (forall d :: d in all && d != c && (c.g.large ==> d != headers && d != ctls) ==> d.slabs == b.slabs[d])
      && c.Foreign() == LeftToOthers(c, b)
      && (!c.g.large ==> ctls.InUse() == b.ctls && headers.InUse() == b.heads)
    }

    lemma NothingTradedYet(c: Cache)
      requires InBalance() && c in all
      ensures c.Valid() && OnlyTraded(c, Ledger())
      ensures pager.Valid() && forall d :: d in all ==> d.Sound()
      ensures c.pager == pager && headers in registered && ctls in registered && headers != ctls
      ensures if c.g.large then c.headers == headers && c.ctls == ctls else c.headers == null && c.ctls == null
    {
      hide Cache.SoundWith, Live, Ctls, Heads, Partitions;
      CacheIsValid(c);
      Members();
    }

    lemma PagesStay(c: Cache, b: Books)
      requires Wiring() && c in all && c.Valid() && OnlyTraded(c, b)
      ensures Partitions(PageParts(Slabs()), pager.held)
    {
      hide Cache.SoundWith, Live, Ctls, Heads, Partitions;
      Members();
      if c.g.large {
        ThreeTraded(PageParts(b.slabs), b.pages, headers, ctls, c, PageParts(Slabs()), pager.held);
      } else {
        OneTraded(PageParts(b.slabs), b.pages, c, PageParts(Slabs()), pager.held);
      }
    }

    lemma CtlsStay(c: Cache, b: Books)
      requires Wiring() && c in all && c.Valid() && OnlyTraded(c, b)
      ensures Partitions(CtlParts(Slabs()), ctls.InUse())
    {
      hide Cache.SoundWith, Live, Ctls, Heads, Partitions;
      if c.g.large {
        OneTraded(CtlParts(b.slabs), b.ctls, c, CtlParts(Slabs()), ctls.InUse());
      } else {
        assert CtlParts(Slabs()) == CtlParts(b.slabs);
      }
    }

    lemma HeadsStay(c: Cache, b: Books)
      requires Wiring() && c in all && c.Valid() && OnlyTraded(c, b)
      ensures Partitions(HeadParts(Slabs()), headers.InUse())
    {
      hide Cache.SoundWith, Live, Ctls, Heads, Partitions;
      if c.g.large {
        OneTraded(HeadParts(b.slabs), b.heads, c, HeadParts(Slabs()), headers.InUse());
      } else {
        assert HeadParts(Slabs()) == HeadParts(b.slabs);
      }
    }

    /** The books stay balanced then. */
    lemma BooksStayBalanced(c: Cache, b: Books)
      requires Wiring() && c in all && c.Valid() && OnlyTraded(c, b)
      requires forall d :: d in all ==> d.Sound()
      ensures InBalance()
    {
      hide Cache.SoundWith, Live, Partitions, PageParts, CtlParts, HeadParts, Slabs, OnlyTraded;
      PagesStay(c, b);
      CtlsStay(c, b);
      HeadsStay(c, b);
    }

    /** An allocation from any cache but the two that only large slabs use. */
    method Take(c: Cache) returns (r: Outcome)
      requires InBalance() && c in all && c != headers && c != ctls
      modifies c.Repr()
      ensures r.NoMemory? <==> old(c.AllocFails())
      ensures r.Fault? <==> old(c.AllocFaults())
      ensures !r.Fault? ==> InBalance()
      ensures r.NoMemory? ==> c.InUse() == old(c.InUse()) && pager.free == {} && c.Exhausted()
      ensures r.Object? ==> r.mem !in old(c.InUse()) && c.InUse() == old(c.InUse()) + {r.mem}
      ensures !c.g.large && r.Object? ==> c.GaveOne(old(c.Exhausted()), old(|pager.free|), old(FreeBuffers(c.slabs)))
      ensures r.Object? && c.g.capacity == 1 ==> (c.Stuck() <==> !old(c.Exhausted()))
    {
      hide Cache.SoundWith, Live, Balanced, LeftToOthers, Cache.Sound, FreeBuffers, Cache.AllocFails,
          Cache.AllocFaults, Wiring, Pager.Valid;
      NothingTradedYet(c);
      Members();
      ghost var b := Ledger();
      r := c.Alloc();
      if !r.Fault? {
        BooksStayBalanced(c, b);
      }
    }

    /** kmm_cache_alloc on a cache of a user, registered or not. No object is ever handed out twice. */
    method AllocFrom(c: Cache) returns (r: Outcome)
      requires Valid() && c in all && c != headers && c != ctls && c != caches
      modifies c.Repr()
      ensures r.NoMemory? <==> old(c.AllocFails())
      ensures r.Fault? <==> old(c.AllocFaults())
      ensures !r.Fault? ==> Valid()
      ensures r.NoMemory? ==> c.InUse() == old(c.InUse()) && pager.free == {} && c.Exhausted()
      ensures r.Object? ==> r.mem !in old(c.InUse()) && c.InUse() == old(c.InUse()) + {r.mem}
      ensures !c.g.large && r.Object? ==> c.GaveOne(old(c.Exhausted()), old(|pager.free|), old(FreeBuffers(c.slabs)))
      ensures r.Object? && c.g.capacity == 1 ==> (c.Stuck() <==> !old(c.Exhausted()))
    {
      hide InBalance, Cache.InUse, Cache.AllocFails, Cache.AllocFaults, FreeBuffers, Cache.GaveOne;
      ReachOf(c);
      r := Take(c);
    }

    /** A free to any cache but the two that only large slabs use. */
    method Give(c: Cache, mem: nat) returns (fault: bool)
      requires InBalance() && c in all && c != headers && c != ctls && mem in c.InUse()
      modifies c.Repr()
      ensures fault <==> old(c.FreeFaults(mem))
      ensures !fault ==> InBalance() && c.InUse() == old(c.InUse()) - {mem}
    {
      hide Cache.SoundWith, Live, Balanced, LeftToOthers, Cache.Sound, Cache.FreeFaults, Cache.InUse, Wiring,
          Pager.Valid, Cache.Filings;
      NothingTradedYet(c);
      Members();
      ghost var b := Ledger();
      fault := c.Free(mem);
      if !fault {
        BooksStayBalanced(c, b);
      }
    }

    /** kmm_cache_free on a cache of a user, registered or not. */
    method FreeTo(c: Cache, mem: nat) returns (fault: bool)
      requires Valid() && c in all && c != headers && c != ctls && c != caches && mem in c.InUse()
      modifies c.Repr()
      ensures fault <==> old(c.FreeFaults(mem))
      ensures !fault ==> Valid() && c.InUse() == old(c.InUse()) - {mem}
    {
      hide InBalance, Cache.InUse, Cache.FreeFaults;
      ReachOf(c);
      fault := Give(c, mem);
    }

    /** kmm_cache_trim. */
    method TrimOne(c: Cache)
      requires InBalance() && c in all
      modifies c.Repr()
      ensures InBalance() && c.empty == [] && c.InUse() == old(c.InUse())
    {
      hide Cache.SoundWith, Live, Balanced, LeftToOthers, Cache.Sound, Wiring;
      NothingTradedYet(c);
      Members();
      ghost var b := Ledger();
      c.Trim();
      BooksStayBalanced(c, b);
    }

    ghost predicate TrimmedBefore(i: nat)
      reads this, registered
    {
      i <= |registered| && forall j :: 0 <= j < i ==> registered[j].empty == []
    }

    lemma HelpersComeLater(i: nat)
      requires Wiring() && i < |registered|
      ensures registered[i].g.large ==> i < |registered| - 3
      ensures registered[|registered| - 3] == ctls && registered[|registered| - 2] == headers
      ensures ctls in registered && headers in registered
    {
      var n := |registered|;
      Members();
      assert registered[n - 3..][0] == registered[n - 3] && registered[n - 3..][1] == registered[n - 2];
      assert registered[n - 3..][2] == registered[n - 1];
    }

    /**
     * Trimming one more cache gives no empty slab to those before it: the two small caches come after all large ones.
     */
    method TrimNext(i: nat)
      requires InBalance() && i < |registered| && TrimmedBefore(i)
      modifies registered, pager
      ensures InBalance() && TrimmedBefore(i + 1)
      ensures forall d :: d in registered && d != headers && d != ctls ==> d.InUse() == old(d.InUse())
    {
      hide Cache.SoundWith, Live, Ctls, Heads, Partitions, Slabs;
      HelpersComeLater(i);
      TrimOne(registered[i]);
    }

    /**
     * kmm_cache_trim_all leaves no cache on the list with an empty slab. Trimming a large cache frees into the two
     * small caches and may empty slabs of theirs, but these were registered earlier and so are trimmed later.
     */
    method TrimAll()
      requires Valid()
      modifies registered, pager
      ensures Valid() && forall c :: c in registered ==> c.empty == []
      ensures forall c :: c in all && c != headers && c != ctls ==> c.InUse() == old(c.InUse())
    {
      hide Cache.SoundWith, Live, Ctls, Heads, Partitions, Slabs;
      var i := 0;
      Members();
      while i < |registered|
        invariant InBalance() && TrimmedBefore(i)
        invariant forall c :: c in registered && c != headers && c != ctls ==> c.InUse() == old(c.InUse())
      {
        HelpersComeLater(i);
        TrimNext(i);
        i := i + 1;
      }
    }

    /** kmm_cache_register. */
    method Register(c: Cache)
      requires Wiring() && c !in all && c.Wired() && c.pager == pager
      requires c.g.large ==> c.headers == headers && c.ctls == ctls
      modifies `registered, `all
      ensures Wiring() && Slabs() == old(Slabs())[c := c.slabs]
      ensures all == old(all) + {c} && registered == [c] + old(registered)
    {
      registered := [c] + registered;
      all := all + {c};
      assert registered[|registered| - 3..] == old(registered)[|registered| - 4..];
    }

    lemma NewcomerHasNothing(was: map<Cache, map<nat, Slab>>, c: Cache)
      requires c !in was && Slabs() == was[c := map[]]
      requires Partitions(PageParts(was), pager.held)
      requires Partitions(CtlParts(was), ctls.InUse()) && Partitions(HeadParts(was), headers.InUse())
      ensures Partitions(PageParts(Slabs()), pager.held)
      ensures Partitions(CtlParts(Slabs()), ctls.InUse()) && Partitions(HeadParts(Slabs()), headers.InUse())
    {
      hide Cache.SoundWith, Live, Partitions;
      EmptyPart(PageParts(was), pager.held, c);
      EmptyPart(CtlParts(was), ctls.InUse(), c);
      EmptyPart(HeadParts(was), headers.InUse(), c);
      NewPageParts(was, c, map[]);
      NewCtlParts(was, c, map[]);
      NewHeadParts(was, c, map[]);
    }

    /** The memory of a new cache structure, or none when the cache of caches has nothing to give. */
    method TakeStructure() returns (ok: bool, at: nat)
      requires InBalance()
      modifies caches, pager
      ensures InBalance() && (ok <==> old(Structures()) > 0)
      ensures !ok ==> caches.InUse() == old(caches.InUse()) && Structures() == 0
      ensures ok ==> at !in old(caches.InUse()) && caches.InUse() == old(caches.InUse()) + {at}
      ensures ok ==> Structures() == old(Structures()) - 1
    {
      hide Cache.SoundWith, Live, Partitions, Slabs, FreeBuffers;
      Members();
      assert caches.Sound();
      caches.ExhaustedHasNoFree();
      caches.NoneLeft(FreeBuffers(caches.slabs), caches.g.capacity, pager.free);
      var r := Take(caches);
      ok := r.Object?;
      at := if r.Object? then r.mem else 0;
      if r.Object? {
        caches.OneLess(old(FreeBuffers(caches.slabs)), old(|pager.free|), caches.g.capacity, old(caches.Exhausted()),
                       FreeBuffers(caches.slabs), |pager.free|);
      }
      caches.ExhaustedHasNoFree();
      caches.NoneLeft(FreeBuffers(caches.slabs), caches.g.capacity, pager.free);
    }

    /** kmm_cache_init. */
    method NewCache(size: nat, align: nat, asksLarge: bool) returns (c: Cache)
      requires InBalance() && (align == 0 || align in ALIGNMENTS) && Init(size, align, asksLarge).capacity > 0
      ensures InBalance() && fresh(c) && c.g == Init(size, align, asksLarge) && c.InUse() == {} && c.slabs == map[]
      ensures c.Sound() && c.Wired() && c.pager == pager && (c.g.large ==> c.headers == headers && c.ctls == ctls)
    {
      hide Cache.SoundWith, Init, Live, Partitions;
      var large := Init(size, align, asksLarge).large;
      Members();
      assert headers.Wired() && ctls.Wired();
      c := new Cache(size, align, asksLarge, pager, if large then headers else null, if large then ctls else null);
    }

    /** kmm_cache_init on a structure of the caller. The cache never gets on the list. */
    method InitUnregistered(size: nat, align: nat, asksLarge: bool) returns (c: Cache)
      requires Valid() && (align == 0 || align in ALIGNMENTS) && Init(size, align, asksLarge).capacity > 0
      modifies `all
      ensures Valid() && fresh(c) && c.g == Init(size, align, asksLarge) && c.InUse() == {}
      ensures all == old(all) + {c} && registered == old(registered) && structures == old(structures)
    {
      hide Cache.SoundWith, Init, Live, Partitions, Cache.Sound, Cache.InUse, Structured, PageParts, CtlParts,
          HeadParts;
      c := NewCache(size, align, asksLarge);
      ghost var was := Slabs();
      all := all + {c};
      NewcomerHasNothing(was, c);
    }

    /** kmm_cache_init and the registration. */
    method CreateAt(size: nat, align: nat, asksLarge: bool) returns (c: Cache)
      requires InBalance() && (align == 0 || align in ALIGNMENTS) && Init(size, align, asksLarge).capacity > 0
      modifies `registered, `all
      ensures InBalance() && fresh(c) && c.g == Init(size, align, asksLarge) && c.InUse() == {}
      ensures registered == [c] + old(registered) && all == old(all) + {c}
    {
      hide Cache.SoundWith, Init, Live, Partitions;
      c := NewCache(size, align, asksLarge);
      ghost var was := Slabs();
      Register(c);
      NewcomerHasNothing(was, c);
    }

    /**
     * kmm_cache_create takes the structure from the cache of caches and registers the new cache in front of the others.
     * It fails exactly when no structure can be had.
     */
    method Create(size: nat, align: nat, asksLarge: bool) returns (c: Cache?)
      requires Valid() && (align == 0 || align in ALIGNMENTS) && Init(size, align, asksLarge).capacity > 0
      modifies `registered, `all, `structures, caches, pager
      ensures Valid() && (c == null <==> old(Structures()) == 0)
      ensures c == null ==> registered == old(registered) && all == old(all) && structures == old(structures)
      ensures c == null ==> Structures() == 0
      ensures c != null ==> registered == [c] + old(registered) && all == old(all) + {c} && fresh(c)
      ensures c != null ==> c.g == Init(size, align, asksLarge) && c.InUse() == {}
      ensures c != null ==> c in structures && structures[c] !in old(caches.InUse())
      ensures c != null ==> structures == old(structures)[c := structures[c]]
      ensures c != null ==> Structures() == old(Structures()) - 1
    {
      hide InBalance, Structures, Init, Cache.InUse;
      var ok, at := TakeStructure();
      c := null;
      if ok {
        c := CreateAt(size, align, asksLarge);
        ValueAdded(structures, c, at);
        structures := structures[c := at];
      }
    }

    /** kmm_cache_destroy up to the removal from the list of caches. */
    method GiveUpSlabs(c: Cache) returns (fault: bool)
      requires InBalance() && c in all && c != headers && c != ctls
      modifies c.Repr()
      ensures fault <==> old(c.Stuck())
      ensures !fault ==> InBalance() && c.slabs == map[] && c.InUse() == {}
    {
      hide Cache.SoundWith, Live, Balanced, LeftToOthers, Cache.Sound, Cache.InUse, Wiring;
      NothingTradedYet(c);
      Members();
      ghost var b := Ledger();
      fault := c.Destroy();
      if !fault {
        BooksStayBalanced(c, b);
      }
    }

    method IndexOf(s: seq<Cache>, c: Cache) returns (i: nat)
      requires c in s
      ensures i < |s| && s[i] == c
    {
      i := 0;
      while s[i] != c
        invariant i < |s| && c !in s[..i]
        decreases |s| - i
      {
        i := i + 1;
      }
    }

    lemma InWithout(s: seq<Cache>, i: nat)
      requires i < |s| && AllDifferent(s)
      ensures forall d :: d in Without(s, i) <==> d in s && d != s[i]
    {
      var t := Without(s, i);
      forall d | d in s && d != s[i] ensures d in t {
        var j :| 0 <= j < |s| && s[j] == d;
        assert t[if j < i then j else j - 1] == d;
      }
    }

    lemma StaysLast(s: seq<Cache>, i: nat)
      requires i < |s| && |s| >= 3 && s[|s| - 3..] == [ctls, headers, caches] && s[i] !in [ctls, headers, caches]
      ensures var t := Without(s, i); |t| >= 3 && t[|t| - 3..] == [ctls, headers, caches]
    {
      var t, last := Without(s, i), s[|s| - 3..];
      assert last[0] == s[|s| - 3] && last[1] == s[|s| - 2] && last[2] == s[|s| - 1];
      assert t[|t| - 3..] == s[|s| - 3..];
    }

    lemma NoPagePartsOf(was: map<Cache, map<nat, Slab>>, c: Cache)
      requires c in was && was[c] == map[]
      ensures c in PageParts(was) ==> PageParts(was)[c] == {}
      ensures PageParts(was - {c}) == PageParts(was) - {c}
    {
    }

    lemma NoCtlPartsOf(was: map<Cache, map<nat, Slab>>, c: Cache)
      requires c in was && was[c] == map[]
      ensures c in CtlParts(was) ==> CtlParts(was)[c] == {}
      ensures CtlParts(was - {c}) == CtlParts(was) - {c}
    {
      hide Ctls, Heads;
      NoSlabsNoCtls(was[c]);
    }

    lemma NoHeadPartsOf(was: map<Cache, map<nat, Slab>>, c: Cache)
      requires c in was && was[c] == map[]
      ensures c in HeadParts(was) ==> HeadParts(was)[c] == {}
      ensures HeadParts(was - {c}) == HeadParts(was) - {c}
    {
      hide Ctls, Heads;
      NoSlabsNoCtls(was[c]);
    }

    lemma ReleasedHadNothing(was: map<Cache, map<nat, Slab>>, c: Cache)
      requires c in was && was[c] == map[] && Slabs() == was - {c}
      requires Partitions(PageParts(was), pager.held)
      requires Partitions(CtlParts(was), ctls.InUse()) && Partitions(HeadParts(was), headers.InUse())
      ensures Partitions(PageParts(Slabs()), pager.held)
      ensures Partitions(CtlParts(Slabs()), ctls.InUse()) && Partitions(HeadParts(Slabs()), headers.InUse())
    {
      hide Cache.SoundWith, Live, Partitions, Ctls, Heads, PageParts, CtlParts, HeadParts;
      NoPagePartsOf(was, c);
      NoCtlPartsOf(was, c);
      NoHeadPartsOf(was, c);
      NoPart(PageParts(was), pager.held, c);
      NoPart(CtlParts(was), ctls.InUse(), c);
      NoPart(HeadParts(was), headers.InUse(), c);
    }

    /** The cache is taken off the list of caches. */
    method Unregister(c: Cache)
      requires InBalance() && c in registered && c.slabs == map[] && c != headers && c != ctls && c != caches
      modifies `registered, `all
      ensures InBalance() && all == old(all) - {c} && c !in registered && |registered| + 1 == |old(registered)|
      ensures forall d :: d in registered <==> d in old(registered) && d != c
    {
      hide Cache.SoundWith, Live, Ctls, Heads, Partitions, Cache.Sound, PageParts, CtlParts, HeadParts, Cache.InUse;
      ghost var was, list := Slabs(), registered;
      var i := IndexOf(registered, c);
      StaysLast(registered, i);
      WithoutDiffers(registered, i);
      registered := Without(registered, i);
      all := all - {c};
      InWithout(list, i);
      assert Slabs() == was - {c};
      ReleasedHadNothing(was, c);
    }

    lemma CreatedIsListed(c: Cache)
      requires Valid() && c in structures
      ensures c in all && c in registered && c != headers && c != ctls && c != caches
      ensures structures[c] in caches.InUse()
    {
      hide Cache.Sound, Partitions, Cache.InUse;
      Members();
    }

    /** Frees to the cache of caches never fail. */
    lemma CachesTakeBack(mem: nat)
      requires InBalance()
      ensures caches in all && caches.Repr() == {caches, pager} && caches.Wired() && !caches.FreeFaults(mem)
    {
      hide Cache.Sound, Partitions;
      Members();
    }

    /**
     * kmm_cache_destroy of a cache that was created: nothing of it is left, and its own structure goes back to the
     * cache of caches.
     */
    method Destroy(c: Cache) returns (fault: bool)
      requires Valid() && c in structures
      modifies `registered, `all, `structures, c.Repr(), caches
      ensures fault <==> old(c.Stuck())
      ensures !fault ==> Valid() && c.slabs == map[] && structures == old(structures) - {c} && all == old(all) - {c}
      ensures !fault ==> caches.InUse() == old(caches.InUse()) - {old(structures)[c]}
      ensures !fault ==> forall d :: d in registered <==> d in old(registered) && d != c
    {
      hide InBalance, Cache.InUse, Cache.Stuck, Injective;
      CreatedIsListed(c);
      ReachOf(c);
      fault := GiveUpSlabs(c);
      if fault {
        return;
      }
      Unregister(c);
      CachesTakeBack(structures[c]);
      var _ := Give(caches, structures[c]);
      ValueRemoved(structures, c);
      structures := structures - {c};
    }

    lemma CountsOf(c: Cache)
      requires c.Sound() && c.g.large
      ensures |Ctls(c.slabs)| == FreeBuffers(c.slabs) && |Heads(c.slabs)| == |c.slabs|
    {
      LargeCounts(c.g, c.slabs);
    }

    /**
     * Conservation: the pages in the hands of the allocator are as many as its slabs, the control blocks in use as
     * many as the free buffers of all large slabs, and the headers in use as many as the large slabs.
     */
    lemma Conservation()
      requires Valid()
      ensures |pager.held| == Sum(SlabCounts(Slabs())) && |pager.free| + |pager.held| == |pager.pages|
      ensures |ctls.InUse()| == Sum(FreeCounts(Slabs()))
      ensures |headers.InUse()| == Sum(LargeCount(Slabs()))
    {
      hide Cache.SoundWith, Live, Ctls, Heads, Partitions;
      var slabs := Slabs();
      forall c | c in slabs && c.g.large
        ensures |Ctls(slabs[c])| == FreeBuffers(slabs[c]) && |Heads(slabs[c])| == |slabs[c]|
      {
        CountsOf(c);
      }
      forall c | c in slabs ensures |slabs[c].Keys| == |slabs[c]| {
      }
      SizesAddUp(PageParts(slabs), pager.held, SlabCounts(slabs));
      SizesAddUp(CtlParts(slabs), ctls.InUse(), FreeCounts(slabs));
      SizesAddUp(HeadParts(slabs), headers.InUse(), LargeCount(slabs));
    }

    /** Caches have no object in common. */
    lemma ObjectsHaveOneOwner(c: Cache, d: Cache, mem: nat)
      requires InBalance() && c in all && d in all && mem in c.InUse() && mem in d.InUse()
      ensures c == d
    {
      hide Live, Filed, CtlParts, HeadParts;
      assert c.Sound() && d.Sound();
      LiveInPage(c.g, c.slabs, mem);
      LiveInPage(d.g, d.slabs, mem);
      var parts := PageParts(Slabs());
      assert c in parts && d in parts && PageOf(mem) in parts[c] && PageOf(mem) in parts[d];
    }

    /** An object in use lies in its page, aligned, with room for a stride. */
    lemma ObjectInUse(c: Cache, mem: nat)
      requires InBalance() && c in all && mem in c.InUse()
      ensures Proper(c.g) && PageOf(mem) + PAGE_HEADER <= mem && mem + c.g.stride <= PageOf(mem) + PAGE
      ensures !c.g.large ==> PageOf(mem) + PAGE_HEADER + SLAB_HEADER <= mem
      ensures c.g.alignment > 0 ==> mem % c.g.alignment == 0
    {
      hide Live, Filed, CtlParts, HeadParts, Partitions;
      assert c.Sound();
      LiveInPage(c.g, c.slabs, mem);
      assert SlabOk(c.g, PageOf(mem), c.slabs[PageOf(mem)]);
      ObjectsInPage(c.g, PageOf(mem), c.slabs[PageOf(mem)].first, mem);
    }

    lemma SamePageSameCache(c: Cache, a: nat, d: Cache, b: nat)
      requires InBalance() && c in all && d in all && a in c.InUse() && b in d.InUse() && PageOf(a) == PageOf(b)
      ensures c == d && PageOf(a) in c.slabs
      ensures a in Objects(c.g, c.slabs[PageOf(a)].first) && b in Objects(c.g, c.slabs[PageOf(a)].first)
    {
      hide Live, Filed, CtlParts, HeadParts, PageOf, Objects, ListsOk;
      assert c.Sound() && d.Sound();
      LiveInPage(c.g, c.slabs, a);
      LiveInPage(d.g, d.slabs, b);
      var parts := PageParts(Slabs());
      assert c in parts && d in parts && PageOf(a) in parts[c] && PageOf(b) in parts[d];
    }

    /** Objects in use share no byte, whatever caches they are from. */
    lemma ObjectsAreApart(c: Cache, a: nat, d: Cache, b: nat)
      requires InBalance() && c in all && d in all && a in c.InUse() && b in d.InUse() && a != b
      ensures a + c.g.stride <= b || b + d.g.stride <= a
    {
      hide Cache.InUse, InBalance, PageOf, Objects, Proper, Cache.Sound;
      ObjectInUse(c, a);
      ObjectInUse(d, b);
      PageStarts(a);
      PageStarts(b);
      if PageOf(a) == PageOf(b) {
        SamePageSameCache(c, a, d, b);
        ObjectsOfSlab(c.g, c.slabs[PageOf(a)], a, b);
      } else {
        PagesAreApart(PageOf(a), PageOf(b));
      }
    }

    /** Slab headers, control blocks and cache structures lie apart, each in front of its own control block. */
    lemma OwnObjectsAreApart(c: Cache, size: nat, a: nat, b: nat)
      requires Valid() && a in c.InUse() && b in c.InUse()
      requires (c, size) in [(headers, SLAB_HEADER), (ctls, LARGE_CTL), (caches, CACHE_SIZE)]
      ensures a != b ==> a + size + SMALL_CTL <= b || b + size + SMALL_CTL <= a
      ensures a + size <= CtlOf(c.g, a) && CtlOf(c.g, a) + SMALL_CTL <= a + c.g.stride
    {
      hide Cache.InUse, Cache.Sound, Partitions, Structured, Proper, CtlOf;
      Members();
      ObjectInUse(c, a);
      StrideIsLeast(size, 0, false, 0);
      CtlFollows(c.g, a);
      if a != b {
        ObjectsAreApart(c, a, c, b);
      }
    }
  }
}
