/**
 * The caches of kmm.c. A slab is known by the page it occupies. A large cache keeps its slab headers and control
 * blocks in two small caches, so that its operations re-enter the allocator.
 */
module SlabCache {
  import opened SlabFiling
  import opened SlabLayout
  import opened SlabLists
  import opened SlabTheory
  import opened Slist

  /**
   * What the allocator returns. A fault stops the kernel: a write through the null pointer of a control block that it
   * did not get, or an assertion that fails.
   */
  datatype Outcome = Object(mem: nat) | NoMemory | Fault

  /** The page provider: pages it can still hand out, and pages in the hands of the caches. */
  class Pager {
    var free: set<nat>
    var held: set<nat>
    /** All pages there are. */
    ghost const pages: set<nat>

    ghost predicate Valid()
      reads this
    {
      && free !! held && free + held == pages
      && (forall p :: p in free ==> p > 0 && p % PAGE == 0)
      && (forall p :: p in held ==> p > 0 && p % PAGE == 0)
    }

    /** A page, or 0 when there is none. */
    method TakePage() returns (page: nat)
      requires Valid()
      modifies this
      ensures Valid()
      ensures page == 0 <==> old(free) == {}
      ensures page == 0 ==> free == old(free) && held == old(held)
      ensures page != 0 ==> page in old(free) && free == old(free) - {page} && held == old(held) + {page}
      ensures page != 0 ==> page !in old(held)
    {
      if free == {} {
        page := 0;
      } else {
        page :| page in free;
        free := free - {page};
        held := held + {page};
      }
    }

    method GivePage(page: nat)
      requires Valid() && page in held
      modifies this
      ensures Valid() && free == old(free) + {page} && held == old(held) - {page}
    {
      free := free + {page};
      held := held - {page};
    }
  }

  datatype Shares = Shares(pages: set<nat>, ctls: set<nat>, heads: set<nat>)

  function Counts(slabs: map<nat, Slab>): map<nat, nat> {
    map p | p in slabs :: slabs[p].inuse
  }

  /** Pages that a second cache does not have stay untouched when only the first one trades pages. */
  lemma OutsideBoth(held: set<nat>, mine: set<nat>, held': set<nat>, mine': set<nat>, others: set<nat>)
    requires held - mine == held' - mine'
    ensures held - mine - others == held' - mine' - others
    ensures held - others - mine == held' - others - mine'
    ensures others <= held && others !! mine ==> others <= held' && others !! mine'
  {
    assert others <= held && others !! mine ==> others <= held - mine;
    assert held - others - mine == held - mine - others;
    assert held' - others - mine' == held' - mine' - others;
  }

  /** The list and the number of objects in use of each slab. */
  ghost function FilingsOf(slabs: map<nat, Slab>, e: seq<nat>, p: seq<nat>): map<nat, Filing> {
    map q | q in slabs :: Filing(ListIn(q, e, p), slabs[q].inuse)
  }

  /** But for `page`, which may be new, the slabs are filed as they were. */
  ghost predicate OthersFiled(was: map<nat, Filing>, page: nat, slabs: map<nat, Slab>, e: seq<nat>, p: seq<nat>) {
    && slabs.Keys == was.Keys + {page}
    && forall q :: q in was && q != page ==> was[q] == Filing(ListIn(q, e, p), slabs[q].inuse)
  }

  lemma OnePageLess(pages: set<nat>, page: nat)
    requires page in pages
    ensures |pages - {page}| == |pages| - 1
  {
  }

  class Cache {
    const g: Geometry
    const pager: Pager
    /** The caches of slab headers and of control blocks; only a large cache uses them. */
    const headers: Cache?
    const ctls: Cache?
    var slabs: map<nat, Slab>
    var empty: seq<nat>
    var partial: seq<nat>
    var full: seq<nat>
    var colourNext: nat

    /** The invariant of the cache itself, its lists filed by the given numbers of objects in use. */
    ghost predicate SoundWith(counts: map<nat, nat>)
      reads this
    {
      && SlabsOk(g, slabs) && colourNext <= g.colourMax
      && ListsOk(counts, g.capacity, empty, partial, full)
    }

    ghost predicate Sound()
      reads this
    {
      SoundWith(Counts(slabs))
    }

    ghost predicate Own()
      reads this, pager
    {
      Sound() && pager.Valid() && slabs.Keys <= pager.held
    }

    /** The objects its users hold. */
    ghost function InUse(): set<nat>
      reads this
    {
      Live(g, slabs)
    }

    /** There is no slab to take an object from, other than a new one. */
    ghost predicate Exhausted()
      reads this
    {
      partial == [] && empty == []
    }

    /** kmm_cache_init. */
    constructor (size: nat, align: nat, asksLarge: bool, pager: Pager, headers: Cache?, ctls: Cache?)
      requires (align == 0 || align in ALIGNMENTS)
      requires Init(size, align, asksLarge).capacity > 0 && pager.Valid()
      ensures g == Init(size, align, asksLarge) && this.pager == pager && this.headers == headers && this.ctls == ctls
      ensures slabs == map[] && Own() && Exhausted() && InUse() == {} && colourNext == 0
    {
      InitIsProper(size, align, asksLarge);
      g := Init(size, align, asksLarge);
      this.pager := pager;
      this.headers := headers;
      this.ctls := ctls;
      slabs := map[];
      empty, partial, full := [], [], [];
      colourNext := 0;
    }

    ghost function Repr(): set<object> {
      {this, pager} + (if headers != null then {headers} else {}) + (if ctls != null then {ctls} else {})
    }

    ghost predicate Wired() {
      if g.large then
        && headers != null && ctls != null && headers != ctls
        && !headers.g.large && !ctls.g.large && headers.g.capacity > 1 && ctls.g.capacity > 1
        && headers.headers == null && headers.ctls == null && ctls.headers == null && ctls.ctls == null
        && headers.pager == pager && ctls.pager == pager
      else
        headers == null && ctls == null
    }

    /** What a large cache needs of its two small caches. */
    ghost predicate Helpers()
      requires Wired() && g.large
      reads pager, headers, ctls
    {
      headers.Own() && ctls.Own() && headers.slabs.Keys !! ctls.slabs.Keys
    }

    /** The pages that neither of the two small caches has. */
    ghost function OutsideHelpers(): set<nat>
      requires Wired() && g.large
      reads pager, headers, ctls
    {
      pager.held - headers.slabs.Keys - ctls.slabs.Keys
    }

    /** A large cache holds the objects of the two small caches that its slabs refer to; no page has two owners. */
    ghost predicate Owns()
      requires Wired()
      reads Repr()
    {
      g.large ==>
        && Helpers() && slabs.Keys <= OutsideHelpers()
        && Ctls(slabs) <= ctls.InUse() && Heads(slabs) <= headers.InUse()
    }

    ghost predicate Valid()
      reads Repr()
    {
      Wired() && Own() && Owns()
    }

    /** What belongs to others: pages, and objects of the two small caches. */
    ghost function Foreign(): Shares
      requires Wired()
      reads Repr()
    {
      if g.large
      then Shares(OutsideHelpers() - slabs.Keys, ctls.InUse() - Ctls(slabs), headers.InUse() - Heads(slabs))
      else Shares(pager.held - slabs.Keys, {}, {})
    }

    /** With one object a slab: the slab that the next allocation finds has its only object in use. */
    ghost predicate Stuck()
      reads this
    {
      g.capacity == 1 && partial != []
    }

    /** The objects a small cache can still give, with so many pages left for it. */
    ghost function Supply(pages: nat): nat
      reads this
    {
      FreeBuffers(slabs) + g.capacity * pages
    }

    /** The page that the header of a new slab may need. */
    ghost function HeaderPages(): nat
      requires Wired()
      reads if headers != null then {headers} else {}
    {
      if g.large && headers.Exhausted() then 1 else 0
    }

    /** A new slab lacks a page for itself or for its header. */
    ghost predicate NoPageForSlab()
      requires Wired()
      reads Repr()
    {
      |pager.free| <= HeaderPages()
    }

    /** A new slab gets its page, but what is left does not make a control block for each of its objects. */
    ghost predicate NoCtlsForSlab()
      requires Wired()
      reads Repr()
    {
      g.large && !NoPageForSlab() && ctls.Supply(|pager.free| - HeaderPages() - 1) < g.capacity
    }

    /** When an allocation comes back with nothing. */
    ghost predicate AllocFails()
      requires Wired()
      reads Repr()
    {
      Exhausted() && NoPageForSlab()
    }

    /** When an allocation stops the kernel. */
    ghost predicate AllocFaults()
      requires Wired()
      reads Repr()
    {
      Stuck() || (Exhausted() && NoCtlsForSlab())
    }

    /** When a free stops the kernel. */
    ghost predicate FreeFaults(mem: nat)
      requires Wired()
      reads Repr()
    {
      (g.capacity == 1 && PageOf(mem) in partial) || (g.large && ctls.Exhausted() && pager.free == {})
    }

    /** The list a slab is on. */
    ghost function ListOf(page: nat): ListName
      reads `empty, `partial
    {
      ListIn(page, empty, partial)
    }

    /** How the slabs are filed. */
    ghost function Filings(): map<nat, Filing>
      reads `slabs, `empty, `partial
    {
      FilingsOf(slabs, empty, partial)
    }

    /** Slab `page` is about to give an object away, and is filed for that already. */
    ghost predicate Poised(page: nat)
      reads this
    {
      && page in slabs && |slabs[page].free| > 0
      && SoundWith(Counts(slabs)[page := slabs[page].inuse + 1])
    }

    /** What the list a slab is on says about it. */
    lemma ListedSlab(page: nat)
      requires Sound() && (page in empty || page in partial)
      ensures g.capacity > 0 && page in slabs && slabs[page].inuse + |slabs[page].free| == g.capacity
      ensures page in empty ==> slabs[page].inuse == 0 && LiveIn(g, slabs[page]) == {}
      ensures page in partial && g.capacity > 1 ==> 0 < slabs[page].inuse < g.capacity
      ensures page in partial && g.capacity == 1 ==> slabs[page].inuse == 1
      ensures AllDifferent(empty) && (g.capacity > 1 ==> AllDifferent(partial))
    {
      assert page in partial ==> page in partial + full;
      assert SlabOk(g, page, slabs[page]);
      if page in empty {
        InUseCounts(g, page, slabs[page]);
      }
    }

    method FindExisting() returns (found: bool, page: nat)
      requires Sound()
      modifies this
      ensures found <==> !old(Exhausted())
      ensures slabs == old(slabs) && colourNext == old(colourNext)
      ensures found ==> page == if old(partial) != [] then old(partial)[0] else old(empty)[0]
      ensures found && !old(Stuck()) ==> Poised(page)
      ensures old(Stuck()) ==> page in slabs && slabs[page].free == []
      ensures found ==> page in old(Filings()) && old(Filings())[page].list != Full
      ensures old(Stuck()) ==> TakeFrom(old(Filings())[page], g.capacity) == Trap
      ensures found && !old(Stuck()) ==>
        TakeFrom(old(Filings())[page], g.capacity) == Next(Filing(ListOf(page), slabs[page].inuse + 1))
      ensures found ==> OthersFiled(old(Filings()), page, slabs, empty, partial)
      ensures found && old(partial) == [] ==> empty == old(empty)[1..] && partial == [page] && full == old(full)
      ensures found && old(partial) != [] && !old(Stuck()) ==>
        && empty == old(empty)
        && if slabs[page].inuse + 1 == g.capacity then partial == old(partial)[1..] && full == [page] + old(full)
           else partial == old(partial) && full == old(full)
      ensures found && g.capacity == 1 ==> partial != []
      ensures !found ==> Sound() && Exhausted() && Filings() == old(Filings())
      ensures !found ==> empty == old(empty) && partial == old(partial) && full == old(full)
    {
      hide Filed, ListsOk, SlabsOk, LeftBy, TakeFrom, ListIn;
      page := 0;
      found := true;
      ghost var counts, e, p, f := Counts(slabs), empty, partial, full;
      if partial != [] {
        page := partial[0];
        ListedSlab(page);
        if slabs[page].inuse + 1 == g.capacity {
          partial := Leave(partial, page);
          FirstLeaves(p, partial);
          full := [page] + full;
        }
        if g.capacity == 1 {
          UsedOneTraps(counts, e, p, f);
        } else {
          PartialTaken(counts, g.capacity, e, p, f);
          PartialReused(counts, g.capacity, e, p, f, page, partial, full);
        }
      } else if empty != [] {
        page := empty[0];
        ListedSlab(page);
        empty := Leave(empty, page);
        FirstLeaves(e, empty);
        partial := [page] + partial;
        EmptyTaken(counts, g.capacity, e, p, f);
        EmptyReused(counts, g.capacity, e, p, f, page, empty);
      } else {
        found := false;
      }
    }

    /** Nothing free means just that, unless slabs hold one object. */
    lemma ExhaustedHasNoFree()
      requires Sound() && g.capacity > 1
      ensures Exhausted() <==> FreeBuffers(slabs) == 0
    {
      hide FreeBuffers, Live;
      if Exhausted() {
        forall p | p in slabs ensures slabs[p].free == [] {
          assert SlabOk(g, p, slabs[p]) && p in Counts(slabs);
        }
        NoFreeBuffers(slabs);
      } else {
        var page := if partial != [] then partial[0] else empty[0];
        ListedSlab(page);
        FreeBuffersSplit(slabs, page);
      }
    }

    /** A slab of which nothing is in use yet. */
    ghost predicate NewSlab(page: nat, s: Slab) {
      && SlabOk(g, page, s) && s.inuse == 0 && |s.free| == g.capacity && MadeInOrder(g, s.first, s.free)
      && LiveIn(g, s) == {}
    }

    lemma MakeBuffer(first: nat, i: nat)
      requires Proper(g) && !g.large && first % g.alignment == 0
      ensures var mem := ObjectAt(g, first, i); CtlOf(g, mem) >= g.size && MemOf(g, CtlOf(g, mem)) == mem
    {
      ObjectIsAligned(g, first, i);
      CtlRoundTrip(g, ObjectAt(g, first, i));
    }

    /** The buffers of a small slab: each control block is found behind its buffer, and the buffer before it. */
    method LayOut(first: nat) returns (free: seq<Buffer>)
      requires Proper(g) && !g.large && first % g.alignment == 0
      ensures |free| == g.capacity && MadeInOrder(g, first, free)
      ensures forall b :: b in free ==> b.ctl == CtlOf(g, b.mem)
    {
      free := [];
      var cursor: nat := first;
      while |free| < g.capacity
        invariant |free| <= g.capacity && cursor == ObjectAt(g, first, |free|)
        invariant MadeInOrder(g, first, free)
        invariant forall b :: b in free ==> b.ctl == CtlOf(g, b.mem)
      {
        NextObject(g, first, |free|);
        MakeBuffer(first, |free|);
        OneMoreMade(g, first, free, CtlOf(g, cursor));
        var ctl := CtlOf(g, cursor);
        free := [Buffer(ctl, MemOf(g, ctl))] + free;
        cursor := cursor + g.stride;
      }
    }

    method SlabCreateSmall(colour: nat) returns (page: nat, s: Slab)
      requires Proper(g) && !g.large && colour <= g.colourMax && pager.Valid()
      modifies pager
      ensures pager.Valid()
      ensures page == 0 <==> old(pager.free) == {}
      ensures page == 0 ==> pager.free == old(pager.free) && pager.held == old(pager.held)
      ensures page != 0 ==> page in old(pager.free) && pager.free == old(pager.free) - {page}
      ensures page != 0 ==> pager.held == old(pager.held) + {page} && NewSlab(page, s)
      ensures page != 0 ==> s.first == First(g, page, colour) && s.header == page + PAGE_HEADER
      ensures forall m :: page != 0 && m in Objects(g, s.first) ==>
        s.header + SLAB_HEADER <= m && m + g.stride <= page + PAGE
    {
      page := pager.TakePage();
      s := Slab(0, 0, 0, []);
      if page != 0 {
        var first := First(g, page, colour);
        SlabFits(g, page, colour);
        var free := LayOut(first);
        NewSlabIsFree(g, first, free);
        s := Slab(page + PAGE_HEADER, first, 0, free);
        forall m | m in Objects(g, first) ensures s.header + SLAB_HEADER <= m && m + g.stride <= page + PAGE {
          HeadersAreClear(g, page, s, m);
        }
      }
    }

    /** The objects the cache of control blocks can still give. */
    ghost function CtlSupply(): nat
      requires Wired() && g.large
      reads pager, ctls
    {
      ctls.Supply(|pager.free|)
    }

    lemma NoneLeft(buffers: nat, capacity: nat, pages: set<nat>)
      requires capacity > 0
      ensures buffers + capacity * |pages| == 0 <==> buffers == 0 && pages == {}
    {
      if pages != {} {
        assert |pages| > 0;
        assert capacity * |pages| > 0;
      }
    }

    /** What one object less does to the supply. */
    lemma OneLess(buffers: nat, pages: nat, capacity: nat, exhausted: bool, buffers': nat, pages': nat)
      requires pages' + (if exhausted then 1 else 0) == pages
      requires buffers' + 1 == buffers + if exhausted then capacity else 0
      ensures buffers' + capacity * pages' == buffers + capacity * pages - 1
    {
      if exhausted {
        assert capacity * pages == capacity * pages' + capacity;
      }
    }

    method TakeCtl() returns (fault: bool, ctl: nat)
      requires Wired() && g.large && Helpers()
      modifies pager, ctls
      decreases 1, 0
      ensures fault <==> old(ctls.Exhausted()) && old(pager.free) == {}
      ensures fault <==> old(CtlSupply()) == 0
      ensures fault ==> pager.free == {} && ctls.Exhausted()
      ensures !fault ==> Helpers() && OutsideHelpers() == old(OutsideHelpers())
      ensures !fault ==> ctl !in old(ctls.InUse()) && ctls.InUse() == old(ctls.InUse()) + {ctl}
      ensures !fault ==> CtlSupply() == old(CtlSupply()) - 1
    {
      hide SoundWith, FreeBuffers, Pager.Valid, Filings;
      ctls.ExhaustedHasNoFree();
      NoneLeft(FreeBuffers(ctls.slabs), ctls.g.capacity, pager.free);
      var r := ctls.Alloc();
      fault := r.NoMemory?;
      ctl := if r.Object? then r.mem else 0;
      if r.Object? {
        OneLess(old(FreeBuffers(ctls.slabs)), old(|pager.free|), ctls.g.capacity, old(ctls.Exhausted()),
                FreeBuffers(ctls.slabs), |pager.free|);
      }
      OutsideBoth(old(pager.held), old(ctls.slabs.Keys), pager.held, ctls.slabs.Keys, headers.slabs.Keys);
    }

    method TakeHeader() returns (ok: bool, header: nat)
      requires Wired() && g.large && Helpers()
      modifies pager, headers
      decreases 1, 0
      ensures Helpers() && OutsideHelpers() == old(OutsideHelpers())
      ensures ok <==> |old(pager.free)| >= old(HeaderPages())
      ensures !ok ==> pager.free == {} && headers.InUse() == old(headers.InUse())
      ensures ok ==> header !in old(headers.InUse()) && headers.InUse() == old(headers.InUse()) + {header}
      ensures ok ==> |pager.free| == |old(pager.free)| - old(HeaderPages())
    {
      hide SoundWith, FreeBuffers;
      var r := headers.Alloc();
      ok := r.Object?;
      header := if r.Object? then r.mem else 0;
      OutsideBoth(old(pager.held), old(headers.slabs.Keys), pager.held, headers.slabs.Keys, ctls.slabs.Keys);
    }

    method GiveCtl(ctl: nat)
      requires Wired() && g.large && Helpers() && ctl in ctls.InUse()
      modifies pager, ctls
      decreases 1, 0
      ensures Helpers() && OutsideHelpers() == old(OutsideHelpers())
      ensures pager.free == old(pager.free) && ctls.InUse() == old(ctls.InUse()) - {ctl}
    {
      hide SoundWith;
      var _ := ctls.Free(ctl);
    }

    method GiveHeader(header: nat)
      requires Wired() && g.large && Helpers() && header in headers.InUse()
      modifies pager, headers
      decreases 1, 0
      ensures Helpers() && OutsideHelpers() == old(OutsideHelpers())
      ensures pager.free == old(pager.free) && headers.InUse() == old(headers.InUse()) - {header}
    {
      hide SoundWith;
      var _ := headers.Free(header);
    }

    /** The buffers made so far; their control blocks are the only new objects in use of that cache. */
    ghost predicate LaidOut(first: nat, free: seq<Buffer>, before: set<nat>)
      requires ctls != null
      reads ctls
    {
      && MadeInOrder(g, first, free) && DistinctCtls(free)
      && ctls.InUse() == before + CtlsOf(free) && CtlsOf(free) !! before
    }

    method AddLargeBuffer(first: nat, objAddr: nat, free: seq<Buffer>, ghost before: set<nat>)
        returns (fault: bool, more: seq<Buffer>)
      requires Wired() && g.large && Helpers() && LaidOut(first, free, before) && objAddr == ObjectAt(g, first, |free|)
      modifies pager, ctls
      decreases 1, 1
      ensures fault <==> old(CtlSupply()) == 0
      ensures fault ==> pager.free == {} && ctls.Exhausted()
      ensures !fault ==> Helpers() && OutsideHelpers() == old(OutsideHelpers()) && CtlSupply() == old(CtlSupply()) - 1
      ensures !fault ==> LaidOut(first, more, before) && |more| == |free| + 1
    {
      hide SoundWith, FreeBuffers;
      var ctl;
      fault, ctl := TakeCtl();
      more := [Buffer(ctl, objAddr)] + free;
      OneMoreMade(g, first, free, ctl);
      MoreBuffers(Buffer(ctl, objAddr), free);
    }

    /** A control block for every object, each from the cache of control blocks. */
    method LayOutLarge(first: nat) returns (fault: bool, free: seq<Buffer>)
      requires Wired() && g.large && Helpers()
      modifies pager, ctls
      decreases 1, 2
      ensures fault <==> old(CtlSupply()) < g.capacity
      ensures fault ==> pager.free == {} && ctls.Exhausted()
      ensures !fault ==> Helpers() && OutsideHelpers() == old(OutsideHelpers())
      ensures !fault ==> LaidOut(first, free, old(ctls.InUse())) && |free| == g.capacity
    {
      hide SoundWith, FreeBuffers;
      fault := false;
      free := [];
      var objAddr: nat := first;
      while |free| < g.capacity
        invariant |free| <= g.capacity && objAddr == ObjectAt(g, first, |free|)
        invariant Helpers() && OutsideHelpers() == old(OutsideHelpers())
        invariant LaidOut(first, free, old(ctls.InUse())) && CtlSupply() + |free| == old(CtlSupply())
      {
        NextObject(g, first, |free|);
        fault, free := AddLargeBuffer(first, objAddr, free, old(ctls.InUse()));
        if fault {
          return;
        }
        objAddr := objAddr + g.stride;
      }
    }

    method TakeSlabPage() returns (page: nat)
      requires Wired() && g.large && Helpers()
      modifies pager
      ensures Helpers()
      ensures page == 0 <==> old(pager.free) == {}
      ensures page == 0 ==> pager.free == {} && OutsideHelpers() == old(OutsideHelpers())
      ensures page != 0 ==> page in old(pager.free) && pager.free == old(pager.free) - {page}
      ensures page != 0 ==> page in pager.held && page !in old(pager.held)
      ensures page != 0 ==> OutsideHelpers() == old(OutsideHelpers()) + {page}
    {
      hide SoundWith, Pager.Valid;
      page := pager.TakePage();
    }

    method FillLargeSlab(page: nat, header: nat, colour: nat) returns (fault: bool, s: Slab)
      requires Wired() && g.large && Proper(g) && colour <= g.colourMax && Helpers() && page % PAGE == 0
      modifies pager, ctls
      decreases 1, 3
      ensures fault <==> old(CtlSupply()) < g.capacity
      ensures fault ==> pager.free == {} && ctls.Exhausted()
      ensures !fault ==> Helpers() && OutsideHelpers() == old(OutsideHelpers())
      ensures !fault ==> NewSlab(page, s) && s.header == header && s.first == First(g, page, colour)
      ensures !fault ==> CtlsOf(s.free) !! old(ctls.InUse()) && ctls.InUse() == old(ctls.InUse()) + CtlsOf(s.free)
    {
      hide SoundWith;
      var free;
      var first := First(g, page, colour);
      SlabFits(g, page, colour);
      fault, free := LayOutLarge(first);
      s := Slab(header, first, 0, free);
      if !fault {
        NewSlabIsFree(g, first, free);
      }
    }

    method SlabCreateLarge(colour: nat) returns (r: Outcome, s: Slab)
      requires Wired() && g.large && Proper(g) && colour <= g.colourMax && Helpers()
      modifies pager, headers, ctls
      decreases 1, 4
      ensures r.NoMemory? <==> old(NoPageForSlab())
      ensures r.Fault? <==> old(NoCtlsForSlab())
      ensures r.Fault? ==> pager.free == {} && ctls.Exhausted()
      ensures !r.Fault? ==> Helpers()
      ensures r.NoMemory? ==> pager.free == {} && OutsideHelpers() == old(OutsideHelpers())
      ensures r.NoMemory? ==> headers.InUse() == old(headers.InUse()) && ctls.InUse() == old(ctls.InUse())
      ensures r.Object? ==> NewSlab(r.mem, s) && r.mem !in old(OutsideHelpers()) && s.first == First(g, r.mem, colour)
      ensures r.Object? ==> OutsideHelpers() == old(OutsideHelpers()) + {r.mem}
      ensures r.Object? ==> s.header !in old(headers.InUse()) && headers.InUse() == old(headers.InUse()) + {s.header}
      ensures r.Object? ==> CtlsOf(s.free) !! old(ctls.InUse()) && ctls.InUse() == old(ctls.InUse()) + CtlsOf(s.free)
      ensures forall m :: r.Object? && m in Objects(g, s.first) ==>
        r.mem + PAGE_HEADER <= m && m + g.stride <= r.mem + PAGE
    {
      hide SoundWith, Objects, SlabOk, LiveIn;
      s := Slab(0, 0, 0, []);
      var ok, header := TakeHeader();
      if !ok {
        return NoMemory, s;
      }
      ghost var outside := OutsideHelpers();
      ghost var pages := pager.free;
      var page := TakeSlabPage();
      if page == 0 {
        GiveHeader(header);
        return NoMemory, s;
      }
      OnePageLess(pages, page);
      assert page !in outside;
      var fault;
      fault, s := FillLargeSlab(page, header, colour);
      r := if fault then Fault else Object(page);
      if !fault {
        forall m | m in Objects(g, s.first) ensures page + PAGE_HEADER <= m && m + g.stride <= page + PAGE {
          HeadersAreClear(g, page, s, m);
        }
      }
    }

    /** The lists with one slab more, filed for its first object. */
    ghost predicate FiledNew(page: nat, e: seq<nat>, p: seq<nat>, f: seq<nat>)
      reads `empty, `partial, `full
    {
      && empty == e
      && partial == (if g.capacity == 1 then p else [page] + p)
      && full == (if g.capacity == 1 then [page] + f else f)
    }

    /** The new slab starts where it should, and the others stay as they were. */
    ghost predicate Starts(page: nat, was: map<nat, Filing>)
      reads `slabs, `empty, `partial
    {
      && page !in was && OthersFiled(was, page, slabs, empty, partial)
      && Filing(ListOf(page), 1) == Start(g.capacity)
    }

    /** A page that is no slab is on no list. */
    lemma NotListed(page: nat)
      requires Sound() && page !in slabs
      ensures page !in empty && page !in partial
    {
      assert page in partial ==> page in partial + full;
    }

    lemma NewcomerStarts(page: nat, before: map<nat, Slab>, e: seq<nat>, p: seq<nat>, f: seq<nat>)
      requires g.capacity > 0 && page !in before && page in slabs && slabs == before[page := slabs[page]]
      requires page !in e && page !in p && FiledNew(page, e, p, f)
      ensures Starts(page, FilingsOf(before, e, p))
    {
      hide ListIn, Start;
      NewStarts(g.capacity, e, p, page);
    }

    /** The end of get_new_slab: the slab goes on the list it will belong on with its first object in use. */
    method FileNewSlab(page: nat, s: Slab)
      requires Sound() && page !in slabs && NewSlab(page, s)
      requires g.large ==> CtlsOf(s.free) !! Ctls(slabs) && s.header !in Heads(slabs)
      modifies this
      ensures Poised(page) && slabs == old(slabs)[page := s] && colourNext == old(colourNext)
      ensures FiledNew(page, old(empty), old(partial), old(full)) && Starts(page, old(Filings()))
      ensures InUse() == old(InUse())
      ensures g.large ==>
              Ctls(slabs) == old(Ctls(slabs)) + CtlsOf(s.free) && Heads(slabs) == old(Heads(slabs)) + {s.header}
    {
      hide Live, Ctls, Heads, SlabOk, ListsOk, FreeBuffers, FilingsOf, Starts;
      ghost var counts, before, e, p, f := Counts(slabs), slabs, empty, partial, full;
      NotListed(page);
      SlabAdded(g, slabs, page, s);
      slabs := slabs[page := s];
      assert Counts(slabs)[page := 1] == counts[page := 1];
      NewFiled(counts, g.capacity, empty, partial, full, page);
      full := if g.capacity == 1 then [page] + full else full;
      partial := if g.capacity == 1 then partial else [page] + partial;
      NewcomerStarts(page, before, e, p, f);
    }

    /** Slab `page` is poised, and all else holds as usual. */
    ghost predicate Ready(page: nat)
      reads Repr()
    {
      Wired() && Poised(page) && pager.Valid() && slabs.Keys <= pager.held && Owns()
    }

    /** One slab more, on a new page and at the given colour. */
    ghost predicate NewcomerOnly(was: map<nat, Slab>, page: nat, colour: nat)
      reads this
    {
      && page !in was && page in slabs && slabs == was[page := slabs[page]]
      && slabs[page].first == First(g, page, colour) && NewSlab(page, slabs[page])
    }

    /** A page became a slab of free buffers. */
    ghost predicate TookPage(pages: nat, buffers: nat)
      reads this, pager
    {
      |pager.free| + 1 == pages && FreeBuffers(slabs) == buffers + g.capacity
    }

    method AdoptSmallSlab(page: nat, s: Slab)
      requires Wired() && !g.large && Sound() && pager.Valid() && slabs.Keys <= pager.held
      requires NewSlab(page, s) && page in Foreign().pages
      modifies this
      ensures Ready(page) && InUse() == old(InUse()) && slabs == old(slabs)[page := s] && colourNext == old(colourNext)
      ensures FiledNew(page, old(empty), old(partial), old(full)) && Starts(page, old(Filings()))
      ensures Foreign() == Shares(old(Foreign()).pages - {page}, {}, {})
      ensures FreeBuffers(slabs) == old(FreeBuffers(slabs)) + g.capacity
    {
      hide SoundWith, FreeBuffers;
      FreeBuffersWith(slabs, page, s);
      FileNewSlab(page, s);
    }

    method GetNewSmall() returns (r: Outcome)
      requires Valid() && !g.large
      modifies this, pager
      ensures !r.Fault? && (r.NoMemory? <==> old(pager.free) == {})
      ensures r.Object? ==> TookPage(old(|pager.free|), old(FreeBuffers(slabs)))
      ensures colourNext == NextColour(g, old(colourNext))
      ensures r.Object? ==> NewcomerOnly(old(slabs), r.mem, old(colourNext))
      ensures r.Object? ==> FiledNew(r.mem, old(empty), old(partial), old(full)) && Starts(r.mem, old(Filings()))
      ensures r.Object? ==> Ready(r.mem) && InUse() == old(InUse()) && Foreign() == old(Foreign())
      ensures r.NoMemory? ==> Valid() && InUse() == old(InUse()) && Foreign() == old(Foreign()) && pager.free == {}
      ensures r.NoMemory? ==> slabs == old(slabs) && Filings() == old(Filings())
      ensures r.NoMemory? ==> empty == old(empty) && partial == old(partial) && full == old(full)
    {
      hide ListsOk, Live, SlabOk, FreeBuffers, Filings, Starts, FiledNew;
      var page, s := SlabCreateSmall(colourNext);
      colourNext := NextColour(g, colourNext);
      if page == 0 {
        r := NoMemory;
      } else {
        AdoptSmallSlab(page, s);
        r := Object(page);
      }
    }

    /** What slab_create_large brings is new to this cache and to all others. */
    method CreateBeside(colour: nat) returns (r: Outcome, s: Slab)
      requires Wired() && g.large && Proper(g) && Owns() && colour <= g.colourMax
      modifies pager, headers, ctls
      decreases 1, 5
      ensures r.NoMemory? <==> old(NoPageForSlab())
      ensures r.Fault? <==> old(NoCtlsForSlab())
      ensures r.Fault? ==> pager.free == {} && ctls.Exhausted()
      ensures !r.Fault? ==> Owns()
      ensures r.NoMemory? ==> pager.free == {} && Foreign() == old(Foreign())
      ensures r.Object? ==> NewSlab(r.mem, s) && s.header !in old(Foreign()).heads && s.first == First(g, r.mem, colour)
      ensures r.Object? ==> r.mem !in old(Foreign()).pages && CtlsOf(s.free) !! old(Foreign()).ctls
      ensures r.Object? ==> r.mem in Foreign().pages && CtlsOf(s.free) <= Foreign().ctls && s.header in Foreign().heads
      ensures r.Object? ==> Foreign().pages - {r.mem} == old(Foreign()).pages
      ensures r.Object? ==> Foreign().ctls - CtlsOf(s.free) == old(Foreign()).ctls
      ensures r.Object? ==> Foreign().heads - {s.header} == old(Foreign()).heads
    {
      hide SoundWith, Pager.Valid;
      r, s := SlabCreateLarge(colour);
    }

    /** A slab made of what nobody else has becomes a slab of this cache. */
    method AdoptLargeSlab(page: nat, s: Slab)
      requires Wired() && g.large && Sound() && Owns()
      requires NewSlab(page, s) && page in Foreign().pages
      requires CtlsOf(s.free) <= Foreign().ctls && s.header in Foreign().heads
      modifies this
      ensures Ready(page) && InUse() == old(InUse()) && slabs == old(slabs)[page := s] && colourNext == old(colourNext)
      ensures FiledNew(page, old(empty), old(partial), old(full)) && Starts(page, old(Filings()))
      ensures var was := old(Foreign());
              Foreign() == Shares(was.pages - {page}, was.ctls - CtlsOf(s.free), was.heads - {s.header})
    {
      hide SoundWith;
      FileNewSlab(page, s);
    }

    method GetNewLarge() returns (r: Outcome)
      requires Valid() && g.large
      modifies this, pager, headers, ctls
      decreases 1, 6
      ensures r.NoMemory? <==> old(NoPageForSlab())
      ensures r.Fault? <==> old(NoCtlsForSlab())
      ensures r.Fault? ==> pager.free == {} && ctls.Exhausted()
      ensures colourNext == NextColour(g, old(colourNext))
      ensures r.Object? ==> NewcomerOnly(old(slabs), r.mem, old(colourNext))
      ensures r.Object? ==> FiledNew(r.mem, old(empty), old(partial), old(full)) && Starts(r.mem, old(Filings()))
      ensures r.Object? ==> Ready(r.mem) && InUse() == old(InUse()) && Foreign() == old(Foreign())
      ensures r.NoMemory? ==> Valid() && InUse() == old(InUse()) && Foreign() == old(Foreign()) && pager.free == {}
      ensures r.NoMemory? ==> slabs == old(slabs) && Filings() == old(Filings())
      ensures r.NoMemory? ==> empty == old(empty) && partial == old(partial) && full == old(full)
    {
      hide Live, Ctls, Heads, SlabOk, ListsOk, FreeBuffers, Filings, Starts, FiledNew, Pager.Valid;
      var s;
      r, s := CreateBeside(colourNext);
      colourNext := NextColour(g, colourNext);
      if r.Object? {
        AdoptLargeSlab(r.mem, s);
      }
    }

    /** The colour moves on whether or not there is a slab to show for it. */
    method GetNewSlab() returns (r: Outcome)
      requires Valid()
      modifies Repr()
      decreases (if g.large then 1 else 0), 7
      ensures r.NoMemory? <==> old(NoPageForSlab())
      ensures r.Fault? <==> old(NoCtlsForSlab())
      ensures r.Fault? ==> g.large && pager.free == {} && ctls.Exhausted()
      ensures colourNext == NextColour(g, old(colourNext))
      ensures r.Object? ==> NewcomerOnly(old(slabs), r.mem, old(colourNext))
      ensures r.Object? ==> FiledNew(r.mem, old(empty), old(partial), old(full)) && Starts(r.mem, old(Filings()))
      ensures r.Object? ==> Ready(r.mem) && InUse() == old(InUse()) && Foreign() == old(Foreign())
      ensures r.NoMemory? ==> Valid() && InUse() == old(InUse()) && Foreign() == old(Foreign()) && pager.free == {}
      ensures r.NoMemory? ==> slabs == old(slabs) && Filings() == old(Filings())
      ensures r.NoMemory? ==> empty == old(empty) && partial == old(partial) && full == old(full)
      ensures !g.large && r.Object? ==> TookPage(old(|pager.free|), old(FreeBuffers(slabs)))
    {
      hide SoundWith, FreeBuffers, Filings, Starts, FiledNew;
      if g.large {
        r := GetNewLarge();
      } else {
        r := GetNewSmall();
      }
    }

    /** A small cache gave one object, out of a new page if it had to. */
    ghost predicate GaveOne(exhausted: bool, pages: nat, buffers: nat)
      reads this, pager
    {
      && |pager.free| + (if exhausted then 1 else 0) == pages
      && FreeBuffers(slabs) + 1 == buffers + (if exhausted then g.capacity else 0)
    }

    lemma BufferOfCtl(page: nat)
      requires Poised(page) && !g.large
      ensures var b := slabs[page].free[0]; b.ctl >= g.size && MemOf(g, b.ctl) == b.mem
    {
      var s := slabs[page];
      assert SlabOk(g, page, s);
      assert s.free[0] in s.free && s.free[0].mem in Mems(s.free);
      ObjectsInPage(g, page, s.first, s.free[0].mem);
      CtlRoundTrip(g, s.free[0].mem);
    }

    /** Slab `page` gave its first free buffer, and no list has changed. */
    ghost predicate TookFrom(page: nat, was: map<nat, Slab>, e: seq<nat>, p: seq<nat>, f: seq<nat>)
      reads this
    {
      && page in was && was[page].free != [] && slabs == was[page := Taken(was[page])]
      && empty == e && partial == p && full == f
    }

    method PopBuffer(page: nat) returns (b: Buffer)
      requires Poised(page)
      modifies this
      ensures b == old(slabs[page].free[0]) && PageOf(b.mem) == page
      ensures TookFrom(page, old(slabs), old(empty), old(partial), old(full))
      ensures Sound() && slabs.Keys == old(slabs.Keys) && FreeBuffers(slabs) + 1 == old(FreeBuffers(slabs))
      ensures b.mem !in old(InUse()) && InUse() == old(InUse()) + {b.mem}
      ensures g.large ==> b.ctl in old(Ctls(slabs)) && Ctls(slabs) == old(Ctls(slabs)) - {b.ctl}
      ensures g.large ==> Heads(slabs) == old(Heads(slabs))
    {
      hide Live, Ctls, Heads, SlabOk, ListsOk, FreeBuffers;
      var s := slabs[page];
      b := s.free[0];
      TakeHandsOut(g, slabs, page);
      FreeBuffersWith(slabs, page, Taken(s));
      ghost var counts := Counts(slabs);
      slabs := slabs[page := Taken(s)];
      assert Counts(slabs) == counts[page := s.inuse + 1];
    }

    /** The control block of the buffer is now nobody's. */
    method PopBufferOfLarge(page: nat) returns (b: Buffer)
      requires Ready(page) && g.large
      modifies this
      ensures Sound() && Owns() && b == old(slabs[page].free[0]) && PageOf(b.mem) == page
      ensures TookFrom(page, old(slabs), old(empty), old(partial), old(full))
      ensures b.mem !in old(InUse()) && InUse() == old(InUse()) + {b.mem}
      ensures b.ctl in Foreign().ctls && b.ctl !in old(Foreign()).ctls
      ensures Foreign() == old(Foreign()).(ctls := old(Foreign()).ctls + {b.ctl})
    {
      hide SoundWith;
      b := PopBuffer(page);
    }

    /** A control block that is no longer needed goes back to its cache. */
    method ReleaseCtl(ctl: nat)
      requires Wired() && g.large && Owns() && ctl in Foreign().ctls
      modifies pager, ctls
      decreases 1, 1
      ensures Owns() && Foreign() == old(Foreign()).(ctls := old(Foreign()).ctls - {ctl})
      ensures pager.free == old(pager.free)
    {
      hide SoundWith;
      GiveCtl(ctl);
    }

    method ObjectAllocLarge(page: nat) returns (mem: nat)
      requires Ready(page) && g.large
      modifies this, pager, ctls
      decreases 1, 5
      ensures Valid() && Foreign() == old(Foreign())
      ensures mem == old(slabs[page].free[0].mem) && PageOf(mem) == page
      ensures TookFrom(page, old(slabs), old(empty), old(partial), old(full))
      ensures mem !in old(InUse()) && InUse() == old(InUse()) + {mem}
    {
      hide SoundWith;
      var b := PopBufferOfLarge(page);
      ReleaseCtl(b.ctl);
      mem := b.mem;
    }

    method ObjectAlloc(page: nat) returns (mem: nat)
      requires Ready(page)
      modifies Repr()
      decreases (if g.large then 1 else 0), 7
      ensures Valid() && Foreign() == old(Foreign())
      ensures mem == old(slabs[page].free[0].mem) && PageOf(mem) == page
      ensures TookFrom(page, old(slabs), old(empty), old(partial), old(full))
      ensures mem !in old(InUse()) && InUse() == old(InUse()) + {mem}
      ensures !g.large ==> pager.free == old(pager.free) && FreeBuffers(slabs) + 1 == old(FreeBuffers(slabs))
    {
      hide SoundWith, FreeBuffers;
      if g.large {
        mem := ObjectAllocLarge(page);
      } else {
        BufferOfCtl(page);
        var b := PopBuffer(page);
        mem := MemOf(g, b.ctl);
      }
    }

    /** Then its filing is the only one that changes. */
    lemma TakingMoves(was: map<nat, Filing>, page: nat, before: map<nat, Slab>, e: seq<nat>, p: seq<nat>, f: seq<nat>)
      requires TookFrom(page, before, e, p, f) && OthersFiled(was, page, before, e, p)
      ensures Filings() == was[page := Filing(ListIn(page, e, p), before[page].inuse + 1)]
      ensures (Stuck() <==> g.capacity == 1 && p != []) && (Exhausted() <==> p == [] && e == [])
    {
      hide ListIn;
    }

    /** The first half of kmm_cache_alloc: a slab with a free buffer, filed for one object more. */
    method ObtainSlab() returns (r: Outcome)
      requires Valid()
      modifies Repr()
      decreases (if g.large then 1 else 0), 8
      ensures r.NoMemory? <==> old(AllocFails())
      ensures r.Fault? <==> old(AllocFaults())
      ensures r.Fault? && !old(Stuck()) ==> g.large && pager.free == {} && ctls.Exhausted()
      ensures r.NoMemory? ==> Valid() && Foreign() == old(Foreign()) && InUse() == old(InUse())
      ensures r.NoMemory? ==> pager.free == {} && Exhausted() && Filings() == old(Filings())
      ensures r.Object? ==> Ready(r.mem) && Foreign() == old(Foreign()) && InUse() == old(InUse())
      ensures r.Object? ==> (r.mem in old(slabs) <==> !old(Exhausted()))
      ensures r.Object? ==> OthersFiled(old(Filings()), r.mem, slabs, empty, partial)
      ensures r.Object? ==>
        Allocated(old(Filings()), r.mem, g.capacity) == Next(Filing(ListOf(r.mem), slabs[r.mem].inuse + 1))
      ensures r.Object? && g.capacity == 1 ==> (partial != [] <==> !old(Exhausted()))
      ensures r.Object? && g.capacity == 1 && old(Exhausted()) ==> Exhausted()
      ensures !g.large && r.Object? ==> if old(Exhausted()) then TookPage(old(|pager.free|), old(FreeBuffers(slabs)))
              else pager.free == old(pager.free) && FreeBuffers(slabs) == old(FreeBuffers(slabs))
    {
      hide SoundWith, FreeBuffers, TakeFrom, OthersFiled, ListIn, Pager.Valid, TookPage;
      var found, page := FindExisting();
      if !found {
        r := GetNewSlab();
      } else if slabs[page].free == [] {
        // The assertion of object_alloc that there is a free buffer.
        r := Fault;
      } else {
        r := Object(page);
      }
    }

    /** kmm_cache_alloc: an object that nobody holds, or none when no page can be had. */
    method Alloc() returns (r: Outcome)
      requires Valid()
      modifies Repr()
      decreases (if g.large then 1 else 0), 9
      ensures r.NoMemory? <==> old(AllocFails())
      ensures r.Fault? <==> old(AllocFaults())
      ensures r.Fault? && !old(Stuck()) ==> g.large && pager.free == {} && ctls.Exhausted()
      ensures !r.Fault? ==> Valid() && Foreign() == old(Foreign())
      ensures r.NoMemory? ==> InUse() == old(InUse()) && pager.free == {} && Exhausted()
      ensures r.Object? ==> r.mem !in old(InUse()) && InUse() == old(InUse()) + {r.mem}
      ensures !g.large && r.Object? ==> GaveOne(old(Exhausted()), old(|pager.free|), old(FreeBuffers(slabs)))
      ensures r.NoMemory? ==> Filings() == old(Filings())
      ensures r.Object? ==> (PageOf(r.mem) in old(slabs) <==> !old(Exhausted()))
      ensures r.Object? ==> var step := Allocated(old(Filings()), PageOf(r.mem), g.capacity);
              step.Next? && Filings() == old(Filings())[PageOf(r.mem) := step.filing]
      ensures r.Object? && g.capacity == 1 ==> (Stuck() <==> !old(Exhausted()))
      ensures r.Object? && g.capacity == 1 && old(Exhausted()) ==> Exhausted()
    {
      hide SoundWith, FreeBuffers, Allocated, OthersFiled, TookFrom, Filings, ListIn, Pager.Valid, AllocFails,
          AllocFaults, Own, Owns;
      ghost var was := Filings();
      r := ObtainSlab();
      if !r.Object? {
        return;
      }
      var page := r.mem;
      ghost var before, e, p, f := slabs, empty, partial, full;
      var mem := ObjectAlloc(page);
      TakingMoves(was, page, before, e, p, f);
      r := Object(mem);
    }

    /** The slab of an object in use, and where it is to be found. */
    lemma SlabInUse(page: nat, mem: nat)
      requires Sound() && mem in InUse() && page == PageOf(mem)
      ensures page in slabs && 0 < slabs[page].inuse <= g.capacity
      ensures FoundOn(page, slabs[page].inuse, g.capacity, empty, partial, full)
    {
      hide Live, ListsOk, FoundOn;
      LiveInPage(g, slabs, mem);
      assert SlabOk(g, page, slabs[page]);
      InUseIsPositive(g, page, slabs[page], mem);
      WhereFound(Counts(slabs), g.capacity, empty, partial, full, page);
    }

    /** Slab `page` is about to take an object back, and is filed for that already. */
    ghost predicate Emptier(page: nat)
      reads this
    {
      && page in slabs && slabs[page].inuse > 0
      && SoundWith(Counts(slabs)[page := slabs[page].inuse - 1])
    }

    /**
     * The slab of an object that comes back moves between the lists beforehand. A full slab that is not on the full
     * list makes slist_remove run off its end.
     */
    method Refile(page: nat, ghost mem: nat) returns (fault: bool)
      requires Sound() && mem in InUse() && page == PageOf(mem)
      modifies `empty, `partial, `full
      ensures fault <==> g.capacity == 1 && page in old(partial)
      ensures !fault ==> Emptier(page)
      ensures page in old(Filings())
      ensures fault ==> GiveTo(old(Filings())[page], g.capacity) == Trap
      ensures !fault ==> GiveTo(old(Filings())[page], g.capacity) == Next(Filing(ListOf(page), slabs[page].inuse - 1))
      ensures !fault ==> OthersFiled(old(Filings()), page, slabs, empty, partial)
    {
      hide Filed, ListsOk, Live, SlabsOk, FreeBuffers, GiveTo, ListIn;
      SlabInUse(page, mem);
      var wasFull := slabs[page].inuse == g.capacity;
      var becomesEmpty := slabs[page].inuse == 1;
      ghost var counts, n := Counts(slabs), slabs[page].inuse - 1;
      ghost var e, p, f := empty, partial, full;
      if wasFull {
        if page !in full {
          UnlistedTraps(counts, e, p, f, page);
          return true;
        }
        full := Leave(full, page);
      } else if becomesEmpty {
        partial := Leave(partial, page);
      }
      if becomesEmpty {
        empty := [page] + empty;
      } else if wasFull {
        partial := [page] + partial;
      }
      Refiled(counts, g.capacity, e, p, f, page, n, empty, partial, full);
      GivenBack(counts, g.capacity, e, p, f, page, empty, partial);
      fault := false;
    }

    /** A control block that nobody has. */
    method AcquireCtl() returns (fault: bool, ctl: nat)
      requires Wired() && g.large && Owns()
      modifies pager, ctls
      decreases 1, 1
      ensures fault <==> old(ctls.Exhausted()) && old(pager.free) == {}
      ensures fault ==> pager.free == {} && ctls.Exhausted()
      ensures !fault ==> Owns() && ctl !in old(Foreign()).ctls && ctl !in Ctls(slabs)
      ensures !fault ==> Foreign() == old(Foreign()).(ctls := old(Foreign()).ctls + {ctl})
    {
      hide SoundWith;
      fault, ctl := TakeCtl();
    }

    /** Slab `page` has the object back as its first free buffer, and no list has changed. */
    ghost predicate GotBack(page: nat, mem: nat, was: map<nat, Slab>, e: seq<nat>, p: seq<nat>, f: seq<nat>)
      reads this
    {
      && page in slabs && slabs[page].free != [] && slabs[page].free[0].mem == mem
      && page in was && was[page].inuse > 0 && slabs == was[page := Returned(was[page], slabs[page].free[0])]
      && empty == e && partial == p && full == f
    }

    method PushBuffer(page: nat, b: Buffer)
      requires Emptier(page) && b.mem in InUse() && page == PageOf(b.mem)
      requires if g.large then b.ctl !in Ctls(slabs) else b.ctl == CtlOf(g, b.mem)
      modifies `slabs
      ensures Sound() && slabs.Keys == old(slabs.Keys)
      ensures GotBack(page, b.mem, old(slabs), old(empty), old(partial), old(full)) && slabs[page].free[0] == b
      ensures InUse() == old(InUse()) - {b.mem}
      ensures g.large ==> Ctls(slabs) == old(Ctls(slabs)) + {b.ctl} && Heads(slabs) == old(Heads(slabs))
    {
      hide Live, Ctls, Heads, SlabOk, ListsOk, FreeBuffers;
      ReturnTakesBack(g, slabs, b);
      ghost var counts := Counts(slabs);
      slabs := slabs[page := Returned(slabs[page], b)];
      assert Counts(slabs) == counts[page := slabs[page].inuse];
    }

    method ObjectFree(mem: nat, page: nat) returns (fault: bool)
      requires Wired() && Emptier(page) && pager.Valid() && slabs.Keys <= pager.held && Owns()
      requires mem in InUse() && page == PageOf(mem)
      modifies Repr()
      decreases (if g.large then 1 else 0), 7
      ensures fault <==> g.large && old(ctls.Exhausted()) && old(pager.free) == {}
      ensures fault ==> pager.free == {} && ctls.Exhausted()
      ensures !fault ==> Valid() && Foreign() == old(Foreign()) && slabs.Keys == old(slabs.Keys)
      ensures !fault ==> GotBack(page, mem, old(slabs), old(empty), old(partial), old(full))
      ensures !fault ==> InUse() == old(InUse()) - {mem}
      ensures !g.large ==> pager.free == old(pager.free) && pager.held == old(pager.held)
    {
      hide SoundWith;
      var ctl;
      if g.large {
        fault, ctl := AcquireCtl();
        if fault {
          return;
        }
      } else {
        fault, ctl := false, CtlOf(g, mem);
      }
      PushBuffer(page, Buffer(ctl, mem));
    }

    /** Then its filing is the only one that changes. */
    lemma GivingMoves(was: map<nat, Filing>, page: nat, mem: nat, before: map<nat, Slab>,
        e: seq<nat>, p: seq<nat>, f: seq<nat>)
      requires GotBack(page, mem, before, e, p, f) && OthersFiled(was, page, before, e, p)
      ensures Filings() == was[page := Filing(ListIn(page, e, p), before[page].inuse - 1)]
    {
      hide ListIn;
    }

    /** kmm_cache_free: takes exactly the given object out of use. */
    method Free(mem: nat) returns (fault: bool)
      requires Valid() && mem in InUse()
      modifies Repr()
      decreases (if g.large then 1 else 0), 8
      ensures fault <==> old(FreeFaults(mem))
      ensures fault && !(g.capacity == 1 && PageOf(mem) in old(partial)) ==>
        g.large && pager.free == {} && ctls.Exhausted()
      ensures !fault ==> Valid() && Foreign() == old(Foreign()) && slabs.Keys == old(slabs.Keys)
      ensures !fault ==> InUse() == old(InUse()) - {mem}
      ensures !g.large ==> pager.free == old(pager.free) && pager.held == old(pager.held)
      ensures PageOf(mem) in old(Filings())
      ensures var step := GiveTo(old(Filings())[PageOf(mem)], g.capacity);
              && (step.Trap? <==> g.capacity == 1 && PageOf(mem) in old(partial))
              && (!fault ==> step.Next? && Filings() == old(Filings())[PageOf(mem) := step.filing])
    {
      hide SoundWith, GiveTo, OthersFiled, GotBack, Filings, ListIn;
      var page := PageOf(mem);
      ghost var was := Filings();
      fault := Refile(page, mem);
      if !fault {
        ghost var before, e, p, f := slabs, empty, partial, full;
        fault := ObjectFree(mem, page);
        if !fault {
          GivingMoves(was, page, mem, before, e, p, f);
        }
      }
    }

    /**
     * Any run of allocations, and of frees of what they gave. If slabs hold more than one object, or if nothing is
     * freed and nothing was, no assertion trips: then only control blocks can be missing.
     */
    method Run(ops: seq<Op>) returns (fault: bool, held: set<nat>)
      requires Valid() && (g.capacity == 1 ==> Exhausted())
      modifies Repr()
      ensures !fault ==> Valid() && Foreign() == old(Foreign())
      ensures !fault ==> held !! old(InUse()) && InUse() == old(InUse()) + held
      ensures fault && (g.capacity > 1 || Give !in ops) ==> g.large && pager.free == {} && ctls.Exhausted()
    {
      hide Owns, Own, Foreign, Filings, FreeFaults, AllocFails, AllocFaults, TakeFrom, GiveTo;
      held := {};
      fault := false;
      for i := 0 to |ops|
        invariant Valid() && Foreign() == old(Foreign())
        invariant held !! old(InUse()) && InUse() == old(InUse()) + held
        invariant g.capacity == 1 && Give !in ops ==> Exhausted()
      {
        if ops[i] == Take {
          var r := Alloc();
          if r.Fault? {
            return true, held;
          }
          held := held + if r.Object? then {r.mem} else {};
        } else if held != {} {
          var mem :| mem in held;
          fault := Free(mem);
          if fault {
            return;
          }
          held := held - {mem};
        }
      }
    }

    // ------------------------------------------------------------ giving slabs up

    function List(name: ListName): seq<nat>
      reads this
    {
      match name
      case Empty => empty
      case Partial => partial
      case Full => full
    }

    /**
     * The slab leaves the list that its number of objects in use says; one that is not on it makes slist_remove run
     * off the end of the list.
     */
    method Unlist(page: nat, inuse: nat, ghost counts: map<nat, nat>) returns (fault: bool)
      requires g.capacity > 0 && ListsOk(counts, g.capacity, empty, partial, full)
      requires page in counts && counts[page] == inuse <= g.capacity && Wired() && Owns()
      modifies `empty, `partial, `full
      ensures Owns() && Foreign() == old(Foreign())
      ensures fault <==> g.capacity == 1 && page in old(partial)
      ensures !fault ==> ListsOk(counts - {page}, g.capacity, empty, partial, full)
      ensures !fault ==> forall name :: var list := old(this.List(name));
                if ListFor(inuse, g.capacity) == name then LeftBy(list, page, List(name)) else List(name) == list
    {
      hide SoundWith, ListsOk, Filed, LeftBy;
      ghost var e, p, f := empty, partial, full;
      WhereFound(counts, g.capacity, empty, partial, full, page);
      if inuse == 0 {
        empty := Leave(empty, page);
      } else if inuse == g.capacity {
        if page !in full {
          return true;
        }
        full := Leave(full, page);
      } else {
        partial := Leave(partial, page);
      }
      Unlisted(counts, g.capacity, e, p, f, page, empty, partial, full);
      fault := false;
    }

    /** free_large_buffers: the control blocks of a slab that is going away. */
    method FreeLargeBuffers(free: seq<Buffer>)
      requires Wired() && g.large && Owns() && DistinctCtls(free) && CtlsOf(free) <= Foreign().ctls
      modifies pager, ctls
      ensures Owns() && Foreign() == old(Foreign()).(ctls := old(Foreign()).ctls - CtlsOf(free))
      ensures pager.free == old(pager.free)
    {
      hide SoundWith, Live, Ctls;
      var rest := free;
      while rest != []
        invariant Owns() && DistinctCtls(rest) && CtlsOf(rest) <= Foreign().ctls
        invariant Foreign() == old(Foreign()).(ctls := Foreign().ctls)
        invariant Foreign().ctls - CtlsOf(rest) == old(Foreign()).ctls - CtlsOf(free)
        invariant pager.free == old(pager.free)
        decreases |rest|
      {
        FirstBuffer(rest);
        ReleaseCtl(rest[0].ctl);
        rest := rest[1..];
      }
    }

    /** What a large slab had goes to nobody in particular. */
    lemma WithoutLargeSlab(page: nat, was: map<nat, Slab>)
      requires Wired() && g.large && SlabsOk(g, was) && page in was && slabs == was - {page}
      requires Helpers() && was.Keys <= OutsideHelpers() && Ctls(was) <= ctls.InUse() && Heads(was) <= headers.InUse()
      ensures DistinctCtls(was[page].free) && Owns()
      ensures page in Foreign().pages && CtlsOf(was[page].free) <= Foreign().ctls && was[page].header in Foreign().heads
      ensures Foreign().pages - {page} == OutsideHelpers() - was.Keys
      ensures Foreign().ctls - CtlsOf(was[page].free) == ctls.InUse() - Ctls(was)
      ensures Foreign().heads - {was[page].header} == headers.InUse() - Heads(was)
    {
      hide SoundWith, Live, Ctls, Heads;
      CtlsSplit(g, was, page);
      assert SlabOk(g, page, was[page]);
      assert OutsideHelpers() - (was.Keys - {page}) - {page} == OutsideHelpers() - was.Keys;
    }

    /** The control blocks and the header of a large slab go back to their caches. */
    method GiveParts(s: Slab)
      requires Wired() && g.large && Owns() && DistinctCtls(s.free)
      requires CtlsOf(s.free) <= Foreign().ctls && s.header in Foreign().heads
      modifies pager, headers, ctls
      ensures Owns() && pager.free == old(pager.free) && pager.Valid() && slabs.Keys <= pager.held
      ensures var was := old(Foreign());
              Foreign() == Shares(was.pages, was.ctls - CtlsOf(s.free), was.heads - {s.header})
    {
      hide SoundWith, Live, Ctls, Heads;
      FreeLargeBuffers(s.free);
      GiveHeader(s.header);
    }

    method GivePage(page: nat)
      requires Wired() && pager.Valid() && slabs.Keys <= pager.held && Owns() && page in Foreign().pages
      modifies pager
      ensures pager.Valid() && slabs.Keys <= pager.held && Owns() && pager.free == old(pager.free) + {page}
      ensures Foreign() == old(Foreign()).(pages := old(Foreign()).pages - {page})
    {
      hide SoundWith, Live, Ctls, Heads;
      pager.GivePage(page);
    }

    /** The slab is nobody's from here on, and so is what it was made of. */
    method Abandon(page: nat)
      requires Valid() && page in slabs
      modifies `slabs
      ensures slabs == old(slabs) - {page} && SlabsOk(g, slabs) && Counts(slabs) == old(Counts(slabs)) - {page}
      ensures InUse() == old(InUse()) - LiveIn(g, old(slabs)[page])
      ensures Owns() && page in Foreign().pages && Foreign().pages - {page} == old(Foreign()).pages
      ensures g.large ==> DistinctCtls(old(slabs)[page].free)
      ensures g.large ==> CtlsOf(old(slabs)[page].free) <= Foreign().ctls && old(slabs)[page].header in Foreign().heads
      ensures g.large ==> Foreign().ctls - CtlsOf(old(slabs)[page].free) == old(Foreign()).ctls
      ensures g.large ==> Foreign().heads - {old(slabs)[page].header} == old(Foreign()).heads
    {
      hide Live, Ctls, Heads, ListsOk, SlabsOk, FreeBuffers;
      ghost var was := slabs;
      LiveSplits(g, slabs, page);
      slabs := slabs - {page};
      if g.large {
        WithoutLargeSlab(page, was);
      }
    }

    /** An abandoned slab without its page. */
    method TakeApart(page: nat)
      requires Valid() && page in slabs
      modifies Repr() - {this}, `slabs
      ensures slabs == old(slabs) - {page} && SlabsOk(g, slabs) && Counts(slabs) == old(Counts(slabs)) - {page}
      ensures InUse() == old(InUse()) - LiveIn(g, old(slabs)[page])
      ensures pager.Valid() && slabs.Keys <= pager.held && Owns() && pager.free == old(pager.free)
      ensures page in Foreign().pages && old(Foreign()) == Foreign().(pages := Foreign().pages - {page})
    {
      hide SoundWith, Live, Ctls, Heads, FreeBuffers;
      var s := slabs[page];
      Abandon(page);
      if g.large {
        GiveParts(s);
      }
    }

    lemma InUseFits(page: nat)
      requires Sound() && page in slabs
      ensures g.capacity > 0 && page in Counts(slabs) && Counts(slabs)[page] == slabs[page].inuse <= g.capacity
    {
      assert SlabOk(g, page, slabs[page]);
    }

    /**
     * slab_destroy: the control blocks and the header of a large slab go back where they came from, the slab leaves
     * its list, and its page goes back.
     */
    method SlabDestroy(page: nat) returns (fault: bool)
      requires Valid() && page in slabs
      modifies Repr()
      ensures fault <==> g.capacity == 1 && page in old(partial)
      ensures !fault ==> Valid() && Foreign() == old(Foreign()) && slabs == old(slabs) - {page}
      ensures !fault ==> InUse() == old(InUse()) - LiveIn(g, old(slabs)[page])
      ensures !fault ==> forall name :: var list := old(this.List(name));
                if ListFor(old(slabs)[page].inuse, g.capacity) == name then LeftBy(list, page, List(name))
                else List(name) == list
      ensures !fault ==> pager.free == old(pager.free) + {page}
    {
      hide Live, Ctls, Heads, ListsOk, LeftBy, SlabsOk, FreeBuffers, Counts;
      var inuse := slabs[page].inuse;
      ghost var counts := Counts(slabs);
      InUseFits(page);
      TakeApart(page);
      fault := Unlist(page, inuse, counts);
      if !fault {
        GivePage(page);
      }
    }

    lemma OnList(page: nat, name: ListName)
      requires Sound() && page in List(name)
      ensures g.capacity > 0 && page in slabs
      ensures g.capacity == 1 ==> (page in partial <==> name == Partial)
      ensures name != Partial || g.capacity > 1 ==> ListFor(slabs[page].inuse, g.capacity) == name
      ensures name == Empty ==> LiveIn(g, slabs[page]) == {}
    {
      hide Live, ListsOk;
      OnOneList(Counts(slabs), g.capacity, empty, partial, full, page);
      if name == Empty {
        assert SlabOk(g, page, slabs[page]);
        InUseCounts(g, page, slabs[page]);
      }
    }

    /**
     * free_slabs_list: every slab on the list is destroyed; emptied slabs take no object with them. With one object a
     * slab, those on the partial list count as full and are not found on the full list.
     */
    method FreeSlabs(name: ListName) returns (fault: bool)
      requires Valid()
      modifies Repr()
      ensures fault <==> name == Partial && old(Stuck())
      ensures !fault ==> Valid() && Foreign() == old(Foreign()) && slabs.Keys <= old(slabs.Keys)
      ensures !fault ==> List(name) == [] && forall other :: other != name ==> List(other) == old(this.List(other))
      ensures !fault ==> pager.free == old(pager.free) + (old(slabs).Keys - slabs.Keys)
      ensures !fault && name == Empty ==> InUse() == old(InUse())
    {
      hide SoundWith, Live, Ctls, Heads, Pager.Valid;
      fault := false;
      while List(name) != []
        invariant Valid() && Foreign() == old(Foreign()) && slabs.Keys <= old(slabs.Keys)
        invariant pager.free == old(pager.free) + (old(slabs).Keys - slabs.Keys)
        invariant List(name) == old(this.List(name)) || !(name == Partial && g.capacity == 1)
        invariant forall other :: other != name ==> List(other) == old(this.List(other))
        invariant name == Empty ==> InUse() == old(InUse())
        decreases |List(name)|
      {
        var page := List(name)[0];
        OnList(page, name);
        fault := SlabDestroy(page);
        if fault {
          return;
        }
      }
    }

    /** kmm_cache_trim. */
    method Trim()
      requires Valid()
      modifies Repr()
      ensures Valid() && Foreign() == old(Foreign()) && InUse() == old(InUse()) && slabs.Keys <= old(slabs.Keys)
      ensures empty == [] && partial == old(partial) && full == old(full)
      ensures pager.free == old(pager.free) + (old(slabs).Keys - slabs.Keys)
    {
      hide SoundWith;
      var _ := FreeSlabs(Empty);
      assert List(Partial) == old(List(Partial)) && List(Full) == old(List(Full));
    }

    lemma NothingInUse()
      requires slabs == map[]
      ensures InUse() == {}
    {
    }

    /**
     * Every slab is on the list that its number of objects in use says, and that number is right. With one object a
     * slab, one in use is on the partial list or on the full list.
     */
    lemma IsListed(page: nat)
      requires Sound() && page in slabs
      ensures g.capacity > 0 && (page in empty <==> slabs[page].inuse == 0)
      ensures g.capacity > 1 ==> forall name :: page in List(name) <==> name == ListFor(slabs[page].inuse, g.capacity)
      ensures g.capacity == 1 && slabs[page].inuse == 1 ==> (page in partial <==> page !in full)
      ensures g.capacity == 1 && slabs[page].inuse == 0 ==> page !in partial && page !in full
      ensures slabs[page].inuse + |slabs[page].free| == g.capacity && |LiveIn(g, slabs[page])| == slabs[page].inuse
    {
      hide Live, ListsOk;
      assert SlabOk(g, page, slabs[page]);
      InUseCounts(g, page, slabs[page]);
      OnOneList(Counts(slabs), g.capacity, empty, partial, full, page);
    }

    lemma NoSlabsLeft()
      requires Sound() && full == [] && partial == [] && empty == []
      ensures slabs == map[] && InUse() == {}
    {
      hide SoundWith, Live;
      forall p ensures p !in slabs {
        if p in slabs {
          assert p !in List(ListFor(slabs[p].inuse, g.capacity));
          IsListed(p);
        }
      }
      NothingInUse();
    }

    /**
     * The slabs part of kmm_cache_destroy: nothing is left of the cache, and nothing of others is touched. It fails
     * exactly where allocations fail.
     */
    method Destroy() returns (fault: bool)
      requires Valid()
      modifies Repr()
      ensures fault <==> old(Stuck())
      ensures !fault ==> Valid() && Foreign() == old(Foreign()) && slabs == map[] && InUse() == {}
      ensures !fault ==> pager.free == old(pager.free) + old(slabs).Keys
    {
      hide SoundWith, Live, Ctls, Heads, Pager.Valid;
      fault := FreeSlabs(Full);
      assert List(Partial) == old(List(Partial));
      fault := FreeSlabs(Partial);
      if fault {
        return;
      }
      fault := FreeSlabs(Empty);
      assert List(Full) == [] && List(Partial) == [] && List(Empty) == [];
      NoSlabsLeft();
    }
  }
}
