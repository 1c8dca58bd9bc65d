/** 32-bit paging as in section 4.3 of the Intel SDM, Volume 3A: two levels of tables of 1024 entries,
    and the caches of section 4.10 that may remember any translation that was present. */
module Paging {

  datatype Option<T> = None | Some(value: T)

  /** An entry of a directory or of a table: the present bit and the 20 bits of the frame number. */
  datatype Pge = Pge(present: bool, frame: nat)

  type Frame = seq<Pge>
  type Memory = map<nat, Frame>

  const PAGE_SIZE := 4096
  const ENTRY_SIZE := 4
  const ENTRIES := 1024
  const WORD := 0x1_0000_0000
  const FRAMES := 0x10_0000
  const LAST_VALID_DIR := 1021
  const EMERGENCY_NDX := 1022
  const RECURSIVE_NDX := 1023

  /** The window through which the frame in the emergency slot is reached. */
  const EMERGENCY_DIR := RECURSIVE_NDX * 0x40_0000 + EMERGENCY_NDX * 0x1000

  function PdeIndex(vaddr: nat): nat {
    (vaddr / 0x40_0000) % 1024
  }

  function PteIndex(vaddr: nat): nat {
    (vaddr / 0x1000) % 1024
  }

  function PageOf(vaddr: nat): nat {
    vaddr / PAGE_SIZE
  }

  function DirOf(page: nat): nat {
    page / 1024
  }

  function SlotOf(page: nat): nat {
    page % 1024
  }

  lemma IndicesSplitPage(vaddr: nat)
    requires vaddr < WORD
    ensures PdeIndex(vaddr) == DirOf(PageOf(vaddr)) && PteIndex(vaddr) == SlotOf(PageOf(vaddr))
    ensures PageOf(vaddr) == PdeIndex(vaddr) * 1024 + PteIndex(vaddr)
  {
  }

  /** All frames hold 1024 entries, and the entries name frames of a 32-bit physical memory. */
  ghost predicate WellFormed(mem: Memory) {
    forall f :: f in mem ==> |mem[f]| == 1024 && forall i :: 0 <= i < 1024 ==> mem[f][i].frame < FRAMES
  }

  /** The frame of a table entry, if it is present. */
  function TableEntry(mem: Memory, table: nat, page: nat): Option<nat>
    requires WellFormed(mem)
  {
    if table !in mem then None
    else if mem[table][SlotOf(page)].present then Some(mem[table][SlotOf(page)].frame)
    else None
  }

  /** The hardware walk. */
  function Walk(mem: Memory, root: nat, page: nat): Option<nat>
    requires WellFormed(mem) && root in mem && page < FRAMES
  {
    var pde := mem[root][DirOf(page)];
    if pde.present then TableEntry(mem, pde.frame, page) else None
  }

  /** The walk with a directory entry taken from the cache where there is one. */
  function CachedWalk(mem: Memory, root: nat, pdes: map<nat, nat>, page: nat): Option<nat>
    requires WellFormed(mem) && root in mem && page < FRAMES
  {
    if DirOf(page) in pdes then TableEntry(mem, pdes[DirOf(page)], page) else Walk(mem, root, page)
  }

  /** The directory entries that speculation may cache: any of those in `dirs` that are present. */
  function PdeFill(mem: Memory, root: nat, pdes: map<nat, nat>, dirs: set<nat>): map<nat, nat>
    requires WellFormed(mem) && root in mem
  {
    pdes + map d | d in dirs && d < 1024 && d !in pdes && mem[root][d].present :: mem[root][d].frame
  }

  /** The translations that speculation may cache. */
  function TlbFill(mem: Memory, root: nat, pdes: map<nat, nat>, tlb: map<nat, nat>, pages: set<nat>): map<nat, nat>
    requires WellFormed(mem) && root in mem
  {
    tlb + map v | v in pages && v < FRAMES && v !in tlb && CachedWalk(mem, root, pdes, v).Some? ::
      CachedWalk(mem, root, pdes, v).value
  }

  /** What the caches pick up, and with which values. */
  lemma FillsAreExact(mem: Memory, root: nat, pdes: map<nat, nat>, tlb: map<nat, nat>, dirs: set<nat>, pages: set<nat>,
      d: nat, v: nat)
    requires WellFormed(mem) && root in mem && d < 1024 && v < FRAMES
    ensures var pdes', tlb' := PdeFill(mem, root, pdes, dirs), TlbFill(mem, root, pdes, tlb, pages);
      && (d in pdes' <==> d in pdes || (d in dirs && mem[root][d].present))
      && (d in pdes' ==> pdes'[d] == if d in pdes then pdes[d] else mem[root][d].frame)
      && (v in tlb' <==> v in tlb || (v in pages && CachedWalk(mem, root, pdes, v).Some?))
      && (v in tlb' ==> Some(tlb'[v]) == if v in tlb then Some(tlb[v]) else CachedWalk(mem, root, pdes, v))
  {
  }

  /** A cached directory entry or translation is what the tables say, except in the range of the emergency
      slot and for `exempt` pages. */
  ghost predicate Coherent(mem: Memory, root: nat, pdes: map<nat, nat>, tlb: map<nat, nat>, exempt: set<nat>)
    requires WellFormed(mem) && root in mem
  {
    && (forall d :: d in pdes && d != EMERGENCY_NDX ==> d < 1024 && mem[root][d] == Pge(true, pdes[d]))
    && (forall v :: v in tlb && v < FRAMES && DirOf(v) != EMERGENCY_NDX && v !in exempt ==>
        Walk(mem, root, v) == Some(tlb[v]))
  }

  /** Whatever the caches pick up, they stay coherent. */
  lemma FillKeepsCoherence(mem: Memory, root: nat, pdes: map<nat, nat>, tlb: map<nat, nat>, exempt: set<nat>,
      dirs: set<nat>, pages: set<nat>)
    requires WellFormed(mem) && root in mem && Coherent(mem, root, pdes, tlb, exempt)
    ensures var pdes' := PdeFill(mem, root, pdes, dirs);
      Coherent(mem, root, pdes', TlbFill(mem, root, pdes', tlb, pages), exempt)
  {
    var pdes' := PdeFill(mem, root, pdes, dirs);
    var tlb' := TlbFill(mem, root, pdes', tlb, pages);
    forall v | v in tlb' && v < FRAMES && DirOf(v) != EMERGENCY_NDX && v !in exempt
      ensures Walk(mem, root, v) == Some(tlb'[v])
    {
      assert DirOf(v) in pdes' ==> mem[root][DirOf(v)] == Pge(true, pdes'[DirOf(v)]);
    }
  }

  /** Remembering more present directory entries changes no translation. */
  lemma FillKeepsWalks(mem: Memory, root: nat, pdes: map<nat, nat>, dirs: set<nat>, page: nat)
    requires WellFormed(mem) && root in mem && page < FRAMES
    ensures CachedWalk(mem, root, PdeFill(mem, root, pdes, dirs), page) == CachedWalk(mem, root, pdes, page)
  {
  }

  lemma DirFillsAddUp(mem: Memory, root: nat, pdes: map<nat, nat>, dirs: set<nat>, dirs': set<nat>)
    requires WellFormed(mem) && root in mem
    ensures PdeFill(mem, root, PdeFill(mem, root, pdes, dirs), dirs') == PdeFill(mem, root, pdes, dirs + dirs')
  {
  }

  lemma PageFillsAddUp(mem: Memory, root: nat, once: map<nat, nat>, twice: map<nat, nat>, tlb: map<nat, nat>,
      pages: set<nat>, pages': set<nat>)
    requires WellFormed(mem) && root in mem
    requires forall v: nat :: v < FRAMES ==> CachedWalk(mem, root, once, v) == CachedWalk(mem, root, twice, v)
    ensures TlbFill(mem, root, twice, TlbFill(mem, root, once, tlb, pages), pages') ==
            TlbFill(mem, root, twice, tlb, pages + pages')
  {
    hide CachedWalk, WellFormed;
  }

  /** Picking up twice while the tables stay as they are is picking up once. */
  lemma FillsAddUp(mem: Memory, root: nat, pdes: map<nat, nat>, tlb: map<nat, nat>, dirs: set<nat>, pages: set<nat>,
      dirs': set<nat>, pages': set<nat>)
    requires WellFormed(mem) && root in mem
    ensures var once, twice := PdeFill(mem, root, pdes, dirs), PdeFill(mem, root, pdes, dirs + dirs');
      && PdeFill(mem, root, once, dirs') == twice
      && TlbFill(mem, root, twice, TlbFill(mem, root, once, tlb, pages), pages') ==
         TlbFill(mem, root, twice, tlb, pages + pages')
  {
    hide CachedWalk, PdeFill, TlbFill;
    var once, twice := PdeFill(mem, root, pdes, dirs), PdeFill(mem, root, pdes, dirs + dirs');
    DirFillsAddUp(mem, root, pdes, dirs, dirs');
    forall v: nat | v < FRAMES ensures CachedWalk(mem, root, once, v) == CachedWalk(mem, root, twice, v) {
      FillKeepsWalks(mem, root, pdes, dirs, v);
      FillKeepsWalks(mem, root, pdes, dirs + dirs', v);
    }
    PageFillsAddUp(mem, root, once, twice, tlb, pages, pages');
  }

  /** The caches hold nothing stale: no translation of a page that is not mapped. */
  lemma UnmappedIsNotCached(mem: Memory, root: nat, pdes: map<nat, nat>, tlb: map<nat, nat>, v: nat)
    requires WellFormed(mem) && root in mem && Coherent(mem, root, pdes, tlb, {})
    requires v < FRAMES && DirOf(v) != EMERGENCY_NDX && Walk(mem, root, v).None?
    ensures v !in tlb
  {
  }

  // ---------------------------------------------------------------- the layout kept by the kernel

  /** Present directory entries name frames of their own. */
  ghost predicate NamesTables(mem: Memory, root: nat)
    requires WellFormed(mem) && root in mem
  {
    && (forall d :: 0 <= d <= LAST_VALID_DIR && mem[root][d].present ==>
        mem[root][d].frame in mem && mem[root][d].frame != root)
    && (forall d, e :: 0 <= d < e <= LAST_VALID_DIR && mem[root][d].present && mem[root][e].present ==>
          mem[root][d].frame != mem[root][e].frame)
  }

  /** The last slot of the directory leads back to the directory, and the present entries up to 1021 name
      table frames that are all different. */
  ghost predicate Tables(mem: Memory, root: nat) {
    && WellFormed(mem) && root in mem && root < FRAMES
    && mem[root][RECURSIVE_NDX] == Pge(true, root)
    && NamesTables(mem, root)
  }

  /** Through the recursive slot, the window shows the frame that the emergency slot names: entry `i` of that
      frame is at the `i`-th word of the window. */
  lemma WindowShowsEmergencyFrame(mem: Memory, root: nat, i: nat)
    requires Tables(mem, root) && i < ENTRIES
    ensures PageOf(EMERGENCY_DIR + ENTRY_SIZE * i) == RECURSIVE_NDX * 1024 + EMERGENCY_NDX
    ensures (EMERGENCY_DIR + ENTRY_SIZE * i) % PAGE_SIZE == ENTRY_SIZE * i
    ensures Walk(mem, root, PageOf(EMERGENCY_DIR + ENTRY_SIZE * i)) ==
      if mem[root][EMERGENCY_NDX].present then Some(mem[root][EMERGENCY_NDX].frame) else None
  {
  }

  // ---------------------------------------------------------------- single writes

  function WithEntry(mem: Memory, f: nat, i: nat, e: Pge): Memory
    requires f in mem && i < |mem[f]|
  {
    mem[f := mem[f][i := e]]
  }

  /** The emergency slot takes part in no walk but those of its own range and of the window. */
  lemma EmergencySlotIsAside(mem: Memory, root: nat, e: Pge, page: nat)
    requires Tables(mem, root) && e.frame < FRAMES && page < FRAMES
    requires DirOf(page) != EMERGENCY_NDX && page != PageOf(EMERGENCY_DIR)
    ensures var mem' := WithEntry(mem, root, EMERGENCY_NDX, e);
      Tables(mem', root) && Walk(mem', root, page) == Walk(mem, root, page)
  {
    var mem' := WithEntry(mem, root, EMERGENCY_NDX, e);
    assert forall f :: f in mem' ==> |mem'[f]| == 1024;
    assert DirOf(page) == RECURSIVE_NDX ==> SlotOf(page) != EMERGENCY_NDX;
  }

  /** Writing one entry of one table changes one page, besides the range of the emergency slot. */
  lemma TableWriteIsLocal(mem: Memory, root: nat, dir: nat, slot: nat, e: Pge, page: nat)
    requires Tables(mem, root) && e.frame < FRAMES && page < FRAMES && DirOf(page) != EMERGENCY_NDX
    requires dir <= LAST_VALID_DIR && slot < 1024 && mem[root][dir].present
    ensures var mem' := WithEntry(mem, mem[root][dir].frame, slot, e);
      && Tables(mem', root)
      && Walk(mem', root, page) ==
         if DirOf(page) == dir && SlotOf(page) == slot then (if e.present then Some(e.frame) else None)
         else Walk(mem, root, page)
  {
    var mem' := WithEntry(mem, mem[root][dir].frame, slot, e);
    assert forall f :: f in mem' ==> |mem'[f]| == 1024;
    assert mem'[root] == mem[root];
  }

  /** Hooking a zeroed frame into an absent directory entry changes no walk but that of the entry's own
      page in the recursive range. */
  lemma NewTableIsEmpty(mem: Memory, root: nat, dir: nat, f: nat, page: nat)
    requires Tables(mem, root) && page < FRAMES && DirOf(page) != EMERGENCY_NDX
    requires dir <= LAST_VALID_DIR && !mem[root][dir].present
    requires f in mem && f != root && f < FRAMES && (forall i :: 0 <= i < 1024 ==> !mem[f][i].present)
    requires forall d :: 0 <= d <= LAST_VALID_DIR && mem[root][d].present ==> mem[root][d].frame != f
    ensures var mem' := WithEntry(mem, root, dir, Pge(true, f));
      && Tables(mem', root)
      && Walk(mem', root, page) ==
         if page == RECURSIVE_NDX * 1024 + dir then Some(f) else Walk(mem, root, page)
  {
    var mem' := WithEntry(mem, root, dir, Pge(true, f));
    assert forall g :: g in mem' ==> |mem'[g]| == 1024;
    assert mem'[f] == mem[f];
    assert DirOf(page) == RECURSIVE_NDX ==> page == RECURSIVE_NDX * 1024 + SlotOf(page);
  }

  /** No directory entry names the frame. */
  ghost predicate Unused(mem: Memory, root: nat, f: nat)
    requires WellFormed(mem) && root in mem
  {
    f != root && forall d :: 0 <= d <= LAST_VALID_DIR && mem[root][d].present ==> mem[root][d].frame != f
  }

  /** Writing to a frame that no directory entry up to 1021 names changes no walk outside the emergency range. */
  lemma FreshFrameIsAside(mem: Memory, root: nat, f: nat, i: nat, e: Pge, page: nat)
    requires Tables(mem, root) && page < FRAMES && DirOf(page) != EMERGENCY_NDX && e.frame < FRAMES && i < 1024
    requires f in mem && Unused(mem, root, f)
    ensures var mem' := WithEntry(mem, f, i, e);
      Tables(mem', root) && Walk(mem', root, page) == Walk(mem, root, page) && Unused(mem', root, f)
  {
    var mem' := WithEntry(mem, f, i, e);
    assert forall g :: g in mem' ==> |mem'[g]| == 1024;
    assert mem'[root] == mem[root];
  }

  /** A page whose translation the emergency slot has no part in. */
  predicate Ordinary(page: nat) {
    page < FRAMES && DirOf(page) != EMERGENCY_NDX && page != PageOf(EMERGENCY_DIR)
  }

  ghost predicate SameWalks(mem: Memory, mem': Memory, root: nat)
    requires WellFormed(mem) && root in mem && WellFormed(mem') && root in mem'
  {
    forall v: nat :: Ordinary(v) ==> Walk(mem', root, v) == Walk(mem, root, v)
  }

  lemma EmergencySlotKeepsWalks(mem: Memory, root: nat, e: Pge)
    requires Tables(mem, root) && e.frame < FRAMES
    ensures var mem' := WithEntry(mem, root, EMERGENCY_NDX, e);
      Tables(mem', root) && SameWalks(mem, mem', root)
  {
    EmergencySlotIsAside(mem, root, e, 0);
    forall v: nat | Ordinary(v) ensures Walk(WithEntry(mem, root, EMERGENCY_NDX, e), root, v) == Walk(mem, root, v) {
      EmergencySlotIsAside(mem, root, e, v);
    }
  }

  /** Besides the range of the slot, at most the page of the window becomes stale. */
  lemma EmergencySlotKeepsCoherence(mem: Memory, root: nat, e: Pge, pdes: map<nat, nat>, tlb: map<nat, nat>)
    requires Tables(mem, root) && e.frame < FRAMES && Coherent(mem, root, pdes, tlb, {})
    ensures var mem' := WithEntry(mem, root, EMERGENCY_NDX, e);
      Tables(mem', root) && Coherent(mem', root, pdes, tlb, {PageOf(EMERGENCY_DIR)})
  {
    hide Walk;
    EmergencySlotKeepsWalks(mem, root, e);
  }

  /** `mem'` differs from `mem`, as far as ordinary pages go, in the page of `dir` and `slot` only. */
  ghost predicate OnePageWritten(mem: Memory, mem': Memory, root: nat, dir: nat, slot: nat, e: Pge)
    requires WellFormed(mem) && root in mem && WellFormed(mem') && root in mem'
  {
    forall v: nat :: v < FRAMES && DirOf(v) != EMERGENCY_NDX ==>
      Walk(mem', root, v) ==
        if v == dir * 1024 + slot then (if e.present then Some(e.frame) else None) else Walk(mem, root, v)
  }

  lemma TableWriteKeepsWalks(mem: Memory, root: nat, dir: nat, slot: nat, e: Pge)
    requires Tables(mem, root) && e.frame < FRAMES
    requires dir <= LAST_VALID_DIR && slot < 1024 && mem[root][dir].present
    ensures var mem' := WithEntry(mem, mem[root][dir].frame, slot, e);
      && Tables(mem', root) && mem'[root] == mem[root]
      && OnePageWritten(mem, mem', root, dir, slot, e)
  {
    TableWriteIsLocal(mem, root, dir, slot, e, 0);
    forall v: nat | v < FRAMES && DirOf(v) != EMERGENCY_NDX
      ensures Walk(WithEntry(mem, mem[root][dir].frame, slot, e), root, v) ==
        if v == dir * 1024 + slot then (if e.present then Some(e.frame) else None) else Walk(mem, root, v)
    {
      TableWriteIsLocal(mem, root, dir, slot, e, v);
      assert v == DirOf(v) * 1024 + SlotOf(v);
    }
  }

  /** Writing a table entry leaves at most the page of that entry stale, and nothing if it was not cached. */
  lemma TableWriteKeepsCoherence(mem: Memory, root: nat, pdes: map<nat, nat>, tlb: map<nat, nat>, dir: nat,
      slot: nat, e: Pge)
    requires Tables(mem, root) && e.frame < FRAMES && Coherent(mem, root, pdes, tlb, {})
    requires dir <= LAST_VALID_DIR && slot < 1024 && mem[root][dir].present
    ensures var mem' := WithEntry(mem, mem[root][dir].frame, slot, e);
      && Tables(mem', root)
      && Coherent(mem', root, pdes, tlb, {dir * 1024 + slot})
      && (dir * 1024 + slot !in tlb ==> Coherent(mem', root, pdes, tlb, {}))
  {
    TableWriteKeepsWalks(mem, root, dir, slot, e);
  }

  /** Forgetting the stale page makes the caches coherent again. */
  lemma ForgettingMakesCoherent(mem: Memory, root: nat, pdes: map<nat, nat>, tlb: map<nat, nat>, page: nat)
    requires WellFormed(mem) && root in mem && Coherent(mem, root, pdes, tlb, {page})
    ensures Coherent(mem, root, map[], tlb - {page}, {})
  {
  }

  lemma FreshFrameKeepsWalks(mem: Memory, root: nat, f: nat, i: nat, e: Pge)
    requires Tables(mem, root) && e.frame < FRAMES && i < 1024 && f in mem && Unused(mem, root, f)
    ensures var mem' := WithEntry(mem, f, i, e);
      && Tables(mem', root) && mem'[root] == mem[root] && Unused(mem', root, f)
      && forall v: nat :: v < FRAMES && DirOf(v) != EMERGENCY_NDX ==> Walk(mem', root, v) == Walk(mem, root, v)
  {
    FreshFrameIsAside(mem, root, f, i, e, 0);
    forall v: nat | v < FRAMES && DirOf(v) != EMERGENCY_NDX
      ensures Walk(WithEntry(mem, f, i, e), root, v) == Walk(mem, root, v)
    {
      FreshFrameIsAside(mem, root, f, i, e, v);
    }
  }

  lemma FreshFrameKeepsCoherence(mem: Memory, root: nat, f: nat, i: nat, e: Pge, pdes: map<nat, nat>,
      tlb: map<nat, nat>)
    requires Tables(mem, root) && e.frame < FRAMES && i < 1024 && f in mem && Unused(mem, root, f)
    requires Coherent(mem, root, pdes, tlb, {})
    ensures Tables(WithEntry(mem, f, i, e), root) && Coherent(WithEntry(mem, f, i, e), root, pdes, tlb, {})
  {
    hide Walk;
    FreshFrameKeepsWalks(mem, root, f, i, e);
  }

  lemma NewTableKeepsWalks(mem: Memory, root: nat, dir: nat, f: nat)
    requires Tables(mem, root) && dir <= LAST_VALID_DIR && !mem[root][dir].present
    requires f in mem && f < FRAMES && Unused(mem, root, f) && (forall i :: 0 <= i < 1024 ==> !mem[f][i].present)
    ensures var mem' := WithEntry(mem, root, dir, Pge(true, f));
      && Tables(mem', root) && mem'[f] == mem[f]
      && forall v: nat :: v < FRAMES && DirOf(v) != EMERGENCY_NDX ==>
           Walk(mem', root, v) == if v == RECURSIVE_NDX * 1024 + dir then Some(f) else Walk(mem, root, v)
  {
    NewTableIsEmpty(mem, root, dir, f, 0);
    forall v: nat | v < FRAMES && DirOf(v) != EMERGENCY_NDX
      ensures Walk(WithEntry(mem, root, dir, Pge(true, f)), root, v) ==
        if v == RECURSIVE_NDX * 1024 + dir then Some(f) else Walk(mem, root, v)
    {
      NewTableIsEmpty(mem, root, dir, f, v);
    }
  }

  /** No frame but these two is written. */
  ghost predicate OnlyWritten(mem: Memory, mem': Memory, f: nat, g: nat) {
    mem'.Keys == mem.Keys && forall h :: h in mem && h != f && h != g ==> mem'[h] == mem[h]
  }

  // ---------------------------------------------------------------- the range of the emergency slot

  /** The page of that range which a table in the emergency slot serves with its entry `slot`. */
  function EmergencyPage(slot: nat): (page: nat)
    requires slot < ENTRIES
    ensures page < FRAMES && DirOf(page) == EMERGENCY_NDX && SlotOf(page) == slot && page != PageOf(EMERGENCY_DIR)
  {
    EMERGENCY_NDX * 1024 + slot
  }

  /** The entries of a table that are present. */
  function Shown(table: Frame): set<nat> {
    set i | 0 <= i < |table| && table[i].present
  }

  lemma ShownWith(mem: Memory, f: nat, i: nat, e: Pge)
    requires WellFormed(mem) && f in mem && i < ENTRIES
    ensures Shown(WithEntry(mem, f, i, e)[f]) == if e.present then Shown(mem[f]) + {i} else Shown(mem[f]) - {i}
  {
  }

  /**
   * From one cache to the next: `page` comes in only if it is `shown`, stays, and comes in if it is `asked` for too.
   */
  ghost predicate Picked(tlb: map<nat, nat>, tlb': map<nat, nat>, page: nat, shown: bool, asked: bool) {
    && (page in tlb' ==> page in tlb || shown)
    && (page in tlb || (shown && asked) ==> page in tlb')
  }

  /** While the emergency slot names `f`, or a directory cache remembers that it did, the range shows the frame `f`. */
  lemma FillPicks(mem: Memory, root: nat, pdes: map<nat, nat>, tlb: map<nat, nat>, f: nat, dirs: set<nat>,
      pages: set<nat>)
    requires WellFormed(mem) && root in mem && f in mem
    requires EMERGENCY_NDX in pdes ==> pdes[EMERGENCY_NDX] == f
    requires mem[root][EMERGENCY_NDX].present ==> mem[root][EMERGENCY_NDX].frame == f
    ensures var pdes' := PdeFill(mem, root, pdes, dirs);
      && (EMERGENCY_NDX in pdes' ==> pdes'[EMERGENCY_NDX] == f)
      && forall i :: 0 <= i < ENTRIES ==>
           Picked(tlb, TlbFill(mem, root, pdes', tlb, pages), EmergencyPage(i), i in Shown(mem[f]),
                  mem[root][EMERGENCY_NDX].present && EmergencyPage(i) in pages)
  {
    var pdes' := PdeFill(mem, root, pdes, dirs);
    var tlb' := TlbFill(mem, root, pdes', tlb, pages);
    forall i | 0 <= i < ENTRIES
      ensures Picked(tlb, tlb', EmergencyPage(i), i in Shown(mem[f]),
                     mem[root][EMERGENCY_NDX].present && EmergencyPage(i) in pages)
    {
      var page := EmergencyPage(i);
      assert CachedWalk(mem, root, pdes', page).Some? ==> mem[f][i].present;
    }
  }

  /** While the emergency slot is absent and forgotten, nothing of its range is picked up. */
  lemma AbsentPicksNothing(mem: Memory, root: nat, pdes: map<nat, nat>, tlb: map<nat, nat>, dirs: set<nat>,
      pages: set<nat>)
    requires WellFormed(mem) && root in mem
    requires !mem[root][EMERGENCY_NDX].present && EMERGENCY_NDX !in pdes
    ensures var pdes' := PdeFill(mem, root, pdes, dirs);
      && EMERGENCY_NDX !in pdes'
      && forall i :: 0 <= i < ENTRIES ==>
           Picked(tlb, TlbFill(mem, root, pdes', tlb, pages), EmergencyPage(i), false, false)
  {
    var pdes' := PdeFill(mem, root, pdes, dirs);
    forall i | 0 <= i < ENTRIES ensures CachedWalk(mem, root, pdes', EmergencyPage(i)).None? {
    }
  }

  /** With the emergency slot absent, whatever is cached of its range is stale. */
  lemma EmergencyRangeIsStale(mem: Memory, root: nat, tlb: map<nat, nat>, page: nat)
    requires Tables(mem, root) && !mem[root][EMERGENCY_NDX].present
    requires page < FRAMES && DirOf(page) == EMERGENCY_NDX && page in tlb
    ensures Walk(mem, root, page) != Some(tlb[page])
  {
  }
}
