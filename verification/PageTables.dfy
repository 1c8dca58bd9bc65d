/** Editing the page tables of the active directory through the recursive and the emergency slot. */
module PageTables {
  import opened Paging

  /** What the processor chooses to cache at one moment. */
  datatype Guess = Guess(dirs: set<nat>, pages: set<nat>)

  /** The steps in which a table is made and hooked in. */
  const TABLE_STEPS := ENTRIES + 4

  class Mmu {
    var mem: Memory
    var pdes: map<nat, nat>
    var tlb: map<nat, nat>
    const root: nat
    /** What it caches after each step, and how many steps there were. A step is a write or an invalidation. */
    const oracle: nat -> Guess
    var steps: nat

    /** The tables are in order, and nothing stale is cached but for `exempt` pages. */
    ghost predicate Consistent(exempt: set<nat>)
      reads this
    {
      Tables(mem, root) && Coherent(mem, root, pdes, tlb, exempt)
    }

    /** Between operations the emergency slot is absent, and no directory cache remembers it. */
    ghost predicate Valid()
      reads this
    {
      Consistent({}) && !mem[root][EMERGENCY_NDX].present && EMERGENCY_NDX !in pdes
    }

    /** The kernel's view: the frame behind a page of the directories 0 to 1021. */
    ghost function Lookup(page: nat): Option<nat>
      requires Tables(mem, root) && page < FRAMES
      reads this
    {
      Walk(mem, root, page)
    }

    /** The emergency slot, and what a directory cache remembers of it, name no frame but `f`. */
    ghost predicate Names(f: nat)
      requires WellFormed(mem) && root in mem
      reads this
    {
      && (EMERGENCY_NDX in pdes ==> pdes[EMERGENCY_NDX] == f)
      && (mem[root][EMERGENCY_NDX].present ==> mem[root][EMERGENCY_NDX].frame == f)
    }

    /** During an operation it names the frame `f`. */
    ghost predicate Open(f: nat)
      reads this
    {
      Consistent({}) && f in mem && mem[root][EMERGENCY_NDX] == Pge(true, f) && Names(f)
    }

    /**
     * What has been cached of the range of the emergency slot since `was`: no page but those whose entries are shown,
     * and of those all that are asked for.
     */
    ghost predicate Caught(was: map<nat, nat>, shown: set<nat>, asked: set<nat>)
      reads this
    {
      forall i :: 0 <= i < ENTRIES ==> Picked(was, tlb, EmergencyPage(i), i in shown, EmergencyPage(i) in asked)
    }

    // ---------------------------------------------------------------- the processor

    /** The physical address that an access to `vaddr` reaches. */
    function Translate(vaddr: nat): Option<nat>
      requires WellFormed(mem) && root in mem && vaddr < WORD
      reads this
    {
      var page := PageOf(vaddr);
      var frame := if page in tlb then Some(tlb[page]) else CachedWalk(mem, root, pdes, page);
      if frame.None? then None else Some(frame.value * PAGE_SIZE + vaddr % PAGE_SIZE)
    }

    /** The caches are `pdes0` and `tlb0` with what the processor picked up in addition after step `n`. */
    ghost predicate PickedUp(pdes0: map<nat, nat>, tlb0: map<nat, nat>, n: nat)
      requires WellFormed(mem) && root in mem
      reads this
    {
      && pdes == PdeFill(mem, root, pdes0, oracle(n).dirs)
      && tlb == TlbFill(mem, root, pdes, tlb0, oracle(n).pages)
      && steps == n + 1
    }

    method PickUp()
      requires WellFormed(mem) && root in mem
      modifies this`pdes, this`tlb, this`steps
      ensures PickedUp(old(pdes), old(tlb), old(steps))
    {
      pdes := PdeFill(mem, root, pdes, oracle(steps).dirs);
      tlb := TlbFill(mem, root, pdes, tlb, oracle(steps).pages);
      steps := steps + 1;
    }

    /** Whatever is picked up, what was coherent stays so, and of the emergency range only what is shown comes in. */
    lemma PickingUpIsSafe(pdes0: map<nat, nat>, tlb0: map<nat, nat>, n: nat, exempt: set<nat>, f: nat)
      requires Tables(mem, root) && Coherent(mem, root, pdes0, tlb0, exempt) && f in mem
      requires EMERGENCY_NDX in pdes0 ==> pdes0[EMERGENCY_NDX] == f
      requires mem[root][EMERGENCY_NDX].present ==> mem[root][EMERGENCY_NDX].frame == f
      requires PickedUp(pdes0, tlb0, n)
      ensures Consistent(exempt) && Names(f)
      ensures Caught(tlb0, Shown(mem[f]), if mem[root][EMERGENCY_NDX].present then oracle(n).pages else {})
      ensures !mem[root][EMERGENCY_NDX].present && EMERGENCY_NDX !in pdes0 ==>
        EMERGENCY_NDX !in pdes && Caught(tlb0, {}, {})
    {
      if !mem[root][EMERGENCY_NDX].present && EMERGENCY_NDX !in pdes0 {
        AbsentPicksNothing(mem, root, pdes0, tlb0, oracle(n).dirs, oracle(n).pages);
      }
      FillPicks(mem, root, pdes0, tlb0, f, oracle(n).dirs, oracle(n).pages);
      FillKeepsCoherence(mem, root, pdes0, tlb0, exempt, oracle(n).dirs, oracle(n).pages);
    }

    /** Between two operations. */
    method Idle()
      requires Valid()
      modifies this`pdes, this`tlb, this`steps
      ensures Valid() && Caught(old(tlb), {}, {}) && steps == old(steps) + 1
    {
      ghost var pdes0, tlb0, n := pdes, tlb, steps;
      PickUp();
      PickingUpIsSafe(pdes0, tlb0, n, {}, root);
    }

    method Invlpg(vaddr: nat)
      requires WellFormed(mem) && root in mem
      modifies this`pdes, this`tlb, this`steps
      ensures PickedUp(map[], old(tlb) - {PageOf(vaddr)}, old(steps))
    {
      pdes := map[];
      tlb := tlb - {PageOf(vaddr)};
      PickUp();
    }

    /** A write to entry `i` of the frame `f`. */
    method Write(f: nat, i: nat, e: Pge)
      requires WellFormed(mem) && root in mem && f in mem && i < ENTRIES && e.frame < FRAMES
      modifies this
      ensures mem == WithEntry(old(mem), f, i, e) && WellFormed(mem)
      ensures PickedUp(old(pdes), old(tlb), old(steps))
    {
      mem := WithEntry(mem, f, i, e);
      PickUp();
    }

    /** The recursive slot is set up; before that, nothing is cached. */
    constructor (mem: Memory, root: nat, oracle: nat -> Guess)
      requires WellFormed(mem) && root in mem && root < FRAMES && NamesTables(mem, root)
      requires !mem[root][RECURSIVE_NDX].present && !mem[root][EMERGENCY_NDX].present
      ensures Valid() && this.root == root && this.oracle == oracle && steps == 1 && Caught(map[], {}, {})
      ensures this.mem == WithEntry(mem, root, RECURSIVE_NDX, Pge(true, root))
      ensures forall v: nat :: v < FRAMES && DirOf(v) <= LAST_VALID_DIR ==> Lookup(v) == Walk(mem, root, v)
    {
      this.mem := mem;
      this.root := root;
      this.oracle := oracle;
      pdes, tlb, steps := map[], map[], 0;
      new;
      Write(root, RECURSIVE_NDX, Pge(true, root));
      PickingUpIsSafe(map[], map[], 0, {}, root);
    }

    /** An access goes by what is cached first, right or wrong: the translation, then the directory entry. */
    lemma AccessGoesByCaches(vaddr: nat)
      requires WellFormed(mem) && root in mem && vaddr < WORD
      ensures var page, offset := PageOf(vaddr), vaddr % PAGE_SIZE;
        && (page in tlb ==> Translate(vaddr) == Some(tlb[page] * PAGE_SIZE + offset))
        && (page !in tlb && DirOf(page) in pdes && pdes[DirOf(page)] in mem ==>
            var e := mem[pdes[DirOf(page)]][SlotOf(page)];
            Translate(vaddr) == if e.present then Some(e.frame * PAGE_SIZE + offset) else None)
        && (page !in tlb && DirOf(page) !in pdes ==>
            var f := Walk(mem, root, page);
            Translate(vaddr) == if f.Some? then Some(f.value * PAGE_SIZE + offset) else None)
    {
    }

    method Load(vaddr: nat) returns (e: Pge)
      requires WellFormed(mem) && root in mem && vaddr < WORD
      requires Translate(vaddr).Some? && Translate(vaddr).value / PAGE_SIZE in mem
      ensures var a := Translate(vaddr).value; e == mem[a / PAGE_SIZE][a % PAGE_SIZE / ENTRY_SIZE]
    {
      var a := Translate(vaddr).value;
      e := mem[a / PAGE_SIZE][a % PAGE_SIZE / ENTRY_SIZE];
    }

    method Store(vaddr: nat, e: Pge)
      requires WellFormed(mem) && root in mem && vaddr < WORD
      requires Translate(vaddr).Some? && Translate(vaddr).value / PAGE_SIZE in mem && e.frame < FRAMES
      modifies this
      ensures var a := old(Translate(vaddr).value);
        mem == WithEntry(old(mem), a / PAGE_SIZE, a % PAGE_SIZE / ENTRY_SIZE, e)
      ensures WellFormed(mem) && PickedUp(old(pdes), old(tlb), old(steps))
    {
      var a := Translate(vaddr).value;
      Write(a / PAGE_SIZE, a % PAGE_SIZE / ENTRY_SIZE, e);
    }

    /** Through the window an access reaches the entry of the frame in the emergency slot. */
    lemma WindowReaches(f: nat, i: nat)
      requires Open(f) && i < ENTRIES
      ensures Translate(EMERGENCY_DIR + ENTRY_SIZE * i) == Some(f * PAGE_SIZE + ENTRY_SIZE * i)
      ensures (f * PAGE_SIZE + ENTRY_SIZE * i) / PAGE_SIZE == f
      ensures (f * PAGE_SIZE + ENTRY_SIZE * i) % PAGE_SIZE / ENTRY_SIZE == i
    {
      WindowShowsEmergencyFrame(mem, root, i);
    }

    // ---------------------------------------------------------------- the emergency slot

    method OpenWindow(f: nat)
      requires Valid() && f in mem && f < FRAMES
      modifies this
      ensures Open(f) && mem == WithEntry(old(mem), root, EMERGENCY_NDX, Pge(true, f)) && SameWalks(old(mem), mem, root)
      ensures Caught(old(tlb), Shown(mem[f]), oracle(old(steps)).pages) && steps == old(steps) + 1
    {
      EmergencySlotKeepsWalks(mem, root, Pge(true, f));
      WindowShowsEmergencyFrame(mem, root, 0);
      assert PageOf(EMERGENCY_DIR) !in tlb;
      ghost var pdes0, tlb0, n := pdes, tlb, steps;
      Write(root, EMERGENCY_NDX, Pge(true, f));
      PickingUpIsSafe(pdes0, tlb0, n, {}, f);
    }

    /** The slot is absent, but a directory cache may remember it, and the page of the window may be stale. */
    method ClearSlot(ghost f: nat)
      requires Open(f)
      modifies this
      ensures Consistent({PageOf(EMERGENCY_DIR)}) && f in mem && Names(f) && SameWalks(old(mem), mem, root)
      ensures mem == WithEntry(old(mem), root, EMERGENCY_NDX, Pge(false, f))
      ensures Caught(old(tlb), Shown(old(mem)[f]), {}) && steps == old(steps) + 1
    {
      hide Coherent, Walk, Shown;
      EmergencySlotKeepsWalks(mem, root, Pge(false, f));
      EmergencySlotKeepsCoherence(mem, root, Pge(false, f), pdes, tlb);
      ShownWith(mem, root, EMERGENCY_NDX, Pge(false, f));
      ghost var pdes0, tlb0, n := pdes, tlb, steps;
      Write(root, EMERGENCY_NDX, mem[root][EMERGENCY_NDX].(present := false));
      PickingUpIsSafe(pdes0, tlb0, n, {PageOf(EMERGENCY_DIR)}, f);
    }

    method CloseWindow(ghost f: nat)
      requires Open(f)
      modifies this
      ensures Valid() && SameWalks(old(mem), mem, root)
      ensures mem == WithEntry(old(mem), root, EMERGENCY_NDX, Pge(false, f))
      ensures Caught(old(tlb), Shown(old(mem)[f]), {}) && steps == old(steps) + 2
    {
      hide Coherent, Walk, Shown;
      ClearSlot(f);
      ForgettingMakesCoherent(mem, root, pdes, tlb, PageOf(EMERGENCY_DIR));
      ghost var tlb0, n := tlb - {PageOf(EMERGENCY_DIR)}, steps;
      Invlpg(EMERGENCY_DIR);
      PickingUpIsSafe(map[], tlb0, n, {}, f);
    }

    /** Make the table that serves `vaddr` visible; the result is the address of its entry for `vaddr`. */
    method OpenEntry(vaddr: nat) returns (pte: nat)
      requires Valid() && vaddr < WORD && PdeIndex(vaddr) <= LAST_VALID_DIR
      requires mem[root][PdeIndex(vaddr)].present
      modifies this
      ensures Open(old(mem[root][PdeIndex(vaddr)].frame)) && SameWalks(old(mem), mem, root)
      ensures mem == WithEntry(old(mem), root, EMERGENCY_NDX, Pge(true, old(mem[root][PdeIndex(vaddr)].frame)))
      ensures pte == EMERGENCY_DIR + ENTRY_SIZE * PteIndex(vaddr)
      ensures Caught(old(tlb), Shown(old(mem)[old(mem[root][PdeIndex(vaddr)].frame)]), oracle(old(steps)).pages)
      ensures steps == old(steps) + 1
    {
      var pde := mem[root][PdeIndex(vaddr)];
      OpenWindow(pde.frame);
      pte := EMERGENCY_DIR + ENTRY_SIZE * PteIndex(vaddr);
    }

    // ---------------------------------------------------------------- resolve

    /** The physical page behind a mapped one. */
    method Resolve(vaddr: nat) returns (physical: nat)
      requires Valid() && vaddr < WORD && PdeIndex(vaddr) <= LAST_VALID_DIR
      requires Lookup(PageOf(vaddr)).Some?
      modifies this
      ensures Valid() && SameWalks(old(mem), mem, root)
      ensures physical == old(Lookup(PageOf(vaddr))).value * PAGE_SIZE
      ensures OnlyWritten(old(mem), mem, root, root) && steps == old(steps) + 3
      ensures Caught(old(tlb), Shown(old(mem)[old(mem[root][PdeIndex(vaddr)].frame)]), oracle(old(steps)).pages)
    {
      hide Coherent;
      IndicesSplitPage(vaddr);
      ghost var f := mem[root][PdeIndex(vaddr)].frame;
      var pte := OpenEntry(vaddr);
      WindowReaches(f, PteIndex(vaddr));
      var e := Load(pte);
      physical := e.frame * PAGE_SIZE;
      CloseWindow(f);
    }

    // ---------------------------------------------------------------- unmap

    /** Forget the translation of a page whose entry has just been made absent. */
    method Forget(vaddr: nat, ghost f: nat)
      requires vaddr < WORD && PdeIndex(vaddr) <= LAST_VALID_DIR
      requires Consistent({PageOf(vaddr)}) && f in mem && mem[root][EMERGENCY_NDX] == Pge(true, f) && Names(f)
      modifies this`pdes, this`tlb, this`steps
      ensures Open(f) && Caught(old(tlb), Shown(mem[f]), {}) && steps == old(steps) + 1
    {
      hide Coherent, Walk, Shown;
      IndicesSplitPage(vaddr);
      ForgettingMakesCoherent(mem, root, pdes, tlb, PageOf(vaddr));
      ghost var tlb0, n := tlb - {PageOf(vaddr)}, steps;
      Invlpg(vaddr);
      PickingUpIsSafe(map[], tlb0, n, {}, f);
    }

    /** Make the entry of `vaddr` absent in the table behind the window. Its page may be stale then. */
    method ClearEntry(vaddr: nat, pte: nat, ghost f: nat)
      requires Open(f) && vaddr < WORD && PdeIndex(vaddr) <= LAST_VALID_DIR
      requires mem[root][PdeIndex(vaddr)] == Pge(true, f) && pte == EMERGENCY_DIR + ENTRY_SIZE * PteIndex(vaddr)
      modifies this
      ensures Consistent({PageOf(vaddr)}) && f in mem && mem[root] == old(mem[root]) && Names(f)
      ensures f in old(mem) && PteIndex(vaddr) < |old(mem[f])|
      ensures mem == WithEntry(old(mem), f, PteIndex(vaddr), old(mem[f][PteIndex(vaddr)]).(present := false))
      ensures Caught(old(tlb), Shown(mem[f]), oracle(old(steps)).pages) && steps == old(steps) + 1
    {
      hide Walk, Shown, Picked, OnePageWritten, Coherent;
      IndicesSplitPage(vaddr);
      WindowReaches(f, PteIndex(vaddr));
      var e := Load(pte);
      TableWriteKeepsWalks(mem, root, PdeIndex(vaddr), PteIndex(vaddr), e.(present := false));
      TableWriteKeepsCoherence(mem, root, pdes, tlb, PdeIndex(vaddr), PteIndex(vaddr), e.(present := false));
      ghost var pdes0, tlb0, n := pdes, tlb, steps;
      Store(pte, e.(present := false));
      PickingUpIsSafe(pdes0, tlb0, n, {PageOf(vaddr)}, f);
    }

    /** Make the entry absent and forget the translation. */
    method DropEntry(vaddr: nat, pte: nat, ghost f: nat)
      requires Open(f) && vaddr < WORD && PdeIndex(vaddr) <= LAST_VALID_DIR
      requires mem[root][PdeIndex(vaddr)] == Pge(true, f) && pte == EMERGENCY_DIR + ENTRY_SIZE * PteIndex(vaddr)
      modifies this
      ensures Open(f) && OnlyWritten(old(mem), mem, f, f)
      ensures forall v: nat :: Ordinary(v) ==> Lookup(v) == if v == PageOf(vaddr) then None else old(Lookup(v))
      ensures Caught(old(tlb), Shown(old(mem)[f]), {}) && Shown(mem[f]) <= Shown(old(mem)[f])
      ensures steps == old(steps) + 2
    {
      hide Coherent, Walk, Shown;
      IndicesSplitPage(vaddr);
      ghost var e := mem[f][PteIndex(vaddr)].(present := false);
      TableWriteKeepsWalks(mem, root, PdeIndex(vaddr), PteIndex(vaddr), e);
      ShownWith(mem, f, PteIndex(vaddr), e);
      ClearEntry(vaddr, pte, f);
      Forget(vaddr, f);
    }

    method Unmap(vaddr: nat)
      requires Valid() && vaddr < WORD && PdeIndex(vaddr) <= LAST_VALID_DIR
      requires Lookup(PageOf(vaddr)).Some?
      modifies this
      ensures Valid()
      ensures forall v: nat :: Ordinary(v) ==> Lookup(v) == if v == PageOf(vaddr) then None else old(Lookup(v))
      ensures OnlyWritten(old(mem), mem, root, old(mem[root][PdeIndex(vaddr)].frame)) && steps == old(steps) + 5
      ensures Caught(old(tlb), Shown(old(mem)[old(mem[root][PdeIndex(vaddr)].frame)]), oracle(old(steps)).pages)
    {
      hide Coherent;
      IndicesSplitPage(vaddr);
      ghost var f := mem[root][PdeIndex(vaddr)].frame;
      var pte := OpenEntry(vaddr);
      DropEntry(vaddr, pte, f);
      CloseWindow(f);
    }

    // ---------------------------------------------------------------- map

    method ZeroEntry(f: nat, i: nat)
      requires Open(f) && Unused(mem, root, f) && i < ENTRIES
      modifies this
      ensures Open(f) && Unused(mem, root, f) && SameWalks(old(mem), mem, root)
      ensures mem == WithEntry(old(mem), f, i, Pge(false, 0))
      ensures Caught(old(tlb), Shown(old(mem)[f]), {}) && Shown(mem[f]) <= Shown(old(mem)[f])
      ensures steps == old(steps) + 1
    {
      hide Coherent, Walk, Shown;
      WindowReaches(f, i);
      FreshFrameKeepsWalks(mem, root, f, i, Pge(false, 0));
      FreshFrameKeepsCoherence(mem, root, f, i, Pge(false, 0), pdes, tlb);
      ShownWith(mem, f, i, Pge(false, 0));
      ghost var pdes0, tlb0, n := pdes, tlb, steps;
      Store(EMERGENCY_DIR + ENTRY_SIZE * i, Pge(false, 0));
      PickingUpIsSafe(pdes0, tlb0, n, {}, f);
    }

    /** Zero the frame `f` through the window. */
    method ZeroFrame(f: nat)
      requires Open(f) && Unused(mem, root, f)
      modifies this
      ensures Open(f) && Unused(mem, root, f) && (forall i :: 0 <= i < ENTRIES ==> !mem[f][i].present)
      ensures SameWalks(old(mem), mem, root) && OnlyWritten(old(mem), mem, f, f)
      ensures Caught(old(tlb), Shown(old(mem)[f]), {}) && Shown(mem[f]) <= Shown(old(mem)[f])
      ensures steps == old(steps) + ENTRIES
    {
      ghost var mem0 := mem;
      var i := 0;
      while i < ENTRIES
        invariant i <= ENTRIES && steps == old(steps) + i && Open(f) && Unused(mem, root, f)
        invariant forall j :: 0 <= j < i ==> !mem[f][j].present
        invariant SameWalks(mem0, mem, root) && OnlyWritten(mem0, mem, f, f)
        invariant Caught(old(tlb), Shown(mem0[f]), {}) && Shown(mem[f]) <= Shown(mem0[f])
      {
        ZeroEntry(f, i);
        i := i + 1;
      }
    }

    /** Turn the page `f`, fresh from the page allocator, into an empty table. */
    method CreateTable(f: nat)
      requires Valid() && f in mem && f < FRAMES && Unused(mem, root, f)
      modifies this
      ensures Valid() && SameWalks(old(mem), mem, root) && OnlyWritten(old(mem), mem, root, f)
      ensures Unused(mem, root, f) && (forall i :: 0 <= i < ENTRIES ==> !mem[f][i].present)
      ensures forall d :: 0 <= d <= LAST_VALID_DIR ==> mem[root][d] == old(mem[root][d])
      ensures Caught(old(tlb), Shown(old(mem)[f]), oracle(old(steps)).pages) && steps == old(steps) + ENTRIES + 3
    {
      OpenWindow(f);
      ZeroFrame(f);
      CloseWindow(f);
    }

    /** Let the absent directory entry `dir` name the empty table `f`. */
    method HookTable(dir: nat, f: nat)
      requires Valid() && dir <= LAST_VALID_DIR && !mem[root][dir].present
      requires f in mem && f < FRAMES && Unused(mem, root, f) && (forall i :: 0 <= i < ENTRIES ==> !mem[f][i].present)
      modifies this
      ensures Valid() && mem == WithEntry(old(mem), root, dir, Pge(true, f))
      ensures forall v: nat :: Ordinary(v) && DirOf(v) != RECURSIVE_NDX ==> Lookup(v) == old(Lookup(v))
      ensures Caught(old(tlb), {}, {}) && steps == old(steps) + 1
    {
      NewTableKeepsWalks(mem, root, dir, f);
      ghost var pdes0, tlb0, n := pdes, tlb, steps;
      Write(root, dir, Pge(true, f));
      PickingUpIsSafe(pdes0, tlb0, n, {}, root);
    }

    /** A table for the directory entry of `vaddr`, if it has none yet; `added` is what the page allocator gives. */
    method EnsureTable(vaddr: nat, added: nat)
      requires Valid() && vaddr < WORD && PdeIndex(vaddr) <= LAST_VALID_DIR
      requires !mem[root][PdeIndex(vaddr)].present ==> added in mem && added < FRAMES && Unused(mem, root, added)
      modifies this
      ensures Valid() && mem[root][PdeIndex(vaddr)].present
      ensures mem[root][PdeIndex(vaddr)].frame ==
        if old(mem[root][PdeIndex(vaddr)].present) then old(mem[root][PdeIndex(vaddr)].frame) else added
      ensures forall v: nat :: Ordinary(v) && DirOf(v) != RECURSIVE_NDX ==> Lookup(v) == old(Lookup(v))
      ensures OnlyWritten(old(mem), mem, root, mem[root][PdeIndex(vaddr)].frame)
      ensures if old(mem[root][PdeIndex(vaddr)].present) then mem == old(mem) && tlb == old(tlb)
              else Caught(old(tlb), Shown(old(mem)[added]), oracle(old(steps)).pages) && Shown(mem[added]) == {}
      ensures steps == old(steps) + if old(mem[root][PdeIndex(vaddr)].present) then 0 else TABLE_STEPS
    {
      var dir := PdeIndex(vaddr);
      if !mem[root][dir].present {
        CreateTable(added);
        HookTable(dir, added);
      }
    }

    /** Write the absent entry of `vaddr` in the table behind the window. */
    method FillEntry(vaddr: nat, physical: nat, pte: nat, ghost f: nat)
      requires Open(f) && vaddr < WORD && physical < WORD && PdeIndex(vaddr) <= LAST_VALID_DIR
      requires mem[root][PdeIndex(vaddr)] == Pge(true, f) && pte == EMERGENCY_DIR + ENTRY_SIZE * PteIndex(vaddr)
      requires Lookup(PageOf(vaddr)).None?
      modifies this
      ensures Open(f) && OnlyWritten(old(mem), mem, f, f)
      ensures forall v: nat :: Ordinary(v) ==>
        Lookup(v) == if v == PageOf(vaddr) then Some(physical / PAGE_SIZE) else old(Lookup(v))
      ensures Shown(mem[f]) == Shown(old(mem)[f]) + {PteIndex(vaddr)}
      ensures Caught(old(tlb), Shown(mem[f]), oracle(old(steps)).pages)
      ensures steps == old(steps) + 1
    {
      hide Coherent, WellFormed, Shown, Picked, Walk;
      IndicesSplitPage(vaddr);
      WindowReaches(f, PteIndex(vaddr));
      var e := Pge(true, physical / PAGE_SIZE);
      TableWriteKeepsWalks(mem, root, PdeIndex(vaddr), PteIndex(vaddr), e);
      TableWriteKeepsCoherence(mem, root, pdes, tlb, PdeIndex(vaddr), PteIndex(vaddr), e);
      UnmappedIsNotCached(mem, root, pdes, tlb, PageOf(vaddr));
      ShownWith(mem, f, PteIndex(vaddr), e);
      ghost var pdes0, tlb0, n := pdes, tlb, steps;
      Store(pte, e);
      PickingUpIsSafe(pdes0, tlb0, n, {}, f);
    }

    /** Map a page whose table is there. */
    method MapInTable(vaddr: nat, physical: nat)
      requires Valid() && vaddr < WORD && physical < WORD && PdeIndex(vaddr) <= LAST_VALID_DIR
      requires Lookup(PageOf(vaddr)).None? && mem[root][PdeIndex(vaddr)].present
      modifies this
      ensures Valid() && mem[root][PdeIndex(vaddr)] == old(mem[root][PdeIndex(vaddr)])
      ensures forall v: nat :: Ordinary(v) ==>
        Lookup(v) == if v == PageOf(vaddr) then Some(physical / PAGE_SIZE) else old(Lookup(v))
      ensures OnlyWritten(old(mem), mem, root, mem[root][PdeIndex(vaddr)].frame)
      ensures Caught(old(tlb), Shown(old(mem)[old(mem[root][PdeIndex(vaddr)].frame)]) + {PteIndex(vaddr)},
                     oracle(old(steps)).pages * oracle(old(steps) + 1).pages)
      ensures steps == old(steps) + 4
    {
      hide Coherent, Walk, Shown;
      IndicesSplitPage(vaddr);
      ghost var f := mem[root][PdeIndex(vaddr)].frame;
      var pte := OpenEntry(vaddr);
      FillEntry(vaddr, physical, pte, f);
      CloseWindow(f);
    }

    /** The frame of the table that serves `vaddr`, which may have to be `added`. */
    function TableFor(vaddr: nat, added: Option<nat>): nat
      requires WellFormed(mem) && root in mem
      requires added.Some? || mem[root][PdeIndex(vaddr)].present
      reads this
    {
      if mem[root][PdeIndex(vaddr)].present then mem[root][PdeIndex(vaddr)].frame else added.value
    }

    /**
     * Map the page of `vaddr` to the page of `physical`. Without a free page for a table the kernel panics. A new table
     * shows whatever its frame held before it was zeroed.
     */
    method Map(vaddr: nat, physical: nat, added: Option<nat>) returns (panics: bool)
      requires Valid() && vaddr < WORD && physical < WORD && PdeIndex(vaddr) <= LAST_VALID_DIR
      requires Lookup(PageOf(vaddr)).None?
      requires added.Some? && !mem[root][PdeIndex(vaddr)].present ==>
        added.value in mem && added.value < FRAMES && Unused(mem, root, added.value)
      modifies this
      ensures panics <==> added.None? && !old(mem[root][PdeIndex(vaddr)].present)
      ensures panics ==> mem == old(mem)
      ensures !panics ==> Valid()
      ensures !panics ==> forall v: nat :: Ordinary(v) && DirOf(v) != RECURSIVE_NDX ==>
        Lookup(v) == if v == PageOf(vaddr) then Some(physical / PAGE_SIZE) else old(Lookup(v))
      ensures !panics ==> OnlyWritten(old(mem), mem, root, mem[root][PdeIndex(vaddr)].frame)
      ensures !panics ==>
        var n := old(steps) + if old(mem[root][PdeIndex(vaddr)].present) then 0 else TABLE_STEPS;
        && steps == n + 4
        && Caught(old(tlb), Shown(old(mem)[old(TableFor(vaddr, added))]) + {PteIndex(vaddr)},
                  oracle(old(steps)).pages * oracle(n).pages * oracle(n + 1).pages)
    {
      hide Coherent, Walk, Shown;
      panics := added.None? && !mem[root][PdeIndex(vaddr)].present;
      if panics {
        return;
      }
      IndicesSplitPage(vaddr);
      EnsureTable(vaddr, if added.Some? then added.value else 0);
      MapInTable(vaddr, physical);
    }
  }
}
