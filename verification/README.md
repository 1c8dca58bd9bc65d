# Verified models of the kernel's memory management

This project models the data structures under the kernel's memory management and proves what they are for. The
models keep the shape of the C code: nodes with mutable links, loops, in-place table writes, a cache that re-enters
the allocator. Each method is proved against a specification on values, and the specifications are then proved to
mean what the callers rely on. `dafny verify dfyconfig.toml` checks everything.

* **Red-black tree** (`RbTheory`, `RbHeap`, `RbOrder`, `RbRotate`, `RbInsert`, `RbSwap`, `RbDeleteTheory`, `RbDelete`,
  `RbSearch`, `RbIterate`, `RbLaws`). A tree in memory spells out a tree value; an algorithm that climbs is followed
  with the subtree at the cursor and the context around it. Insertion and deletion keep the red-black rules for equal
  keys too; their effect on the in-order sequence is exact. The node data is a constant of the node, so no operation
  changes it.
* **Address spaces** (`Slist`, `VmArea`, `VmSpace`, `VmGap`). The same areas in a tree and in a sorted list.
* **Page tables** (`Paging`, `PageTables`). 32-bit paging as in section 4.3 of the Intel SDM, Volume 3A, with caches
  as in section 4.10. After every write and every invalidation the processor may cache any present directory entry and
  any translation; this is part of the contracts of `PageTables.Mmu.Write` and `Invlpg`, through which all of them go,
  and of `Idle` for the time between operations. Doing so more than once changes nothing (`Paging.FillsAddUp`). What it
  caches after which step is an arbitrary function.
* **Slab allocator** (`SlabLayout`, `SlabTheory`, `SlabLists`, `SlabCache`, `SlabHeap`, `SlabFiling`, `Kmalloc`). Where
  objects lie in a page, what the lists and free buffers of a cache mean, and what the large caches hold of the two
  small caches of slab headers and control blocks, for every capacity from one object a slab on. The heap holds the
  caches on the list of caches and those that were initialised in a structure of their owner and never registered, as
  `AREAS_CACHE` (`kernel/kernel/mm/vm.c:17-27`). The page provider hands out any free page until none is left. A
  `Fault` stops the kernel: a write through the null pointer of a control block that could not be had, an assertion
  that fails, or a list searched beyond its end. It is stated for every operation exactly when it happens, in terms of
  the state before, and nothing is claimed after it.
* **Buddy allocator** (`Bits`, `Bitmaps`, `Linear`, `Buddy`), for single pages, and the bit tricks below it.
* **Number formatting** (`Vfprintf`, `FieldStrings`, `C99Field`): lengths, digits and fields of conversions, and the
  fields that section 7.19.6.1 of C99 asks for.
* `Arith` holds division, powers of two and logarithms.

## Findings

Places where the code does not do what one would expect. Each is in the model as the code has it.

* A cache whose slabs hold one object files an emptied slab under partial when it is used again
  (`kernel/kernel/mm/kmm.c:510-516`). The next allocation trips an assertion; a free of that object, and the
  destruction of the cache, search the full list for a slab that is not on it. `SlabFiling.TrapsExactlyForOneObject`
  shows that this happens for capacity 1 and for no other capacity, `SlabCache.Cache.Alloc` and `Free` file the slabs of
  a cache in just this way, and `SlabCache.Cache.Run` shows that no run trips an assertion in which nothing is freed.
  The largest class of the kernel's heap (`kernel/include/kernel/config.h:12`) is such a cache
  (`Kmalloc.KernelClasses`).
* `rbtree_search_min` climbs past the root, exactly when the tree has nodes and all are below the limit;
  `rbtree_iter_range` dereferences null exactly when no node reaches the lower bound, which includes the empty tree.
* `rbt_swap_nodes` mixes up two siblings given from left to right (`RbSwap.SwapIsExact`). Its only caller never passes
  siblings (`RbDelete.NotSiblings`).
* The header comment of the area-to-address comparison gives the signs the other way round; the model follows the code.
* `vm_new_area_within_space` does not notice that no gap is long enough and goes on with an empty area at address 0. An
  assertion catches it if the space begins above 0 or the root of the tree does (`VmGap.InsertEmpty`); otherwise, and
  always without assertions, the area enters the space, which is no longer in order (`VmGap.NewArea`,
  `VmGap.EmptyAreaSpoils`), and every lookup that comes to it takes it for the place of the fault
  (`VmGap.EmptyAreaCatchesAll`). Freeing that area puts the space in order again (`VmGap.ReserveAndFree`).
* Pages of directory 1022 can stay in the TLB after the emergency slot is closed, since only the page of the window
  is invalidated. Which ones is exact: after `Resolve`, `Unmap` and `Map` of `PageTables.Mmu`, a page of that directory
  that was not cached is cached only if its entry was present in the table that the window showed, and each such page
  is cached if the processor asks for it while the window is open. No page of the directories 0 to 1021 and no window
  page is stale.
* `slab_destroy` reads the slab header after giving it back. Freeing an object writes its control block only, and that
  lies behind the object (`SlabLayout.CtlFollows`), so that the header still holds what it held.
* `kmalloc` of the largest size wraps to a request for nothing and returns a block of the smallest class
  (`Kmalloc.BlockHoldsRequest`). It writes its header through null when the cache has nothing to give; the exact
  condition is in `Kmalloc.KMalloc.Alloc`.
* `buddy_free` of the last page of an odd number trips a bounds assertion (`Buddy.BuddyManager.Free`), and freeing
  single pages never clears a bit above level 0.
* The linear allocator adds position and length in 32 bits, so that it grants every request that wraps around
  (`Linear.LinearAlloc.Alloc`).
* The mark for a conversion without a width or precision is an enumeration value of one byte, since enumerations are as
  short as possible (`confmk/common.mk:46-47`), and only that byte is looked at. So a width or precision that was given
  is taken for none exactly when it is 254 modulo 256 (`Vfprintf.TakenForNone`), and `%254d` of 5 prints 5
  (`C99Field.TakenForNoneShows`).
* `C99Field.FieldIsStandard` says exactly when a field is the one of section 7.19.6.1 of C99. The ways in which it can
  differ, each with a field for example: `+` and space put a sign on what is not signed (`PlusOnUnsigned`,
  `SpaceOnUnsigned`); `#` adds no zero to an octal number (`HashOnOctal`), puts `0x` before zero (`HashOnZero`) and
  never writes `0X` (`HashOnBigHex`); a precision does not pad a hexadecimal number (`PrecisionOnHex`); flag 0 pads
  numbers that have a precision (`ZeroWithPrecision`), and loses sign and prefix without a width (`ZeroWithoutWidth`,
  `ZeroWithoutPrefix`) or with flag - (`ZeroWithMinus`); a width or precision of 254 modulo 256 is ignored
  (`TakenForNoneShows`).

## Model

| member | source | states |
|---|---|---|
| RbTheory.HeightIsLogarithmic | kernel/lib/ds/rbtree.c:276-342 | a tree that obeys the red-black rules has height at most 2 log2(n + 1) |
| RbTheory.DistinctInOrder | kernel/lib/ds/rbtree.c:604-647 | the in-order sequence of a tree names each node once |
| RbHeap.ReplaceSubtree | kernel/lib/ds/rbtree.c:109-127 | another child, or none, takes over the place of a subtree at its parent or at the root; no other link changes |
| RbRotate.RotateLeft | kernel/lib/ds/rbtree.c:246-259 | the links afterwards spell the tree with the subtree turned left, the same nodes in it |
| RbRotate.RotateRight | kernel/lib/ds/rbtree.c:261-274 | the mirror image |
| RbTheory.RotatedLeftInOrder | kernel/lib/ds/rbtree.c:246-259 | turning left keeps the in-order sequence |
| RbTheory.RotatedRightInOrder | kernel/lib/ds/rbtree.c:261-274 | turning right keeps the in-order sequence |
| RbInsert.RecolouredMovesUp | kernel/lib/ds/rbtree.c:294-309 | with a red uncle, recolouring leaves at most one violation, two levels higher, and the same sequence |
| RbInsert.UnbentKeeps | kernel/lib/ds/rbtree.c:311-325 | straightening a bent pair moves the violation to the other node and keeps the sequence |
| RbInsert.StraightenedRepairs | kernel/lib/ds/rbtree.c:327-341 | turning the grandparent of a straight pair gives a tree that obeys all rules, in the same order |
| RbInsert.InsertFix | kernel/lib/ds/rbtree.c:276-342 | from a red node at any gap of a red-black context, the loop ends in a red-black tree with the same sequence |
| RbInsert.Insert | kernel/lib/ds/rbtree.c:344-379 | a valid tree stays valid; its nodes are the old ones and the new one, in the old order with the new one behind all that are below it |
| RbLaws.InsertedSorted | kernel/lib/ds/rbtree.c:344-379 | insertion keeps a sorted sequence sorted, equal keys included |
| RbSwap.SwapIsExact | kernel/lib/ds/rbtree.c:129-229 | on consistent links the rewriting exchanges the two nodes exactly when they are not siblings given from left to right |
| RbSwap.SiblingsAreMixedUp | kernel/lib/ds/rbtree.c:129-229 | such siblings keep their places instead |
| RbSwap.SwapNodes | kernel/lib/ds/rbtree.c:129-229 | in all other cases, parent and child included, the links afterwards spell the old tree with the names exchanged |
| RbDeleteTheory.RedSiblingTurnedStaysShort | kernel/lib/ds/rbtree.c:399-415 | a red sibling gives way to a black one; the short side stays one black node short |
| RbDeleteTheory.ShortMovesUp | kernel/lib/ds/rbtree.c:417-423 | with a black family, reddening the sibling makes the parent's subtree the short one |
| RbDeleteTheory.RedParentPays | kernel/lib/ds/rbtree.c:424-428 | with a red parent, reddening the sibling and blackening the parent ends the repair |
| RbDeleteTheory.NearNephewTurnedStaysShort | kernel/lib/ds/rbtree.c:431-450 | a red near nephew is turned into a red far nephew, the short side unchanged |
| RbDeleteTheory.FarNephewTurnedRepairs | kernel/lib/ds/rbtree.c:452-468 | with a red far nephew one rotation pays the missing black node on every path |
| RbDeleteTheory.SiblingIsNode | kernel/lib/ds/rbtree.c:390-470 | a short subtree below the root always has a sibling, so no case of the repair meets null |
| RbDelete.FixRound | kernel/lib/ds/rbtree.c:392-469 | one round ends the repair or moves the deficit strictly up, the sequence unchanged |
| RbDelete.DeleteFix | kernel/lib/ds/rbtree.c:390-470 | with the black deletee still linked, the loop ends; without the deletee the tree obeys the red-black rules, in the same order |
| RbDelete.FindSuccessor | kernel/lib/ds/rbtree.c:381-388 | the last node of the left subtree in order, which has no right child |
| RbDelete.DescendIfFull | kernel/lib/ds/rbtree.c:472-479 | a deletee with two children changes places with the last node of its left subtree, and otherwise nothing changes; afterwards it has at most one child, and the other nodes keep their order |
| RbDelete.Delete | kernel/lib/ds/rbtree.c:472-491 | a valid tree stays valid, and its in-order sequence is the old one with exactly the deletee taken out |
| RbDelete.NotSiblings | kernel/lib/ds/rbtree.c:472-477 | the node deleted and the one it changes places with have different parents |
| RbLaws.RemovedIsSplit | kernel/lib/ds/rbtree.c:472-491 | what deletion does to the sequence: the part before the node and the part behind it, joined |
| RbLaws.RemovedSorted | kernel/lib/ds/rbtree.c:472-491 | deletion keeps a sorted sequence sorted |
| RbLaws.RemovedInserted | kernel/lib/ds/rbtree.c:344-491 | deleting the node just inserted restores the sequence |
| RbLaws.ValidIsShallow | kernel/lib/ds/rbtree.c:493-511 | any valid tree, so any tree reached by inserts and deletes, has height at most 2 log2(n + 1) |
| RbSearch.Search | kernel/lib/ds/rbtree.c:493-511 | finds a node that compares equal if there is one, null only if there is none, with at most height comparisons |
| RbSearch.SearchMin | kernel/lib/ds/rbtree.c:513-552 | the two descents and the climb terminate and give the result described by MinResultIsLeast |
| RbSearch.MinResultIsLeast | kernel/lib/ds/rbtree.c:513-552 | the search from below traps exactly when the tree has nodes and all are below the limit; otherwise it finds the least node that is not |
| RbSearch.SearchMax | kernel/lib/ds/rbtree.c:554-602 | the search terminates although it re-enters its outer loop, with the result described by MaxResultIsGreatest |
| RbSearch.MaxResultIsGreatest | kernel/lib/ds/rbtree.c:554-602 | null exactly when every node is above the limit, otherwise the greatest node that is not |
| RbIterate.IterRange | kernel/lib/ds/rbtree.c:604-647 | the walk without a stack terminates; it traps exactly when all nodes are below the lower bound, and otherwise calls back as a linear pass from the least node within bounds would |
| RbLaws.CallsAreStretch | kernel/lib/ds/rbtree.c:604-647 | the calls are a stretch of the sequence, each node once and in order, that ends at the upper bound or at the first false result |
| RbLaws.RangeIsExact | kernel/lib/ds/rbtree.c:604-647 | with distinct keys and a callback that never stops, exactly the nodes between the bounds are visited |
| Slist.Insert | kernel/lib/ds/slist.c:25-32 | the chain afterwards is the old one with the new link behind the given one |
| Slist.Remove | kernel/lib/ds/slist.c:42-54 | the cursor finds the link before it runs off the list; the chain afterwards is the old one without it |
| VmArea.ApartPassesAsserts | kernel/kernel/mm/vm_area.c:11-37 | the assertions in the comparison of two areas hold exactly when they do not overlap, for areas that start apart, and always for areas that start together |
| VmArea.FitsInside | kernel/kernel/mm/vm_area.c:20-33 | an area ends within the address space exactly when all its bytes have addresses |
| VmArea.ZeroMeansInside | kernel/kernel/mm/vm_area.c:39-57 | the area-to-address comparison is 0 exactly for addresses inside, negative exactly behind the area |
| VmSpace.Space.constructor | kernel/kernel/mm/vm_space.c:52-61 | a new space has no areas and satisfies the invariant |
| VmSpace.PlaceArea | kernel/kernel/mm/vm_space.c:63-80 | whatever the area, the tree gains it before the first area that does not begin below it and the list gains it behind the greatest one that does not begin above it; taking it out again gives tree and list back |
| VmSpace.InsertArea | kernel/kernel/mm/vm_space.c:63-80 | an area apart from all others enters tree and list at the same place; both still agree, ascend and do not overlap |
| VmSpace.RemoveArea | kernel/kernel/mm/vm_space.c:82-89 | in whatever order the areas are, exactly the given area leaves both tree and list; the space is in order afterwards exactly when its other areas were |
| VmSpace.AreaIsEntered | kernel/kernel/mm/vm_space.c:82-89 | a space in order holds each of its areas in tree and list, and without it the other areas are in order and the same |
| VmGap.FindAreaAt | kernel/arch/i686/vm.c:194-219 | the page-fault lookup finds the area that a linear scan of the list finds, or none when it finds none |
| VmGap.ScanFinds | kernel/arch/i686/vm.c:194-219 | the scan finds an area that holds the address if there is one |
| VmGap.OnlyOneHolds | kernel/kernel/mm/vm_space.c:63-80 | at most one area of a space holds an address |
| VmGap.FindGap | kernel/kernel/mm/vm_space.c:13-50 | the loop over the list returns the first gap that the predicate accepts, or nothing when it accepts none |
| VmGap.GapsAreComplement | kernel/kernel/mm/vm_space.c:13-50 | an address lies in one of the gaps exactly when no area holds it |
| VmGap.GapsAscend | kernel/kernel/mm/vm_space.c:13-50 | the gaps are offered in ascending order and do not overlap |
| VmGap.ChosenIsFirst | kernel/kernel/mm/vm_space.c:13-50 | all gaps before the chosen one were refused |
| VmGap.GapForNewArea | kernel/kernel/mm/vm.c:35-64 | the search fails exactly when no gap is long enough; whatever stays inside the gap found is apart from every area |
| VmGap.RequestedMayEnter | kernel/kernel/mm/vm.c:42-64 | the area that a request leads to: between the minimal and the maximal size and apart from all others, or the empty one at 0 exactly when no gap is long enough |
| VmGap.RequestedIsFirstFit | kernel/kernel/mm/vm.c:42-53 | it begins with the first gap that is long enough and has the maximal length, or all of the gap if that is less |
| VmGap.NewArea | kernel/kernel/mm/vm.c:42-64 | null exactly without memory for the object; otherwise the object returned is the one that is in tree and list, and without it they are as before; it begins with the first gap of at least the minimal size and takes the maximal size of it, or all; with a length the space stays in order, without one it is no longer in order and the area stands in front of all others; an assertion trips by an exact condition |
| VmGap.FreeArea | kernel/kernel/mm/vm.c:66-72 | exactly the given area leaves tree and list, whatever the order; a space in order stays in order and loses just this area, and any space gets in order exactly when its other areas are |
| VmGap.ReserveAndFree | kernel/kernel/mm/vm.c:35-72 | what was reserved, with bytes or without, can be freed, and then the space is in order and has the nodes and links it had |
| VmGap.InsertEmpty | kernel/kernel/mm/vm_space.c:63-80 | an area of no bytes trips an assertion exactly when it begins below the space or, at 0, the root does not; otherwise it comes first in the tree, and in the list behind an area that begins where it does |
| VmGap.OnlyRootTrips | kernel/kernel/mm/vm_area.c:11-37 | after the comparison with the root no later one trips an assertion |
| VmGap.TripsExactly | kernel/kernel/mm/vm_area.c:20-33 | an area of no bytes trips an assertion exactly when it begins below the space or, at 0, the area in the root does not |
| VmGap.EmptyAreaSpoils | kernel/kernel/mm/vm.c:42-64 | a space that holds an area of no bytes is not in order |
| VmGap.EmptyAreaCatchesAll | kernel/kernel/mm/vm_area.c:39-57 | the empty area at 0 compares as the place of every address, although it holds none |
| Paging.WindowShowsEmergencyFrame | kernel/arch/i686/vm.c:154-170 | through the recursive slot, word i of the window is entry i of the frame in the emergency slot |
| Paging.EmergencySlotIsAside | kernel/arch/i686/vm.c:154-181 | setting or clearing the emergency slot changes no walk outside its own range and the window |
| Paging.TableWriteIsLocal | kernel/arch/i686/vm.c:246-278 | writing one entry of one table changes the walk of exactly one page |
| Paging.NewTableIsEmpty | kernel/arch/i686/vm.c:221-267 | hooking in a zeroed table changes no walk but that of its own page in the recursive range |
| Paging.FreshFrameIsAside | kernel/arch/i686/vm.c:221-244 | writing to a frame that no directory entry names changes no walk |
| Paging.TableWriteKeepsCoherence | kernel/arch/i686/vm.c:246-278 | a table write leaves at most its own page stale, and nothing when that page was not cached |
| Paging.UnmappedIsNotCached | kernel/arch/i686/vm.c:246-267 | a page that is not mapped is not in the TLB, so that mapping it needs no invalidation |
| Paging.FillPicks | kernel/arch/i686/vm.c:150-181 | while the slot names a table, or a directory cache remembers that it did, the pages of directory 1022 that can be cached are those whose entries are present in that table |
| Paging.FillsAreExact | kernel/arch/i686/vm.c:150-181 | the caches can pick up exactly the present directory entries and the translations that the walk through them finds, and keep what they have |
| Paging.AbsentPicksNothing | kernel/arch/i686/vm.c:172-181 | while the slot is absent and no directory cache remembers it, no page of directory 1022 can be cached |
| Paging.FillsAddUp | kernel/arch/i686/vm.c:150-181 | what the caches pick up in two goes between two writes they can pick up in one |
| Paging.EmergencyRangeIsStale | kernel/arch/i686/vm.c:172-181 | once the slot is absent, every cached translation of directory 1022 is stale |
| PageTables.Mmu.constructor | kernel/arch/i686/vm.c:140-148 | setting up the recursive slot of a directory establishes the invariant and keeps every mapping of the directories 0 to 1021 |
| PageTables.Mmu.Idle | kernel/arch/i686/vm.c:172-192 | whatever the processor caches between two operations, the invariant holds and nothing of directory 1022 comes in |
| PageTables.Mmu.PickingUpIsSafe | kernel/arch/i686/vm.c:150-192 | whatever the processor caches after a step, caches that were coherent stay so, and of directory 1022 only what the slot shows comes in |
| PageTables.Mmu.AccessGoesByCaches | kernel/arch/i686/vm.c:150-192 | an access goes by the cached translation, then by the cached directory entry, and only then by the tables |
| PageTables.Mmu.OpenWindow | kernel/arch/i686/vm.c:154-170 | the window shows the given frame, no cached translation in its way, and every mapping is as before |
| PageTables.Mmu.CloseWindow | kernel/arch/i686/vm.c:172-181 | the slot is absent again, nothing is stale, and every mapping is as before |
| PageTables.Mmu.Resolve | kernel/arch/i686/vm.c:183-192 | returns the physical page behind a mapped page, and leaves every mapping as it was; of directory 1022 exactly the pages with present entries in the table opened can have become cached |
| PageTables.Mmu.ZeroFrame | kernel/arch/i686/vm.c:221-244 | every entry of the new frame is absent, and no mapping has changed meanwhile |
| PageTables.Mmu.CreateTable | kernel/arch/i686/vm.c:221-244 | a fresh frame becomes an empty table; only it and the root are written, and no mapping changes |
| PageTables.Mmu.Map | kernel/arch/i686/vm.c:246-267 | afterwards the page leads to the frame, every other page of the directories 0 to 1021 leads where it did, nothing stale of them is cached and the window is closed; it panics exactly when a table is needed and no page can be had; of directory 1022 exactly the pages with present entries in the table, or in the frame that became one, and that of the new entry can have become cached |
| PageTables.Mmu.Unmap | kernel/arch/i686/vm.c:269-278 | afterwards the page is not mapped, every other page of the directories 0 to 1021 leads where it did, and no translation of it is left in the TLB; of directory 1022 exactly the pages with present entries in the table opened can have become cached |
| Bits.MaskRoundsUp | kernel/include/lib/align.h:13-22 | the mask rounds up to a multiple of a power of two, unless the sum wraps |
| Bits.MaskRoundsDown | kernel/include/lib/align.h:29-37 | the mask rounds down to a multiple of a power of two |
| Bits.FindFirstOne | kernel/include/lib/utils.h:58-70 | the index of the lowest one of a word, and 31 for the word 0 |
| Bits.FindFirstZero | kernel/include/lib/utils.h:72-75 | the index of the lowest zero of a word that has one |
| Arith.Log2FloorBounds | kernel/include/lib/utils.h:30-35 | the power of two at the floor reaches x but its double exceeds it |
| Arith.Log2CeilBounds | kernel/include/lib/utils.h:37-41 | the least power of two that is not below x |
| SlabLayout.MasksRound | kernel/include/lib/align.h:13-37 | for the alignments in use the masks are the divisions of the layout proofs |
| SlabLayout.InitIsProper | kernel/kernel/mm/kmm.c:369-435 | a cache whose objects fit in a page gets a stride that holds object and control block, and a capacity and colour range that use up the page |
| SlabLayout.StrideIsLeast | kernel/kernel/mm/kmm.c:400-424 | the stride is the least multiple of the alignment that holds an object and, below 512 bytes, its control block; the alignment is the one asked for, or that of a control block if it is more |
| SlabLayout.CapacityIsGreatest | kernel/kernel/mm/kmm.c:369-398 | a page holds as many objects as fit behind the page header and, in a small slab, the slab header; the colours range over what is left |
| SlabLayout.ColoursAreSmall | kernel/kernel/mm/kmm.c:531-534 | every colour the cursor reaches is within the wasted space |
| SlabLayout.ColoursInTurn | kernel/kernel/mm/kmm.c:531-534 | the colours are, in turn, all multiples of the alignment below the wasted space |
| SlabLayout.SlabFits | kernel/kernel/mm/kmm.c:254-275 | for such a colour the objects start behind the page header and, in a small slab, the slab header, at the first aligned address from the colour on, end before the page does, and leave less than a stride unused |
| SlabLayout.ObjectFits | kernel/kernel/mm/kmm.c:226-243 | an object lies inside its page, aligned, behind the page header and the slab header of a small slab, and its address leads back to the page |
| SlabLayout.CtlFollows | kernel/kernel/mm/kmm.c:72-82 | the control block lies behind its buffer, within the stride, aligned |
| SlabLayout.CtlRoundTrip | kernel/kernel/mm/kmm.c:42-82 | from buffer to control block and back is the identity |
| SlabLayout.SlabLayoutIsSound | kernel/kernel/mm/kmm.c:245-327 | in every slab a cache ever creates, each object lies behind the page header and the slab header of a small slab, aligned as asked, with its control block in a stretch of the page that no other object shares |
| SlabTheory.TakeHandsOut | kernel/kernel/mm/kmm.c:352-367 | taking a free buffer puts one object into use that was in nobody's hands |
| SlabTheory.ReturnTakesBack | kernel/kernel/mm/kmm.c:336-350 | returning an object takes exactly that object out of use |
| SlabTheory.InUseCounts | kernel/kernel/mm/kmm.c:336-367 | the counter of a slab is the number of its objects in use |
| SlabTheory.LargeCounts | kernel/kernel/mm/kmm.c:293-329 | a large cache has as many control blocks as free buffers and as many headers as slabs |
| SlabLists.ReuseFilesWell | kernel/kernel/mm/kmm.c:497-519 | a slab that is used again is filed where it belongs exactly when slabs hold more than one object |
| SlabCache.Cache.constructor | kernel/kernel/mm/kmm.c:400-435 | a new cache of any capacity has no slabs and satisfies the invariant |
| SlabCache.Cache.FindExisting | kernel/kernel/mm/kmm.c:497-519 | finds a slab exactly when one is on the partial or the empty list, the first of the partly used slabs before the first empty one, and files it for one object more as `SlabFiling.TakeFrom` says; with one object a slab, one found on the partial list has no free buffer |
| SlabCache.Cache.SlabCreateSmall | kernel/kernel/mm/kmm.c:245-291 | a new slab in a page of its own, its header behind that of the page and every object behind both, all objects free and each listed once, the last one first; none exactly when no page is left |
| SlabCache.Cache.SlabCreateLarge | kernel/kernel/mm/kmm.c:293-334 | the same with a header and control blocks new to the two small caches, which gain exactly these; a failure for lack of a page gives the header back; failure and fault are decided exactly by the pages and control blocks in supply before |
| SlabCache.Cache.GetNewSlab | kernel/kernel/mm/kmm.c:521-547 | adds one slab, on a new page at the current colour, from which nothing is in use yet, filed for its first object: on the full list with one object a slab, and in front of the partial list otherwise; what belongs to other caches stays, and the colour moves on even after a failure; failure and fault exactly by the supply before |
| SlabCache.Cache.ObjectAlloc | kernel/kernel/mm/kmm.c:352-367 | hands out the first free object of the slab, which was not in use, gives its control block back, and restores the invariant; no list changes |
| SlabCache.Cache.ExhaustedHasNoFree | kernel/kernel/mm/kmm.c:497-519 | with more than one object a slab, there is nothing on the partial and empty lists exactly when no buffer is free |
| SlabCache.Cache.Alloc | kernel/kernel/mm/kmm.c:549-565 | terminates although a large cache re-enters it; the object returned was not in use and is the only one that now is besides; its slab alone is filed anew, as `SlabFiling` says; the control blocks, headers and pages of other caches stay theirs; fails exactly when a new slab is needed and lacks a page for itself or its header, faults exactly when one is needed and its control blocks exceed the supply or a slab of one object is found in use |
| SlabCache.Cache.Free | kernel/kernel/mm/kmm.c:567-592 | takes exactly the given object out of use, and files its slab alone anew, as `SlabFiling` says; faults exactly when a large cache needs a control block and there is neither a free one nor a page, or the only object of a slab on the partial list comes back |
| SlabCache.Cache.Run | kernel/kernel/mm/kmm.c:497-592 | in any run of allocations and frees with more than one object a slab, and in any run of allocations with one, a fault means that a control block is missing; the objects held are exactly those that came into use |
| SlabCache.Cache.IsListed | kernel/kernel/mm/kmm.c:497-592 | every slab is on exactly the list its count says, but that one of one object in use may be on the partial list instead; in use and free add up to the capacity |
| SlabCache.Cache.FreeLargeBuffers | kernel/kernel/mm/kmm.c:137-157 | all control blocks of a slab, and no others, go back to their cache |
| SlabCache.Cache.SlabDestroy | kernel/kernel/mm/kmm.c:159-191 | header and control blocks go back to their caches, then the slab leaves its list and its page goes back to the provider, and nothing else changes hands; faults exactly when a slab of one object is on the partial list |
| SlabCache.Cache.FreeSlabs | kernel/kernel/mm/kmm.c:193-207 | the given list is empty afterwards, the others as before, and the page of each slab destroyed is back with the provider; faults exactly on the partial list of a cache with one object a slab |
| SlabCache.Cache.Trim | kernel/kernel/mm/kmm.c:209-213 | no empty slab is left, their pages are back with the provider, and every object in use stays in use |
| SlabCache.Cache.Destroy | kernel/kernel/mm/kmm.c:478-490 | no slab is left, all pages are back with the provider, and what belongs to other caches is untouched; faults exactly when allocations would trap |
| SlabHeap.Kmm.constructor | kernel/kernel/mm/kmm.c:442-462 | after initialisation nothing is held and the books are balanced; the three caches are made for cache structures, slab headers and control blocks |
| SlabHeap.Kmm.TakeStructure | kernel/kernel/mm/kmm.c:464-470 | the memory of a cache structure comes from the cache of caches, as long as its free buffers and the pages left give one, one less each time |
| SlabHeap.Kmm.Create | kernel/kernel/mm/kmm.c:464-476 | null exactly when no structure can be had; otherwise a new cache is put in front of the registered ones, at an address taken from the cache of caches, which stays in use for it; the structures in use are exactly those of the caches that were created, no two in one place, and the books stay balanced |
| SlabHeap.Kmm.InitUnregistered | kernel/kernel/mm/vm.c:17-27 | a cache in a structure of its owner joins the heap without getting on the list, and the books stay balanced |
| SlabHeap.Kmm.Destroy | kernel/kernel/mm/kmm.c:478-495 | undoes a creation: the cache has nothing left and is off the list, exactly its own structure is free again, and the books stay balanced |
| SlabHeap.Kmm.AllocFrom | kernel/kernel/mm/kmm.c:549-565 | an allocation from any user cache, registered or not, keeps all caches sound and the books balanced, and hands out no object twice; failure and fault exactly by the state before |
| SlabHeap.Kmm.FreeTo | kernel/kernel/mm/kmm.c:567-592 | a free to any user cache, registered or not, takes exactly the object out of use and keeps the books balanced; faults exactly by the state before |
| SlabHeap.Kmm.TrimAll | kernel/kernel/mm/kmm.c:215-221 | no registered cache has an empty slab afterwards, the two small caches included, and no user of any cache loses an object |
| SlabHeap.Kmm.Conservation | kernel/kernel/mm/kmm.c:293-367 | over all caches, registered or not: pages taken and not returned are as many as slabs, and with the free ones they are all pages there are; control blocks in use are as many as free buffers of large slabs, headers in use as many as large slabs |
| SlabHeap.Kmm.ObjectsHaveOneOwner | kernel/kernel/mm/kmm.c:226-243 | no address is in use in two caches, registered or not |
| SlabHeap.Kmm.ObjectsAreApart | kernel/kernel/mm/kmm.c:226-243 | objects in use share no byte, whatever caches they are from |
| SlabHeap.Kmm.OwnObjectsAreApart | kernel/kernel/mm/kmm.c:456-461 | slab headers, control blocks and cache structures in use lie apart, each with room for its size in front of its own control block |
| SlabFiling.FilingHolds | kernel/kernel/mm/kmm.c:497-592 | with more than one object a slab, any run of allocations and frees keeps the slab on the right list and trips no assertion |
| SlabFiling.OneObjectASlabTraps | kernel/kernel/mm/kmm.c:497-592 | with one object a slab, allocate, free, allocate leaves the slab on the wrong list, and either operation then trips an assertion |
| SlabFiling.TrapsExactlyForOneObject | kernel/kernel/mm/kmm.c:497-592 | no run trips an assertion exactly when the capacity is greater than 1 |
| SlabFiling.GivenBack | kernel/kernel/mm/kmm.c:567-592 | the lists of a cache file the slab of an object that comes back as the run of a single slab does, and trap where that does |
| Kmalloc.ClassIsLeast | kernel/kernel/mm/kmalloc.c:57-70 | the class is the least one at or above the low power that fits size and header |
| Kmalloc.BlockHoldsRequest | kernel/kernel/mm/kmalloc.c:57-70 | a block of the class holds the request exactly when adding the header does not wrap |
| Kmalloc.KernelClasses | kernel/kernel/mm/kmalloc.c:45-54 | each class that the kernel configures fits a page; only the largest has one object a slab, and those from 512 bytes are large |
| Kmalloc.KMalloc.constructor | kernel/kernel/mm/kmalloc.c:30-55 | one cache for each power, of objects that hold a padded header and the block; exactly as many as there are structures for, null for the rest |
| Kmalloc.KMalloc.Alloc | kernel/kernel/mm/kmalloc.c:57-83 | returns null exactly for requests above the largest class; faults exactly when the class has no cache or its cache fails or faults; otherwise the block is aligned, behind its own header, wholly inside a new object of its class, and carries the index of the class |
| Kmalloc.KMalloc.BlockBehindHeader | kernel/kernel/mm/kmalloc.c:80-94 | from header to block and back is the identity, and the block ends where the object does |
| Kmalloc.KMalloc.Free | kernel/kernel/mm/kmalloc.c:85-99 | finds the header and the class again: exactly the given block goes out of use, in its own class; faults exactly as the cache does |
| Kmalloc.KernelHeap | kernel/kernel/kernel.c:108-109 | the heap as the kernel sets it up, powers 5 to 11 at alignment 16, is valid; its classes have their caches exactly when there is a page at all |
| Bitmaps.Bitmap.constructor | kernel/lib/ds/bitmap.c:89-102 | all bits clear |
| Bitmaps.Bitmap.Get | kernel/lib/ds/bitmap.c:50-59 | the bit of the sequence that the words stand for |
| Bitmaps.Bitmap.SetTrue | kernel/lib/ds/bitmap.c:61-70 | exactly the given bit is set |
| Bitmaps.Bitmap.SetFalse | kernel/lib/ds/bitmap.c:72-81 | exactly the given bit is cleared |
| Bitmaps.Bitmap.SearchFalse | kernel/lib/ds/bitmap.c:20-42 | the lowest clear bit, and failure exactly when all bits are set |
| Linear.LinearAlloc.Alloc | kernel/lib/mm/linear.c:19-32 | with sums in 32 bits: granted exactly when the length fits below the limit or the sum wraps; what is granted without wrapping is the next stretch below the limit, and a refusal changes nothing |
| Linear.LinearAlloc.constructor | kernel/lib/mm/linear.c:7-17 | the range is in order exactly when it ends below the end of the address space |
| Buddy.PredictionIsTight | kernel/lib/ds/bitmap.c:83-87 | the space of a bitmap is whole words that hold its bits with less than a word to spare |
| Buddy.PredictReqSpace | kernel/lib/mm/buddy.c:24-37 | the bytes of the table and of the bitmaps of all levels |
| Buddy.LevelsHavePages | kernel/lib/mm/buddy.c:18-22 | the levels are exactly those that hold a whole run of pages, so the assertion that a level has a bit holds, and the highest one holds a single run |
| Buddy.ShiftedDivides | kernel/lib/mm/buddy.c:18-22 | the bits of a level are the pages divided by the size of its runs |
| Buddy.BuddyManager.constructor | kernel/lib/mm/buddy.c:39-60 | all pages free; there is a bitmap for each level that holds a whole run of pages and for no other, with a bit for each run; table and bitmaps consume exactly the predicted bytes, consecutively |
| Buddy.BuddyManager.AllLevelsAreThere | kernel/lib/mm/buddy.c:39-60 | level l is there exactly when the pages divided by 2^l are not 0, and this is its number of bits; the last level has one |
| Buddy.BuddyManager.SpacesAreDisjoint | kernel/lib/mm/buddy.c:49-54 | the spaces of the bitmaps of different levels do not overlap |
| Buddy.Occupied | kernel/lib/mm/buddy.c:76-87 | setting the bits of a page and of its ancestors keeps every page in use covered at every level |
| Buddy.BuddyManager.TryAlloc | kernel/lib/mm/buddy.c:126-135 | reserves the page exactly when it is free |
| Buddy.BuddyManager.Alloc | kernel/lib/mm/buddy.c:137-151 | the lowest free page, failing exactly when none is free; no clear bit of a higher level covers a page in use |
| Buddy.BuddyManager.Free | kernel/lib/mm/buddy.c:89-124 | exactly the given page becomes free and no bit of a higher level changes; the bounds assertion holds exactly when the sibling of the page exists |
| Vfprintf.BuffersSuffice | kernel/lib/cstd/stdio/vfprintf.c:336-450 | the digit buffers hold every 64-bit value, and the powers of the length computation do not overflow |
| Vfprintf.LengthForIntNumBase | kernel/lib/cstd/stdio/vfprintf.c:301-315 | the number of digits of a number in a base |
| Vfprintf.FillDigits | kernel/lib/cstd/stdio/vfprintf.c:408-412 | the buffer filled backwards holds exactly the digits of the value, none cut off |
| Vfprintf.DigitsReadBack | kernel/lib/cstd/stdio/vfprintf.c:336-479 | the digits read back to the value, in all bases |
| Vfprintf.HexInCase | kernel/lib/cstd/stdio/vfprintf.c:448-479 | %x writes no capital letters, %X and %p no small ones |
| Vfprintf.PredictLength | kernel/lib/cstd/stdio/vfprintf.c:317-508 | for every conversion and every width and precision word the predicted length is the length of what is printed |
| Vfprintf.PrintBody | kernel/lib/cstd/stdio/vfprintf.c:336-527 | what a conversion prints: digits padded to the precision, the string cut to it, or nothing for zero with precision zero; a precision of 254 modulo 256 counts as none |
| Vfprintf.PrintConvSpec | kernel/lib/cstd/stdio/vfprintf.c:561-677 | the whole field: sign and prefix, padding and body for every combination of flags and width; a width of 254 modulo 256 counts as none |
| Vfprintf.FieldHasItsLength | kernel/lib/cstd/stdio/vfprintf.c:591-677 | a field has max(width, prefix + sign + body) characters exactly unless flag 0 loses a sign or prefix, or a width that would have to be filled is 254 modulo 256 |
| Vfprintf.TakenForNone | kernel/lib/cstd/stdio/vfprintf.c:48-64 | a width or precision is taken for none exactly when it is none or 254 modulo 256, and the field printed then is the one without it |
| C99Field.FieldIsStandard | kernel/lib/cstd/stdio/vfprintf.c:481-677 | exactly when the field is the one of section 7.19.6.1 of C99, for every combination that the standard defines and every width and precision |
| C99Field.WherePartsDiffer | kernel/lib/cstd/stdio/vfprintf.c:336-500 | lead and body are the standard ones but for # on zero, %X and octal numbers, for precisions of hexadecimal numbers, and for precisions that are taken for none |
| C99Field.PlainFieldIsStandard | kernel/lib/cstd/stdio/vfprintf.c:591-677 | without flag 0, signs on what is not signed and words taken for none, the field is the standard one exactly when its parts are |
| C99Field.PlusOnUnsigned | kernel/lib/cstd/stdio/vfprintf.c:561-584 | %+u prints a sign where C99 has none, and so does %+s |
| C99Field.SpaceOnUnsigned | kernel/lib/cstd/stdio/vfprintf.c:561-584 | % u prints a blank where C99 has none |
| C99Field.HashOnOctal | kernel/lib/cstd/stdio/vfprintf.c:336-380 | %#o prints 7 where C99 asks for 07 |
| C99Field.PrecisionOnHex | kernel/lib/cstd/stdio/vfprintf.c:448-479 | %.4x prints a where C99 asks for 000a |
| C99Field.HashOnZero | kernel/lib/cstd/stdio/vfprintf.c:481-500 | %#x prints 0x0 where C99 asks for 0 |
| C99Field.HashOnBigHex | kernel/lib/cstd/stdio/vfprintf.c:481-500 | %#X prints 0xA where C99 asks for 0XA |
| C99Field.ZeroWithPrecision | kernel/lib/cstd/stdio/vfprintf.c:617-641 | %05.3d prints 00007 where C99 asks for two blanks and 007 |
| C99Field.ZeroWithoutWidth | kernel/lib/cstd/stdio/vfprintf.c:642-660 | %0d of -5 loses the sign |
| C99Field.ZeroWithoutPrefix | kernel/lib/cstd/stdio/vfprintf.c:642-660 | %#0x of 10 loses the prefix |
| C99Field.ZeroWithMinus | kernel/lib/cstd/stdio/vfprintf.c:642-677 | %-05d of -5 loses the sign |
| C99Field.TakenForNoneShows | kernel/lib/cstd/stdio/vfprintf.c:616-677 | %254d and %.254d of 5 print one digit where C99 asks for 254 characters |

## Left out

- RbSwap.SwapNodes: does not cover siblings given from left to right, for which the code is wrong and which are never passed.
- SlabHeap.Kmm.Create: the fields of a cache do not share memory with the pages of the cache of caches; the address that its structure has there is recorded beside it.
- VmGap.FreeArea: does not give the object back to the cache of area objects, whose operations are those of the slab model.
- Constructors and destructors of slab objects and the names of caches.
- The colour bit that a release build packs into the parent pointer of a tree node.
- The page alignment of areas, which is asserted when an area is made.
- The constant for the end of the last gap of an address space, which wraps; the end is a parameter. Changes of the length of an area after it was created, made elsewhere.
- Permission and cache flags of page table entries; the allocation of physical pages, which is a parameter.
- Buddy allocation of more than one page: the climb to the ancestors starts at the wrong level there, and no parent is ever freed.
- Wrapping of addresses at the end of the address space in the slab allocator: addresses are unbounded there. Aligned requests and frees of the linear allocator, which nothing uses, and the end of its requests, which sets the limit to the position.
- The parts of a page table entry, which are written one after the other while it is absent: the last of these writes counts as the write. Evictions from the caches of the processor, which only shorten what is cached.
- Parsing of format strings, `*` for width and precision, `%n` and `%%`, fetching of arguments, and a failing output callback.
- The heap of the early kernel, the page zones, device memory, strings, ring buffers, key-value stores, interrupts, drivers and boot code.
