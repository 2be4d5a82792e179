# The memory subsystem of a small x86-64 kernel, modelled and verified in Dafny

The kernel stacks several allocators, and each layer relies on what the layer below guarantees. The model follows that stack, one
module or two for each C file:

- `RbShape`, `RbBalance`, `RbSplice`, `RbTree`: the intrusive red-black tree with parent pointers (`src/src/rbtree.c`). The class
  `RbTree` works on heap nodes with `left`, `right`, `parent` and `color`; a ghost tree with a path to the node in hand (a zipper)
  says which shape the links realise.
- `Intervals`, `Balloc`: the boot range allocator (`src/src/balloc.c`), two such trees that share a pool of 128 nodes. Lists of
  sorted, strictly separated intervals are the abstract value of a tree.
- `Powers`, `Blocks`, `Lists`, `Buddy`, `Pages`: the buddy page allocator (`src/src/memory.c`). The free set is a canonical set of
  aligned blocks; page flags are only trusted at the heads of blocks.
- `PageTables`, `PageMap`: the recursive page-table mapper (`src/src/paging.c`), in wrapping 64-bit arithmetic, against the 4-level
  walk of section 4.5 of the Intel SDM, volume 3A.
- `KmapRanges`, `Kmap`: the range allocator of the kmap window with its boundary tags and segregated lists, and `kmap` and `kunmap`
  on top of it and of the page tables.
- `SlabLayout`, `SlabPool`, `Slab`, `Heap`: pools of equal objects with a bitmap, caches of such pools on top of the page allocator,
  and `mem_alloc` and `mem_free` on top of both (`src/src/alloc.c`).
- `CircularList`: the intrusive list (`src/src/list.c`). Its operations are proved to act on the ring as the sequence operations by
  which the other modules describe lists.
- `Stdlib`, `Threads`: number printing and parsing (`src/src/stdlib.c`), and the round-robin ring of threads, on the list nodes
  of `CircularList` (`src/src/thread.c`).

The same pattern runs through the classes: fields as in the C structures, ghost fields for the abstract state, an invariant `Valid`
(or `Ready`, `Holds`) that every operation keeps, and contracts that give the new abstract state in terms of the old one. What the
abstract state means is then stated by lemmas: what is covered byte by byte, which decomposition is unique, when a request must
fail. Every `BUG_ON` that the model reaches is an assertion that is proved, or a precondition that the row of its member names.

`dafny verify dfyconfig.toml` checks the whole project.

Where the code departs from what it seems to intend, the model does what the code does, with these exceptions and remarks:

- `src/src/memory.c:80` clears `zone->end - zone->end`, that is no, pages. The model takes the evident intent: all page flags of a
  new zone are clear.
- `src/src/memory.c:239` tests the list before the bound. The model tests the bound first; the outcome is the same.
- `src/src/balloc.c:83` takes the end of the next interval even when it is smaller than that of the new one, and merges one interval
  only. `Intervals.AddedIsUnion` says exactly when adding is set union nevertheless.
- `src/src/alloc.c:81` takes the logarithm of a page count that was rounded down, so a pool can have as few as three objects, where
  `MIN_POOL_OBJS` is 8. `SlabLayout.MinReached` says exactly when that constant is reached; for objects of 512 or 1024 bytes, say, it
  is not.
- `src/src/paging.c:297-305` never searches a list for 2^16 pages or more; `KmapRanges.Refused` is an input that shows it.
- `src/src/stdlib.c:29-30` skips a leading 0 in base 8 without counting it as consumed, so `strtoul("0", &end, 8)` sets `end` to the
  start of the string.
- `src/src/stdlib.c:31` compares the character after the 0 with `x` before it folds case, so in base 16 only `0x` is skipped, not
  `0X`. `Stdlib.HexPrefix` says for which values that shows.
- `src/src/stdlib.c:35-46` does not test that a digit is below the base, or that a character is a digit at all, so `strtoul("9", 0, 8)`
  is 9. `Stdlib.StopsIff` says exactly when the loop stops where it should, and `Stdlib.MeantIff` says the same of the whole function.
- `src/src/stdlib.c:51-52` negates the largest unsigned long too, so a negative number that is too large yields 1.
  `Stdlib.ParsedPrinted` says what all numbers yield.

## Model

| member | source | states |
|---|---|---|
| RbTrees.RbTree.Link | src/inc/rbtree.h:19-28 | a fresh red node hangs at an empty position of the tree, its links and its parent's set and nothing else changed |
| RbTrees.RbTree.RotateLeft | src/src/rbtree.c:30-49 | the links of the subtree at x are those of the rotated subtree; its place in the whole tree and the order of its nodes stay |
| RbTrees.RbTree.RotateRight | src/src/rbtree.c:51-70 | the mirror image of the left rotation |
| RbTrees.RbTree.Insert | src/src/rbtree.c:128-178 | from a red leaf linked anywhere into a red-black tree the fix-up ends with a valid red-black tree (black root, no red-red edge, equal black heights, consistent parent pointers) of the same nodes in the same order |
| RbBalance.RecolorStep | src/src/rbtree.c:138-145 | recolouring under a red uncle moves the only red-red edge two levels up and keeps every black height |
| RbBalance.InsertRotateBalance | src/src/rbtree.c:147-154 | under a black uncle one or two rotations with recolouring leave no red-red edge and keep the black heights and the order |
| RbBalance.RedSiblingStep | src/src/rbtree.c:187-192 | erase fix-up, red sibling: the rotation keeps the one missing black where it was, under a red parent, and shrinks the measure |
| RbBalance.BlackSiblingStep | src/src/rbtree.c:194-197 | erase fix-up, black sibling with black children: recolouring moves the missing black one level up |
| RbBalance.FarNephewStep | src/src/rbtree.c:205-211 | erase fix-up, red far nephew: one rotation pays the missing black |
| RbBalance.NearNephewStep | src/src/rbtree.c:199-211 | erase fix-up, red near nephew: two rotations pay the missing black |
| RbTrees.RbTree.EraseFix | src/src/rbtree.c:180-247 | from a tree with one black missing at `child` the loop ends with a valid red-black tree of the same nodes in the same order |
| RbTrees.RbTree.SpliceSuccessor | src/src/rbtree.c:254-290 | a node with two children is replaced, by links and colour, by its in-order successor, whether that is its child or not |
| RbTrees.RbTree.SpliceOut | src/src/rbtree.c:275-290 | a node with at most one child is replaced by that child |
| RbTrees.RbTree.EraseAt | src/src/rbtree.c:249-294 | erasing the node at any place of a valid tree leaves a valid tree of the nodes that remain |
| RbTrees.RbTree.Erase | src/src/rbtree.c:249-294 | erasing the i-th node leaves a valid red-black tree whose in-order node sequence is the old one with exactly that node cut out; the others keep their identity |
| RbSplice.SuccessorAt | src/src/rbtree.c:254-290 | the links stored for the successor are exactly those of the tree with the successor in the place of the erased node |
| RbSplice.RemainingBalance | src/src/rbtree.c:249-293 | after unlinking, the tree is balanced if the node that left its place was red, and one black short at one known place if it was black |
| RbSplice.RemainingSequence | src/src/rbtree.c:249-290 | unlinking removes exactly the erased node from the in-order sequence, also when its successor takes its place |
| RbTrees.RbTree.Next | src/src/rbtree.c:92-108 | the in-order successor of the i-th node, or null for the last |
| RbTrees.RbTree.Prev | src/src/rbtree.c:110-126 | the in-order predecessor of the i-th node, or null for the first |
| RbTrees.RbTree.Leftmost | src/src/rbtree.c:82-90 | the first node in order, or null |
| RbTrees.RbTree.Rightmost | src/src/rbtree.c:72-80 | the last node in order, or null |
| RbTrees.RbTree.Visit | src/src/memory.c:205-213 | starting from the leftmost node, following successors visits every node exactly once, in order |
| RbTrees.RbTree.DistinctNodes | src/src/rbtree.c:92-108 | the in-order sequence of a valid tree holds each node once |
| Intervals.AddedSeparated | src/src/balloc.c:46-87 | adding any non-empty range to sorted, strictly separated intervals leaves them sorted and strictly separated |
| Intervals.AddedBounds | src/src/balloc.c:46-87 | the result covers at least what was covered, and at most that and the new range |
| Intervals.AddedIsUnion | src/src/balloc.c:82-86 | the result is the set union if and only if no interval that starts within [from, to] ends before `to`: the code takes the end of the next interval, not the larger end, and merges one interval only |
| Intervals.AddedExactly | src/src/balloc.c:46-87 | for every input, byte by byte: what was covered, and of the new range the bytes before the end of each interval that starts in [from, to] |
| Intervals.AddedTooShort | src/src/balloc.c:82-86 | an input for which adding is not the union: [1, 5) added to the one interval [2, 3) gives [1, 3) |
| Intervals.RemovedSeparated | src/src/balloc.c:89-118 | removing a range keeps the intervals sorted and strictly separated |
| Intervals.RemovedIsDifference | src/src/balloc.c:89-118 | removing is exact set difference, byte for byte |
| Intervals.SeparatedUnique | src/src/balloc.c:46-118 | a set of bytes has one list of sorted, strictly separated intervals, so the byte-level statements fix the lists |
| Intervals.RemovedLength | src/src/balloc.c:89-118 | removing a range lengthens the list by at most one interval |
| BootAllocator.FindSlot | src/src/balloc.c:49-60 | the descent ends at the empty place between the intervals that start below `from` and the others |
| BootAllocator.FindFirst | src/src/balloc.c:89-104 | the descent finds the first interval that ends above `from` |
| BootAllocator.FindRoom | src/src/balloc.c:127-156 | the search stops at the interval that holds the least aligned room, or finds that there is none |
| BootAllocator.Balloc.constructor | src/src/balloc.c:181-187 | 128 nodes, all of them on the free list, and two empty trees |
| BootAllocator.Balloc.AddRange | src/src/balloc.c:46-87 | the chosen tree holds the merged intervals, in the nodes the code keeps; nodes that merging frees return to the free list; the other tree is untouched; every one of the 128 nodes stays in exactly one place |
| BootAllocator.Balloc.RemoveRange | src/src/balloc.c:89-118 | the chosen tree holds exactly the set difference, although nodes are erased and inserted while the loop runs over the saved next node; the loop ends; no node is lost |
| BootAllocator.Balloc.RemoveFrom | src/src/balloc.c:106-117 | the loop from the first interval on: the saved next node survives the erase and both insertions |
| BootAllocator.Balloc.CutOut | src/src/balloc.c:110-115 | erase, up to two insertions and the return of the node: one interval becomes its pieces outside the range |
| BootAllocator.Balloc.Alloc | src/src/balloc.c:120-159 | the smallest aligned address in [from, to) with the whole request free below `to`, and exactly those bytes leave the free set; `to` if and only if there is none, and then nothing changes |
| BootAllocator.Balloc.ParseMmap | src/src/balloc.c:197-238 | with n entries and 3n + 4 nodes the pool never runs out; the memory map is what adding all entries and the kernel gives, the free set that minus all reserved entries and the kernel; `FirstByteParsed` and `ParsedExactly` say what that is in bytes |
| BootAllocator.ParsedSafe | src/src/balloc.c:189-238 | for every memory map of non-empty entries, overlapping or not: no reserved byte and no kernel byte is free, and every free byte is mapped |
| BootAllocator.FreeIsMapped | src/src/balloc.c:223-238 | for every memory map: the free bytes are exactly the mapped ones that neither the kernel nor an entry of another type holds |
| BootAllocator.FirstByteParsed | src/src/balloc.c:189-238 | for every memory map: the first byte of every entry and of the kernel is mapped, and free if and only if neither the kernel nor an entry of another type holds it |
| BootAllocator.ParsedExactly | src/src/balloc.c:189-238 | if no addition meets an interval that starts in the new range and ends before it: a byte is mapped if and only if an entry or the kernel holds it, and free if and only if a usable entry holds it and neither the kernel nor an entry of another type does |
| BootAllocator.OrderlyUnbroken | src/src/balloc.c:189-238 | that condition holds for every memory map whose entries ascend without overlap and one of which holds the kernel |
| BootAllocator.Balloc.Spare | src/src/balloc.c:30-44 | the nodes of both trees and of the free list always add up to the pool |
| BuddyAllocator.BuddyIsHead | src/src/memory.c:326-335 | the page whose flags the merging loop tests is never strictly inside another block |
| BuddyAllocator.BuddyIsFree | src/src/memory.c:333-342 | when its flags say free and of this order, that page heads a free block of this order, although merging leaves FREE bits behind inside blocks |
| BuddyAllocator.MergeStep | src/src/memory.c:337-343 | the joined block is aligned, inside the zone and disjoint from all others |
| BuddyAllocator.SplitStep | src/src/memory.c:254-262 | idx ^ 2^k is the upper half; as a new free block with its flags set it keeps blocks disjoint, flags true at heads, and no two free buddies unmerged |
| Blocks.RunInBlock | src/src/memory.c:235-265 | in a canonical free set every aligned free run of at most the largest order lies inside one free block |
| Blocks.CanonicalUnique | src/src/memory.c:150-185 | a set of free pages has exactly one canonical decomposition into blocks |
| BuddyAllocator.Zone.constructor | src/src/memory.c:59-87 | a zone with empty lists and all page flags clear |
| BuddyAllocator.Zone.PickOrder | src/src/memory.c:169-175 | the order picked at boot is the largest that is aligned and fits |
| BuddyAllocator.Zone.Release | src/src/memory.c:150-185 | the greedy tiling makes exactly the pages of the range free, in canonical form |
| BuddyAllocator.TileNoTwin | src/src/memory.c:166-184 | greedy tiling never puts down the buddy of a free block |
| BuddyAllocator.Zone.Alloc | src/src/memory.c:235-265 | fails if and only if the zone has no free aligned run of 2^order pages, and then changes nothing; otherwise gives the front of the first block on the first non-empty list from that order on; the lists afterwards are the old ones with that block cut down, in their exact order, and exactly the pages of the run leave the free set; the invariant holds again |
| BuddyAllocator.Zone.Free | src/src/memory.c:319-350 | exactly the pages of the block join the free set, and the free lists are the canonical decomposition again |
| BuddyAllocator.Zone.Absorb | src/src/memory.c:337-343 | one merge takes the buddy off its list and keeps the pages of the block in hand and the lists together the same |
| BuddyAllocator.Zone.NothingFree | src/src/memory.c:239-243 | if all lists from the order on are empty there is no free aligned run of that order |
| BuddyAllocator.Zone.AllocThenFree | src/src/memory.c:235-350 | an allocation followed by the free of its block at the same order restores the very set of free blocks and the blocks in use, and the allocation succeeds if and only if the zone has a free aligned run |
| PageAllocator.BootMemoryFits | src/src/balloc.c:189-238 | whatever the memory map, and whatever ranges are allocated at boot before the pages are set up, what is left is separated and each free interval lies inside one mapped interval; rounding to pages wraps nowhere if no entry ends in the last page of the address space |
| PageAllocator.LeftIs | src/src/balloc.c:120-159 | allocating any ranges one after the other leaves separated intervals that cover exactly what was covered and not taken |
| PageAllocator.Pages.Find | src/src/memory.c:89-103 | the zone that holds the page, or none if no zone does |
| PageAllocator.Pages.AddZone | src/src/memory.c:59-87 | the whole pages of a mapped range, if any, become one more zone |
| PageAllocator.Pages.FreeRange | src/src/memory.c:150-185 | the zone lookup succeeds and the range ends inside the zone; exactly the whole pages of the range but page 0 become free |
| PageAllocator.Pages.Setup | src/src/memory.c:203-223 | afterwards the zones have exactly the whole pages of mapped memory, exactly the whole pages of free memory other than page 0 are free, nothing is in use, the zones and their flags are new, and no assertion of the lookups can fire |
| PageAllocator.Pages.Alloc | src/src/memory.c:292-317 | 0 if and only if the order is too large or no zone has a free aligned run of that order; else the page-aligned address of a block of the first zone that has one, which leaves that zone's free set |
| PageAllocator.Pages.Free | src/src/memory.c:352-367 | address 0 is ignored; any other block goes back to its zone |
| PageAllocator.Pages.AllocPages | src/src/memory.c:267-290 | fails if and only if the order is too large or no zone has a free aligned run of that order, and then changes nothing in use; else one new block is in use that was not |
| PageAllocator.Pages.FreePages | src/src/memory.c:369-379 | exactly that block is no longer in use |
| PageAllocator.Pages.BusyApart | src/src/memory.c:235-265 | blocks in use, in all zones together, are naturally aligned, pairwise disjoint, and never hold page 0 |
| PageTables.WalkSame | src/src/paging.c:86-137 | a walk depends only on the tables that hold its address |
| PageTables.LeafDone | src/src/paging.c:110-117 | writing a leaf into an absent entry maps exactly the addresses of that entry, at any of the three leaf sizes |
| PageTables.TableDone | src/src/paging.c:119-127 | hanging a zeroed table into an absent entry changes no translation |
| PageTables.ChildDone | src/src/paging.c:130-135 | what the recursive call did for the table below, it did for this one; all other translations are as before |
| PageMap.EntryEndValue | src/src/paging.c:101-105 | the wrapping 64-bit computation of an entry's end is right up to the last entry of the address space |
| PageMap.EntryReady | src/src/paging.c:109-130 | at level 1 every entry met is absent and the range is one aligned page: neither level-1 assertion can fire |
| PageMap.PartArith | src/src/paging.c:99-105 | the loop's index and bounds follow the parts of the range, also when the end wraps to 0 |
| PageMap.AddressSpace.MapEntry | src/src/paging.c:100-135 | one turn of the loop does its part of the job, or finds the pool empty when more tables are needed than it held |
| PageMap.AddressSpace.MapRange | src/src/paging.c:86-137 | the recursive mapper does the whole job from any level down and changes nothing outside of the range |
| PageMap.AddressSpace.MapPages | src/src/paging.c:139-149 | the 4-level walk sends each address a of [begin, end) to phys + (a - begin), writable as asked and not for users, and every other address where it went before; the pool suffices if it holds the tables that the range takes when large pages are used wherever they fit, and is not touched when the tables are there |
| PageMap.AddressSpace.PopulatePages | src/src/paging.c:151-158 | every table of the range exists afterwards and no translation has changed |
| PageMap.AddressSpace.ClearPage | src/src/paging.c:363-378 | four unchecked steps down and a cleared entry unmap exactly the page of the address; all tables stay |
| PageTables.NeedBelow | src/src/paging.c:109-127 | an aligned whole entry takes no table where a large page fits; any other part of a range takes one and what is needed below |
| PageTables.NeedSmall | src/src/paging.c:86-137 | without large pages a range takes one table for each entry it touches on levels 4, 3 and 2 |
| KmapRanges.Allocator.KmapOrder | src/src/paging.c:243-250 | the least order whose power of two is at least the page count, cut off at 16 |
| KmapRanges.ListOfIs | src/src/paging.c:289 | a free range is filed under floor(log2(length)), cut off at 15 |
| KmapRanges.Allocator.constructor | src/src/paging.c:396-411 | from any contents of the tags the window becomes one free range |
| KmapRanges.Previous | src/src/paging.c:269-271 | the tail tag just before a range leads to the head of the range before it, whose self-link tells whether it is busy |
| KmapRanges.Following | src/src/paging.c:279-283 | the position just after a range is the head of the next range, whose self-link tells whether it is busy |
| KmapRanges.JoinPrevious | src/src/paging.c:272-276 | merging with a free range before keeps the exact tiling, the tags, the lists, and that no two free ranges touch |
| KmapRanges.JoinNext | src/src/paging.c:282-285 | merging with a free range after keeps the same |
| KmapRanges.CloseGap | src/src/paging.c:288-289 | tagged and filed, the merged range completes the invariant |
| KmapRanges.Allocator.FreeRange | src/src/paging.c:267-290 | exactly the given range leaves the ranges in use; the window is tiled again by ranges with true head and tail tags, self-linked iff busy and otherwise on the right list, and no two free ranges touch |
| KmapRanges.Allocator.Release | src/src/paging.c:380 | a range in use is given back at the length that its tag holds |
| KmapRanges.Allocator.FindFree | src/src/paging.c:252-265 | the first range of the list that is long enough, or none if the list has none |
| KmapRanges.SearchComplete | src/src/paging.c:292-308 | below 2^16 pages the lists that are searched hold every free range that is long enough |
| KmapRanges.RunInRange | src/src/paging.c:267-290 | a run of unused pages lies inside one free range |
| KmapRanges.Allocator.AllocRange | src/src/paging.c:292-319 | below 2^16 pages it fails if and only if the window has no run of that many unused pages, from 2^16 on it always fails; otherwise it takes the front of the first long enough range of the first list, in the order of the search, that has one, and exactly that is newly in use |
| KmapRanges.Covering | src/src/paging.c:267-319 | every page of the window lies in a range |
| KmapRanges.Refused | src/src/paging.c:292-310 | an input for which the search gives up although there is room: 2^16 pages of an unused window |
| Kmap.Window.constructor | src/src/paging.c:396-411 | with 1027 pages for tables the window is populated and unused, and no translation has changed; the range allocator and its arrays are new |
| Kmap.WindowNeeds | src/src/paging.c:396-403 | the tables of the window are 1027 |
| Kmap.Window.MapRun | src/src/paging.c:334-345 | page i of the run shows pages[i]; every other translation is as before; the (absent) pool is not touched |
| Kmap.MapsDirectly | src/src/paging.c:204-205 | what pt_map_pages does at HIGHER_BASE makes the direct map |
| Kmap.Window.Map | src/src/paging.c:322-349 | no address for no page, the direct-map address for one, else a range of the window, unused before; byte by byte, the pages appear one after the other from the returned address on, for one page wherever the direct map is in place; the direct map stays; it fails if and only if asked for 2^16 pages or more, or no run of that many pages is unused; it never needs memory for tables |
| Kmap.Window.Unmap | src/src/paging.c:351-381 | addresses outside of the window are left alone; a range loses exactly its translations, is unused again, and its tables stay, so that the invariant holds for the next call; the direct map stays |
| Kmap.AddressBack | src/src/paging.c:229-241 | addr_kmap undoes kmap_addr |
| SlabLayout.SetupLayout | src/src/alloc.c:75-94 | objects of at least the size, aligned, from the start of the pool, metadata at its end, in a pool of the stated order; at least three objects, and not one more would fit |
| SlabLayout.RoomForThree | src/src/alloc.c:78-86 | rounding the page count down still leaves room for three objects of any size |
| SlabLayout.MinReached | src/src/alloc.c:75-94 | a pool has MIN_POOL_OBJS objects if and only if the bytes of that many and of the first metadata are whole pages, or their page count, rounded down, is no power of two |
| SlabLayout.ThreeIsReached | src/src/alloc.c:78-86 | objects of 1017 bytes get a pool of one page with exactly three, so MIN_POOL_OBJS is not reached for every size |
| SlabLayout.Log2 | src/src/alloc.c:31-41 | the least power of two that is at least x, for 0 as well |
| SlabLayout.AlignUpIs | src/src/alloc.c:53-59 | the least multiple of align that is at least the size |
| SlabLayout.AlignDownIs | src/src/alloc.c:61-64 | the largest multiple of align that is at most the size |
| SlabLayout.MetaSizeIs | src/src/alloc.c:66-73 | 48 bytes and a word for each further 64 objects |
| SlabPool.Pool.constructor | src/src/alloc.c:96-133 | all objects clear, all padding bits set, and the free count that of the clear bits |
| SlabPool.FindFirst | src/src/alloc.c:205-220 | the lowest set bit, found by byte and then by bit |
| SlabPool.Pool.FindSlot | src/src/alloc.c:222-235 | a pool whose count is not 0 has a clear bit; the first one is found, so the final assertion cannot fire |
| SlabPool.Pool.Take | src/src/alloc.c:222-243 | exactly the first clear bit is set, the count goes down by one, and the address is that of the object; padding stays set |
| SlabPool.Pool.Give | src/src/alloc.c:245-262 | exactly the object's bit is cleared, the count goes up by one and does not pass the number of objects |
| Slab.ObjectInPool | src/src/alloc.c:315-323 | the object lies below the metadata of its pool, and rounding its address down to the pool size finds the pool |
| Slab.WriteLive | src/src/alloc.c:222-262 | writing one bit changes exactly one object of the cache between free and in use |
| Slab.FiledTakePartial | src/src/alloc.c:268-281 | taking an object keeps each pool on the list that its count calls for |
| Slab.FiledTakeFree | src/src/alloc.c:283-312 | a free or a new pool with three objects or more is rightly filed as partial once an object is taken |
| Slab.FiledGive | src/src/alloc.c:325-333 | giving an object back keeps each pool on the list that its count calls for |
| Slab.Cache.constructor | src/src/alloc.c:149-161 | a cache with no pool and no object in use |
| Slab.Cache.Create | src/src/alloc.c:112-133 | a new pool in a new naturally aligned block, none of its objects in use, or no change, if and only if no zone has a block |
| Slab.Cache.Alloc | src/src/alloc.c:264-313 | the first free object of the first partial pool, or else of the first free pool, or else of a new pool, which is at its start; it was not in use and now is, no other object changed; 0 if and only if every pool is busy and no zone has a block; a pool is on free_pools iff all its objects are free, on partial_pools iff some are, on busy_pools iff none is |
| Slab.Cache.NoneLeft | src/src/alloc.c:264-313 | free_pools and partial_pools are empty if and only if no pool has a free object, so the order of the three cases never misses one |
| Slab.Cache.Free | src/src/alloc.c:315-336 | exactly that object is no longer in use; its pool is found by rounding down and filed rightly |
| Slab.Cache.Destroy | src/src/alloc.c:135-147 | a pool with no object in use gives back its block; no object in use changes |
| Slab.Cache.Shrink | src/src/alloc.c:163-184 | exactly the blocks of the free pools go back; no object in use changes |
| Slab.Cache.ObjectsDisjoint | src/src/alloc.c:264-336 | objects in use of one cache do not overlap, and lie below their pools' metadata |
| Slab.CachesDisjoint | src/src/alloc.c:390-433 | objects of two caches whose pools are in different blocks do not overlap either |
| Slab.MetadataUntouched | src/src/alloc.c:112-133 | an object in use touches no pool's metadata, of its own cache or another |
| SlabPool.TakeThenGive | src/src/alloc.c:222-262 | taking an object and giving it back restores the bitmask and the free count |
| Slab.Cache.AllocThenFree | src/src/alloc.c:264-336 | an allocation followed by its free leaves every pool that was there with its old bitmask and free count, and the same objects in use |
| Slab.PageUsers.SetCache | src/src/alloc.c:122-125 | exactly the pages of the block say that they are the cache's |
| Slab.PageUsers.ClearCache | src/src/alloc.c:141-144 | exactly the pages of the block say nothing any more |
| Heap.Lookup | src/src/alloc.c:350-356 | the first size class that is large enough, or none if none is |
| Heap.OrderFor | src/src/alloc.c:358-366 | the least order whose block is large enough, or one past the largest |
| Heap.KernelHeap.constructor | src/src/alloc.c:368-378 | a cache for each of the 34 sizes, with objects of exactly that size in pools of the order they call for; no block of pages is taken and nothing allocated; caches and page users are new, and there is no pool yet |
| Heap.KernelHeap.AllocFrom | src/src/alloc.c:390-394 | an allocation from one cache does not disturb the other caches or the large blocks, although they share the page allocator; the pools that join are new |
| Heap.KernelHeap.AllocLarge | src/src/alloc.c:396-404 | a whole block of pages, marked with its order, that was not in use; or no change, if and only if no zone has one |
| Heap.KernelHeap.Alloc | src/src/alloc.c:390-405 | 0 and no change, if and only if all pools of the size class are busy and no zone has a block for another, or the size is beyond the classes and no zone has a block of the least order that holds it; else exactly the bytes of the size class or of the least block, less than twice the size beyond the least class, at a multiple of 64 where nothing was allocated, and nothing else changes; the blocks in use that are not the heap's stay the same, so no block is lost; the pools that join are new, so that calls can follow one another |
| Heap.LengthBounds | src/src/alloc.c:340-366 | what a request takes is at least its size and 64 bytes, and less than twice its size if it is more than 64 |
| Heap.KernelHeap.InUseAligned | src/src/alloc.c:368-378 | whatever is allocated, at any time, starts at a multiple of 64 bytes |
| Heap.KernelHeap.UserAt | src/src/alloc.c:420-428 | the fields of the page of an allocated address tell the cache that it is in use in, or the order of the large block that starts there |
| Heap.KernelHeap.Free | src/src/alloc.c:415-433 | exactly what was allocated at the address is not allocated any more; a block of pages goes back and its first page loses its mark: the blocks in use that are not the heap's stay the same, and only pages of pools and first pages of large blocks have a user |
| Heap.KernelHeap.AllocThenFree | src/src/alloc.c:390-433 | mem_alloc followed by mem_free leaves what is allocated as it was, from caches and whole pages alike |
| Heap.KernelHeap.NoOverlap | src/src/alloc.c:390-433 | any two allocations, from caches of any sizes or of whole pages, are disjoint in bytes |
| Heap.KernelHeap.MetadataKept | src/src/alloc.c:390-433 | no allocation, from a cache of any size or of whole pages, touches the metadata of any pool |
| Lists.WithoutAt | src/src/list.c:21-32 | taking out the element at a place of a list without repetition leaves what is before and after that place: the sequence operation by which the other modules describe list_del is the one that CircularList.Del realises |
| CircularList.Init | src/src/list.c:3-4 | a ring of its head alone |
| CircularList.RingTurned | src/src/list.c:6-30 | a ring seen from another of its nodes is a ring |
| CircularList.Insert | src/src/list.c:6-13 | the node is between the two neighbours |
| CircularList.Add | src/src/list.c:15-16 | the node is the first of the list |
| CircularList.AddTail | src/src/list.c:18-19 | the node is the last of the list |
| CircularList.Del | src/src/list.c:21-32 | the ring of the other nodes remains, the node's links are null, and those nodes are the list without the node |
| CircularList.Splice | src/src/list.c:34-52 | the nodes of the one list, in order, precede those of the other, and the one list is empty |
| CircularList.Empty | src/src/list.c:54-55 | whether the head is alone |
| CircularList.First | src/src/list.c:57-58 | the first node, or the head of an empty list |
| CircularList.Size | src/src/list.c:60-68 | the number of nodes besides the head |
| Stdlib.Ulltoa | src/src/stdlib.c:57-80 | the digits, the most significant first, and a terminator; the rest of the buffer is untouched |
| Stdlib.SmallLetters | src/src/stdlib.c:59 | only digits and small letters are printed |
| Stdlib.Emit | src/src/stdlib.c:64-69 | the digits, the least significant first |
| Stdlib.Turn | src/src/stdlib.c:73-78 | the characters are reversed in place |
| Stdlib.NoLeadingZero | src/src/stdlib.c:57-80 | no leading zero but for 0 itself |
| Stdlib.Strtoul | src/src/stdlib.c:5-55 | the value and the end position of the parse, for every string of bytes without terminator inside and every int base, 1, negative ones and those above 36 included |
| Stdlib.Guard | src/src/stdlib.c:40-43 | the division test fires exactly when the next digit would pass the largest unsigned long |
| Stdlib.ScanNumber | src/src/stdlib.c:36-47 | digits of the base yield their number and all are consumed, or the largest unsigned long if and only if the number is larger |
| Stdlib.DigitsNumber | src/src/stdlib.c:57-80 | the printed digits stand for the value |
| Stdlib.RoundTrip | src/src/stdlib.c:5-80 | parsing what was printed gives the value back, for every value and every base from 2 to 36; all is consumed, except that for "0" in base 8 endptr returns to the start |
| Stdlib.DigitValueIs | src/src/stdlib.c:36-37 | the values of digits and of letters of both cases; any other byte counts as a signed char minus 55 |
| Stdlib.ScanThrough | src/src/stdlib.c:35-46 | digits of any value, below the base or not: the loop goes on with their exact number, or stops with the largest unsigned long at the first of them with which the number is larger |
| Stdlib.NegativeDigit | src/src/stdlib.c:35-46 | a character whose value is negative stops the loop with the largest unsigned long there or at the next character, or wraps the value around at the end of the string |
| Stdlib.BlanksSkipped | src/src/stdlib.c:11-12 | exactly the blanks, tabs, newlines, vertical tabs, form feeds and carriage returns in front are skipped |
| Stdlib.ParsedPrinted | src/src/stdlib.c:5-55 | any blanks, a sign or none, and the digits of any number in any base from 2 to 36, in small or capital letters: the value, saturated, and negated behind a minus sign (1 if it was too large); all is consumed if it was not too large, but for "0" in base 8 |
| Stdlib.ParsedDecimal | src/src/stdlib.c:19-27 | in base 0, behind blanks and sign, digits without a leading 0 are decimal |
| Stdlib.ParsedOctal | src/src/stdlib.c:19-30 | in bases 0 and 8, behind blanks and sign, digits after a leading 0 are octal |
| Stdlib.ParsedHex | src/src/stdlib.c:19-33 | in base 0 after 0x or 0X, and in base 16 after 0x, digits are hexadecimal |
| Stdlib.PrefixNumber | src/src/stdlib.c:35-46 | the loop as it is meant, which stops at the first character that is no digit of the base, yields the number of the digits in front, or the largest unsigned long if and only if that number is larger |
| Stdlib.StopsIff | src/src/stdlib.c:35-46 | the loop does not test that a digit is below the base: it does as meant if and only if only digits of the base are left, or the digits in front of the first other character reach the largest unsigned long |
| Stdlib.MeantIff | src/src/stdlib.c:5-55 | strtoul gives what it would with the loop as it is meant if and only if only digits of the base follow the spaces, sign and prefix, or those in front of the first other character reach the largest unsigned long |
| Stdlib.NineIsTaken | src/src/stdlib.c:35-46 | an input for which it does not: "9" in base 8 is 9, and consumed |
| Stdlib.HexPrefix | src/src/stdlib.c:19-33 | for 0 and the letter x or X before the hexadecimal digits of a value, base 16 gives the value if and only if the letter is x or the value is the largest; base 0 gives it for both letters |
| Stdlib.LetterWitness | src/src/stdlib.c:31-32 | an input that shows it: in base 16 "0X1" is 529 and "0x1" is 1 |
| Threads.StepKeeps | src/src/thread.c:118-227 | every step keeps a well-formed ring of exactly the threads that are not dead |
| Threads.RunKeeps | src/src/thread.c:118-227 | so does every run, and the dead stay dead |
| Threads.Fair | src/src/thread.c:166-227 | between two consecutive turns of a thread every other thread that is in the ring all that time has exactly one turn, whatever threads are created or end meanwhile |
| Threads.Lap | src/src/thread.c:166-227 | until a thread has its turn, those between the head and it have one turn each and those behind it none |
| Threads.SwitchIs | src/src/thread.c:166-227 | with two threads or more the next one is at the head; a running old head is last, a dying one is dead and out; all others keep their order and state |
| Threads.MarkThenSwitch | src/src/thread.c:136-154 | thread_kill and the switch it calls leave the thread dead and out of the ring, and all others as they were |
| Threads.KilledDies | src/src/thread.c:136-227 | in every run, a thread that calls thread_kill is dead and out of the ring for good once a switch has followed |
| Threads.SparedRuns | src/src/thread.c:136-227 | in every run, a running thread that does not call thread_kill goes on running and stays in the ring |
| Threads.DeadIsOut | src/src/thread.c:156-164 | a dead thread is not in the ring, let alone at its head |
| Threads.Scheduler.constructor | src/src/thread.c:49-64 | the kernel's thread alone |
| Threads.Scheduler.Add | src/src/thread.c:23-34 | following the links from threads_head leads around the old ring and then to the new thread: the first thread is linked to itself, a later one lies between the last thread and the head, and the head stays |
| Threads.Scheduler.NewThread | src/src/thread.c:36-47 | a new running thread with a node of its own, linked in as the last of the ring |
| Threads.Scheduler.Spawn | src/src/thread.c:84-91 | the abstract step of creation; the head stays, the links are a ring again, and only the new thread and its node join those in memory |
| Threads.Scheduler.MarkDying | src/src/thread.c:136-145 | the running thread is dying, no other thread changes its state, and the ring stays |
| Threads.Scheduler.Unlink | src/src/thread.c:129-133 | the links of the others form the ring without the thread, in order, and the thread's own links are null |
| Threads.Scheduler.Delete | src/src/thread.c:118-134 | the thread leaves the ring and the head moves on if it was the head; for the last thread only all_proc_ended is set; the links are a ring from the head on |
| Threads.Scheduler.SwitchThreads | src/src/thread.c:166-227 | moving the head along the links, and unlinking a dying thread, does the abstract step: the next thread is the head, a dying one is out of the ring and dead; neither DEAD assertion can fire and all_proc_ended stays as it is |
| Threads.Scheduler.Perform | src/src/thread.c:84-227 | any sequence of creations, markings and switches that the code performs on its links is a legal run of the abstract steps, one event for each call, so what holds of all runs (Fair, RunKeeps) holds of the code; all_proc_ended is never set |
| Threads.Scheduler.Reap | src/src/thread.c:156-164 | the thread that is given back is not the head, and no link of the ring leads to it; only it and its node leave memory |

## Left out

Parts of the repository:

- Serial port, interrupt controller, timer, interrupt table, video memory, bootstrap and assembly: hardware access without a deep
  property.
- `src/src/print.c`, `src/src/ctype.c`, `src/src/string.c`, dumps and `src/src/main.c`: easy members or test drivers. The few
  character classes that `strtoul` needs are given for bytes, with `char` signed.
- `mem_realloc`, `mem_alloc_shrink`, `mem_cache_release`, `balloc_alloc`, `balloc_free`, `balloc_memory`, `page_addr`, `addr_page`,
  the signed printing functions: they would only add easy members.
- `paging_setup`: only that its call of `pt_map_pages` at `HIGHER_BASE` makes the direct map (`Kmap.MapsDirectly`).
- `__pt_count_pages` (`src/src/paging.c:48-83`): unused, and it does not count the tables of an unaligned tail.
- `write_cr3`, TLB flushes and the raw casts between addresses and pointers; the memory of tables is a map from page address to
  entries, pages are numbers.
- Stacks, context switching and pre-emption inside `thread_create` and `thread_kill`. Creating, marking and switching are atomic
  steps, and the kernel's thread does not end.
- Spinlocks: each locked operation is one step. The wait loop of `thread_wait` is not modelled, only what follows it.
- The byte layout of the boot loader's memory map: a sequence of address, length and type. Clocks, output and boot parameters do not
  occur.

How the model differs from the code's form:

- The colour bit of a red-black node is a field of its own, not the low bit of `parent`; the intervals of `balloc` nodes are kept in
  a map keyed by the node instead of inside the structure that embeds it.
- What a pool finds at its metadata address is a map from addresses to pools; what a page is used for is a map from pages to users,
  where a page without a user stands for a clear flag with a null pointer. Addresses are physical: the constant that `va` adds is
  left out.
- Shifts, masks and exclusive or are written as arithmetic on powers of two; bitmap words are sequences of 64 booleans.
- Free lists of pages, ranges and pools are sequences; `CircularList` and `Lists.WithoutAt` show that the pointer operations do what
  the sequence operations say. Reading `next` of an element while it is taken off a list is not modelled there. The ring of threads
  is made of list nodes; the cast from a node to the thread that it is in looks the thread up among those in memory.
- Allocation of zone structures by `balloc_alloc` during `page_alloc_setup` is not modelled: the free intervals are those that
  remain after it.

Contracts that say less than the code, or ask for more:

- BootAllocator.Balloc.Alloc: addresses plus size plus alignment have to stay below 2^64, as the code does not check for overflow;
  and the node pool has to suffice, where the code stops the kernel. Alignments are taken to be powers of two, as the code masks.
- BootAllocator.Balloc.RemoveRange: the node pool has to suffice for the pieces, where the code stops the kernel;
  `BootAllocator.Balloc.ParseMmap` proves that it does at boot.
- SlabLayout.SetupLayout: `(size + align) * MIN_POOL_OBJS` plus the metadata has to be at most 2^63, as the code does not check for
  overflow; the contract shows that the pool size then fits.
- SlabLayout.Log2: the argument has to be at most 2^63, since the code doubles a 64-bit value.
- SlabLayout.AlignUpIs: size plus align has to be at most 2^64, for the same reason.
- Slab.Cache.constructor: the same bound as for the layout; `Heap.KernelHeap.constructor` meets it for all its sizes.
- PageMap.AddressSpace.MapPages: the range has to lie in one 48-bit half, to be unmapped, and its physical end to be at most 2^52;
  when the pool runs empty (where the code stops the kernel) only the invariant is promised.
- PageAllocator.Pages.Free: the block has to be one that is in use, as the code has no check for it.
- BootAllocator.Balloc.ParseMmap: address plus length of each entry has to stay below 2^64, as the code does not check for overflow.
- PageAllocator.Pages.AddZone: the end of the range, and its begin rounded up to a page, have to stay below 2^64, for the same
  reason.
- PageAllocator.Pages.FreeRange: the same bounds. `PageAllocator.BootMemoryFits` derives them from the memory map.
- PageAllocator.Pages.Setup: the same bounds for all ranges.
- Threads.Fair: speaks of the order of turns, not of time.
