# Verified models of an operating system's data structures and allocators

These Dafny files model the parts of a small 32-bit kernel and its userland in which a fast linked structure has to
agree with something simple over every run, and prove that it does, or say exactly when it does not.

* **The userland heap** (`sizeclass`, `binmap`, `ring`, `trie`, `trieops`, `triemem`, `bins`, `binops`, `treesearch`,
  `core`, `coreops`, `heapops`, `alloc`, `heap`, `safety`, `checks`, `writes`): boundary-tagged chunks over one fixed
  segment, 32 small bins, 32 bitwise tries, the designated victim and top, in the configuration of
  `user/include/malloc.h`: 32-bit `size_t`, 8-byte alignment, no mmap, no footers, no locks. `MallocState` keeps one map
  from addresses to contents for each field of a chunk and changes it word by word as the source does. Tries and rings are ghost values;
  what ties them to memory is the invariant `BinsOk`, and what ties chunks to memory is `CoreOk`.
* **The red-black tree** (`rbshape`, `rblinks`, `rbtree`): nodes with parents, an in-order thread and a one-entry search
  cache, proved against a map and against the in-order sequence of nodes.
* **The path-compressed radix tree** (`radixkeys`, `radixtree`, `radixheap`): 64-bit keys of one 4-bit and ten 6-bit
  letters, proved against a map of data and a map of tags.
* **The virtual-range allocator** (`freelist`, `intervals`, `vremap`, `msgmaps`): a free list sorted by descending size,
  proved to be the list of maximal free runs, and what the mapping of messages does with it.
* **Virtual memory** (`regions`, `vmspace`, `pageset`, `pagetable`, `translation`, `spaceruns`, `addressspace`,
  `usercopy`): the tree of regions, the radix page sets behind them, the two-level page tables, and the copies through
  them. Hardware translation follows 32-bit paging, section 4.3 of volume 3A of the Intel 64 and IA-32 Architectures
  Software Developer's Manual.
* **Scheduler, wait queue and mutex** (`runqueue`, `mutexes`, `scheduler`): one atomic section is one step, on one
  processor; every interleaving of `down`, `try_down`, `up` and timer ticks is a list of steps.
* **Message queues over counted kernel objects** (`messages`, `msgqueue`): one step for each system call, over every
  run.
* **Slab caches** (`slab`, `slabcache`) and **fragmented messages** (`fragmsg`).

Code that changes things in place is a class whose methods change the same fields in the same order. Where several
objects work together the class carries a ghost `state`, and each method ends with
`state == Step(old(state), event)`; the lemmas about runs are about `Step`. Allocators are a supply of fresh nodes, or a
flag that tells whether the next allocation succeeds; both outcomes are covered.

## Model

| member | source | states |
|---|---|---|
| SizeClass.TreeIndexBrackets | user/malloc.c:1937-2012 | every large size lies between the least size of its tree bin and the least size of the next, and in the power-of-two range that the bin's trie resolves |
| SizeClass.TreeIndexOrders | user/malloc.c:1937-2000 | a size in a lower tree bin is smaller than every size in a higher one |
| SizeClass.BinRange | user/malloc.c:2000-2012 | the trie range of a bin is exactly the gap between consecutive least sizes; the last bin covers all 32 bits |
| SizeClass.InitialSearchKey | user/malloc.c:2004-2007 | the shifted size is the offset in the bin's range, scaled so that the first distinguishing bit is the sign bit |
| SizeClass.SearchKeyStep | user/malloc.c:2763-2768 | the sign bit of the key picks the half of the range that holds the size, and a shift by one rescales the key to that half |
| BinMap.LeastBitIsolates | user/malloc.c:2029-2030 | `x & -x` is the lowest set bit of x |
| BinMap.SameOrLeftBits | user/malloc.c:2035-2036 | `x or -x` has exactly the bits from the lowest set bit of x upwards |
| BinMap.LeftBitsAbove | user/malloc.c:2032-2033 | masking the map with the left bits of bin i keeps exactly the marked bins above i |
| BinMap.NextMarked | user/malloc.c:3560-3568 | the bin that tmalloc_large turns to is marked, lies above i, and no bin between is marked |
| BinMap.FirstMarked | user/malloc.c:3605-3612 | the bin that tmalloc_small starts from is the least marked one |
| BinMap.SmallSearch | user/malloc.c:3680-3706 | the shifted map tells whether the request's bin or the next is marked, and otherwise leads to the least marked small bin |
| TrieOps.HeightBound | user/malloc.c:1885-1936 | a trie over b bits of sizes that are multiples of 8 is at most b - 2 nodes high |
| TrieOps.InsertOk | user/malloc.c:2748-2797 | inserting a chunk keeps the trie and its prefix ranges, and adds exactly this chunk and this size |
| TrieOps.RemoveHereOk | user/malloc.c:2799-2885 | removing a chunk, by its ring or by a descendant leaf that takes its place, keeps every prefix range and takes away exactly this chunk |
| TrieOps.LeftmostOk | user/malloc.c:3573-3582 | below a node, every size not in the leftmost subtree exceeds all sizes in it, so the leftmost descent misses no minimum |
| HeapSafety.BinHeight | user/malloc.c:2763-2797 | no search of a tree bin visits more nodes than the bin's distinguishing bits less two |
| HeapSafety.WordReadsBack | user/malloc.c:1343-1365 | size and the two in-use bits are read back from the head word they were written into |
| Heap.MallocState.constructor | user/malloc.c:2996-3018 | a fresh heap is valid, has no live chunk and no binned chunk, and top is the whole segment |
| Heap.MallocState.InsertSmallChunk | user/malloc.c:2670-2686 | keeps all bins and adds exactly this chunk, although the header of an unmarked bin may hold stale links |
| Heap.MallocState.UnlinkSmallChunk | user/malloc.c:2689-2712 | keeps all bins and removes exactly this chunk, clearing the mark when the bin becomes empty |
| Heap.MallocState.UnlinkFirstSmallChunk | user/malloc.c:2715-2730 | the same for the first chunk of a bin |
| Heap.MallocState.InsertLargeChunk | user/malloc.c:2748-2797 | keeps all tries, rings, parents and marks, adds exactly this chunk, and takes no more steps than the bin has distinguishing bits less two |
| Heap.MallocState.FindPlace | user/malloc.c:2763-2768 | the descent ends at the node of the same size or at the empty slot where the size belongs, in fewer steps than the trie is high |
| Heap.MallocState.UnlinkLargeChunk | user/malloc.c:2816-2885 | keeps all tries, rings, parents and marks and removes exactly this chunk, in each of the cases ring, leaf and inner node |
| Heap.MallocState.InsertChunk | user/malloc.c:2889-2891 | a chunk in hand becomes binned and the whole heap invariant holds with it out of hand |
| Heap.MallocState.UnlinkChunk | user/malloc.c:2893-2895 | a binned chunk comes into hand and nothing else leaves the bins |
| Heap.MallocState.ReplaceDv | user/malloc.c:2733-2743 | the chunk in hand becomes the designated victim and the old one, if any, is binned |
| Heap.MallocState.SetInuse | user/malloc.c:2153-2156 | the chunk's size and cinuse are set, its own pinuse is kept, and the next chunk learns that it is in use |
| TreeSearch.DescendStep | user/malloc.c:3543-3562 | one step towards the wanted size rules out only sizes that cannot beat the remainder found so far or the subtree set aside |
| Heap.MallocState.SearchBin | user/malloc.c:3541-3562 | after the first loop of tmalloc_large the best size is the one found or in the subtree at hand, which then holds no size below the request |
| Heap.MallocState.FindBestFit | user/malloc.c:3534-3582 | the chunk found is of least size among all binned chunks that fit, and none is found only if none fits |
| Heap.MallocState.FindSmallest | user/malloc.c:3605-3625 | tmalloc_small finds the smallest of all tree-binned chunks |
| Heap.MallocState.TmallocLarge | user/malloc.c:3534-3602 | serves the best fit, or gives up exactly when nothing binned fits or the designated victim fits at least as well |
| Heap.MallocState.TmallocSmall | user/malloc.c:3605-3640 | serves the smallest tree chunk of a heap whose small bins have none |
| Alloc.PaddedRequest | user/malloc.c:1326-1336 | the padded size is a multiple of 8 with room for the head word and at most 11 bytes over the request; too large a request becomes the largest word |
| Heap.MallocState.DlMalloc | user/malloc.c:3644-3778 | keeps the heap invariant; serves the chunk that the commented policy names, cut when the rest is a chunk, and all other live chunks stay; returns 0 exactly when no free chunk and no room in top fits |
| HeapSafety.Served | user/malloc.c:3644-3778 | the chunk served was not live, is 8-aligned, inside the segment, less than 16 bytes over the padded request, and touches no live chunk |
| Heap.MallocState.DisposeChunk | user/malloc.c:3463-3529 | keeps the heap invariant; exactly this chunk is no longer live; it and its free neighbours become one free chunk or part of top; that chunk is the designated victim if the old one was among them and is binned otherwise, and top, the designated victim and the bins are as they were in every other respect |
| Heap.MallocState.DlFree | user/malloc.c:3782-3889 | the same; freeing null leaves the heap as it is |
| Heap.MallocState.TryReallocChunk | user/malloc.c:3911-3988 | succeeds exactly if the chunk is large enough or top, the designated victim or a free neighbour makes it so; then only its size changes, and the bytes taken or given back come from or go to top, the designated victim or the bins as Fitted says; otherwise nothing changes |
| HeapSafety.TilesExactly | user/malloc.c:2529-2534 | every address below top lies in exactly one chunk, and the walk from chunk to chunk reaches it |
| HeapSafety.NoFreeNeighbours | user/malloc.c:1221-1258 | both neighbours of a free chunk are in use and it does not border top |
| HeapSafety.LiveApart | user/malloc.c:1163-1221 | the bytes a caller may use, which include the foot of the next chunk, belong to one live chunk and to no word the heap relies on |
| HeapWrites.PayloadWrite | user/malloc.c:1163-1221 | whatever the holder of a live chunk writes into its bytes, up to and including the foot of the next chunk, the whole heap invariant holds, the live chunks and their sizes are the same, and the same chunks are free |
| HeapChecks.StatePasses | user/malloc.c:2319-2581 | a heap between operations satisfies every assertion that do_check_malloc_state makes of bins, tries, rings, parents, dv, top and each chunk in turn, except those on mmapped chunks and on the footprint |
| HeapChecks.NodesChecked | user/malloc.c:2401-2449 | each chunk of a trie has the links that do_check_tree demands of its ring, its parent and its children, and of each ring exactly one chunk has a parent |
| HeapChecks.BinFind | user/malloc.c:2487-2520 | a chunk, or top, is found in the bin that its size selects exactly if it is binned |
| RbShape.PlugInorder | common/rbtree.c:160-232 | the in-order sequence of a tree is that of the subtree at hand between what its context holds before and after it |
| RbShape.RepairOk | common/rbtree.c:264-419 | the five insertion cases end in a red-black tree with the same nodes in the same order |
| RbShape.TurnedOk | common/rbtree.c:368-419 | cases 4 and 5 restore the colours locally, at the same black height and with the same order |
| RbShape.HeightLog | common/rbtree.c:212-232 | a red-black tree is at most twice the base-2 logarithm of its size plus one high |
| RbTrees.RbTree.NodeRotateLeft | common/rbtree.c:308-335 | memory holds the tree rotated at this node, and the order of nodes is kept |
| RbTrees.RbTree.NodeRotateRight | common/rbtree.c:338-365 | the mirror image of it |
| RbTrees.RbTree.InsertCase1 | common/rbtree.c:264-305 | from a red node over a repaired context, the mutually recursive cases end with memory holding the repaired tree |
| RbTrees.RbTree.InsertCase3 | common/rbtree.c:286-305 | a red uncle is recoloured and the repair goes on at the grandparent |
| RbTrees.RbTree.InsertCase4 | common/rbtree.c:368-397 | an inner node is rotated outwards before the last case |
| RbTrees.RbTree.InsertCase5 | common/rbtree.c:401-419 | the grandparent is rotated away and the colours are exchanged |
| RbTrees.RbTree.InsertNode | common/rbtree.c:160-209 | finds an equal key, whose data alone changes, or hangs the node where search order wants it and threads it between its neighbours |
| RbTrees.RbTree.Insert | common/rbtree.c:422-448 | keeps order, colours, black heights, parents, thread and cache; the contents become the old map updated at the key; the result says whether the key was there |
| RbTrees.RbTree.NodeSearch | common/rbtree.c:212-232 | the descent ends at a neighbour of the key in key order, in no more steps than the tree is high |
| RbTrees.RbTree.Search | common/rbtree.c:235-261 | finds the exact key, the greatest key below or the least key above, from the cache or not, in at most 2 log2(n + 1) steps |
| RbTrees.RbTree.ClosestKey | common/rbtree.c:235-261 | in terms of the map: what each search mode finds is the nearest key on its side, and nothing is found only if there is none |
| RbTrees.ClosestUnique | common/rbtree.c:235-261 | at most one node is the answer to a search, so cached and fresh answers cannot differ |
| RbTrees.RbTree.OrderIsContents | common/rbtree.c:160-209 | the nodes in order, the map and the set of nodes are the same thing |
| RbTrees.RbTree.ThreadIsClosest | common/rbtree.c:182-205 | prev and next of a node are the nearest smaller and the nearest greater key |
| RbTrees.RbTree.Clear | common/rbtree.c:451-467 | every node is released once, in key order; the cache keeps a stale node that no search uses |
| RadixKeys.KeyEqualSize | common/radix_tree.c:82-91 | counts the leading letters that two keys share |
| RadixKeys.OrderedByLetter | common/radix_tree.c:46-73 | keys are ordered as the first letter in which they differ |
| RadixKeys.RebuiltKey | common/radix_tree.c:331-359 | the key that a walk rebuilds has the node's ten leading letters and the slot number as its last |
| RadixKeys.OrIsAdd | common/radix_tree.c:331-359 | or-ing the slot number into the rebuilt key adds it |
| RadixTrees.InsertRefines | common/radix_tree.c:251-304 | insertion into any tree is map update: the key gets the data, every other key keeps its data, and every tag stays, across any break of a node |
| RadixTrees.HalfInsertKeeps | common/radix_tree.c:212-304 | an insertion that fails after it has broken a node leaves data and tags as they were |
| RadixTrees.WalkIsMap | common/radix_tree.c:331-365 | a walk calls back once for each key with data, in ascending order, with its data and tag |
| RadixTrees.FirstRootRefines | common/radix_tree.c:313-328 | the first radix_tree_set makes the map with this one key exactly if the key's low six bits are zero or the data is null |
| RadixHeap.RadixTree.constructor | common/radix_tree.c:22-32 | an empty tree has no nodes |
| RadixHeap.RadixTree.Lookup | common/radix_tree.c:94-170 | finds the slot and the tag of a key, and reports none only if both are zero |
| RadixHeap.RadixTree.WriteTag | common/radix_tree.c:173-183 | sets the tag of a key that has a slot and changes nothing else; otherwise fails and changes nothing |
| RadixHeap.RadixTree.NodeBreak | common/radix_tree.c:212-248 | the node keeps the shared letters and a fresh copy holds the rest below it; without memory nothing changes |
| RadixHeap.RadixTree.NodeInsert | common/radix_tree.c:251-304 | memory holds the inserted tree exactly if the allocator supplies the nodes it needs, and otherwise the old or the half-inserted one; the supply goes down by the nodes gained |
| RadixHeap.NodesForSlot | common/radix_tree.c:251-328 | setting a key allocates no node exactly if the key has a slot, one in an empty tree, and never more than two |
| RadixHeap.RadixTree.Set | common/radix_tree.c:313-328 | on a non-empty tree, or with a key whose low six bits are zero, map update with all tags kept; on failure the map is unchanged; what the supply loses the tree gains, and it fails exactly if the supply runs out |
| RadixHeap.RadixTree.TreeWalk | common/radix_tree.c:331-365 | the calls are ascending and true to the map; all are made unless one fails, and then every smaller key has been visited and nothing after |
| FreeLists.FreeList.Insert | common/list.c:262-283 | the element goes before the first whose index is not smaller, and the rest stays in order |
| FreeLists.FreeList.Remove | common/list.c:83-102 | exactly this element leaves the list, the links show the rest in order, and the element keeps its own links |
| Intervals.IntervalsAreMaximalRuns | microkernel/vremap.c:253-324 | the intervals of a canonical list are exactly the maximal runs of its free set |
| Intervals.SameFreeSame | microkernel/vremap.c:253-324 | the list depends on the free set only, not on the order of releases |
| Intervals.HeadDecides | microkernel/vremap.c:227-236 | a free run of n pages exists exactly if the head of the list is that long |
| Intervals.AtMostTwo | microkernel/vremap.c:253-294 | at most two free intervals border a range |
| Intervals.AbsorbedOk | microkernel/vremap.c:253-294 | a range disjoint from what is free absorbs its borders one after the other, as many as there are, meets no double free, and leaves the rest canonical and apart from it |
| Intervals.ReleasedOk | microkernel/vremap.c:298-324 | the list after its release is canonical again and has exactly this range more |
| Intervals.EnsuredOk | microkernel/vremap.c:327-367 | the pages that an ensure returns were free, and exactly they are not any more; the list stays canonical |
| Vremap.VremapData.constructor | microkernel/vremap.c:141-160 | a new allocator is one free interval, with nothing live and nothing busy, and valid exactly if the links of the chunk it is given are null |
| Vremap.RecycledHead | microkernel/vremap.c:121-160 | the head of a longer list, removed and given to a new allocator, makes an invalid one whose list goes on into the other |
| Vremap.VremapData.Find | microkernel/vremap.c:227-236 | returns the head if it is large enough, and nothing otherwise |
| Vremap.VremapData.TryMerge | microkernel/vremap.c:253-294 | on any list and any range that is no double free: the recursion ends, and the list is the one that absorbing border after border gives |
| Vremap.VremapData.Release | microkernel/vremap.c:298-324 | on any range: fails exactly if nothing borders it and no chunk can be made. Any part of a live range becomes free and nothing else; the list stays canonical, at most two neighbours merge, busy pages go down by its length |
| Vremap.VremapData.Ensure | microkernel/vremap.c:327-367 | on any list, the head's pages are taken if they are enough; on a valid allocator it fails exactly if no free run of that length exists, and otherwise a free run becomes live and busy and nothing else changes |
| Vremap.VremapData.LiveApart | microkernel/vremap.c:298-367 | every live range of a valid allocator is inside the region and disjoint from every free interval |
| MsgMaps.UnmapM | microkernel/msg.c:189-200 | refuses exactly the mapped messages; any other leaves the allocator valid exactly if no free chunk begins where the body's pages from address 0 end and no chunk can be made, and otherwise puts a chunk at address 0 |
| MsgMaps.UnmapOfUnmapped | microkernel/msg.c:189-200 | a message that was never mapped, unmapped from a fresh queue: the free chunk begins at 0, and 0 is handed out next |
| MsgMaps.UnmapFreesMapped | microkernel/msg.c:189-200 | an unmapped message that is unmapped makes a page free that another message is mapped at |
| MsgMaps.RemapFlags | microkernel/msg.c:72-94 | maps a body at a free run, which becomes live, or fails and has given back what it took |
| MsgMaps.Map | microkernel/msg.c:213-238 | tells when a mapping is reported as failed though its range stays taken, and leaves the allocator valid unless the undoing of an empty mapping releases what was never taken |
| MsgMaps.ReleaseRange | microkernel/msg.c:276-277 | the release of a message gives no range back, mapped or not |
| Regions.NullMeansFree | microkernel/vm.c:262-282 | wherever resizes have moved regions, a range that meets one is never reported free |
| Regions.FoundIsInTheWay | microkernel/vm.c:262-282 | what the search reports is in the way for every range exactly if each region covers the key of its node |
| Regions.FindRegionExact | microkernel/vm.c:391-405 | the search for an address is right for every address exactly if no region begins before its key or reaches the next key |
| Regions.SearchesExact | microkernel/vm.c:262-405 | with regions at their keys, both searches find the region and report none exactly if there is none |
| Regions.AddKeeps | microkernel/vm.c:329-353 | an accepted region never takes over a node, and the regions stay aligned and disjoint |
| Regions.ResizeKeepsIff | microkernel/vm.c:166-216 | an accepted resize keeps the regions in order exactly if its size does not wrap to 0, or asks for the whole space with no region after it |
| Regions.RunKeeps | microkernel/vm.c:166-353 | over every run of additions and resizes that do not wrap, regions are disjoint; if starts are kept, they stay at their keys |
| Regions.MovedRegionMissed | microkernel/vm.c:391-405 | a run after which an address inside a region is reported to be in none |
| Regions.ResizeToNothing | microkernel/vm.c:166-216 | an accepted resize that leaves a region ending before it begins |
| Regions.MovedRegionInTheWay | microkernel/vm.c:262-282 | a run after which a range that meets no region is reported taken |
| VmSpaces.VmSpace.FindFirstInRange | microkernel/vm.c:262-282 | on the tree, the search returns the region that the model of searches names |
| VmSpaces.VmSpace.FindRegion | microkernel/vm.c:391-405 | the same for the search by address |
| VmSpaces.VmSpace.AddRegion | microkernel/vm.c:329-353 | refuses exactly a taken range or a failed allocation; otherwise the space has one more region and every other keeps its node |
| VmSpaces.VmSpace.Resize | microkernel/vm.c:166-216 | refuses exactly a rollover or a neighbour in the way, and stays valid exactly under the condition of ResizeKeepsIff |
| PageSets.PageSet.Put | microkernel/vm.c:996-1010 | the page has the frame and is present, and every other page is as it was; succeeds with two nodes in supply, with one exactly for an empty set or a page that needs no second, and with none exactly for a page that has a slot; on failure no page changes |
| PageSets.PageSet.Translate | microkernel/vm.c:1013-1038 | gives the frame of a present page and nothing for any other |
| PageSets.PageSet.Remove | microkernel/vm.c:1063-1080 | on a set that has had a page: the page is no longer present, its frame stays in its slot, and the count goes down if it was present; succeeds exactly if there is a slot for the page |
| PageSets.PageSet.Walk | microkernel/vm.c:1041-1060 | the calls are the pages with a frame, in ascending order, with frame and tag |
| PageSets.PageSet.FrameMeansRoot | microkernel/vm.c:1063-1080 | a set in which some page has a frame can be asked to remove one |
| PageSets.UpdateRange | microkernel/vm.c:608-621 | the table entries of the region become those of the range map up to the page where memory ran out, and no other entry changes; complete exactly if there are pages enough for the missing tables |
| PageSets.UpdateSet | microkernel/vm.c:597-621 | the same for a page set, whose pages without a frame are skipped and take no table |
| PageTables.WalkByEntry | arch/x86/paging.c:31-41 | the two-level walk of the hardware depends on the one entry of the page, and faults exactly if it is not present |
| PageTables.PageDirectory.PreparePageTable | arch/x86/paging.c:55-71 | a missing table is added empty, so no entry changes; fails exactly if no page is left for it |
| PageTables.PageDirectory.MapRange | arch/x86/paging.c:74-103 | entries of the range get consecutive frames and the flags, all others stay; succeeds exactly if the directory slots that its pages fall in, less those with a table, are no more than the pages in supply; on failure the pages before the failing one are mapped |
| Translation.X86Flags | arch/x86/arch.c:276-304 | present, writable and user follow the kernel's present, writable and user flags |
| Translation.X86FlagBits | arch/x86/arch.c:286-304 | accessed, dirty and global follow the kernel's accessed, dirty and kernel flags, and no other bit is set |
| Translation.UpdateAgreesIff | microkernel/vm.c:142-163 | a complete update makes hardware and software agree on a page exactly if the walk reaches it with a frame of its own, or they agreed before |
| Translation.WholeSpaceUnmapped | microkernel/vm.c:608-621 | a range map of the whole address space maps no page |
| Translation.NullFrameUnmapped | microkernel/vm.c:597-605 | a present page with the null frame is skipped by the update |
| SpaceRuns.StepKeeps | microkernel/vm.c:142-1080 | adding, updating, growing, putting and removing each keep regions in order and the tables equal to what the regions say wherever no update is pending |
| SpaceRuns.HardwareIsSoftware | microkernel/vm.c:142-163 | after any run on a new space, the hardware walk and the software translation agree on every address of every region that is up to date, and addresses outside all regions fault |
| SpaceRuns.GrowKeeps | microkernel/vm.c:166-216 | a region that grows keeps all this, and counts as not up to date until it is updated |
| SpaceRuns.AddedAgreesIff | microkernel/vm.c:329-353 | a page of a region just added agrees with software exactly if the update got past it or software has no frame for it |
| SpaceRuns.AddedUnmapped | microkernel/vm.c:329-353 | a region of one page that is added, and not mapped, when no page is left for its table |
| SpaceRuns.PhysIsWalk | microkernel/vm.c:408-420 | in a region that is up to date virt2phys gives the address that the hardware walk gives, and 0 where it faults |
| AddressSpaces.AddressSpace.constructor | microkernel/vm.c:219-236 | a new space is in the initial state |
| AddressSpaces.AddressSpace.AddRegion | microkernel/vm.c:329-353 | tree, page sets and page tables together make the step of an addition; the result is that of the tree alone, and the region is up to date exactly if there are pages enough for the tables it misses |
| AddressSpaces.AddressSpace.Update | microkernel/vm.c:608-621 | tree, page sets and page tables together make the step of an update; success, completeness and pages enough for the missing tables are the same |
| AddressSpaces.AddressSpace.Put | microkernel/vm.c:996-1010 | a page put through a region makes the step of a put, or nothing; it fails exactly if the page set's allocator runs out, and never for a page that has had a frame |
| AddressSpaces.AddressSpace.Remove | microkernel/vm.c:1063-1080 | a page removed through a region makes the step of a removal, and the result tells whether the page had a slot |
| AddressSpaces.AddressSpace.Grow | microkernel/vm.c:166-216 | a resize to the same start and more pages makes the step of a growth, or nothing |
| AddressSpaces.AddressSpace.TranslatePage | microkernel/vm.c:142-163 | gives what software has for a page of the region |
| AddressSpaces.AddressSpace.VirtToPhys | microkernel/vm.c:408-420 | through the region tree and the page set, gives the physical address that the state has for any address, or 0 |
| AddressSpaces.AddressSpace.WalkTranslates | microkernel/vm.c:142-163 | in every valid space the page tables in memory translate each address as the regions do |
| UserCopies.CopyToVirt | microkernel/vm.c:440-472 | byte k goes to where virt2phys of the space puts virt + k, for each k below the result, nothing else changes, and the result is the size or ends at the first page without a frame |
| UserCopies.CopyToPhys | microkernel/vm.c:542-572 | byte k comes from where virt2phys of the space puts virt + k, with the same result |
| UserCopies.RoundTripIff | microkernel/vm.c:440-572 | reading back gives every buffer of this length exactly if no two of its bytes share a physical address |
| UserCopies.DistinctFrames | microkernel/vm.c:440-572 | which is so if distinct pages of the range have distinct frames |
| UserCopies.StoredElsewhere | microkernel/vm.c:440-472 | memory that is the translation of no byte of the range keeps its contents |
| UserCopies.WalkReaches | microkernel/vm.c:440-472 | a byte that a copy reaches, in a region that is up to date, is the one the processor reaches at that address |
| RunQueues.RunQueue.Remove | common/list.c:359-379 | exactly this element leaves the ring, and the head moves on if it was the head |
| RunQueues.RunQueue.InsertHead | common/list.c:382-406 | the element becomes the head |
| RunQueues.RunQueue.InsertTail | common/list.c:409-433 | the element becomes the last |
| RunQueues.RunQueue.ScrollNext | common/list.c:446-452 | the head becomes the last |
| MutexProtocol.StepKeeps | microkernel/mutex.c:40-114 | each of down, try_down, up and a tick keeps the invariant of mutex, wait queue and runqueue |
| MutexProtocol.StepConserves | microkernel/waitqueue.c:119-178 | no step makes a task appear or disappear |
| MutexProtocol.MutualExclusion | microkernel/mutex.c:40-114 | in every interleaving at most one task holds the mutex, runnable tasks are on the runqueue once, waiters are not, and an unlocked mutex with waiters has a woken task about to retry |
| MutexProtocol.FirstWaiterWakes | microkernel/waitqueue.c:54-76 | in every interleaving the tasks woken, followed by those that wait, are those whose downs failed, in the order of the failures; an up wakes the first that waits and puts it last in turn |
| MutexProtocol.OlderFirst | microkernel/waitqueue.c:118-140 | of two tasks the one whose down failed first stands first in the wait queue, in every later state until it is woken |
| MutexProtocol.SleepPassesOver | microkernel/scheds/default/defsched.c:126-229 | when one goes to sleep, the next runnable one runs exactly if it is the only other; otherwise it is passed over and becomes the last |
| Schedulers.Kernel.constructor | microkernel/mutex.c:31-37 | runnable tasks and an unlocked mutex are an initial state |
| Schedulers.Kernel.Schedule | microkernel/scheds/default/defsched.c:204-229 | if enabled, the runqueue scrolls on and its head runs, or idle; otherwise the request is kept for later |
| Schedulers.Kernel.SetState | microkernel/scheds/default/defsched.c:189-195 | enabling makes up for a pending request and nothing else |
| Schedulers.Kernel.WakeUp | microkernel/scheds/default/defsched.c:126-185 | a task made runnable joins at the head if the wakeup has a reason and at the tail otherwise; one put to sleep leaves the runqueue |
| Schedulers.Kernel.Signal | microkernel/waitqueue.c:119-140 | exactly the first waiter becomes runnable |
| Schedulers.Kernel.Sleep | microkernel/waitqueue.c:171-178 | the running task moves from the runqueue to the end of the wait queue |
| Schedulers.Kernel.Down | microkernel/mutex.c:66-90 | one turn of the loop is one step of the protocol: the mutex is taken exactly if it was unlocked, otherwise the caller goes to the end of the wait queue and another runs |
| Schedulers.Kernel.TryDown | microkernel/mutex.c:93-114 | takes the mutex exactly if it was unlocked, and never sleeps |
| Schedulers.Kernel.Up | microkernel/mutex.c:40-63 | the step of the protocol: the mutex is free, and the first waiter, if any, leaves the wait queue and becomes the last runnable one |
| Schedulers.Kernel.SysTimer | microkernel/scheds/default/defsched.c:232-238 | a tick schedules if the scheduler is enabled and leaves a request otherwise |
| Schedulers.Kernel.Tick | microkernel/scheds/default/defsched.c:232-238 | a tick between steps is the tick of the protocol |
| MsgProtocol.StepKeeps | microkernel/msg.c:154-311 | request, send, receive and release each keep ids, places, references and counts in agreement |
| MsgProtocol.WhereIsSomewhere | microkernel/msg.c:98-131 | the messages that are counted as being somewhere are exactly those in a table or an incoming queue |
| MsgProtocol.RunKeeps | microkernel/msg.c:98-311 | over every run from new queues: what a queue has handed out, followed by what is incoming, is what the sends of the run sent to it, in their order and once; free ids are exactly the unused slots; every body is counted once for each message that refers to it until it is destroyed, once |
| MsgProtocol.RecvOldest | microkernel/msg.c:288-311 | after every run, a receive with an id free hands out the oldest message sent to the queue that none has handed out, and without one nothing changes |
| MsgProtocol.StepExtends | microkernel/msg.c:241-311 | every step extends what was sent to a queue, and what it has handed out, at the end only, by what it sends and hands out |
| MsgProtocol.RecvIs | microkernel/msg.c:288-311 | a receive puts the oldest incoming message at the first free id, and changes nothing else |
| MsgProtocol.SentLast | microkernel/msg.c:241-265 | a message sent goes behind all others of the recipient, whose table stays as it is |
| MsgProtocol.InitialOk | microkernel/msg.c:457-492 | new queues, with all ids free, satisfy the invariant |
| MsgProtocol.CountIsReferrers | microkernel/object.c:51-68 | the count of a live body, the length of its list of references and the number of messages that refer to it are equal and positive |
| MsgProtocol.DestroyedWithLast | microkernel/object.c:169-271 | a body is destroyed by exactly the step that releases its only referrer |
| MsgProtocol.FullTableWaits | microkernel/msg.c:288-311 | receiving into a full table changes nothing, so the message is not lost |
| MsgProtocol.WriteDelivers | microkernel/msg.c:779-826 | request, send and release by one writer give back its table and ids, and the recipient's message alone refers to the new body |
| MsgProtocol.WriteUndone | microkernel/msg.c:779-826 | a write that fails once it has an id leaves queues and bodies as they were and destroys the new body |
| MsgQueues.MsgQueue.AllocId | microkernel/msg.c:98-112 | the head of the threaded free ids is taken and the thread goes on behind it; with none left nothing changes |
| MsgQueues.MsgQueue.ReleaseId | microkernel/msg.c:115-122 | the id becomes the head of the thread |
| MsgQueues.MsgSystem.constructor | microkernel/msg.c:457-492 | new queues are in the initial state |
| MsgQueues.MsgSystem.GetMsg | microkernel/msg.c:125-131 | an id names a message exactly if it is in range and its slot is no free one |
| MsgQueues.MsgSystem.Request | microkernel/msg.c:154-187 | the step of the protocol, or one of the two errors with nothing changed |
| MsgQueues.MsgSystem.Send | microkernel/msg.c:241-265 | the step of the protocol, also from a queue to itself: the new message, which is read-only, is the last of the recipient's incoming ones |
| MsgQueues.MsgSystem.Recv | microkernel/msg.c:288-317 | the step of the protocol: the oldest incoming message leaves the list and is at the id returned; the error tells an empty queue from a full table, and changes nothing |
| MsgQueues.MsgSystem.Release | microkernel/msg.c:268-285 | the step of the protocol, or a bad id with nothing changed |
| MsgQueues.MsgSystem.Open | microkernel/object.c:51-68 | a new reference is in front of the list, and counted |
| MsgQueues.MsgSystem.Close | microkernel/object.c:236-271 | exactly this reference leaves the list, the count goes down, and the object is destroyed exactly if it was the last |
| SlabCaches.Slab.SearchFree | microkernel/slab.c:146-162 | finds the first free block from the hint on, around the end, and none exactly if all are used |
| SlabCaches.Slab.Take | microkernel/slab.c:402-446 | one more bit is set, and the number of used blocks is that of set bits |
| SlabCaches.Slab.Drop | microkernel/slab.c:572-607 | one bit is cleared, with the same agreement |
| SlabLists.LiveWith | microkernel/slab.c:471-510 | a block taken is one new address |
| SlabLists.LiveWithout | microkernel/slab.c:610-644 | a block dropped is one address less |
| SlabLists.LiveCount | microkernel/slab.c:54-126 | the live objects are as many as the used blocks of all slabs |
| SlabLists.SmallCache.Alloc | microkernel/slab.c:471-510 | each slab is on the list of its state; the object was not live, and is the first free block of the cache's own slab or else of the next one; nothing is found exactly if every slab is full |
| SlabLists.SmallCache.AllocSmall | microkernel/slab.c:402-446 | the same once the embedded slab is full: the first free block of the first free slab, or else of the first partial one |
| SlabLists.SmallCache.FreeFirst | microkernel/slab.c:402-446 | if any listed slab has no object in use, the next object comes from such a slab |
| SlabLists.SmallCache.Free | microkernel/slab.c:610-644 | exactly this object is no longer live, and its slab is on the list of its new state |
| SlabLists.SmallCache.FreeSmall | microkernel/slab.c:572-607 | the same for a block of a listed slab |
| SlabLists.SmallCache.Grow | microkernel/slab.c:678-717 | adds free slabs until memory ends, doubles the next growth if it did not, and fails exactly if there was no page |
| SlabLists.SmallCache.GetUsage | microkernel/slab.c:54-126 | reports the object size times the live objects, the capacity, and one page for each slab |
| FragMsg.PiecesJoin | user/ipc.c:173-216 | the pieces are ceil(n/P) in number, none empty or longer than P, and joined they are the payload |
| FragMsg.FragmsgWrite | user/ipc.c:173-216 | all fragments are sent in order, or as many as there is room for, or none without a buffer; the result says whether all were, except that an empty payload is a failure |
| FragMsg.FragmsgRead | user/ipc.c:103-170 | gives the first message of the channel, gathered until it is as long as announced, with every copy inside the buffer, and leaves what follows; says what is lost and returned when an allocation fails |
| FragMsg.ReadBack | user/ipc.c:103-216 | every non-empty payload that was written is read back whole, what follows it in the channel is untouched, and the number returned is that of the first fragment's bytes |
| FragMsg.SizeIsPayload | user/ipc.c:103-216 | the size reported for it is that of the payload exactly if it took more than one fragment |

## Findings

Where a property that the code seems meant to have is false, the lemma named gives an input or the exact condition.

* The first `radix_tree_set` on an empty tree writes slot 0 whatever the key's last six bits are (`FirstRootRefines`).
  `vm_page_set_put` passes multiples of the page size, for which it is right.
* `vm_region_resize` computes the size in 32 bits: 0x100000 pages are 0 bytes, pass every test, and leave a region that
  ends before it begins (`ResizeKeepsIff`, `ResizeToNothing`).
* A resize may move the start of a region but its node keeps the old key. Afterwards `vm_space_find_first_in_range` can
  report an unused range as taken (`FoundIsInTheWay`, `MovedRegionInTheWay`), and `vm_space_find_region` can miss the
  region that holds an address (`FindRegionExact`, `MovedRegionMissed`). A taken range is never reported free
  (`NullMeansFree`). The one caller in the repository keeps the start.
* A range map of the whole address space counts 0 pages, so `vm_update_region` maps none (`WholeSpaceUnmapped`).
* A page put with frame 0 is present to `vm_page_set_translate` but never reaches the page tables, since the walk skips
  null slots (`NullFrameUnmapped`). A removed page keeps its frame in the slot, which is why the walk does reach it and
  clears its entry.
* `vm_page_set_remove` follows the root of the page tree without a test: on a set that never had a page it is null, so
  `PageSet.Remove` asks for a set that has had one (`FrameMeansRoot`).
* `vm_space_add_region` does not look at the result of `vm_update_region`. The region it adds is mapped completely
  exactly if the pages in supply are enough for the missing tables (`AddressSpaces.AddressSpace.AddRegion`,
  `AddedAgreesIff`);
  `AddedUnmapped` is a region of one page of which software has a frame and the processor has none.
* `__sleep` marks the runqueue for scheduling after the sleeper has been taken off it, and scheduling scrolls once more.
  So the runnable one that was next runs exactly if it is the only other; otherwise it is passed over and becomes the
  last (`SleepPassesOver`). Nothing is lost by it.
* `rbtree_insert_ex` on a key that is there already stores the data in the old node, but hands out the new node, which
  is in no tree (last clause of `RbTree.Insert`). `rbtree_clear` leaves the search cache as it is; an empty tree is
  never searched through it (`RbTree.Clear`).
* `fragmsg_read` reports the size of a message in one piece with its header and that of a reassembled one without
  (`SizeIsPayload`). What it returns as a message id is the number of bytes of the first fragment (`ReadBack`), and it
  returns that number as well, with the fragment lost, when the larger buffer cannot be allocated (`FragmsgRead`).
  `fragmsg_write` of an empty payload sends nothing and returns -1.
* `__msg_unmap_m` refuses exactly the messages that are mapped and releases a range at address 0 for all others, with as
  many pages as the body has. After `sys_msg_request (4096)` and `sys_msg_unmap` of that message on a fresh queue, the
  free chunk of the queue's region begins at 0 and the next mapping is at 0 (`UnmapOfUnmapped`); with another message
  mapped, its pages can become free under it (`UnmapFreesMapped`). The allocator stays valid exactly if the message is
  refused, or nothing borders that range and no chunk can be made (`UnmapM`).
* `vremap_data_new` makes a chunk the head of a new list without clearing its links. The chunk cache clears objects when
  it makes a slab, not when it hands them out, so the links are those of the chunk's last list: the new allocator is
  valid exactly if they are null (`VremapData.constructor`), and not if the chunk was the head of a longer list
  (`RecycledHead`).
* Since mapped messages are refused, nothing undoes a mapping: the release of a mapped message leaves its range taken for
  good
  (`ReleaseRange`), and `__msg_map` that fails to update the page tables reports a failure and leaves the range taken
  (`Map`).
* Two things that look like failures are none. The header of an emptied small bin keeps stale links: nothing reads them
  while the bin is unmarked (`SmallBinOk` asks for a ring only of a marked bin). `replace_dv` puts the old designated
  victim into a small bin without a look at its size: at each of its uses the old one is smaller than a small request,
  which is the precondition that `ReplaceDv` states and its callers prove.

## Left out

- System memory in `user/malloc.c`: `sys_alloc`, `sys_trim`, segments, mmap, mspaces, footers and locks. The segment is fixed and `DlMalloc` returns 0 where the source would ask for more.
- `dlcalloc`, `dlrealloc`, `internal_memalign` and the bulk calls, which are made of the operations above.
- Contents of live chunks: only that writing there leaves the heap as it is (PayloadWrite); what is written is not modelled.
- Heap.MallocState.DlFree: the consistency tests that abort on a corrupted heap never fail on a valid one and are left out; `dlfree` repeats the steps of `dispose_chunk`, which are modelled once.
- HeapChecks.StatePasses: the footprint totals and the checks of mmapped chunks, of which there are none.
- RbTrees.RbTree.Insert: the call-back that disposes of replaced data is not part of the model.
- RadixHeap.RadixTree.NodeInsert: the call that the source makes on a leaf it has just added is modelled as filling the leaf's slot; the union of the two arrays of a node is a sequence of children or of data and tags.
- `radix_tree_add_tags`, `radix_tree_remove_tags` and `radix_tree_destroy`.
- Vremap.VremapData.constructor: is given its chunk; that the cache has none left is a failure before there is an allocator.
- The pages of the vremap region itself, its page faults and the other region kinds.
- Vremap, page sets, slabs, the heap of nodes: allocators are a supply of fresh objects. Buddy and kmalloc lists are not modelled.
- SpaceRuns.HardwareIsSoftware: leaves out resizes that move the start or give up pages (the one resize operation refuses to shrink, and its one caller keeps the start), remaps of regions that are not linked into the tree, range maps without the present flag or of the whole address space, and pages put with the null frame, which UpdateAgreesIff shows not to be mapped.
- AddressSpaces.AddressSpace.AddRegion: asks for a page set that no other region of the space has; two regions that share one set are not covered.
- PageSets.UpdateSet: the calls of the walk are collected first and mapped in turn; the callback of the source maps each page as it is reached.
- UserCopies.CopyToVirt: flushing of the processor's cached translations; `bzero2virt` is left out.
- AddressSpaces.AddressSpace.constructor: makes the page directory at once; the source makes it at the first update.
- AddressSpaces.AddressSpace.Grow: the pages that `anonmap_resize` puts into the page set while it agrees are puts after the growth.
- MsgMaps.UnmapM: speaks of regions that begin above address 0, since 0 stands for no mapping; the pages themselves, which the kernel unmaps nowhere, are not modelled.
- PageSets.PageSet.Remove: on a set that never had a page the source follows a null link, which a method cannot.
- Schedulers.Kernel.WakeUp: of one that is running already, which the source would put on the runqueue twice; only `signal_all` asks for that.
- `x86_pagedir_set_flags` and `x86_pagedir_unset_flags`, which nothing calls; `vm_space_overlap_region`, `vm_region_unmap_page`, `__alloc_colored` and page-fault handling.
- MutexProtocol.MutualExclusion: no allocation of a wait-queue element fails; `signal_all` and priorities are left out, and a step is one atomic section.
- MsgQueues.MsgSystem.Send: mapping and unmapping of messages is modelled apart, in MsgMaps; `msgq_destroy`, filters by type and link, and blocking receive are left out; lists of references and of incoming messages are sequences.
- `kernel_object_instance` and the lists of objects that a process holds open.
- SlabLists.SmallCache.Alloc: lists of slabs are sequences, and the hint for the next search, which the source never sets, is 0; constructors of objects, big slabs and the layout of a slab's page are left out, as is an overflow of the number of slabs to grow by.
- FragMsg.FragmsgRead: assumes that no message is shorter than a header; the sender field that the kernel fills in is part of the header's kind.
