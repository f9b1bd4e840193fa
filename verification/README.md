# Verified model of the kernel heap, memory primitives and locks

A Dafny model of the parts of the kernel and its C library whose fast implementation stands for a
simple idea, with proofs that it does:

- **Buddy allocator** (`Buddy.dfy`, `BuddyTree.dfy` and what they import). The state is a byte array
  in which every node of a complete binary tree owns a slot with a unary status. The abstract state
  is the set of live blocks. `Bitset` is proved against single bits, `Slots` and `TreeLayout` against
  one number per node, `Statuses` and `Repair` against a set of allocated nodes (a status is the
  distance to the nearest free node below), `Coverage` and `Arena` against disjoint blocks of bytes.
  Malloc, calloc, free, checked free, realloc, the free-size walk, masking and growing are described
  by what they do to the set of live blocks.
- **Memory routines** (`Memmove.dfy`, `Memcmp.dfy`, `Words.dfy`). Word loops over one byte memory,
  with the merging of misaligned words, equal a buffered copy and the comparison of the first bytes
  that differ.
- **Page tables** (`Paging.dfy`, `PageTables.dfy`). A radix tree in physical frames, built lazily,
  equals a plain map from pages to entries, which is also what the processor finds by its own walk.
- **Printing and parsing integers** (`PrintInteger.dfy`, `PrintShape.dfy`, `Strtol.dfy`,
  `RoundTrip.dfy`). What is printed and what is read is pinned down part by part, and the two undo
  each other under an exact condition.
- **Ticket lock** (`TicketLock.dfy`). A state machine over atomic steps of any number of threads.
- **Physical pages** (`PhysicalAllocator.dfy`). A next-fit scan over a bitmap with counters.

Addresses and sizes are natural numbers with the bounds of 64-bit words written out where they
matter (rounding up, products, unsigned subtraction, counters); words and page-table entries are
bit vectors. In the allocator, `Buddy.Valid()` is required and ensured by every operation, so what it
says holds in every state that can be reached from `Init`. Fields and parameters marked `ghost` are
the abstraction and cost nothing.

Where the code differs from what its comments or names suggest, the model follows the code, and the
exact condition is proved:

- `ceiling_power_of_two` rounds up exactly for values up to 2^63 (`BitMath.CeilingPow2Exact`).
- `remap_page` moves a mapping with the flags asked for exactly when the old page is present and the
  offset of the old address has no bit that the flags lack (`Paging.RemapExact`); an absent page is
  remapped to all ones (`Paging.RemapOfAbsent`).
- `try_lock` can wait (`TicketLock.TryLockCanWait`), exactly when a ticket is outstanding as it draws
  its own (`TicketLock.TryLockWaits`), which takes another thread drawing after its first load
  (`TicketLock.TryLockUndisturbed`).
- `physical_allocate` panics over free runs of several pages exactly when all of them cross the saved
  index (`PhysicalAllocator.Allocator.Allocate`, with an example in `PhysicalAllocator.MissesFreeRun`).
- `physical_free` keeps the counters right exactly when every page of the run was in use
  (`PhysicalAllocator.Allocator.Free`).
- A printed number parses back exactly when it is 0 or the 32-character buffer had room for its
  prefix and its minus sign (`RoundTrip.PrintedParses`).

`dafny verify dfyconfig.toml` checks the project.

## Model

| member | source | states |
|---|---|---|
| BuddyAllocator.Buddy.Init | kernel/memory/buddy_alloc.h:565-618 | Refuses exactly a null or misaligned arena, an alignment that is no power of two and a memory below one block; otherwise the allocator has no live block and the trimmed size. |
| BuddyAllocator.Buddy.constructor | kernel/memory/buddy_alloc.h:606-617 | A fresh tree with the slots behind the end of the arena masked satisfies the allocator invariant with no live block. |
| BuddyAllocator.Buddy.Malloc | kernel/memory/buddy_alloc.h:833-875 | Non-null exactly when some stretch of the fitting size, at a multiple of it, lies in the arena apart from every live block; the result is a new live block inside the arena, at a multiple of its size, disjoint from every live block, at least as large as the request and below twice the larger of request and alignment; null leaves every bit alone. |
| BuddyAllocator.Buddy.Free | kernel/memory/buddy_alloc.h:993-1025 | For any pointer: the live block that starts there is removed; if none does, no bit of the tree changes. |
| BuddyAllocator.Buddy.SafeFree | kernel/memory/buddy_alloc.h:1027-1086 | Succeeds exactly when a live block starts at the pointer and has the size that the given request would be served with; otherwise nothing changes, a live block at the pointer is reported as a size mismatch, and a null, foreign or unaligned pointer as an invalid address. |
| BuddyAllocator.Buddy.Realloc | kernel/memory/buddy_alloc.h:902-976 | The other live blocks keep their places and bytes; the block moves to a fitting size exactly when there is room once it is released, keeping the bytes that fit; otherwise all live blocks, the memory and every tree bit are as before. Null and zero size degrade to malloc and free. |
| BuddyAllocator.Buddy.ReallocLive | kernel/memory/buddy_alloc.h:931-975 | The core of realloc: release, search, and on failure a mark that restores every bit of the tree; on success the memory is that of a buffered copy of the kept bytes. |
| BuddyAllocator.Buddy.BitsRestored | kernel/memory/buddy_alloc.h:944-953 | Trees that hold the same nodes have the same bits, so marking a released node again is the identity on the bitset. |
| BuddyAllocator.Buddy.Calloc | kernel/memory/buddy_alloc.h:877-900 | As malloc for the product of the sizes, null if that reaches 2^64; every member of the array lies inside the new block and is zero, and no byte outside the block changes. |
| BuddyAllocator.Buddy.ReallocArray | kernel/memory/buddy_alloc.h:978-991 | As realloc for the product of the sizes: what stays on failure, that no bytes free the block, and which bytes move; a product that wraps fails with nothing changed. |
| Requests.OverflowTest | kernel/memory/buddy_alloc.h:888-892 | Dividing the 64-bit product by one factor gives back the other exactly when the product did not wrap. |
| BuddyAllocator.Buddy.ArenaFreeSize | kernel/memory/buddy_alloc.h:795-820 | Conservation: the result and the sizes of all live blocks add up to the arena size; the pruned walk terminates. |
| BuddyAllocator.Buddy.SweepRound | kernel/memory/buddy_alloc.h:801-818 | Each step of the walk keeps the count equal to the free memory left of the current node and moves on in the arena or one row down. |
| PreOrder.SweepStep | kernel/memory/buddy_alloc.h:802-818 | Skipping free and full subtrees counts every free leaf exactly once. |
| BuddyAllocator.Buddy.IsFull | kernel/memory/buddy_alloc.h:772-784 | True exactly when there is no room for even one block of the smallest size. |
| BuddyAllocator.Buddy.ResizeStandard | kernel/memory/buddy_alloc.h:689-718 | A growing resize keeps the address and size of every live block and the whole invariant. |
| BuddyAllocator.Buddy.GrowTree | kernel/memory/buddy_alloc.h:706-711 | The grown tree holds the same live blocks, and the masked nodes of the larger arena are free in it. |
| Requests.GrowingScansNothing | kernel/memory/buddy_alloc.h:1425-1462 | When the arena grows, the emptiness test starts at or behind its last leaf, so it never refuses. |
| BuddyAllocator.Buddy.ToggleVirtualSlots | kernel/memory/buddy_alloc.h:1308-1368 | Marks (or releases) exactly the masked nodes, each free (or allocated) before; the loop terminates; releasing undoes marking. |
| BuddyAllocator.Buddy.MaskingStep | kernel/memory/buddy_alloc.h:1328-1367 | One round masks the whole node, or continues right, or masks the right child and continues left, and keeps the remaining masked nodes. |
| BuddyAllocator.Buddy.MaskAndUnmask | kernel/memory/buddy_alloc.h:1308-1368 | Running the masking with state 0 after state 1 leaves the allocated set and every bit of the tree as they were. |
| VirtualSlots.VirtualCovers | kernel/memory/buddy_alloc.h:1308-1368 | The masked nodes are an allocation and cover exactly the leaves from the end of the arena to the next power of two. |
| VirtualSlots.VirtualStartsRight | kernel/memory/buddy_alloc.h:1326-1328 | More than half of a tree is real memory, so masking may begin at the right child of the root. |
| BuddyAllocator.Buddy.BlocksOrderly | kernel/memory/buddy_alloc.h:833-875 | In every state the live blocks lie in the arena, apart from each other, each at a multiple of its size, each an alignment times a power of two. |
| Arena.LiveBlocksOrderly | kernel/memory/buddy_alloc.h:833-875 | Disjoint nodes inside the arena are blocks that satisfy the same. |
| Arena.HasFreeIsRoom | kernel/memory/buddy_alloc.h:861-868 | A row of the tree has a free node exactly when the arena has room for a block of that row. |
| Arena.RoomThere | kernel/memory/buddy_alloc.h:861-868 | Any stretch of the size, at a multiple of it, inside the arena and apart from every block is room. |
| Arena.RoomWhere | kernel/memory/buddy_alloc.h:861-868 | Where there is room, there is such a stretch. |
| Requests.FittingSizeTight | kernel/memory/buddy_alloc.h:1198-1213 | The size served is below twice the larger of request and alignment. |
| BuddyAllocator.Buddy.DepthForSize | kernel/memory/buddy_alloc.h:1198-1213 | Finds the row whose blocks have exactly the fitting size. |
| BuddyAllocator.Buddy.SizeForDepth | kernel/memory/buddy_alloc.h:1215-1218 | The shifted power of two is the size of the nodes of the row. |
| BuddyAllocator.Buddy.EffectiveMemorySize | kernel/memory/buddy_alloc.h:1225-1228 | The arena size rounded up is the size of the whole tree, less than twice the arena. |
| Arena.EffectiveSize | kernel/memory/buddy_alloc.h:1225-1228 | Rounding up the bytes and rounding up the blocks give the same tree. |
| BuddyAllocator.Buddy.AddressForPosition | kernel/memory/buddy_alloc.h:1241-1246 | Block size times row index is where the leaves of the node begin. |
| BuddyAllocator.Buddy.DeepestPositionForOffset | kernel/memory/buddy_alloc.h:1248-1254 | The leaf that holds the offset, inside the arena. |
| BuddyAllocator.Buddy.PositionForAddress | kernel/memory/buddy_alloc.h:1256-1292 | Inverts the address of every live node; finds nothing for unaligned addresses; what else it finds is partly used and not allocated. |
| Requests.FirstUsed | kernel/memory/buddy_alloc.h:1275-1284 | The first node with a nonzero status above a leaf is the allocated owner of the leaf, or only partly used. |
| Requests.OwnerFound | kernel/memory/buddy_alloc.h:1275-1291 | A live block that starts at the address is the one the climb stops at. |
| Requests.SizeMatches | kernel/memory/buddy_alloc.h:1060-1072 | The size test of the checked release accepts exactly the sizes the block is served for. |
| Arena.FreeAndLive | kernel/memory/buddy_alloc.h:795-820 | Free leaves and live leaves make up the arena, masked leaves counting as neither. |
| Arena.TotalSizeOfNodes | kernel/memory/buddy_alloc.h:795-820 | The sizes of a set of blocks add up to the widths of their nodes. |
| BuddyTrees.BuddyTree.constructor | kernel/memory/buddy_alloc.h:1624-1633 | Zeroed storage is a valid tree with nothing allocated. |
| BuddyTrees.BuddyTree.Mark | kernel/memory/buddy_alloc.h:1980-1990 | Marking a free node adds exactly that node to the allocated set and keeps every status right. |
| BuddyTrees.BuddyTree.Release | kernel/memory/buddy_alloc.h:1992-2010 | Succeeds exactly for an allocated node, which is removed; otherwise no bit changes. |
| BuddyTrees.BuddyTree.UpdateParentChain | kernel/memory/buddy_alloc.h:2012-2038 | Although the loop stops at the first ancestor that is right already, all statuses are right afterwards. |
| BuddyTrees.BuddyTree.UpdateParent | kernel/memory/buddy_alloc.h:2018-2037 | One round repairs the parent from the two child statuses or finds everything repaired. |
| BuddyTrees.BuddyTree.SiblingInternal | kernel/memory/buddy_alloc.h:2020-2021 | The slot one length up or down is that of the sibling. |
| Repair.RepairStops | kernel/memory/buddy_alloc.h:2030-2033 | An ancestor whose stored status is right has right statuses all the way up. |
| Repair.RepairStep | kernel/memory/buddy_alloc.h:2035-2036 | Writing the status of the parent leaves one ancestor less to repair. |
| Repair.ParentTarget | kernel/memory/buddy_alloc.h:2028-2029 | The branchless formula yields the status of the parent. |
| Repair.SameAbove | kernel/memory/buddy_alloc.h:2012-2038 | A change of one node that leaves the status of an ancestor leaves those above it. |
| BuddyTrees.BuddyTree.FindFree | kernel/memory/buddy_alloc.h:2040-2102 | Returns a free node of the target depth, the one the tightest-fit rule leads to, and the invalid position exactly when the whole tree has none there, without backtracking. |
| BuddyTrees.BuddyTree.PreferLeft | kernel/memory/buddy_alloc.h:2070-2099 | Never picks a busy child; of two candidates the busier one, the left on a tie. |
| BuddyTrees.BuddyTree.PickChild | kernel/memory/buddy_alloc.h:2056-2100 | The child picked still leads to a free node of the target depth and is the one of the tightest-fit rule. |
| Search.RootDecides | kernel/memory/buddy_alloc.h:2050-2053 | The status of the root decides whether the search can succeed. |
| Search.StatusDecides | kernel/memory/buddy_alloc.h:2040-2053 | A free node of a given depth lies below a node exactly when the status of the node is at most the distance. |
| BuddyTrees.BuddyTree.IsFree | kernel/memory/buddy_alloc.h:2104-2122 | True exactly when the memory of the node is free, judged by its own status and its nearest used ancestor. |
| Search.FirstNonZero | kernel/memory/buddy_alloc.h:2110-2120 | The nearest ancestor with a nonzero status is full exactly when it owns the memory. |
| BuddyTrees.BuddyTree.Walk | kernel/memory/buddy_alloc.h:1939-1972 | Moves to the next node in pre-order, whose leaves begin where those left behind end; ends exactly at the last leaf. |
| BuddyTrees.BuddyTree.Grow | kernel/memory/buddy_alloc.h:1658-1708 | After any number of orders the allocated nodes are the old ones, embedded as the leftmost subtree. |
| BuddyTrees.BuddyTree.GrowOnce | kernel/memory/buddy_alloc.h:1662-1706 | Moving the rows from the bottom up and repairing the root gives a valid tree one order larger with the embedded nodes. |
| BuddyTrees.BuddyTree.MoveRow | kernel/memory/buddy_alloc.h:1681-1693 | Shifting a row and clearing behind it puts the row in place and spoils no row still to move. |
| BuddyTrees.BuddyTree.FinishGrowth | kernel/memory/buddy_alloc.h:1700-1707 | With the rows in place, repairing from the empty right child makes the tree valid. |
| Growth.RowsMovedStep | kernel/memory/buddy_alloc.h:1668-1698 | The row moves keep: rows below are in place, rows above are untouched. |
| Growth.GrowthComplete | kernel/memory/buddy_alloc.h:1658-1708 | Only the status of the new root can be wrong once all rows have moved. |
| Growth.EmbeddedStatus | kernel/memory/buddy_alloc.h:1658-1708 | Every old node has the same status in the larger tree. |
| Growth.EmbeddedIntervalBy | kernel/memory/buddy_alloc.h:1658-1708 | After any number of growths an embedded node has the same offset and size. |
| BuddyTrees.BuddyTree.WriteInternal | kernel/memory/buddy_alloc.h:1868-1886 | Writes one status and changes no other. |
| BuddyTrees.BuddyTree.ReadInternal | kernel/memory/buddy_alloc.h:1888-1896 | Reads back the status written. |
| BuddyTrees.BuddyTree.CompareInternal | kernel/memory/buddy_alloc.h:1898-1903 | One bit test says whether a status is at least a value. |
| BuddyTrees.BuddyTree.InternalPositionTree | kernel/memory/buddy_alloc.h:1595-1606 | The computed slot is that of the node in the back-to-back layout. |
| BuddyTrees.BuddyTree.LeftmostInternal | kernel/memory/buddy_alloc.h:1582-1593 | The first slot of a row, with the offset computed rather than looked up. |
| BuddyTrees.BuddyTree.PopulateSizeForOrder | kernel/memory/buddy_alloc.h:1847-1861 | The memoised table equals the row offsets. |
| BuddyTrees.AllocationDeterminesBits | kernel/memory/buddy_alloc.h:1868-1886 | The bits of the tree are a function of the allocated nodes. |
| Statuses.NoFreeNearer | kernel/memory/buddy_alloc.h:2185-2200 | No free node lies nearer below a node than its status says. |
| Statuses.FreeAtDistance | kernel/memory/buddy_alloc.h:2185-2200 | A status short of the maximum leads to a free node at exactly that distance. |
| Statuses.FreeIsStatusZero | kernel/memory/buddy_alloc.h:2185-2200 | A node is free exactly when its status is 0 and no ancestor is allocated. |
| Statuses.StatusZero | kernel/memory/buddy_alloc.h:2185-2200 | Status 0 means that nothing at or below the node is allocated. |
| Statuses.StatusLocal | kernel/memory/buddy_alloc.h:2012-2038 | A status depends only on the allocated nodes at or below the node. |
| Repair.LocalInvariant | kernel/memory/buddy_alloc.h:2185-2200 | The check at each node (with a used child one more than the smaller child status, else 0 or the maximum) passes everywhere exactly when the statuses are those of an allocation, which is then the set of full nodes without a used child. |
| Repair.StatusOfOwners | kernel/memory/buddy_alloc.h:2185-2200 | Where every node passes its check, each status is that of the set of full nodes without a used child. |
| Coverage.DisjointIntervals | kernel/memory/buddy_alloc.h:1241-1246 | Nodes neither of which is above the other own disjoint memory. |
| Coverage.LoIsRowTimesWidth | kernel/memory/buddy_alloc.h:1241-1246 | The first leaf of a node is its row index times its width. |
| Coverage.AboveLeaf | kernel/memory/buddy_alloc.h:1248-1254 | A node is above exactly the leaves of its interval. |
| Coverage.Conservation | kernel/memory/buddy_alloc.h:795-820 | Free leaves and allocated widths add up to the row of leaves. |
| Coverage.FullNodeLeaves | kernel/memory/buddy_alloc.h:805-808 | Below a node of maximal status no leaf is free. |
| TreeLayout.SlotsDisjoint | kernel/memory/buddy_alloc.h:1582-1606 | Slots of different nodes share no bit. |
| TreeLayout.EveryBitOwned | kernel/memory/buddy_alloc.h:1582-1606 | Every bit of the bitset lies in the slot of some node. |
| TreeLayout.SlotWithin | kernel/memory/buddy_alloc.h:1608-1622 | Every slot ends within the bitset. |
| TreeLayout.TotalBits | kernel/memory/buddy_alloc.h:1569-1580 | A tree of order n has 2^(n+1) - n - 2 bits. |
| TreeLayout.StartIsComputed | kernel/memory/buddy_alloc.h:1582-1606 | Row offset plus row index times slot length is the back-to-back position. |
| TreeLayout.ComputeSizeForOrder | kernel/memory/buddy_alloc.h:1569-1580 | The loop from the root down computes the recursive row offset. |
| TreeLayout.TableFits | kernel/memory/buddy_alloc.h:1608-1622 | Despite the unusual padding the offset table starts behind the bitset and ends within the size asked for, both of which are given in closed form. |
| TreeLayout.LeftmostParent | kernel/memory/buddy_alloc.h:1695-1697 | The parent of the leftmost node of a row is the leftmost of the row above, in both trees of a growth step. |
| TreeLayout.LeftChildHasNeighbour | kernel/memory/buddy_alloc.h:1818-1826 | The right neighbour of a left child is its sibling; the all-ones test does not fire. |
| Slots.WriteSlot | kernel/memory/buddy_alloc.h:1868-1886 | Clearing a slot and setting its first bits stores a value in it and changes no other slot. |
| Slots.CountUnary | kernel/memory/buddy_alloc.h:1888-1896 | Counting the ones of a slot reads its value. |
| Bitset.SetRange | kernel/memory/buddy_alloc.h:2336-2351 | The byte-bucketed set equals a per-bit loop over the range. |
| Bitset.ClearRange | kernel/memory/buddy_alloc.h:2353-2368 | The byte-bucketed clear equals a per-bit loop over the range. |
| Bitset.CountRange | kernel/memory/buddy_alloc.h:2370-2387 | The byte-bucketed count equals a per-bit count. |
| Bitset.ShiftRight | kernel/memory/buddy_alloc.h:2407-2424 | Moves the bits of the range (the end included) up and clears those left behind, also when the ranges overlap. |
| Bitset.SetBit | kernel/memory/buddy_alloc.h:2297-2302 | Sets one bit and no other. |
| Bitset.ClearBit | kernel/memory/buddy_alloc.h:2304-2309 | Clears one bit and no other. |
| Bitset.TestBit | kernel/memory/buddy_alloc.h:2311-2316 | Reads the bit. |
| ByteBits.CharMaskBits | kernel/memory/buddy_alloc.h:2318-2323 | The mask table selects exactly the bits of the range it is indexed by. |
| ByteBits.PopcountByte | kernel/memory/buddy_alloc.h:2438-2452 | The lookup table holds the number of ones of every byte. |
| BitMath.HighestBitPosition | kernel/memory/buddy_alloc.h:2455-2478 | The 1-based position of the highest set bit for every 64-bit value, 0 for 0. |
| BitMath.CeilingPowerOfTwo | kernel/memory/buddy_alloc.h:2480-2484 | Rounds up to a power of two below twice the value, for values up to 2^63. |
| BitMath.CeilingPow2Least | kernel/memory/buddy_alloc.h:2480-2484 | Up to 2^63 the result is the least power of two at or above the value. |
| BitMath.CeilingPow2Exact | kernel/memory/buddy_alloc.h:2480-2484 | The result is at or above the value exactly up to 2^63: above, the doubling wraps. |
| BitMath.IsValidAlignment | kernel/memory/buddy_alloc.h:822-825 | Accepts exactly the powers of two. |
| BitMath.TreeOrderForMemory | kernel/memory/buddy_alloc.h:827-831 | For every 64-bit size the order for the number of blocks rounded up; up to 2^63 blocks that of the least tree whose leaf row holds every block. |
| BitMath.IntegerSquareRoot | kernel/memory/buddy_alloc.h:2491-2512 | The integer square root of every 64-bit value. |
| Memmove.Memmove | libc/string/memmove.c:5-30 | For every length, overlap and misalignment the destination holds the original source bytes and nothing else changes (section 7.24.2.2 of ISO/IEC 9899:2011). |
| Memmove.Memcpy | libc/string/memcpy.c:5-25 | The same for regions an upward copy may handle: apart, or with the destination below the source. |
| Memmove.MoveDown | libc/string/memmove.c:14-27 | The backward path: bytes, whole words, bytes, from the end. |
| Memmove.MoveDownWords | libc/string/memmove.c:19-24 | Bytes above the last aligned destination address, then whole words downwards. |
| Memmove.WordCopyFwd | libc/string/memcopy.h:65-82 | Chooses the aligned or the merging loop and copies all whole words. |
| Memmove.WordCopyBwd | libc/string/memcopy.h:84-98 | The same downwards. |
| Memcopy.WordCopyFwdAligned | libc/string/memcopy.c:4-34 | The unrolled loop, entered in either half, copies the words upwards. |
| MergeCopy.WordCopyFwdDestAligned | libc/string/memcopy.c:36-78 | Merging pairs of aligned source words copies the unaligned words upwards, also when the regions overlap. |
| Memcopy.WordCopyBwdAligned | libc/string/memcopy.c:80-111 | The unrolled loop copies the words downwards. |
| MergeCopy.WordCopyBwdDestAligned | libc/string/memcopy.c:113-155 | Merging pairs copies the unaligned words downwards. |
| Memcopy.ByteCopyFwd | libc/string/memcopy.h:34-46 | The byte loop upwards. |
| Memcopy.ByteCopyBwd | libc/string/memcopy.h:48-61 | The byte loop downwards. |
| Words.Merge | libc/string/memcopy.h:17-19 | The merge of two adjacent words is the word that starts k bytes into the first, for every k from 1 to 7. |
| Memcopy.CopyIsSplice | libc/string/memmove.c:5-30 | The copy the loops are proved against puts the original source bytes at the destination and keeps the rest. |
| Memcopy.JoinUp | libc/string/memcpy.c:9-21 | An upward copy in two stages is one copy if it never reads what it has written. |
| Memcopy.JoinDown | libc/string/memmove.c:19-26 | The same for downward copies. |
| Memcmp.Memcmp | libc/string/memcmp.c:222-288 | For every length and both alignments the result is the difference of the first two bytes that differ, as unsigned values, and 0 if none do (section 7.24.4.1 of ISO/IEC 9899:2011). |
| Memcmp.CompareCommonAlignment | libc/string/memcmp.c:4-103 | The pipelined loop gives the same for aligned words, whichever of its four entries is used. |
| Memcmp.CompareNotCommonAlignment | libc/string/memcmp.c:105-220 | The merging loop gives the same when the first region is misaligned. |
| Memcmp.CompareMergedWords | libc/string/memcmp.c:112-219 | Its loop: each merged word is the pending word of the first region; every word is compared once, in order. |
| Memcmp.Entry | libc/string/memcmp.c:9-47 | The entry block and the adjusted count leave a multiple of four in step with the number of words. |
| Memcmp.MemcmpBytes | libc/string/memcopy.c:157-174 | Two different words compare by their lowest byte that differs; the unbounded loop ends. |
| Memcmp.CompareAt | libc/string/memcmp.c:222-288 | The first differing byte decides; what is before or behind it does not matter. |
| Memcmp.DifferenceSurvives | libc/string/memcmp.c:236-241 | A byte difference survives its way through an unsigned word and back to int. |
| Memcmp.Staged | libc/string/memcmp.c:231-287 | Comparing in stages is comparing at once. |
| Paging.PageMap.MapPage | kernel/arch/amd64/memory/paging.cpp:335-374 | The processor, walking down from the top table, finds the entry made of address and flags for every address of the page and what it found before for every other page. |
| Paging.PageMap.UnmapPage | kernel/arch/amd64/memory/paging.cpp:376-410 | The processor finds an empty entry for every address of the page and what it found before for every other page. |
| Paging.PageMap.RemapPage | kernel/arch/amd64/memory/paging.cpp:435-441 | Empties the old page and gives the new one what the old one translated to, which is the old address with the flags asked for exactly if the old page was present and the offset adds no flag. |
| Paging.PageMap.SetFlagsPage | kernel/arch/amd64/memory/paging.cpp:412-433 | Changes the flags of the page and keeps its address. |
| Paging.PageMap.VirtualToPhysical | kernel/arch/amd64/memory/paging.cpp:254-267 | For every page with a leaf table: the address field of the entry the processor finds and, below it, the offset in the page; all ones if the entry is not present. |
| Paging.PageMap.VirtualToEntry | kernel/arch/amd64/memory/paging.cpp:190-252 | The walk over four or five levels ends at the slot of the page; tables are added where needed; neither test for a large page succeeds. |
| Paging.WalkAgrees | kernel/arch/amd64/memory/paging.cpp:190-252 | In every state and for every address, mapped or not, the walk of the processor by the nine-bit indices from the top table down finds what the plain map says. |
| Paging.OnePageFound | kernel/arch/amd64/memory/paging.cpp:335-410 | A change of one page of the plain map changes what the processor finds for the addresses of that page only. |
| PageTables.PathLevels | kernel/arch/amd64/memory/paging.cpp:13-13 | Level by level, the walk indexes with bits 12 to 20, 21 to 29, 30 to 38, 39 to 47 and, with five levels, 48 to 56. |
| PageTables.PathExtends | kernel/arch/amd64/memory/paging.cpp:193-251 | The indices the processor takes from an address lead along the path of its page. |
| Paging.PageMap.GetNextLevel | kernel/arch/amd64/memory/paging.cpp:146-188 | Follows a link, or enters a new cleared table, or yields the null frame for an absent level. |
| Paging.PageMap.EnterTable | kernel/arch/amd64/memory/paging.cpp:180-185 | A new table keeps all tables apart and every page as it was. |
| Paging.PageMap.NeverLarge | kernel/arch/amd64/memory/paging.cpp:225-241 | No entry above the leaf tables has the large bit, also when it is looked up with the index of another level. |
| Paging.PageMap.constructor | kernel/arch/amd64/memory/paging.cpp:121-124 | A map with only a cleared top table maps nothing. |
| Paging.PageMap.InitializeKernelHalf | kernel/arch/amd64/memory/paging.cpp:126-136 | Every slot of the kernel half gets a table of its own; no page is mapped. |
| Paging.OneParent | kernel/arch/amd64/memory/paging.cpp:146-188 | Each table is linked from exactly one slot. |
| Paging.AddTable | kernel/arch/amd64/memory/paging.cpp:180-185 | Entering a cleared table in an empty slot keeps the tree and the plain map. |
| Paging.SetPage | kernel/arch/amd64/memory/paging.cpp:347-349 | Writing a leaf slot changes one page of the plain map. |
| Paging.OtherPages | kernel/arch/amd64/memory/paging.cpp:335-374 | A change of one page reaches no address of another page. |
| PageTables.SamePage | kernel/arch/amd64/memory/paging.cpp:193-197 | Two addresses take the same path exactly when their page numbers agree. |
| PageTables.PageDigits | kernel/arch/amd64/memory/paging.cpp:13-13 | The indices of the walk are the base-512 digits of the page number. |
| Paging.MappedEntry | kernel/arch/amd64/memory/paging.cpp:347-349 | The entry of an aligned mapping is present if the flags say so and has the address mapped. |
| Paging.RemapExact | kernel/arch/amd64/memory/paging.cpp:435-441 | The new page has the old address and exactly the flags asked for if and only if the old page was present and the offset of the old address has no bit that the flags lack. |
| Paging.RemapMoves | kernel/arch/amd64/memory/paging.cpp:435-441 | A remap of a present page keeps its address; the offset of the old address joins the flags. |
| Paging.RemapOfAbsent | kernel/arch/amd64/memory/paging.cpp:435-441 | A remap of a page that is not present maps the failure value with every flag set. |
| PageTables.EntryAddress | kernel/include/arch/amd64/memory/paging.hpp:53-64 | The address of an entry is the address field of what was stored. |
| PageTables.FlagsHold | kernel/include/arch/amd64/memory/paging.hpp:29-64 | The flags come out as given if the address has no stray bit that they lack ... |
| PageTables.FlagsSpoilt | kernel/include/arch/amd64/memory/paging.hpp:58-64 | ... and only then: the address is stored unmasked. |
| PageTables.FlagsKeepAddress | kernel/include/arch/amd64/memory/paging.hpp:29-41 | Setting and clearing flags keeps the address. |
| PageTables.AddressKeepsFlags | kernel/include/arch/amd64/memory/paging.hpp:48-64 | Setting an aligned address keeps the flags. |
| PageTables.LinkEntry | kernel/include/arch/amd64/memory/paging.hpp:20-68 | A link to a table is valid, not large, and gives back the address. |
| PageTables.ParsedFlags | kernel/arch/amd64/memory/paging.cpp:21-89 | The flags of a small page stay out of the address field and grant exactly the permissions asked for. |
| PageTables.MappedBits | kernel/arch/amd64/memory/paging.cpp:21-89 | Bit by bit, the entry of a small page: permissions, cache bits, global bit and address as asked for, and nothing else. |
| PageTables.LinkBits | kernel/arch/amd64/memory/paging.cpp:180-185 | A link to a table has the address and is present, writable and user accessible, and nothing else. |
| PageTables.FieldBits | kernel/include/arch/amd64/memory/paging.hpp:20-64 | Bits 12 to 51 of an entry are its address and the other bits its flags. |
| PageTables.PresentBits | kernel/include/arch/amd64/memory/paging.hpp:20-68 | Bit 0 of an entry says present and bit 7 says large. |
| Strtol.Strtol | libc/stdlib/strtol.c:6-90 | For every string the signed value that was read; LONG_MIN if it is below, LONG_MAX if it is above the range of long; and the end of the digits, the start of the string if there are none. |
| Strtol.Strtoul | libc/stdlib/strtoul.c:5-84 | The value that was read, negated modulo 2^64 after a minus sign; ULONG_MAX if it is larger. |
| Strtol.Reads | libc/stdlib/strtol.c:12-61 | White space, a sign, the prefix of base 16, a run of digits and a rest read as that sign, base and run: a base to be found out is 16 behind the prefix, 8 behind a zero, 10 otherwise. |
| Strtol.AllRead | libc/stdlib/strtol.c:12-61 | Every string can be taken apart that way. |
| Strtol.DigitValue | libc/stdlib/strtol.c:43-61 | The digits are 0 to 9 and the letters of either case, which count from 10 to 35. |
| Strtol.ScanDigits | libc/stdlib/strtol.c:43-73 | The digit loop holds the exact number while it is within the limit and knows for good when it is not. |
| Strtol.CutoffTest | libc/stdlib/strtol.c:63-63 | The test by quotient and remainder says whether one more digit exceeds the limit. |
| PrintInteger.PrintInteger | libc/stdio/print.c:201-245 | Appends exactly the padded, signed, prefixed digits of the value to the output. |
| PrintInteger.FinalizeInteger | libc/stdio/print.c:108-199 | Zero padding, prefix and sign as far as the buffer holds them, then the field. |
| PrintInteger.WriteDigits | libc/stdio/print.c:227-241 | The buffer holds the digits of the value in reverse; 22 places suffice. |
| PrintInteger.Stream.OutputReverse | libc/stdio/print.c:76-106 | Writes the reversed buffer padded to the width on the side asked for. |
| PrintInteger.PadZeros | libc/stdio/print.c:115-133 | Padding zeros up to the field width, then up to the precision, at most 32 characters. |
| PrintInteger.TakeBack | libc/stdio/print.c:146-160 | Takes back padding zeros only, one for a prefix digit and a second for the letter. |
| PrintInteger.DigitsParse | libc/stdio/print.c:227-241 | Reading the digits of a number gives the number. |
| PrintInteger.DigitsLength | libc/stdio/print.c:204-241 | A number of 3k bits has at most k digits to base 8 or more. |
| RoundTrip.LongRoundTrip | libc/stdio/print.c:201-245 | strtol gives back every long that was printed, LONG_MIN included, exactly when the value is 0 or the buffer had room for sign and prefix (sections 7.21.6.1 and 7.22.1.4 of ISO/IEC 9899:2011). |
| RoundTrip.UnsignedRoundTrip | libc/stdio/print.c:201-245 | strtoul gives back every unsigned long that was printed under the same condition. |
| RoundTrip.PrintedParses | libc/stdio/print.c:108-199 | Sign and value read from a printed text are those printed exactly when there was room; otherwise the value reads as 0 or the sign is lost. |
| RoundTrip.RoomBelowThirty | libc/stdio/print.c:108-199 | There is room whenever precision and zero-padded width are below 30. |
| RoundTrip.ParsedText | libc/stdlib/strtol.c:12-73 | How a text of spaces, sign, prefix, digits and spaces reads; a prefix that lost its zero hides the digits. |
| RoundTrip.PrefixLost | libc/stdio/print.c:162-178 | With a precision of 31 and the alternate form the zero of the prefix has no place, and strtol reads 0 for 255. |
| RoundTrip.SignLost | libc/stdio/print.c:181-196 | With a precision of 32 the minus sign has no place, and strtol reads 1 for -1. |
| RoundTrip.PrintedWidth | libc/stdio/print.c:76-106 | A printed text is at least as wide as asked for; padding with zeros stops at the 32 characters of the buffer. |
| RoundTrip.PrintedPrecision | libc/stdio/print.c:130-133 | With a precision up to 32 and room for sign and prefix, the parser finds at least that many digits. |
| PrintShape.PrintedShape | libc/stdio/print.c:76-245 | For every value and all flags, the printed text part by part: spaces, sign, prefix, zeros, digits and spaces, each with its exact length, also where the buffer cuts them off. |
| PrintShape.PlainShape | libc/stdio/print.c:76-245 | With room in the buffer: the sign asked for, 0x in full or a leading zero in the alternate form, zeros up to precision or field width, no digit for a zero of precision 0, and spaces up to the width on the side asked for. |
| PrintShape.PrintedLength | libc/stdio/print.c:76-199 | Without a precision the text is as long as sign, prefix and digits or as the width, whichever is more. |
| PrintShape.Examples | libc/stdio/print.c:76-245 | -42 with %05d is -0042, and 255 with %#X is 0XFF. |
| PrintShape.PrintedCase | libc/stdio/print.c:162-170 | Every letter of the text, prefix included, is upper case if asked for and lower case otherwise. |
| TicketLock.MutualExclusion | kernel/include/lock.hpp:22-48 | In every run at most one thread owns the lock, with unbounded counters and with counters modulo 2^64 or any other modulus above the number of threads. |
| TicketLock.FirstComeFirstServed | kernel/include/lock.hpp:24-29 | In every such run the outstanding tickets fill the places of a queue from the served ticket on, one thread for each place, and the owner is its head. |
| TicketLock.EarlierOwnsFirst | kernel/include/lock.hpp:24-48 | Over every such run, a thread that owns the lock with a ticket drawn later finds that whoever drew earlier has owned the lock with that ticket and released it. |
| TicketLock.GrantsInOrder | kernel/include/lock.hpp:24-47 | Every step of a run: a new owner has the ticket being served, releasing serves the next one, and no other step changes which is served. |
| TicketLock.SomeoneProceeds | kernel/include/lock.hpp:24-29 | In every such run, while tickets are outstanding, the thread with the served one owns the lock or does so after its next load. |
| TicketLock.TrueTryLockOwns | kernel/include/lock.hpp:50-59 | A try_lock that returned true has made its caller the only owner. |
| TicketLock.TryLockWaits | kernel/include/lock.hpp:50-59 | A try_lock that found the lock free becomes owner at its first load after drawing if and only if no ticket was outstanding as it drew; otherwise it waits. |
| TicketLock.TryLockUndisturbed | kernel/include/lock.hpp:32-59 | So it does not wait if no other thread draws between its load of the serving ticket and its own draw. |
| TicketLock.TryLockPasses | kernel/include/lock.hpp:32-55 | An undisturbed try_lock passes its test if and only if no ticket was outstanding at its load of the serving ticket. |
| TicketLock.TryLockCanWait | kernel/include/lock.hpp:50-59 | A run of two threads with 64-bit counters in which try_lock waits while the other owns the lock. |
| TicketLock.WrappedRun | kernel/include/lock.hpp:62-63 | Every run with wrapping counters is, state by state, the image of a run with unbounded ones. |
| TicketLock.WrappedStep | kernel/include/lock.hpp:22-58 | Every step of the wrapped lock is one of the unbounded lock. |
| TicketLock.StepKeepsInv | kernel/include/lock.hpp:22-58 | Every step keeps: outstanding tickets are distinct and exactly those from serving up to next, and an owner has the served one. |
| TicketLock.RunInv | kernel/include/lock.hpp:22-58 | So does every run. |
| TicketLock.UnlockGoesOn | kernel/include/lock.hpp:39-48 | The test in unlock never makes an owner give up without serving the next ticket. |
| PhysicalAllocator.Allocator.Allocate | kernel/memory/physical.cpp:117-174 | Takes exactly count consecutive clear bits below the limit, the first run from the saved index on or else the first one before it, never page 0; counters follow; panics exactly when no run lies on either side of the saved index: for one page exactly when none is free, with a free run exactly when every such run crosses the index. |
| PhysicalAllocator.Allocator.AllocateInternal | kernel/memory/physical.cpp:126-152 | One pass takes the first run between its start and the limit, and returns null exactly when there is none. |
| PhysicalAllocator.Allocator.Free | kernel/memory/physical.cpp:176-194 | Clears exactly the run; the counters still equal the bits exactly when all of its pages were in use and page 0 is not among them. |
| PhysicalAllocator.Allocator.MarkRun | kernel/memory/physical.cpp:137-140 | Marks the pages of a run and no other. |
| PhysicalAllocator.StreakStep | kernel/memory/physical.cpp:129-149 | The streak counter of the scan: no run has been passed, and the last pages are free. |
| PhysicalAllocator.CountFilled | kernel/memory/physical.cpp:169-171 | Filling a clear run, or clearing a full one, changes the count of clear bits by its length. |
| PhysicalAllocator.SinglePage | kernel/memory/physical.cpp:154-167 | A single free page always lies on one side of the starting point. |
| PhysicalAllocator.RunThere | kernel/memory/physical.cpp:129-149 | Enough clear bits in a row, anywhere between the bounds, are a run. |
| PhysicalAllocator.RunWhere | kernel/memory/physical.cpp:129-149 | Where there is a run, there are enough clear bits in a row. |
| PhysicalAllocator.CountCleared | kernel/memory/physical.cpp:187-193 | Clearing a run adds at most its length to the count of clear bits, and exactly that when all of it was set. |
| PhysicalAllocator.MissesFreeRun | kernel/memory/physical.cpp:154-167 | Allocations and a free after which a request for two pages panics although two consecutive pages are free. |
| PhysicalAllocator.FreeUndoesAllocate | kernel/memory/physical.cpp:117-194 | Freeing what was allocated restores the bitmap. |
| PhysicalAllocator.Bitmap.Set | kernel/include/libs/bitmap.hpp:78-90 | Changes one bit and no other. |
| PhysicalAllocator.Bitmap.Bit | kernel/include/libs/bitmap.hpp:67-71 | Reads the bit. |

## Left out

- BuddyTrees.BuddyTree.Release: requires that a node whose status is maximal is allocated itself; the code would also clear a node that is full through its children, which no caller passes.
- BuddyTrees.BuddyTree.Mark: requires a free node; the code calls anything else a bug in the caller and does not check.
- BuddyAllocator.Buddy.Realloc: a pointer that is not null must be that of a live block, as the C standard demands; for other pointers the code may mark a node that is partly used.
- BuddyAllocator.Buddy.ResizeStandard: only growing; shrinking clears bits it has just moved (kernel/memory/buddy_alloc.h:2404).
- BuddyAllocator.Buddy.Init: sizes above 2^63 are excluded, for which rounding up to a power of two wraps (BitMath.CeilingPow2Exact), and trees of order 64 (at most 2^62 blocks), because the code shifts a 64-bit 1 by 64 for them; that the address of the metadata is not null, aligned and different from that of the arena is given by the model's separate storage array.
- BuddyAllocator.Buddy.Calloc: the fill is a plain loop of zeros; the library's memset decrements the wrong counter (libc/string/memset.c:28) and is not part of this model.
- BuddyTrees.BuddyTree.PopulateSizeForOrder: the table is a sequence beside the bitset instead of words behind it in the same storage; TreeLayout.TableFits shows that they do not overlap.
- Paging.PageMap.VirtualToPhysical: requires the leaf table of the page; for an absent level the code reads the image of frame 0 as a table.
- Paging.PageMap.UnmapPage: requires the leaf table of the page, for the same reason.
- Paging.PageMap.RemapPage: requires the leaf table of the old page, for the same reason, and small pages.
- Paging.PageMap.VirtualToEntry: small pages only, and without allocation only pages whose leaf table exists.
- Paging.PageMap.GetNextLevel: the splitting of a large entry is not modelled; no entry above the leaf tables is ever large (Paging.PageMap.NeverLarge).
- Paging.PageMap.SetFlagsPage: small pages only.
- Paging.PageMap.MapPage: small pages only, and without MAP_WRITE_THROUGH, which shares its bit with a large-page flag; requires four frames to be available; without one the kernel panics and does not return.
- PhysicalAllocator.Allocator.Free: requires the run to end below the limit; the code clears pages that are not counted otherwise.
- PhysicalAllocator.Allocator.Allocate: the clearing of the allocated frames is not modelled, the frames not being part of the bitmap.
- PrintInteger.FinalizeInteger: the prefix of base 2 is not modelled.
- PrintInteger.TakeBack: the second character is taken back for base 16 only, the code does so for base 2 too.
- PrintInteger.PrintInteger: bases 8, 10 and 16; in base 2 the buffer cuts values of more than 32 bits.
- TicketLock.MutualExclusion: assumes that only the owner calls unlock, and sequentially consistent atomics.
- Shrinking the tree, the emptiness tests of the arena other than for growing, range reservation, `buddy_walk`, fragmentation, debug output and change tracking.
- Embedding the allocator in its arena and relocating it.
- Large pages, destruction of a page map, the copy of the kernel half into new maps, TLB maintenance, and the range operations that repeat the single-page ones.
- `virtual_allocate` and the setup of physical memory from the boot map.
- The format string parser around the integer printer, and bounded output.
- `strtoll` and `strtoull`, which repeat the two parsers.
- Scoped locks.
- Assembly, descriptor tables, devices, boot protocol.
