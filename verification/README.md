# A verified model of PureVisor's algorithmic cores

PureVisor is a freestanding C hypervisor. This project models its nine algorithmic parts in Dafny
and proves what each of them is for:

| files | part |
|---|---|
| `Raft`, `RaftNode`, `RaftLog`, `RaftElection`, `RaftSafety`, `RaftDuplication`, `RaftRules` | the RAFT consensus node, its log, and elections over whole runs of a cluster |
| `Bits`, `Buddy`, `BuddyLaws`, `FreeLists`, `PmmState`, `Pmm` | the buddy page allocator over page descriptors and linked free lists |
| `PageTables`, `Links`, `TableSpace`, `Ept`, `Paging` | four-level page tables in memory, the extended page tables of guests, and kernel paging contexts |
| `HeapBlocks`, `HeapList`, `Heap` | the kernel heap: sorted free list, best fit, split and two-sided coalescing |
| `Extents`, `Pool` | storage extents, thin and thick volumes, reads and writes |
| `Vms`, `VmRules`, `VmLaws`, `VmManager` | VM lifecycle counters, migration and rebalancing |
| `ConsoleQueue`, `Console` | the virtio console's receive path: byte ring and virtqueue |
| `NumberText` | number printing and parsing |

Two layers recur. Code that updates fields in place is a class whose methods follow the C functions
branch by branch, loops included; each method is proved against a function or relation on abstract
values. The theorems about whole runs, round trips and conservation are lemmas about those values.
Machine arithmetic that can wrap is written out (`% U32`, `% U64`, `Dec` and `Inc`, 16-bit queue
indices).

Where the code falls short of what one would expect of it, the exact condition is proved:

* the order of log terms survives every operation except the wrap of the 64-bit term
  (`RaftLog.OrderedTermsStep`), and a run from the initial state loses it
  (`RaftLog.TermWrapBreaksOrder`);
* with messages that may be delivered more than once, elections are safe over every run exactly in
  clusters of at most three members (`RaftDuplication.SafeExactlyIfSmall`);
* after a successful heap request the blocks still tile the heap and the result has the bytes asked
  for exactly if the request is at most 2^64 - 48 bytes and, where the heap had to grow for it,
  needs at most the 16 KB it grows by (`Heap.Allocator.Kmalloc`); two requests on a fresh heap reach
  the failure (`Heap.FullHeapOverrun`);
* a page mapped for user mode is never accessible from user mode, for the tables on the way are not
  marked so; writing and execution are as asked (`Paging.EffectiveAccess`, `Paging.Map`);
* written bytes are kept exactly when the write does not land on extent 0, whose number means
  "unallocated" in an extent map; and after the write that takes an extent, the rest of it reads as
  zero exactly where the device held a zero, for extents are not cleared (`Pool.StoragePool.Write`);
* node counts add up to the number of active VMs over every run exactly when the manager has a local
  node (`VmLaws.CountsAgree`, `VmLaws.NoLocalNode`);
* a migration by the rebalancer reduces the imbalance exactly when some online node has a count of at
  most 2^32 - 3 (`VmLaws.RebalanceDecreases`, `VmLaws.RebalancingPingPong`).

Parameters stand for what lies outside the code: the pages the physical allocator will hand out
(`pool`, `region`), whether an allocation succeeds (`allocOk`), whether a timer has run out (`due`),
the boot memory map, device contents, and what the guest writes into its queues.

## Model

| member | source | states |
|---|---|---|
| `RaftSafety.OneLeaderPerTerm` | src/storage/distributed.c:69-190 | Election safety: in every run with loss and reordering, two nodes that lead the same term, at any two moments, are the same node |
| `RaftSafety.ElectionRestriction` | src/storage/distributed.c:142-190 | A node becomes leader only after a strict majority has voted for it in that term, and at the moment it cast that vote its last (term, index) was no later than the winner's |
| `RaftSafety.VoteDiscipline` | src/storage/distributed.c:69-74 | Terms never fall; a vote changes within a term only from the candidate's own vote to another node, and then this node leads that term at no moment of the run |
| `RaftSafety.RunsStayGood` | src/storage/distributed.c:39-63 | Every state of every run is within the bounds that the steps demand, so the model excludes no behaviour |
| `RaftSafety.HistoryOf` | src/storage/distributed.c:132-216 | Every run has a history of granted and counted votes satisfying the election invariant; terms and votes only advance |
| `RaftDuplication.SafeExactlyIfSmall` | src/storage/distributed.c:181-188 | When the network may also duplicate messages, no two nodes ever lead one term over every run if and only if the cluster has at most three members: votes are counted without remembering senders |
| `RaftDuplication.SmallClusterSafe` | src/storage/distributed.c:132-190 | The safe half: over every run of a duplicating network with at most three members |
| `RaftDuplication.LargeClusterUnsafe` | src/storage/distributed.c:181-188 | The other half: for every cluster of 4 to 16 members a run in which two candidates win the same term, each with one vote delivered again and again |
| `RaftDuplication.DupStep` | src/storage/distributed.c:359-437 | Every step of a duplicating network keeps: one vote per node and term, every granted response stands for a vote, every winner had another node's vote and voted for nobody else |
| `RaftElection.AnyStep` | src/storage/distributed.c:359-437 | Any delivery, loss, timer or client step preserves the election invariant for some extended history |
| `RaftElection.WinningStep` | src/storage/distributed.c:181-188 | The only step that makes a leader is the delivery of a granted, uncounted vote of the candidate's term that completes a majority |
| `RaftElection.TimeoutStep` | src/storage/distributed.c:80-108 | A timeout preserves the invariant: no vote of the new term exists yet |
| `RaftElection.GrantStep` | src/storage/distributed.c:142-160 | A granted vote preserves the invariant: one grant per voter and term, with the voter's log position at that moment |
| `RaftElection.QuorumsMeet` | src/storage/distributed.c:185-187 | Two strict majorities of the members share a node |
| `RaftLog.ScanIsGreatest` | src/storage/distributed.c:267-286 | The leader's scan ends at the greatest index of its own term that a majority has matched, or where it started |
| `RaftLog.CommitRule` | src/storage/distributed.c:253-286 | After a successful append response the commit index is the greatest index of the current term held by a majority (as a set of peers), or unchanged |
| `RaftLog.BookkeepingStep` | src/storage/distributed.c:192-437 | Any operation on any message keeps last_applied <= commit_index <= last_index <= 1023, extends the log without rewriting it, and never takes back a commit |
| `RaftLog.AppliedOnceInOrder` | src/storage/distributed.c:359-368 | Over any run the entries applied are those at 1, 2, ..., last_applied, each once and in order |
| `RaftLog.CommitsAreFinal` | src/storage/distributed.c:231-236 | A later state of any run extends the log, commit index and applied index of an earlier one |
| `RaftLog.OrderedTermsStep` | src/storage/distributed.c:80-85 | Log terms stay non-decreasing and at most the current term if and only if the operation does not wrap the term of a node with an entry of a term above 0 |
| `RaftLog.LogTermsOrdered` | src/storage/distributed.c:39-63 | Over every run in which no term wraps, log terms are non-decreasing and at most the current term |
| `RaftLog.TermWrapBreaksOrder` | src/storage/distributed.c:80-85 | A run of a freshly started node of three that wraps its term and ends with an entry of a later term than its own |
| `RaftRules.VoteRule` | src/storage/distributed.c:132-167 | The exact answer to a vote request and the whole state after it, on node states alone |
| `RaftRules.FreeVoteIsGranted` | src/storage/distributed.c:142-160 | In a run, a member whose vote is free and whose log is no later answers a delivered request with a granted vote |
| `RaftRules.CountRule` | src/storage/distributed.c:169-190 | A vote counts only for a candidate in its own term, and makes it leader if and only if it completes a strict majority of the members |
| `RaftRules.LeaderRule` | src/storage/distributed.c:110-126 | A new leader resets every peer to its own end of log and appends one empty entry of its term if there is room |
| `RaftRules.AppendRule` | src/storage/distributed.c:192-243 | The exact answer to an append request and the whole state after it |
| `RaftRules.AppendAnswerRule` | src/storage/distributed.c:245-293 | On success the leader notes the peer's match index, on refusal it backs up by one but not below 1; no other peer changes |
| `RaftRules.StrayAnswerRule` | src/storage/distributed.c:245-265 | Answers to a node that does not lead, or from strangers, change nothing but a later term |
| `RaftRules.CampaignRule` | src/storage/distributed.c:80-108 | A timeout sends a vote request with the node's last position to exactly the other members and votes for itself in the next term |
| `RaftRules.HeartbeatRule` | src/storage/distributed.c:369-391 | A leader's timer sends to exactly the other members the position before their next entry, the term found there, and the commit index |
| `RaftRules.SubmitRule` | src/storage/distributed.c:429-437 | A client request becomes one entry of the current term on a leader with room, and nothing anywhere else |
| `RaftNode.RaftContext.AppendLogEntry` | src/storage/distributed.c:39-63 | The array code appends one entry of the current term, or refuses a full log; a failed copy leaves an entry without data |
| `RaftNode.RaftContext.BecomeFollower` | src/storage/distributed.c:69-78 | Computes the abstract transition, which clears the vote even when the term stays |
| `RaftNode.RaftContext.BecomeCandidate` | src/storage/distributed.c:80-108 | Computes the abstract transition and sends one vote request to every other member |
| `RaftNode.RaftContext.BecomeLeader` | src/storage/distributed.c:110-126 | Computes the abstract transition: peers reset, one empty entry of the new term appended |
| `RaftNode.RaftContext.HandleVoteRequest` | src/storage/distributed.c:132-167 | A vote is granted if and only if it is free in the request's term or went to the same node, and the candidate's last (term, index) is no earlier; term, vote and role afterwards; the rest is the abstract outcome |
| `RaftNode.RaftContext.HandleVoteResponse` | src/storage/distributed.c:169-190 | The handler's field updates are the abstract outcome |
| `RaftNode.RaftContext.HandleAppendRequest` | src/storage/distributed.c:192-243 | The request succeeds if and only if its term is current and the previous entry is there with the stated term; match index, commit index, term and role afterwards, including the same-term step-down; the rest is the abstract outcome |
| `RaftNode.RaftContext.AdvanceCommit` | src/storage/distributed.c:267-286 | The two nested loops compute the scan |
| `RaftNode.RaftContext.HandleAppendResponse` | src/storage/distributed.c:245-293 | The handler's updates of the peer array and the commit index are the abstract outcome |
| `RaftNode.RaftContext.RecvMessage` | src/storage/distributed.c:405-427 | Dispatch by message type; unknown types are refused and change nothing; any message keeps the log bounds and extends log and commit index |
| `RaftNode.RaftContext.Tick` | src/storage/distributed.c:359-403 | The tick's application loop, heartbeats and election timeout are the abstract outcome, and hand over exactly the committed entries not applied before |
| `RaftNode.RaftContext.Submit` | src/storage/distributed.c:429-437 | Only a leader appends a client entry |
| `RaftNode.RaftContext.constructor` | src/storage/distributed.c:299-346 | raft_init and raft_add_node reach the initial abstract node |
| `Buddy.CoalesceTiles` | src/mm/pmm.c:93-104 | Coalescing a returned block leaves a partition of the same pages |
| `Buddy.SplitTiles` | src/mm/pmm.c:84-91 | Splitting a block leaves a partition of the same pages |
| `Buddy.BuddyFacts` | src/mm/pmm.c:76-82 | The buddy is aligned and disjoint, the buddy of the buddy is the block, and the two make up the block of the next order |
| `Buddy.Nested` | src/mm/pmm.c:76-82 | Aligned blocks that share a page are nested |
| `BuddyLaws.StepKeeps` | src/mm/pmm.c:208-264 | Every allocation or free keeps free and live blocks a partition of available memory and creates no pair of free buddies |
| `BuddyLaws.RunKeeps` | src/mm/pmm.c:208-264 | The same over every run of allocations and matching frees |
| `BuddyLaws.AllocFreeRoundTrip` | src/mm/pmm.c:208-264 | Allocating from a block without a free buddy and freeing the result restores the very same free and live blocks |
| `BuddyLaws.Canonical` | src/mm/pmm.c:93-104 | Two partitions of the same pages without free buddies are equal |
| `BuddyLaws.RunRoundTrip` | src/mm/pmm.c:208-264 | From a state without free buddies, any run that ends with the same live blocks ends with the same free blocks |
| `BuddyLaws.BuddyHeads` | src/mm/pmm.c:97 | In a partition the buddy's first page can only be the start of a block, and of one no larger |
| `PmmState.StaleFlagsHarmless` | src/mm/pmm.c:93-104 | The descriptor test of coalesce_buddies succeeds if and only if the buddy heads a free block of that order, which is then on this zone's list, whatever stale flags descriptors hold |
| `FreeLists.AddKeepsLists` | src/mm/pmm.c:47-60 | Pushing a descriptor keeps all lists well linked, sorted into their zone and order, and counted |
| `FreeLists.RemoveKeepsLists` | src/mm/pmm.c:62-74 | Unlinking a descriptor keeps all lists well linked and counted |
| `FreeLists.SameZone` | src/mm/pmm.c:40-45 | A block of at most the maximum order lies in one zone |
| `Pmm.Allocator.constructor` | src/mm/pmm.c:123-206 | pmm_init makes exactly the pages that lie wholly in available entries, past the reserved ones, free blocks of order 0; used, free and reserved bytes add up to all of memory modulo 2^64 |
| `Pmm.Allocator.SecondPass` | src/mm/pmm.c:178-204 | The nested loops over map entries add each available page once and set the statistics to match |
| `Pmm.Allocator.FreeListAdd` | src/mm/pmm.c:47-60 | The array code pushes the page on the list of its zone and order |
| `Pmm.Allocator.FreeListRemove` | src/mm/pmm.c:62-74 | The array code takes the page off its list, leaving its flags as they were |
| `Pmm.Allocator.CoalesceBuddies` | src/mm/pmm.c:93-104 | The loop over descriptors computes the abstract coalescing on the sets of blocks |
| `Pmm.Allocator.SplitBlock` | src/mm/pmm.c:84-91 | The loop frees exactly the upper halves down to the wanted order |
| `Pmm.Allocator.AllocPages` | src/mm/pmm.c:208-240 | Fails if and only if no zone it may use has an adequate free block; otherwise it serves the best choice (highest zone, smallest order), splits it as the abstract allocation does, and both counters move by exactly the block |
| `Pmm.Allocator.FreePages` | src/mm/pmm.c:242-264 | Freeing a live block is the abstract free with exact counters; calls the code turns away change neither blocks nor byte counters |
| `PageTables.EntryFields` | src/vmm/ept.c:59-66 | An entry made of a page address and flags gives back the address and the flags |
| `PageTables.IndexIs` | src/vmm/ept.c:42-45 | The nine-bit shift-and-mask index of each level in arithmetic |
| `PageTables.WalkReaches` | src/vmm/ept.c:36-96 | The table at the place of an address decides its translation |
| `PageTables.GrowTree` | src/vmm/ept.c:55-66 | Linking a fresh zeroed table keeps the tree free of sharing |
| `PageTables.GrowLookup` | src/vmm/ept.c:55-66 | Linking a fresh table changes the translation of no address |
| `PageTables.LeafLookup` | src/vmm/ept.c:135-189 | Writing a leaf changes the translation of exactly the addresses under it |
| `PageTables.LeafTree` | src/vmm/ept.c:135-189 | Writing a leaf keeps the tree free of sharing |
| `TableSpace.Space.Descend` | src/vmm/ept.c:47-90 | One level of the walk: follows or creates a table, or fails exactly when an entry is missing and no page may be or can be taken; no translation changes |
| `TableSpace.Space.Refill` | src/vmm/ept.c:18-26 | Memory may run out and come back between calls: whatever pages the allocator has next, no translation changes |
| `Ept.WalkTo` | src/vmm/ept.c:36-96 | The walk ends at the entry that decides the address, and changes no translation even when it creates tables |
| `Ept.GetHostPhys` | src/vmm/ept.c:287-305 | The lookup computes the abstract translation with the offset of the page size found |
| `Ept.LeafWordFields` | src/vmm/ept.c:145-149 | A leaf word holds the page address, the permission in bits 0 to 2 and the memory type in bits 3 to 5, is present exactly when read permission is given, and large exactly when asked |
| `Ept.EffectiveRights` | src/vmm/ept.c:55-90 | What the guest may do at an address, which every entry on the walk must grant, is the permission of the leaf: the tables on the way grant everything |
| `Ept.OffsetRule` | src/vmm/ept.c:287-305 | An address in a page of any of the three sizes translates to the page's base plus the offset within it |
| `Links.EveryIs` | src/vmm/ept.c:36-96 | A property of all entries on the walk for a mapped address comes down to the leaf and to the flags of the entries that point to tables |
| `Links.GrowLinks` | src/vmm/ept.c:55-66 | A newly linked table is pointed to with the flags of all others |
| `Ept.MapPage` | src/vmm/ept.c:135-150 | Exactly the addresses of the 4 KB page get the new leaf, with this permission and memory type, and the guest has exactly this permission there; failure means memory ran out and changes nothing |
| `Ept.SmallLeafOverLarge` | src/vmm/ept.c:135-150 | A 4 KB leaf written over a larger one is taken for a pointer to a table if and only if it grants read permission |
| `Ept.MapPage2M` | src/vmm/ept.c:152-189 | Exactly the addresses of the 2 MB region get the new leaf, with this permission and memory type, whatever 4 KB pages were there |
| `Ept.UnmapPage` | src/vmm/ept.c:220-231 | Succeeds if and only if the address is mapped, and unmaps exactly the page or region that mapped it |
| `Ept.MapRange` | src/vmm/ept.c:233-265 | Every address in the mapped whole pages translates to its offset from the host base and has exactly the permission and memory type asked for, whatever mix of leaves was used; every other address keeps its translation, also when memory runs out half-way |
| `Paging.PteFlagFields` | src/mm/paging.c:27-37 | The flag word carries no address bits, is present and is not large; bit 1 is set exactly for writing, bit 2 exactly for user mode, bit 4 exactly against caching, bit 63 exactly without execution |
| `Paging.EffectiveAccess` | src/mm/paging.c:59-110 | At a mapped address writing and execution are possible as the leaf says, and user mode has no access whatever it says: get_pte does not mark the tables on the way for user mode |
| `Paging.CreateContext` | src/mm/paging.c:130-151 | A new context maps nothing in the lower half and what the kernel maps in the upper half |
| `Paging.GetPte` | src/mm/paging.c:59-110 | Ends at the entry that decides the address and changes no translation; every table it creates is accounted for |
| `Paging.GetPhys` | src/mm/paging.c:296-304 | The lookup computes the abstract translation |
| `Paging.Map` | src/mm/paging.c:252-275 | Lookups agree with a finite map: every address of the mapped part has a 4 KB leaf to its target with exactly these flag bits, the rest of the lower half is unchanged; writing and execution are possible exactly as asked, user access never; the tables taken are still exactly those in use, also on failure half-way |
| `Paging.Unmap` | src/mm/paging.c:277-294 | No address of the range stays mapped and no other is affected |
| `Paging.Destroy` | src/mm/paging.c:153-197 | The triple loop frees every page ever taken for this context's tables exactly once, and nothing else |
| `Paging.FreesConcat` | src/mm/paging.c:162-187 | Freeing disjoint parts of the tree one after the other frees no table twice |
| `Paging.UnderEntry` | src/mm/paging.c:162-187 | The tables under one entry are those of its subtree, none if it is absent |
| `HeapBlocks.CutTiles` | src/mm/heap.c:143-161 | Cutting a block keeps the blocks a tiling of the arena |
| `HeapBlocks.JoinTiles` | src/mm/heap.c:99-122 | Joining neighbours keeps the blocks a tiling of the arena |
| `HeapList.InsertOk` | src/mm/heap.c:64-85 | Linking a block in at its place keeps the list sorted and doubly linked |
| `HeapList.UnlinkOk` | src/mm/heap.c:87-97 | Unlinking a block keeps the list sorted and doubly linked |
| `Heap.OverrunBreaksTiling` | src/mm/heap.c:143-161 | A split for more bytes than the block has leaves no tiling, whatever the 32-bit size fields end up holding: the block claims its neighbour's bytes, gives up bytes nobody takes, or leaves a tail of size 0 |
| `Heap.ServesIf` | src/mm/heap.c:204-211 | A block taken for a request has the bytes asked for if and only if the request is at most 2^64 - 48 bytes |
| `Heap.FullHeapOverrun` | src/mm/heap.c:211-240 | From a fresh heap: with its one block taken whole, a request for 20000 bytes yields a block that claims 20032 bytes of a 16 KB region |
| `Heap.Allocator.constructor` | src/mm/heap.c:167-195 | The heap starts as a single free block that tiles the arena |
| `Heap.Allocator.FreeListAdd` | src/mm/heap.c:64-85 | The pointer code inserts the block at its place in the address order |
| `Heap.Allocator.FreeListRemove` | src/mm/heap.c:87-97 | The pointer code takes the block out of the list |
| `Heap.Allocator.Coalesce` | src/mm/heap.c:99-122 | The block is joined with its free neighbours on either side, so that no two free blocks touch; live blocks keep place and size |
| `Heap.Allocator.FindFreeBlock` | src/mm/heap.c:124-141 | The search finds the smallest free block that is large enough, or none if none is |
| `Heap.Allocator.LinkInto` | src/mm/heap.c:64-85 | The code of free_list_add on any list that can be walked up to the block, also one a split has damaged |
| `Heap.Allocator.SplitBlock` | src/mm/heap.c:143-161 | Within the block, the remainder becomes a free block of its own exactly when it is large enough; past it, the headers hold the wrapped difference and the truncated sizes |
| `Heap.Allocator.Kmalloc` | src/mm/heap.c:197-256 | Fails if and only if the size is 0 or nothing fits and the heap cannot grow; else takes the best fit or a new region and cuts it; tiling, list, and usage are kept and the bytes asked for are served if and only if the size does not wrap and the request does not overrun the 16 KB it grew by |
| `Heap.Allocator.Kfree` | src/mm/heap.c:258-284 | Removes exactly this block from the live ones, keeps place and size of all others, tiling, order and the statistics (allocated = freed + in use); other pointers change nothing |
| `Heap.Allocator.AllFreed` | src/mm/heap.c:99-122 | A heap that never grew and has no live block is back to its single initial free block, whatever calls led there |
| `Heap.OneBlockLeft` | src/mm/heap.c:99-122 | Free blocks that tile an interval and do not touch are one block |
| `Extents.CountZero` | src/storage/pool.c:125-127 | The free count is 0 if and only if no extent is free |
| `Extents.CountUpdate` | src/storage/pool.c:131-134 | How one extent's change moves the count |
| `Extents.WriteByte` | src/storage/pool.c:71-88 | A write within an extent changes these bytes of it and no byte of any other extent |
| `Pool.StoragePool.AllocExtent` | src/storage/pool.c:123-152 | Finds an extent if and only if one is free, although the second scan starts at 1, and it is the first free one from the cursor on or else from 1 on; the count stays exact |
| `Pool.ProvisionStep` | src/storage/pool.c:380-393 | Each turn of the provisioning loop adds one extent that was free, different from all before |
| `Pool.ExtentsForIs` | src/storage/pool.c:353-354 | The number of extents of a volume is the least that holds its size |
| `Pool.StoragePool.FreeExtent` | src/storage/pool.c:154-161 | Frees the extent unless it is number 0 or out of range; the count stays exact |
| `Pool.StoragePool.AddDevice` | src/storage/pool.c:252-302 | Adds the device's whole extents as free ones and disturbs no volume |
| `Pool.StoragePool.VolumeCreate` | src/storage/pool.c:346-428 | Succeeds if and only if the pool is online, memory is there and, for a thick volume, enough extents are free; a thin volume's map is all 0, a thick one's entries are pairwise different extents that were free and now belong to it, 0 only at the front where extent 0 was free; all other extents and volumes are as before |
| `Pool.StoragePool.VolumeDestroy` | src/storage/pool.c:430-469 | Frees exactly the volume's extents, every other extent stays as it was, and so do the bytes of all other volumes |
| `Pool.StoragePool.VolumeResize` | src/storage/pool.c:471-502 | Growing adds unallocated extents and forgets no byte; shrinking is refused |
| `Pool.StoragePool.Read` | src/storage/pool.c:26-99 | Read after write: a read within one extent returns, for every byte ever written there and kept, the last value written, whatever other volumes did since; zeros where nothing is allocated |
| `Pool.StoragePool.Write` | src/storage/pool.c:26-99 | A write within one extent records its bytes for good unless it is given extent 0, which happens exactly when it must allocate and extent 0 is free, and never again after; the other bytes of a newly taken extent are what the device held; it fails if and only if the volume or pool is offline, the offset is past the end or no extent is left; no other byte of any extent changes |
| `Pool.StoreRemembers` | src/storage/pool.c:67-88 | A write to one volume changes no remembered byte of any volume but those it writes |
| `Pool.AssignIsolated` | src/storage/pool.c:50-59 | An allocation on write keeps all non-zero map entries distinct across volumes |
| `Pool.StillRemembers` | src/storage/pool.c:346-469 | Whatever keeps the entries in use and their bytes keeps every written byte |
| `VmLaws.StepKeeps` | src/cluster/vm.c:72-339 | Every lifecycle operation, migration, rebalancing or change of online nodes keeps the counters in agreement |
| `VmLaws.CountsAgree` | src/cluster/vm.c:72-339 | Over every run running_count is the number of RUNNING or PAUSED VMs and, given a local node, the sum of all vm_counts, modulo 2^32, although stop always decrements the local node |
| `VmLaws.NoLocalNode` | src/cluster/vm.c:149-155 | Without a local node the sum is off after one create and one start |
| `VmLaws.MigrateKeeps` | src/cluster/vm.c:295-339 | A migration conserves the sum of vm_counts modulo 2^32 |
| `VmLaws.RestartKeeps` | src/cluster/vm.c:230-240 | A restart leaves the VM running from whatever state, with all counters in agreement |
| `VmRules.CreateRule` | src/cluster/vm.c:72-103 | A new VM is created on the local node, at the head of the list, with the next id |
| `VmRules.StartRule` | src/cluster/vm.c:129-157 | Exactly a created or stopped VM starts, and counts on the local node |
| `VmRules.StopRule` | src/cluster/vm.c:159-181 | Exactly a running or paused VM stops, and leaves the count of the local node wherever it ran |
| `VmRules.ForceStopRule` | src/cluster/vm.c:183-204 | A forced stop ends every state but two, and moves counters for running and paused VMs only |
| `VmRules.PauseResume` | src/cluster/vm.c:206-228 | Pausing and resuming undo each other |
| `VmRules.StartStop` | src/cluster/vm.c:129-181 | Starting a stopped VM and stopping it again restores every counter and node |
| `VmRules.DestroyRule` | src/cluster/vm.c:105-127 | A VM leaves the list, stopped first if it was active |
| `VmRules.MigrateRule` | src/cluster/vm.c:295-339 | A migration moves the VM's host and one unit of count from the old node to the new one, and nothing else |
| `VmRules.RebalanceRule` | src/cluster/scheduler.c:337-353 | A call picks a VM if and only if the busiest node has over two VMs more than the idlest, in 32-bit arithmetic, and hosts one that can move |
| `VmLaws.RebalanceDecreases` | src/cluster/scheduler.c:320-353 | A call that picks a VM lowers the sum of squares by at least 4 if some online node is at most 2^32 - 3 and leaves it equal otherwise; the sum of counts is always conserved |
| `VmLaws.RebalanceMoves` | src/cluster/scheduler.c:337-353 | One unit moves from the busiest to the idlest online node, and the sum of squares falls by 2 (max - min) - 2 |
| `VmLaws.RebalancingConverges` | src/cluster/scheduler.c:296-357 | Repeated calls migrate at most a quarter as often as the initial sum of squares, and never return to the initial distribution after a move |
| `VmLaws.RebalancingPingPong` | src/cluster/scheduler.c:337-338 | Two nodes at 2^32 - 1 and 2^32 - 2 exchange their counts for ever, with all counters in agreement |
| `VmManager.VmManager.VmDestroy` | src/cluster/vm.c:105-127 | Stops a running VM first, removes it and keeps the counters in agreement |
| `VmManager.VmManager.VmStart` | src/cluster/vm.c:129-157 | Succeeds if and only if the VM is created or stopped; counters in agreement |
| `VmManager.VmManager.VmStop` | src/cluster/vm.c:159-181 | Succeeds if and only if the VM runs or is paused; counters in agreement |
| `VmManager.VmManager.VmPause` | src/cluster/vm.c:206-216 | Succeeds if and only if the VM runs; counters unchanged and in agreement |
| `VmManager.VmManager.VmResume` | src/cluster/vm.c:218-228 | Succeeds if and only if the VM is paused; counters unchanged and in agreement |
| `VmManager.VmManager.VmForceStop` | src/cluster/vm.c:183-204 | Stops from any state, counting only running or paused VMs |
| `VmManager.VmManager.VmRestart` | src/cluster/vm.c:230-240 | Always succeeds and ends in RUNNING |
| `VmManager.VmManager.VmMigrate` | src/cluster/vm.c:295-339 | Moves host and counts, back in its state before; refused unless running or paused |
| `VmManager.VmManager.FindExtremes` | src/cluster/scheduler.c:320-335 | The scan yields the first online node with the greatest count and the first with the least |
| `VmManager.VmManager.RebalanceNodes` | src/cluster/scheduler.c:296-357 | One call migrates the first movable VM of the busiest node to the idlest if and only if the 32-bit imbalance test holds and there is one; total conserved, squares fall by at least 4 |
| `ConsoleQueue.StreamKept` | src/virtio/virtio_console.c:110-141 | The bytes put into buffers followed by those left in the ring are the ring's bytes before: no loss, duplication or reordering |
| `ConsoleQueue.ServesAll` | src/virtio/virtio_console.c:115-136 | Processing ends with the ring empty, the queue off or nothing more available, after at most as many buffers as were available |
| `ConsoleQueue.StopsAtOnce` | src/virtio/virtio_console.c:115-136 | No available entry is taken in vain: without bytes none, and the last one taken got the last byte |
| `ConsoleQueue.PiecesFit` | src/virtio/virtio_console.c:120-134 | Each piece fits a writable descriptor in range, and every buffer but the last is filled, the last one too if bytes are left over |
| `ConsoleQueue.ServedInOrder` | src/virtio/virtio.c:45-62 | The buffers served are the first suitable ones of the available ring, in order, each once, across the 16-bit wrap |
| `ConsoleQueue.ReportedInOrder` | src/virtio/virtio.c:90-105 | Up to 256 reports are found in the used ring one after the other with their lengths, across the 16-bit wrap |
| `ConsoleQueue.GuestReads` | src/virtio/virtio_console.c:122-131 | A guest buffer holds the bytes of its piece unless a later piece overlaps it |
| `ConsoleQueue.ReportedElsewhere` | src/virtio/virtio.c:90-105 | No other slot of the used ring changes |
| `ConsoleQueue.DeliveredElsewhere` | src/virtio/virtio_console.c:122-131 | No byte of guest memory outside the pieces changes |
| `ConsoleQueue.GuestGetsStream` | src/virtio/virtio_console.c:110-141 | With buffers that do not overlap, what the guest collects from memory followed by the ring is the stream |
| `Console.RingBuffer.Get` | src/virtio/virtio_console.c:35-43 | Takes the oldest byte off the wrapping ring |
| `Console.RingBuffer.Write` | src/virtio/virtio_console.c:45-56 | Appends as many bytes as there is room for, and returns how many |
| `Console.Virtqueue.Pop` | src/virtio/virtio.c:45-62 | Takes the next available head, or nothing when the queue is off or empty |
| `Console.Virtqueue.Push` | src/virtio/virtio.c:90-105 | Reports a buffer in the used ring at the wrapped index |
| `Console.ConsoleDevice.ProcessRx` | src/virtio/virtio_console.c:110-141 | Terminates, and leaves ring, queue, guest memory and used ring as the abstract service says; delivered bytes followed by the ring stay the accepted bytes |
| `Console.ConsoleDevice.ConsoleWrite` | src/virtio/virtio_console.c:180-188 | Accepts exactly the bytes that fit, in order, and serves the guest |
| `Console.ConsoleDevice.Notify` | src/virtio/virtio_console.c:143-149 | A guest notification serves the ring and accepts nothing |
| `Console.ConsoleDevice.GuestSets` | src/virtio/virtio.c:26-43 | Whatever the guest does to its descriptors, rings and indices between calls leaves the stream intact |
| `Console.ConsoleDevice.Reset` | src/virtio/virtio_console.c:166-174 | A reset starts the stream anew |
| `NumberText.RoundTrip` | src/lib/string.c:267-413 | For every 64-bit value and base 2 to 36, parsing the printed text in that base gives the value and stops at the terminator, whatever follows |
| `NumberText.NumeralUnique` | src/lib/string.c:267-296 | Printing the parsed value gives back every upper-case digit string without leading zeros |
| `NumberText.NumeralValue` | src/lib/string.c:278-282 | The printed text consists of digits of the base and has the value printed |
| `NumberText.NumeralLength` | src/lib/string.c:278-284 | At most k digits below 2^k, so 65 characters are enough for any 64-bit value |
| `NumberText.NoLeadingZero` | src/lib/string.c:278-282 | A printed number starts with 0 only if it is 0 |
| `NumberText.DecimalDetected` | src/lib/string.c:368-380 | Decimal output parses back with automatic choice of the base, 0 included |
| `NumberText.PrefixedRoundTrip` | src/lib/string.c:357-386 | The same with blanks, a plus sign, and "0x" or "0X" for base 16 or automatic choice in front |
| `NumberText.OctalDetected` | src/lib/string.c:368-377 | Octal output behind a 0 parses back with automatic choice of the base |
| `NumberText.LowerCase` | src/lib/string.c:389-400 | Lower-case letters count as upper-case ones |
| `NumberText.Utoa` | src/lib/string.c:267-296 | The digit loop and the reversal in place leave the numeral and its terminator in the buffer; bases outside 2..36 give the empty string; nothing after it is touched |
| `NumberText.ReverseInPlace` | src/lib/string.c:286-293 | The two-pointer loop reverses the digits and nothing else |
| `NumberText.Strtoul` | src/lib/string.c:352-413 | Returns the value modulo 2^64 of the longest digit run after blanks, sign and base prefix, and where it ends |

## Left out

- Log replication across nodes: followers store no entries (src/storage/distributed.c:226-228), so log matching, leader completeness and state-machine safety would say nothing.
- RaftSafety.OneLeaderPerTerm: assumes a fixed membership of at most 16 that lists every node once, itself included, ids below 2^31, no restarts and no message delivered twice; RaftDuplication.SafeExactlyIfSmall says for which clusters the last can be dropped.
- RaftElection.AnyStep: timer steps in cluster runs are those in which the node's 64-bit term counter has not run out; RaftLog.OrderedTermsStep says what happens when it does.
- Timers are flags: the mixing of TSC values and milliseconds, and random timeouts, are not part of this model.
- The payload of append requests, which the handler never stores, is kept only as the number of entries.
- The active flag of cluster nodes, which only runtime removal clears, and the volume offset noted in an extent, which nothing reads.
- Locks and interrupt flags around the allocators; every call is one atomic step.
- Pmm.Allocator.constructor: the boot map's available regions do not overlap, and end below the 64-bit address limit.
- Pmm.Allocator.FreePages: double frees of an inner page and frees with another order than allocated are outside its precondition; the code cannot tell them from proper ones.
- Pmm.Allocator.FreePages: the leak statistic of failed calls and total_pages, which is never set.
- Ept.MapPage: a 4 KB map over an existing larger page is outside its precondition; Ept.SmallLeafOverLarge says what the leaf then is.
- Ept.MapPage2M: a 2 MB map under a 1 GB page is outside its precondition.
- Ept.MapRange: page-aligned addresses, guest range within 48 bits and host range within 52 bits, permission and memory type of three bits each.
- 1 GB mappings, permission changes, the mapped-pages counter, violations, and ept_destroy, which frees only the root by its own comment (src/vmm/ept.c:128).
- Paging.Map: the 4 KB path with whole pages in the lower half; huge pages and the kernel's own context are not part of this model.
- Paging.CreateContext: the kernel's upper-half tables are a copy made at creation, so later kernel mappings, which the shared tables would show, are not captured.
- Paging.GetPhys: a context without large pages; the code adds a 12-bit offset to a large page as well (src/mm/paging.c:303).
- Page tables are a map from page numbers to sequences of entries that the methods update, not raw memory; a mapped frame that is itself a table is not modelled.
- Heap.Allocator.Kmalloc: after a request that overran its region only the headers written and the loss of the tiling are stated; no later call is covered. Regions lie below 4 GB of physical memory, where the page allocator takes them from (src/mm/pmm.c:214), so block sizes fit 32 bits. Clearing the payload for GFP_ZERO is not modelled.
- Heap.Allocator.Kfree: pointers that never came from kmalloc; krealloc, kcalloc, kstrdup and the slab wrappers, which only call kmalloc and kfree.
- Heap headers live in a map from addresses to headers, not in the bytes of the arena; headers that overlap in part, and writes beyond a payload, are not modelled.
- Pool.StoragePool.Read: requests that cross an extent, and device errors; the block devices always answer.
- Pool snapshots, which share extents without copying, replicas, device removal, flushes, used_size and free_size.
- Pool.StoragePool.AddDevice: the total number of extents stays below 2^32, and a device is added once.
- VM names, configuration, statistics, timestamps and state-change callbacks; a VM pointer is its place in the list.
- The average that scheduler_rebalance computes and never uses, node scores and placement (src/cluster/scheduler.c:39-267), and evacuation.
- VmManager.VmManager.RebalanceNodes: the 64-bit counter of triggered migrations does not wrap.
- ConsoleQueue.Serve: a guest buffer never overlaps the rings or the descriptor table, and the guest changes its queue between calls, not during one.
- Console.Virtqueue.Pop: the length of the descriptor chain, of which the caller uses only that it is positive, is not computed.
- The event-index comparison of virtq_should_notify (event_idx is never enabled), the transmit queue, PCI configuration space and the virtio network and block devices.
- NumberText.Utoa: signed printing and parsing, vsnprintf and the other string functions.
- Hardware access: VMX, APIC, IDT, SMP, PCI, boot code, consoles and the JSON interface.
