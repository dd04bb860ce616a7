# uPCIe: a verified model of its memory and queue-pair core

uPCIe is a header-only user-space NVMe driver. This project models the parts of it whose correctness
does not depend on the hardware at hand, in Dafny, and proves what they promise.

| module | what it models |
|---|---|
| `Common`, `Arith`, `Bits` | shared types; remainders, powers of two and the shift/mask arithmetic the driver uses |
| `Segments`, `Allocator` | a heap as a cover by segments; first fit with skip blocks; release; whole runs |
| `HostMemory`, `HostHeap` | the hugepage heap, block headers and user data in one memory |
| `Placement`, `HostPlacement` | where the two heaps place a request, said without the search |
| `OffGrid` | the host heap's search for requests that are not whole pages, with its 64-bit subtraction |
| `CudaHeap` | the CUDA heap, a linked list kept outside the heap |
| `Translate` | virtual-to-physical translation by quotient, by shift and mask, and by chunk |
| `Prp`, `PrpVectors` | a PRP decoder (section 4.3 of the NVM Express Base Specification 1.4) and the builders |
| `Dmabuf`, `RegistryState`, `Registry`, `RegistryPrp` | the mapping registry of CUDA memory |
| `QueueMachine`, `PoolMachine`, `QPair`, `SyncRefines` | a queue pair with its controller; command identifiers; the host code; its synchronous call as a call of the machine |
| `BatchQueue`, `QPairCuda` | the CUDA batch form of a queue pair and its thread operations |
| `Kernel`, `Rounds` | the kernel's division of work, and all the rounds of a thread block |
| `QueueMemory`, `QPairInit` | set-up and tear-down of a queue pair's memory; its initialisation as a whole |
| `Transfers`, `Delivery` | PRP fields inside a command; the data of every command in flight, over whole runs |
| `Qid` | the queue-identifier bitmap |

Code that changes state is a class or a method over arrays, each tied by its `ensures` to a function of
the old state; what the driver promises is proved about those functions. Addresses are absolute and 0
is NULL. The two heaps share one search (`Allocator.Search`): the host heap has a page of header per
block, the CUDA heap none.

What the driver assumes appears as `requires`: page, hugepage, device-page and chunk sizes are powers
of two or multiples of each other as needed; heaps are page-aligned and whole large pages long; sizes
do not wrap `size_t`; at most `depth - 1` commands are in flight; no two hugepages are the same physical
memory; no dma-buf sits at physical address 0, and the segments of every dma-buf start on page boundaries.

## Where the code and its description differ

- `nvme_qpair_submit_sync` documents a negative errno; on a timeout it negates `-EAGAIN` again and
  returns a positive one (`QPair.QPair.SubmitSync`).
- After a timeout a later synchronous call can return another command's completion and free its own
  identifier while its command is in flight. It returns its own, whatever the controller does, if and only
  if nothing else was in flight when it was called (`PoolMachine.SyncOwnIff`,
  `PoolMachine.SyncMayReturnAnother`). The next request is then handed a PRP list page that a command in
  flight still uses (`Transfers.MisreturnReusesList`).
- `nvme_io` calls its output per-command results. A thread gets the completion in its place: from an idle
  queue every thread gets its own command's completion under every schedule if and only if the batch is at
  most one command (`BatchQueue.OwnCompletionsIff`); `BatchQueue.ThreadGetsAnother` is a schedule in which
  thread 0 holds thread 1's.
- `nvme_qpair_cuda_io` is documented for thread blocks as large as the queue depth. A batch of `depth`
  commands moves the tail once around and the controller sees nothing to do; `depth - 1` is the most
  (`BatchQueue.FullBatchIsInvisible`).
- `nvme_qpair_cuda_cq_update` adds to the head in 16 bits. For a batch that the queue can hold the update is
  that of single reaps if and only if head plus batch size is below 2^16, which a queue deeper than 2^15
  can violate (`BatchQueue.AdvanceIsReapsIff`).
- `nvme_io` computes its stride in 32 bits. Each I/O has one owner if and only if that product does not
  wrap or one round covers everything (`Kernel.PartitionIff`).
- Neither iovec builder checks the lengths of its segments. A vector whose segments that are followed by
  data are whole pages, and whose first segment is not empty before data, is always described. With an
  empty first segment the list is one page late, and is right only if the frames happen to coincide:
  `PrpVectors.CoversIff` is the exact condition, `PrpVectors.EmptyThenPageMisses` the smallest failure.
- `hostmem_dma_alloc_array` promises that no element straddles a hugepage, and accepts requests that are
  not whole pages. After one of those a block can start less than a page before a boundary; the test
  `hpage_remaining - alignment` then wraps, and the next array can straddle (`OffGrid.OffGridStraddles`).
  `OffGrid.GrantedInPlaceIff` says exactly when a granted array does not.
- `hostmem_dma_alloc_array` accepts arrays longer than a hugepage whose element divides it. If the
  element is larger than a page, only a free block whose payload already lies on an element boundary can
  serve it, so a heap with nothing allocated refuses it whatever its size
  (`Allocator.SpanningArrayGrantedIff`, `Allocator.SpanningArrayRefusedByFreshHeap`).
- `nvme_qpair_init` accepts any 16-bit depth and always allots 64 KiB to the submission queue, which holds
  its commands if and only if the depth is at most 1024 (`QPairInit.SlotsFitIff`). The CUDA queue pair
  allots by depth.
- The qid bitmap is documented to hold 65534 I/O queues; it has 1023 words, so 65471
  (`Qid.TakenInOrder`). Ids from 65472 up pass the guard and lie beyond the words (`Qid.GuardAdmits`).
- The status mask `0x1FE` covers the status code only. A failed command is reported if and only if its
  status code is nonzero, whatever its status code type (`QPair.FailureReportedIff`,
  `QPair.UnreportedFailure`).

## Model

| member | source | states |
|---|---|---|
| Bits.ShiftFromSize | include/upcie/debug.h:60-72 | for an accepted size the shift is exact, and shift and mask by it are quotient and remainder for every address |
| Bits.PowerTest | include/upcie/debug.h:65 | the assertion's bit trick accepts a nonzero size exactly when it is a power of two |
| Bits.MaskIsRemainder | include/upcie/hostmem_dma.h:136-140 | masking with a power of two less one is the remainder |
| Bits.RoundUpBounds | include/upcie/cudamem_heap.h:288 | rounding up by mask gives the least multiple of the alignment not below the size |
| Segments.MergeSound | include/upcie/hostmem_heap.h:173-181 | merging keeps the cover of the heap and the blocks in use, and leaves no two free neighbours |
| Segments.Canonical | include/upcie/hostmem_heap.h:173-181 | a heap without free neighbours is determined by its blocks in use |
| Segments.SameLive | include/upcie/hostmem_heap.h:173-181 | two covers with the same set of live blocks list them identically |
| Segments.ReleaseSound | include/upcie/hostmem_heap.h:160-182 | releasing any address keeps the cover and leaves no two free neighbours |
| Segments.ReleaseLive | include/upcie/hostmem_heap.h:160-182 | releasing a live block removes that block and no other from the live set |
| Segments.ReleaseAny | include/upcie/hostmem_heap.h:160-182 | at any address: the live block that starts there, if one does, and no other leaves the live set |
| Segments.ReleaseLast | include/upcie/hostmem_heap.h:160-182 | releasing the last live block leaves one free block of the heap's size |
| Allocator.SearchSound | include/upcie/cudamem_heap.h:290-345 | whatever the outcome, the list still covers the heap with blocks of nonzero size; on success one block of enough bytes is added and on failure no block in use changes |
| Allocator.AddsLive | include/upcie/hostmem_heap.h:221-249 | a granted block was not live before and is the only new live block |
| Allocator.GrantedNotSkipped | include/upcie/cudamem_heap.h:299-318 | a granted start is one the boundary test accepts |
| Allocator.UnskippedNoStraddle | include/upcie/cudamem_heap.h:256-257 | at such a start no element of the array crosses a large-page boundary |
| Allocator.SearchIsFirstFit | include/upcie/hostmem_heap.h:201-257 | the splitting search grants what first fit without splitting would: the lowest free block that can serve the request, at its front or just past its skip; none is missed |
| Allocator.BudgetOnlyStops | include/upcie/cudamem_heap.h:302-326 | a shortage of list nodes stops a search but never changes what it grants |
| Allocator.BudgetIff | include/upcie/cudamem_heap.h:302-326 | a search with n list nodes is the search with unlimited ones if that makes at most n splits, and otherwise fails for want of a node |
| Allocator.GrantedSeg | include/upcie/cudamem_heap.h:320-338 | a grant adds one live block of at least the request and its header, and longer by no more than a remainder too small to split, plus one header if it is not the last block |
| Placement.SkipIsLeast | include/upcie/cudamem_heap.h:299-318 | a skip leads to the first address at or after the block where the array is in place |
| Placement.SearchIsLowest | include/upcie/cudamem_heap.h:290-345 | the CUDA search grants the lowest address such that the request lies in one free block and ends before the next device page or reaches it on an element boundary; it fails exactly if there is none |
| Placement.RestStaysFree | include/upcie/cudamem_heap.h:325-338 | the bytes behind a grant in its old free block stay one free block |
| Placement.GrantedNext | include/upcie/cudamem_heap.h:325-338 | so a request that fits in place behind a grant is granted next |
| Placement.AllocOp | include/upcie/cudamem_heap.h:290-345 | an allocation in a run adds exactly its length at the lowest place, or nothing if there is none |
| Placement.FreeOp | include/upcie/cudamem_heap.h:228-250 | a free in a run takes out exactly the block at its address |
| HostPlacement.ServesIff | include/upcie/hostmem_heap.h:206-218 | a free block can serve exactly if its header size is enough at its front, or past the next hugepage boundary when the front is not in place and one hugepage is enough |
| HostPlacement.SearchServes | include/upcie/hostmem_heap.h:201-257 | the host search is served by the first such block, at that place, and fails exactly if there is none |
| Allocator.GrantedIff | include/upcie/cudamem_heap.h:290-345 | a request is granted exactly when some free block can serve it, skips included; the CUDA heap meets the hypothesis for all it accepts, the host heap for all requests of whole pages |
| Allocator.SpanningArrayGrantedIff | include/upcie/hostmem_heap.h:206-218 | the exact condition under which an array longer than a hugepage, of elements larger than a page, is granted |
| Allocator.SpanningArrayRefusedByFreshHeap | include/upcie/hostmem_dma.h:97-99 | such an array is refused by a heap with nothing allocated |
| Allocator.AllocThenRelease | include/upcie/hostmem_heap.h:173-181 | from a heap without free neighbours, allocating and freeing the result restores the list exactly, skip splits included |
| Allocator.AddedThenReleased | include/upcie/hostmem_heap.h:160-182 | from any heap, the blocks in use are as before |
| Allocator.FailedSearchIsInvisible | include/upcie/cudamem_heap.h:302-326 | the splits a failed search leaves behind vanish when the list is next merged |
| Allocator.NeverOutOfNodes | include/upcie/hostmem_heap.h:221-243 | with in-heap headers a search can fail only for space |
| Allocator.RunTiles | include/upcie/hostmem_heap.h:160-258 | after any run of allocations, successful or not, and frees, the blocks cover the heap, in order, in bounds and disjoint |
| Allocator.DrainedRunRestoresHeap | include/upcie/hostmem_heap.h:160-182 | a run that ends in a free with nothing live ends in one block of the initial size |
| OffGrid.OnGridSearch | include/upcie/hostmem_heap.h:201-257 | on the page grid the code's search, wrapping subtraction included, is the search AllocArray is proved against |
| OffGrid.GrantedInPlaceIff | include/upcie/hostmem_heap.h:206-218 | in any heap, for any accepted request, what the code grants has no straddling element exactly when a page of room was left before the boundary, or the payload past it fits its hugepage or tiles the rest of it |
| OffGrid.OffGridStraddles | include/upcie/hostmem_dma.h:111-120 | two accepted allocations in a fresh heap of three hugepages, the second of which straddles |
| CudaHeap.CudaHeap.constructor | include/upcie/cudamem_heap.h:156-167 | the heap starts as one free block spanning it |
| CudaHeap.CudaHeap.Free | include/upcie/cudamem_heap.h:214-251 | the single mark-and-merge pass over the linked list computes the release of that address: the live block there and no other goes, every neighbour is merged, and NULL and foreign addresses free nothing |
| CudaHeap.CudaHeap.MarkPair | include/upcie/cudamem_heap.h:229-233 | one step marks the block or its successor, whichever is at the address |
| CudaHeap.CudaHeap.Join | include/upcie/cudamem_heap.h:234-238 | unlinking the successor is a join of two segments |
| CudaHeap.CudaHeap.MarkLast | include/upcie/cudamem_heap.h:244-250 | the block the loop never frees is marked after it |
| CudaHeap.CudaHeap.Split | include/upcie/cudamem_heap.h:308-314 | linking a new node behind a block is a split of its segment |
| CudaHeap.CudaHeap.TakeFirstFit | include/upcie/cudamem_heap.h:290-345 | the list walk, with its skip blocks, ends and performs the search: same list, same result, also when a node cannot be allocated |
| CudaHeap.CudaHeap.AllocArrayAligned | include/upcie/cudamem_heap.h:263-346 | the errors for an overflowing product and an ill-fitting element, otherwise the search; success adds exactly one live block, of the bytes rounded up to the alignment, at the lowest place, and leaves the bytes behind it free; with list nodes to spare it fails only if there is no place; no element straddles a device page |
| CudaHeap.CudaHeap.DmaAllocArray | include/upcie/cudamem_dma.h:98-107 | the errno of every failure, which leaves every live block alone; success adds exactly one live block, of the bytes rounded up to the page, at the lowest place; with list nodes to spare it fails only if an element is too large, does not divide the device page where it must, or there is no place |
| CudaHeap.CudaHeap.DmaMalloc | include/upcie/cudamem_dma.h:59-68 | the same for bytes as whole pages; in a fresh heap it returns the front |
| CudaHeap.CudaHeap.AllocTwice | include/upcie/cudamem_dma.h:98-107 | two arrays allocated in a fresh heap that holds both lie side by side |
| CudaHeap.AllocThenFree | include/upcie/cudamem_heap.h:228-250 | freeing what an allocation returned restores a list without free neighbours exactly |
| CudaHeap.PaddedIsRegular | include/upcie/cudamem_heap.h:279-288 | every accepted request meets the hypothesis of the exact grant condition, whatever its alignment |
| HostMemory.HeaderWriteIsHarmless | include/upcie/hostmem_heap.h:223-245 | a header written at the start of a block lands in no live payload |
| HostMemory.PayloadStoreIsHarmless | include/upcie/hostmem_heap.h:46-50 | a store into a live payload destroys no header |
| HostMemory.SplitHeaders | include/upcie/hostmem_heap.h:223-229 | the two headers written by a split describe the two segments, whether or not the block was the last |
| HostMemory.JoinHeaders | include/upcie/hostmem_heap.h:175-177 | the header written by a merge describes the joined segment, under both meanings of its size |
| HostHeap.HostHeap.constructor | include/upcie/hostmem_heap.h:132-136 | one free block whose stored size is the whole heap, its header included |
| HostHeap.HostHeap.Store | include/upcie/hostmem_heap.h:249 | users may write any byte of a live allocation without breaking the heap |
| HostHeap.HostHeap.Free | include/upcie/hostmem_heap.h:160-182 | walking and rewriting the in-heap headers performs the release, and no live payload byte changes |
| HostHeap.HostHeap.SplitBlock | include/upcie/hostmem_heap.h:223-229 | the skip split, done in memory |
| HostHeap.HostHeap.Serve | include/upcie/hostmem_heap.h:236-249 | the remainder is split off only if larger than a header; the payload starts a page after the block |
| HostHeap.HostHeap.TakeFirstFit | include/upcie/hostmem_heap.h:201-257 | the walk over headers ends, performs the search and changes no live payload byte |
| HostHeap.HostHeap.AllocArray | include/upcie/hostmem_heap.h:184-264 | the errors, otherwise the search; NULL exactly when no free block can serve the request; on success no element straddles a hugepage |
| HostHeap.HostHeap.DmaAllocArray | include/upcie/hostmem_dma.h:111-120 | not NULL exactly for a nonempty request that does not overflow, whose element fits a hugepage and divides it if it must, and that some free block can serve; the first such block serves it; one new live block of the payload and one page, or two if it is not the last block and would leave just a page; on failure the same live set |
| HostHeap.HostHeap.DmaMalloc | include/upcie/hostmem_dma.h:74-83 | the same for bytes as whole pages: NULL exactly if no free block has room for them and a header, with the errno of each failure; otherwise the lowest such block, from its front; in a fresh heap large enough the first payload |
| HostHeap.HostHeap.DmaFree | include/upcie/hostmem_dma.h:60-64 | NULL changes nothing; otherwise exactly that block leaves the live set, and the other payloads keep their bytes |
| HostHeap.PageRoom | include/upcie/hostmem_heap.h:215-218 | on the page grid `hpage_remaining - alignment` never wraps and every split stays on the grid |
| HostHeap.WholeIsRegular | include/upcie/hostmem_heap.h:201-218 | every accepted request of whole pages meets the hypothesis of the exact grant condition |
| Translate.ShiftMaskAgrees | include/upcie/hostmem_dma.h:128-143 | translation by shift and mask equals translation by quotient and remainder |
| Translate.CheckedAgrees | include/upcie/hostmem_heap.h:284-314 | the checked translation succeeds exactly inside the heap, with the unchecked result |
| Translate.TableTranslates | include/upcie/hostmem_dma.h:128-143 | byte d of large page i translates to table entry i plus d, by quotient, by shift and mask, and checked |
| Translate.BuildView | include/upcie/hostmem_heap.h:138-155 | with the table built from a page map: to page-map entry i plus d; built exactly when every hugepage resolves and the first is the recorded one |
| Translate.SameLargePage | include/upcie/cudamem_heap.h:436-453 | inside one large page physical addresses advance with virtual ones |
| Translate.ElementContiguous | include/upcie/hostmem_dma.h:101-103 | every element of an allocated array is physically contiguous |
| Translate.BuildLut | include/upcie/hostmem_heap.h:138-155 | the table is built exactly when every hugepage resolves and the first one is the recorded address |
| Translate.HeapIsPageLinear | include/upcie/hostmem_dma.h:128-143 | within any page of a heap the translation is linear and keeps the offset |
| Translate.ChunksArePageLinear | include/upcie/cudamem_mapping.h:506-530 | the same of the chunk lookup, when bases are page-aligned |
| Prp.DecodeDescribed | include/upcie/nvme/nvme_request.h:166-181 | the controller's decoding of PRP1, PRP2 and a list that describe given frames reaches byte by byte into those frames |
| Prp.PagesSpannedIff | include/upcie/nvme/nvme_request.h:195-201 | the pages counted are exactly those that hold a byte of the transfer |
| Prp.Stride | include/upcie/nvme/nvme_request.h:209-219 | the stride counter is right at every page: while positive the next frame is physically next, and it is reset at each boundary |
| Prp.NextFrame | include/upcie/nvme/nvme_request.h:231-241 | one step of the strided loop yields the frame a translation would |
| Prp.FillList | include/upcie/nvme/nvme_request.h:228-241 | the strided loop fills the list with page-by-page translations, across every large-page boundary |
| Prp.PrepContig | include/upcie/nvme/nvme_request.h:187-242 | for every in-heap buffer of at most 513 pages, at any offset, byte b decodes to its translation: if it is byte d of large page i, to table entry i plus d; fields not needed are not written |
| Prp.PagesCover | include/upcie/nvme/nvme_request.h:195-201 | if PRP1, PRP2 and the list describe the frames of the buffer's pages, every byte decodes to its own translation |
| PrpVectors.PrepIov | include/upcie/nvme/nvme_request.h:263-297 | PRP1 and the list hold the segments' page translations in order; for page-aligned segments they decode to the segments' bytes exactly under the condition of CoversIff |
| PrpVectors.CoversIff | include/upcie/nvme/nvme_request.h:253-256 | the decoded transfer is the concatenation of the segments if and only if each segment followed by data is whole pages and: the first holds data, or none does, or behind an empty first segment the frames coincide (first data page in the empty segment's frame; of two pages the second is the list page itself; three or more are one frame) |
| PrpVectors.UnpackedMisses | include/upcie/nvme/nvme_request.h:273-290 | otherwise some segment's first byte is not where the controller looks |
| PrpVectors.EmptyFirstMisses | include/upcie/nvme/nvme_request.h:271 | an empty first segment takes PRP1, and the first byte of data goes astray |
| PrpVectors.EmptyThenPageMisses | include/upcie/nvme/nvme_request_cuda.h:274-281 | the smallest such input: an empty segment, then one page |
| PrpVectors.PrepIovMapped | include/upcie/nvme/nvme_request_cuda.h:250-304 | succeeds exactly on a nonempty vector whose pages resolve and whose list fits a page, then, if the chunk table is linear within pages, decoding as above |
| PrpVectors.MappedSegment | include/upcie/nvme/nvme_request_cuda.h:283-294 | one segment's pages are listed, or the first failure stops it before the list overflows |
| PrpVectors.HeapSegment | include/upcie/nvme/nvme_request.h:284-289 | one segment's pages are appended to the list in order |
| PrpVectors.PrepContigMapped | include/upcie/nvme/nvme_request_cuda.h:188-229 | succeeds exactly when the pages fit and resolve; then, if the chunk table is linear within pages, each byte decodes to its table translation |
| PrpVectors.FillMapped | include/upcie/nvme/nvme_request_cuda.h:219-228 | the list loop holds the translations of pages 1 and up, and fails exactly if one is unmapped |
| RegistryPrp.RegisteredBufferIsMapped | include/upcie/nvme/nvme_request_cuda.h:188-229 | a buffer whose bytes are all registered resolves on every page, so only its length can be refused |
| RegistryPrp.RegisteredVectorIsResolved | include/upcie/nvme/nvme_request_cuda.h:250-304 | the same for the pages of a registered vector |
| RegistryPrp.PrepContigRegistered | include/upcie/nvme/nvme_request_cuda.h:188-229 | with page-aligned dma-bufs a registered nonempty buffer is refused exactly when it spans more than 1 + page/8 pages, and otherwise every byte decodes to its registry translation |
| RegistryPrp.PrepContigAfterRun | include/upcie/cudamem_mapping.h:397-530 | the same after any run of adds, removes and clears from an empty registry |
| RegistryPrp.PrepIovRegistered | include/upcie/nvme/nvme_request_cuda.h:250-304 | a registered vector is refused for its number of pages only, and otherwise covered exactly under the condition of CoversIff |
| RegistryPrp.PrepIovAfterRun | include/upcie/cudamem_mapping.h:397-530 | the same after any such run |
| Dmabuf.GetLut | include/upcie/dmabuf.h:67-91 | writes exactly the first `nphys` entries or fails; succeeds exactly when the segments hold `nphys` pages |
| Dmabuf.FlattenTranslates | include/upcie/dmabuf.h:74-84 | for page-multiple segments entry i is the address of byte i*page of their concatenation |
| Dmabuf.SegmentAddr | include/upcie/dmabuf.h:74-84 | behind the bytes of the segments before it, each segment is at its own address |
| Dmabuf.BaseReplacesTable | include/upcie/cudamem_mapping.h:347-357 | after the contiguity check one base gives every byte's address |
| RegistryState.RangeIsTouched | include/upcie/cudamem_mapping.h:414-415 | the computed chunk range is exactly the chunks holding a registered byte |
| RegistryState.RefsBounded | include/upcie/cudamem_mapping.h:121-124 | a count never exceeds the number of registrations |
| RegistryState.DerefUndoesBump | include/upcie/cudamem_mapping.h:454-455 | unwinding a partial add restores counts, bases and attachments whatever was shared |
| RegistryState.ApplyKeepsInv | include/upcie/cudamem_mapping.h:397-497 | add, failed add, remove and clear keep every count equal to the registrations touching the chunk, and a base and a dma-buf exactly where it is positive |
| RegistryState.RunCounts | include/upcie/cudamem_mapping.h:397-497 | the same after any run from an empty registry |
| RegistryState.RunMore | include/upcie/cudamem_mapping.h:397-497 | a run does its operations one after another |
| RegistryState.AddInNumbers | include/upcie/cudamem_mapping.h:430-452 | a successful add puts the registration first; each chunk that holds a byte of it has one reference more, and a base and dma-buf from the driver if it had none; every other chunk is unchanged |
| RegistryState.RemoveInNumbers | include/upcie/cudamem_mapping.h:220-238 | a remove takes out the first registration at the address; each chunk that holds a byte of it has one reference less, and loses base and dma-buf exactly when none is left; every other chunk is unchanged |
| RegistryState.AddSucceedsIff | include/upcie/cudamem_mapping.h:397-459 | an add succeeds exactly if the range is not empty, not NULL and inside the address space, the registration can be allocated, and each chunk holding a byte of it is in use or gets a base |
| RegistryState.OrdinaryAdd | include/upcie/cudamem_mapping.h:397-459 | a well-formed add succeeds if the driver answers each chunk with one segment of the granularity |
| RegistryState.OrdinaryBase | include/upcie/cudamem_mapping.h:341-358 | and such a chunk has that segment's address as its base |
| RegistryState.BaseIff | include/upcie/cudamem_mapping.h:341-358 | a chunk gets base x exactly if its dma-buf holds the whole chunk byte after byte from x on |
| RegistryState.AddedChunkTranslates | include/upcie/cudamem_mapping.h:506-530 | a byte of a chunk that an add brought in resolves to the address its dma-buf gives for that byte |
| RegistryState.ClearEmpties | include/upcie/cudamem_mapping.h:247-270 | clearing leaves no reference, base, dma-buf or registration |
| RegistryState.AddThenRemove | include/upcie/cudamem_mapping.h:430-452 | a successful add and a remove of the same address restore tables and list |
| RegistryState.BaseIsStable | include/upcie/cudamem_mapping.h:228-236 | a chunk referenced before and after an operation keeps its base and its dma-buf |
| RegistryState.BaseStableOverRun | include/upcie/cudamem_mapping.h:228-236 | the same over any run that keeps it referenced |
| RegistryState.RegisteredResolves | include/upcie/cudamem_mapping.h:506-530 | every byte of a listed registration resolves |
| RegistryState.BaseTranslates | include/upcie/cudamem_mapping.h:341-358 | a chunk's base plus the offset is the dma-buf's own address of that byte |
| RegistryState.ApplyAligned | include/upcie/cudamem_mapping.h:341-358 | if dma-buf segments start on page boundaries, every operation keeps every base on one |
| RegistryState.RunIsPageLinear | include/upcie/cudamem_mapping.h:506-530 | so after any run the lookup is linear within pages |
| Registry.Registry.constructor | include/upcie/cudamem_mapping.h:185-188 | the registry starts empty over the whole address space |
| Registry.Registry.ChunkPopulate | include/upcie/cudamem_mapping.h:307-367 | succeeds exactly on a complete, contiguous chunk; any failure leaves nothing attached |
| Registry.Registry.BumpChunk | include/upcie/cudamem_mapping.h:434-442 | share the chunk or populate it; a failure changes no table |
| Registry.Registry.Add | include/upcie/cudamem_mapping.h:397-459 | the whole new state on success, chunk by chunk; success exactly under the condition of AddSucceedsIff; on any failure, at any chunk, tables, list and owned dma-bufs are as before |
| Registry.Registry.ChunkDeref | include/upcie/cudamem_mapping.h:220-238 | each counted chunk of the range loses one reference and is detached, once, when none is left |
| Registry.Registry.Remove | include/upcie/cudamem_mapping.h:470-497 | the first registration at the address goes, its chunks lose one reference each, and base and dma-buf go exactly where none is left; an unknown address is an error that changes nothing |
| Registry.Registry.Clear | include/upcie/cudamem_mapping.h:247-270 | every dma-buf is detached exactly once and nothing is left |
| QueueMachine.WithCid | include/upcie/nvme/nvme_command.h:24-39 | setting the identifier changes only the upper half of the first word |
| QueueMachine.PostNeverBlocked | include/upcie/nvme/nvme_qpair.h:124-196 | with at most depth - 1 commands in flight the completion queue is never full |
| QueueMachine.PollIsExact | include/upcie/nvme/nvme_qpair.h:129-144 | a poll succeeds exactly when an unreaped completion is posted, and returns it: none missed, stale or blank |
| QueueMachine.PeekIsExact | include/upcie/nvme/nvme_qpair_cuda.h:103-119 | the same for any entry of the ring beyond the head, under the phase it expects |
| QueueMachine.RingKeepsInv | include/upcie/nvme/nvme_qpair.h:163-172 | skipping an unchanged doorbell never hides a command |
| QueueMachine.FetchKeepsInv | include/upcie/nvme/nvme_qpair.h:186-196 | the controller fetches the next command unmodified, exactly when one is announced |
| QueueMachine.StepKeepsInv | include/upcie/nvme/nvme_qpair.h:124-196 | every step of host and controller keeps the invariant of rings, doorbells, phase and history |
| QueueMachine.RunIsFaithful | include/upcie/nvme/nvme_qpair.h:124-196 | in every interleaving, commands are fetched once, unmodified and in order, completed at most once, and the reaped completions are a prefix of those posted, across any number of phase flips, for any depth the queue's memory holds |
| QueueMachine.ReachesMore | include/upcie/nvme/nvme_qpair.h:124-196 | a run goes on with any step that is permitted |
| QueueMachine.NeverStuck | include/upcie/nvme/nvme_qpair.h:124-196 | while an announced command is unreaped, a reap, a completion or a fetch can make progress |
| PoolMachine.IdsAreDistinct | include/upcie/nvme/nvme_request.h:55-63 | the initial stack holds 0 to 1023, each once |
| PoolMachine.StepKeepsIds | include/upcie/nvme/nvme_request.h:97-134 | every step moves an identifier between stack, caller and flight without losing or copying it |
| PoolMachine.RunKeepsIdsApart | include/upcie/nvme/nvme_request.h:97-134 | in every run each identifier is in exactly one place |
| PoolMachine.SyncReturnsOwn | include/upcie/nvme/nvme_qpair.h:211-244 | with nothing else in flight a call that does not time out returns its own completion and restores the pool |
| PoolMachine.SyncMayReturnAnother | include/upcie/nvme/nvme_qpair.h:232-237 | with something in flight, some behaviour of the controller makes it return another's, and its own identifier is free while its command is in flight |
| PoolMachine.SyncOwnIff | include/upcie/nvme/nvme_qpair.h:211-244 | the two together, as an equivalence |
| PoolMachine.SyncCallsKeepPool | include/upcie/nvme/nvme_qpair.h:211-244 | any number of timeout-free calls each return their own completion and leave the pool as it was |
| QPair.RequestPool.constructor | include/upcie/nvme/nvme_request.h:55-63 | identifier 0 on top, 1023 at the bottom |
| QPair.RequestPool.Alloc | include/upcie/nvme/nvme_request.h:97-112 | pops the top identifier, or fails on an empty pool |
| QPair.RequestPool.Free | include/upcie/nvme/nvme_request.h:129-134 | pushes it back |
| QPair.QPair.constructor | include/upcie/nvme/nvme_qpair.h:68-76 | the machine's initial host state, over cleared queues of at most the 1024 entries allotted |
| QPair.QPair.Enqueue | include/upcie/nvme/nvme_qpair.h:186-196 | the machine's enqueue on the ring and the tail |
| QPair.QPair.SqdbUpdate | include/upcie/nvme/nvme_qpair.h:163-172 | the machine's doorbell step, skipped when the tail was written last |
| QPair.QPair.ReapCpl | include/upcie/nvme/nvme_qpair.h:124-150 | returns the head entry of the first poll that finds it ready and takes the reap step once, or times out and changes no field |
| QPair.QPair.SubmitSync | include/upcie/nvme/nvme_qpair.h:211-244 | all outcomes: empty pool, completion with or without an error status (an error exactly if one of status bits 1 to 8 is set), timeout, which keeps the identifier and returns a positive errno |
| SyncRefines.SubmitSyncIsCall | include/upcie/nvme/nvme_qpair.h:211-244 | if each poll sees the machine's completion queue after some of the controller's steps, the method's result, fields, submission queue and stack are those of the machine's call that ends at its successful poll, or at its last one |
| SyncRefines.EarlierPolls | include/upcie/nvme/nvme_qpair.h:124-150 | at each poll before that the machine's call would have timed out |
| SyncRefines.AllocIsStep | include/upcie/nvme/nvme_request.h:97-112 | the pool's allocation is the driver's step: the top identifier moves from stack to caller |
| SyncRefines.FreeIsStep | include/upcie/nvme/nvme_request.h:129-134 | and its free the step that puts a completed one back |
| SyncRefines.SyncCallIsRun | include/upcie/nvme/nvme_qpair.h:211-244 | a whole call with nothing else in flight is a run of the driver's steps: allocate, send, ring, the controller's steps, poll, free |
| QPair.MaskedStatus | include/upcie/nvme/nvme_qpair.h:239 | the mask selects the eight bits above the phase |
| QPair.StatusBits | include/upcie/nvme/nvme_qpair.h:239 | the status code is nonzero exactly if one of status bits 1 to 8 is set |
| QPair.FailureReportedIff | include/upcie/nvme/nvme_qpair.h:239-241 | no false alarm; a failure is reported exactly when its status code is nonzero |
| QPair.UnreportedFailure | include/upcie/nvme/nvme_qpair.h:239-241 | a status of type 1, code 0 passes for success |
| BatchQueue.PeekSees | include/upcie/nvme/nvme_qpair_cuda.h:103-119 | thread t's poll sees the t-th completion after the head exactly when it is posted, past the wrap as well |
| BatchQueue.WrittenIsEnqueued | include/upcie/nvme/nvme_qpair_cuda.h:48-65 | once every word is written, in any order, memory is as after single enqueues |
| BatchQueue.RingIsEnqueues | include/upcie/nvme/nvme_qpair_cuda.h:76-84 | one tail update by n is n enqueues and a doorbell |
| BatchQueue.AdvanceIsReaps | include/upcie/nvme/nvme_qpair_cuda.h:137-148 | one head update by n, in 16 bits, is n single reaps, phase flip included |
| BatchQueue.AdvanceIsReapsIff | include/upcie/nvme/nvme_qpair_cuda.h:137-148 | and only then: for a batch the queue can hold, exactly when head plus n is below 2^16 |
| BatchQueue.OverlayDevice | include/upcie/nvme/nvme_qpair_cuda.h:62-64 | the controller does not notice a half-written batch |
| BatchQueue.TurnKeepsInv | include/upcie/nvme/nvme_qpair_cuda.h:186-223 | every turn of any thread or of the controller keeps the batch's invariant |
| BatchQueue.BatchIsSequential | include/upcie/nvme/nvme_qpair_cuda.h:186-223 | for every schedule of the threads between the barriers and of the controller, a finished batch leaves the state of the same commands enqueued, announced and reaped one at a time, each thread holding one of the completions |
| BatchQueue.BatchNeverStuck | include/upcie/nvme/nvme_qpair_cuda.h:186-223 | an unfinished batch always has a turn that makes progress |
| BatchQueue.BatchCompletesItsCommands | include/upcie/nvme/nvme_qpair_cuda.h:186-223 | from an idle queue the completions reaped are those of the batch's commands, each once |
| BatchQueue.EarlyWriteIsHarmless | include/upcie/nvme/nvme_qpair_cuda.h:210-216 | one step of running ahead: an early write finds the slot it will use, and the head update does not notice |
| BatchQueue.OwnCompletionsIff | include/upcie/nvme/nvme_qpair_cuda.h:204-222 | from an idle queue, every thread gets its own command's completion under every schedule iff the batch is at most one command |
| BatchQueue.ThreadGetsAnother | include/upcie/nvme/nvme_qpair_cuda.h:204-222 | with two commands or more, a schedule after which thread 0 holds thread 1's completion |
| BatchQueue.OwnIffCompletedInOrder | include/upcie/nvme/nvme_qpair_cuda.h:204-222 | in a finished batch, all threads got their own iff the controller completed it in order |
| BatchQueue.FullBatchIsInvisible | include/upcie/nvme/nvme_qpair_cuda.h:153-155 | a batch of `depth` commands rings an unchanged tail and the controller never acts; with fewer it fetches |
| BatchQueue.CudaStartInv | include/upcie/nvme/nvme_controller_cuda.h:122-125 | the device-side queue pair's first state meets the invariant |
| QPairCuda.QPairCuda.EnqueueAtI | include/upcie/nvme/nvme_qpair_cuda.h:48-65 | the word loop writes the whole command into its slot and touches no other |
| QPairCuda.QPairCuda.SqUpdate | include/upcie/nvme/nvme_qpair_cuda.h:76-84 | tail and doorbell as the batch machine has them |
| QPairCuda.QPairCuda.ReapAtI | include/upcie/nvme/nvme_qpair_cuda.h:99-125 | the first ready poll of the thread's entry under its expected phase, or a timeout |
| QPairCuda.QPairCuda.CqUpdate | include/upcie/nvme/nvme_qpair_cuda.h:137-148 | head, phase and doorbell as the batch machine has them for every increment; the head stays in range when the batch fits the queue and the sum 16 bits |
| QPairCuda.QPairCuda.Result | include/upcie/nvme/nvme_qpair_cuda.h:218-222 | the error, or bits 1 to 8 of the status as a number |
| Kernel.ActiveIff | tests/nvme_cuda_kernels.cu:44-52 | a thread is active exactly when its global index is below the number of I/Os |
| Kernel.OwnsIff | tests/nvme_cuda_kernels.cu:38-55 | thread t of block b writes I/O i in round r exactly if i = r * stride + b * blockDim + t is below the number of I/Os, the stride taken in 32 bits |
| Kernel.PartitionIff | tests/nvme_cuda_kernels.cu:38-55 | every I/O has an owning round, block and thread; exactly one iff the 32-bit stride does not wrap or one round covers all |
| Kernel.OwnerIsUnique | tests/nvme_cuda_kernels.cu:38-55 | the owner of an I/O is given by quotients and remainders of its index |
| Kernel.NvmeIo | tests/nvme_cuda_kernels.cu:34-56 | a thread writes the results of exactly the I/Os it owns, each with the result of its round |
| Rounds.RoundsAreSequential | tests/nvme_cuda_kernels.cu:43-55 | for every schedule of all the rounds of a block, words written early for the next round included, the queue ends as the rounds run one after another, each one command at a time, and thread t got each round's t-th completion |
| Rounds.MoveKeepsInv | tests/nvme_cuda_kernels.cu:43-55 | every turn of every thread, in its round or ahead of it, keeps the block's invariant |
| Rounds.RunMore | tests/nvme_cuda_kernels.cu:43-55 | a run of a block does its moves one after another |
| Rounds.BlockNeverStuck | tests/nvme_cuda_kernels.cu:43-55 | until the last round has ended some move makes progress |
| Rounds.NvmeIoResults | tests/nvme_cuda_kernels.cu:34-56 | the result of each I/O a thread owns is the status code of the completion in the thread's place in that round |
| QueueMemory.QueueMemory.AllocQueue | include/upcie/nvme/nvme_qpair.h:78-90 | one new live block, zeroed and physically contiguous, no other live byte changed, exactly if a free block can serve it; or nothing |
| QueueMemory.QueueMemory.InitPrps | include/upcie/nvme/nvme_request.h:71-86 | 1024 list pages, each contiguous, with its physical address recorded, exactly if a free block can serve them; or the same live set |
| QueueMemory.QueueMemory.Init | include/upcie/nvme/nvme_qpair.h:60-113 | succeeds exactly if the pool can be allocated and each of the three requests can be served in the heap that the ones before leave; all or nothing on the live set at every failure point; no byte of the caller's allocations changes; both queues are zero |
| QueueMemory.FreshSetUpIff | include/upcie/nvme/nvme_qpair.h:78-112 | a fresh heap is enough exactly if it holds two 64 KiB queues, 1024 list pages and three headers |
| QueueMemory.QueueMemory.Term | include/upcie/nvme/nvme_qpair.h:47-55 | exactly the three blocks leave the live set |
| QueueMemory.QueueMemory.InitThenTerm | include/upcie/nvme/nvme_qpair.h:47-113 | set-up, successful or not, and tear-down restore the live set, and after success the heap block for block if it had no free neighbours |
| QueueMemory.NothingOverlaps | include/upcie/nvme/nvme_qpair.h:78-112 | the queues and all list pages are pairwise disjoint |
| QPairInit.SlotsFitIff | include/upcie/nvme/nvme_qpair.h:65 | 64 KiB hold all command slots exactly up to depth 1024, and then all completion slots |
| QPairInit.ThreeHugepages | include/upcie/nvme/nvme_qpair.h:78-112 | with 4 KiB pages a fresh heap of 2 MiB hugepages is enough exactly from three hugepages up |
| QPairInit.Init | include/upcie/nvme/nvme_qpair.h:60-113 | success exactly as QueueMemory.Init, on a fresh heap exactly by its size; then the initial queue pair, all identifiers free, and every byte of every slot owned, zero and at the physical address the controller computes; on failure the same live set |
| Transfers.WithPrps | include/upcie/nvme/nvme_command.h:24-39 | the PRP fields read back, and no other word or the identifier changes |
| Transfers.FetchedCommandCovers | include/upcie/nvme/nvme_qpair.h:186-196 | a command whose PRPs cover a buffer covers it when fetched, in any run and under any identifier |
| Transfers.InFlightListsApart | include/upcie/nvme/nvme_request.h:79-83 | no request being prepared uses the list page of a command in flight |
| Transfers.MisreturnReusesList | include/upcie/nvme/nvme_qpair.h:232-237 | after a misreturned synchronous call the next request is given a page still in use |
| Delivery.ActKeepsInv | include/upcie/nvme/nvme_request.h:97-134 | every step keeps each list page as its request's last preparation left it while that request's command is in flight, and each such command's PRP fields those built for it |
| Delivery.InFlightIsCovered | include/upcie/nvme/nvme_qpair.h:124-244 | in every run of allocating, preparing, sending, ringing, fetching, completing, polling, freeing and reusing, each command in flight, decoded against what all list pages hold at that moment, reaches every byte of the data it was prepared for |
| Delivery.PreparedGoesOut | include/upcie/nvme/nvme_request.h:97-134 | what was built for an allocated request can be sent while the queue has room, and is then in flight with those PRP fields |
| Delivery.WorkReachesMore | include/upcie/nvme/nvme_qpair.h:124-244 | such a run goes on with any possible step |
| Delivery.AddressesDiffer | include/upcie/nvme/nvme_request.h:79-83 | the set-up gives each request a list page with a physical address of its own |
| Delivery.PrepareContig | include/upcie/nvme/nvme_request.h:187-242 | preparing a contiguous buffer on an allocated request is a step of such a run |
| Qid.IsAllocated | include/upcie/nvme/nvme_qid.h:30-38 | membership in the set the bitmap stands for; the error from 65535 up, and an access past the words in between |
| Qid.Alloc | include/upcie/nvme/nvme_qid.h:52-62 | adds exactly that id; the error, or an access past the words, otherwise |
| Qid.Free | include/upcie/nvme/nvme_qid.h:40-50 | removes exactly that id; the error, or an access past the words, otherwise |
| Qid.GuardAdmits | include/upcie/nvme/nvme_qid.h:25-35 | an id that passes the guard has a word exactly below 65472 |
| Qid.Init | include/upcie/nvme/nvme_qid.h:64-70 | whatever the words held, the set is the admin queue's id alone |
| Qid.FindFree | include/upcie/nvme/nvme_qid.h:72-86 | the nested search returns the least id not in the set, or the error |
| Qid.NeverTheAdminQueue | include/upcie/nvme/nvme_qid.h:72-86 | in any run that never frees 0 it is never 0, and fails exactly when all ids are taken |
| Qid.TakenInOrder | include/upcie/nvme/nvme_qid.h:25-28 | ids are handed out as 1, 2, 3 and so on, and the request after 65471 of them fails |

## Left out

- QPair.QPair.ReapCpl: a poll is one look at the queue; sleeping, clocks and the length of a timeout are not modelled.
- HostHeap.HostHeap.AllocArray: requires a nonzero count and element, whole pages in total, and elements that divide or are multiples of a page, as all callers in the driver request, and a size that does not wrap when a page is added; the alignment is always the page, because free assumes it.
- HostHeap.HostHeap.DmaAllocArray: as AllocArray, except that a zero count or element is the error the code returns.
- HostHeap.HostHeap.DmaMalloc: requires that the size does not wrap when rounded up and a page is added.
- CudaHeap.CudaHeap.DmaAllocArray: requires that the product does not wrap when rounded up to a page.
- CudaHeap.CudaHeap.DmaMalloc: requires that the size does not wrap when rounded up twice.
- CudaHeap.CudaHeap.AllocArrayAligned: requires a nonzero count and element, and a product that does not wrap when rounded up; the alignment rounds the length only, and no alignment of the start is claimed.
- Allocator.GrantedIff: host requests that are not whole pages are outside its hypothesis; OffGrid says where they may be placed, not which are granted.
- Allocator.SearchIsFirstFit: the same.
- QPairInit.Init: requires a depth of 2 to 1024; the code accepts any, and SlotsFitIff says which overrun the queue.
- Delivery.InFlightIsCovered: a synchronous call that returned another's completion frees an identifier in flight (Transfers.MisreturnReusesList), which is not a step of these runs; translations are those at preparation, so removing a registration with I/O in flight is not covered.
- Registry.Registry.Add: requires fewer than 2^32 - 1 registrations and sizes that do not wrap; the registration list is a sequence, not linked nodes.
- Prp.PrepContig: the 513-page limit is the code's own assertion and is a `requires`.
- PrpVectors.PrepIov: that all pages resolve and fit one list page is the caller's duty and is a `requires`.
- BatchQueue.BatchIsSequential: runs without timeouts, with head plus batch size below 2^16 (Rounds: depth plus block size at most 2^16).
- Qid.Alloc: what an access past the words does is undefined in C; the model only says when it happens.
- QueueMemory.QueueMemory.Init: the doorbell addresses are left out.
- Allocation of list nodes can fail after any number of successes, which is a parameter; other C library allocations are a boolean parameter. The host heap's `calloc` of its table is left out.
- The CUDA driver, dma-buf attachment and page maps are parameters: what they answer. Each failing call changes nothing but the count of handles ever issued.
- The controller is an environment that fetches in order, completes in any order and posts with the phase tag; doorbell writes and queue accesses are atomic steps.
- PRP lists are decoded without chaining, which the driver does not support. Alignment of PRP1 to four bytes is not checked.
- `nvme_qpair_submit_sync_contig_prps` and its iovec twin combine members modelled here and are left out.
- The HIP files repeat the CUDA algorithms with other constants.
- Printing, PCI and VFIO access, hugepage creation and import, controller bring-up, registers and admin payloads.
