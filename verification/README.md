# Verified model of the memory pools, the graph compiler and the inference runtime

This project restates the core of the repository in Dafny and proves properties of it. It has five
parts, each in its own modules.

**The v3 memory pool** (`vendor_memorypool/v3`). `PageModel` is the page cache on values: spans keyed
by their first page, the page map, best-fit lists and OS mappings, with allocation (best fit and
split) and deallocation (one merge step each way, then cache or give back). `PageCaches` is the same
page cache as a class over linked `Span` objects; every method is proved to do what the value model
says. `PageCap` settles when the pages cached can exceed their limit. `SizeClasses` builds the size tables and settles when aligned allocation is aligned.
`CentralModel` cuts spans into blocks and keeps a list of partial spans per class. `PoolSystem` puts
the three layers and any number of threads into one state machine and proves that blocks are never
lost, duplicated or handed to two owners, so live allocations never overlap. `SizedFrees` settles
which sizes a client may free with. `CentralCaches` and
`ThreadCaches` are the classes of the two upper layers: `CentralCache` works on the page cache's
`Span` objects, linked through their `next` fields, and does what `CentralModel` says, and every method of `ThreadCache` is proved to be a
run of the machine in which only its thread moves.

**The v1 memory pool** (`vendor_memorypool/v1`). `FreeList` is the lock-free free list, one step per
load, next-read and compare-and-swap; `SlotBlocks` is the bump allocator behind it.

**The graph compiler** (`src/compiler.cpp`, `src/shape.cpp`, `src/pipeline.cpp`). `Ir` holds modules
and the `validate` gate, `Meaning` gives every node a value for arbitrary scalar arithmetic, and
`ConstantFold`, `FoldLengths`, `DeadCode`, `Fusion` and `Pipeline` are the passes with what they preserve;
`FusionOrder` is about the order in which groups are returned.

**The inference runtime** (`src/memory.cpp`, `src/scheduler.cpp`, `src/tuning.cpp`). `Paged` refines
paged bytes to one byte string per sequence, `PagedReleases` says what a misplaced release does, `Scheduling` is continuous batching, and `Tuning` keeps
the fastest measurements.

**Matrix products** (`src/kernels.cpp`, `cuda/kernels.cu`). `Gemm` is the blocked CPU loop nest and
`TiledKernel` the CUDA kernel as a machine of threads and barriers.

## Reading the model

- Spans are described in whole pages, blocks and pointers in bytes. Masks that round to a power of two
  are written as the division they compute.
- What the operating system answers is a parameter: fresh pages that no current mapping covers, or
  nothing. Locks are atomic steps. In `PoolSystem` one round of `fetchRange` or `returnRange` is one
  step, which allows more interleavings than the shard locks do.
- A client frees each pointer once, unsized or with a size of the class its memory came from
  (`SizeClasses.FreesRight`). For what `allocate` returned that is so for the size asked for; for what
  `allocateAligned` returned see below.
- Methods that hold part of a longer function of the source (`TakeHead`, `CutSpan`, `CollectBatch`,
  `CopyChunk`, `GrowChain` and the like) stand for the code inlined there.

## Where the code does less than its documentation or tests say

- The 64 MiB limit on cached pages is checked only for whole mappings, so it is not an invariant,
  although vendor_memorypool/v3/tests/UnitTest.cpp:417 asserts it. `PageModel.CapKeptIff` says exactly
  when one deallocation keeps it. Over whole runs, `PageCap.CapExceededIff`: the limit can be exceeded
  exactly when some request gets a mapping of at least two pages that is no larger than the limit, and
  then `PageCap.CapUnbounded` exceeds any bound.
- `allocateAligned` serves misaligned addresses in two cases: a size of 0 with an alignment above 8 is
  served from the 8-byte class, and an alignment above the page size (size 1, alignment 8192, pages of
  4096 bytes) is beyond what spans have. `SizeClasses.AlignedExactly` proves that these are all.
- `deallocate` with a size trusts it. After `allocateAligned` the size asked for can be of another class
  than the rounded size that was allocated: 24 bytes aligned to 64 are a block of 64, and 24 bytes
  aligned to half a megabyte a whole span. `SizedFrees.SizedFreeKeepsIff` and
  `SizedFrees.AskedSizeFreesIff` say exactly when such a free is right: when the size freed with is
  large, or its class is the class of the size allocated. Otherwise `returnRange` skips the block
  (`SizedFrees.WrongSizeLoses`) and its span is never given back (`SizedFrees.WrongSizeLosesSpan`).
- `constant_fold` pairs payloads by length alone: a column of two plus a row of two folds to two
  values. `FoldLengths.FoldPreservesAllIff` gives the exact condition for every well-formed module, for
  all arithmetic, parameters and payload contents; where payloads and unary operators keep to their
  declared sizes, `ConstantFold.FoldPreservesIff` and
  `Pipeline.CompiledPreservesIff` give it for each arithmetic alone.
- `fuse` returns groups in the order of their first nodes, in which a group can read a value of a
  later one. `FusionOrder.Root` finds the first node of a node's group on the module, without running
  the pass. The order is executable exactly when no node reads a later root (`FusionOrder.RootOrderIff`),
  and it gives the right values for all arithmetic and parameters exactly when no node with elements
  reads a later root that can hold data (`FusionOrder.RootOrderRunsIff`). `FusionOrder.RootOrderFails`
  is `p + softmax(q)`, and `Fusion.FusedRuns` proves the order of the last nodes right for every
  module.
- tests/test_core.cpp:243-249 expects one id in the first batch after two submissions. `submit` always
  resets the phase, so the first batch holds all that fit (`Scheduling.FirstBatch`); it has one id
  exactly when one request was submitted or the limit is one. `Scheduling.BothArePrefilled` is the pair
  of the test.
- `PagedKV::release` of a page that a sequence holds leaves its bytes readable at first, but `locate`
  calls some of them invalid (`PagedReleases.ReleaseMisplacesIff`), and a later append to another
  sequence takes the page and writes over them. `PagedReleases.ReleaseReadsIff`: all later runs read
  what was appended exactly when no sequence held the page.
- The version tag of the v1 free list is a machine word. `FreeList.CasMeansUnchanged` says exactly when
  a successful compare-and-swap means an unchanged head. `FreeList.ShortRunsLinearize`: every run
  linearizes if tags never wrap, and otherwise if at most one compare-and-swap more succeeds than there
  are tags; `FreeList.LinearizesIff`: no larger number is safe. `FreeList.WrappedTagBreaks` leaves
  a slot that a client owns on the list, for every number of tags.

## Model

| member | source | states |
|---|---|---|
| PageModel.AllocateSpanKeeps | vendor_memorypool/v3/src/PageCache.cpp:127-181 | One span that was not handed out before is handed out, long enough for the request; every other handed-out span keeps its description and the whole invariant holds |
| PageModel.AllocateSpanBestFit | vendor_memorypool/v3/src/PageCache.cpp:134-172 | A free span is used if and only if one is long enough, and then none shorter would do; allocation fails only when no free span fits and the system gives nothing |
| PageModel.AllocatesExactly | vendor_memorypool/v3/src/PageCache.cpp:127-181 | A free span long enough gives up exactly the pages asked for, and the pages cached fall by as many; without one a new mapping, rounded up, is handed out whole and the cached pages stay; otherwise nothing changes |
| PageModel.RequestFitsIff | vendor_memorypool/v3/src/PageCache.cpp:90-102 | A request is refused exactly when its bytes and a granularity less one byte exceed the largest size; what is granted still fits after rounding |
| PageModel.MergedKeeps | vendor_memorypool/v3/src/PageCache.cpp:211-243 | One merge step each way leaves a span with no free neighbour in its mapping; cached plus merged pages are unchanged and all other spans stay |
| PageModel.DeallocateSpanKeeps | vendor_memorypool/v3/src/PageCache.cpp:183-259 | Exactly the given span stops being handed out, the others keep their descriptions, and no two adjacent spans of a mapping are both free |
| PageModel.ReleasesExactly | vendor_memorypool/v3/src/PageCache.cpp:192-258 | The mapping goes back to the system, and reserved pages fall by its length, exactly when a large span is its whole mapping, or all other spans of the mapping are free and the pages cached would exceed the limit; otherwise no mapping changes and the pages of the span become cached |
| PageModel.ApplyKeeps | vendor_memorypool/v3/src/PageCache.cpp:127-259 | Every operation keeps the whole invariant: spans tile their mappings, the page map sends each page to its span and maps nothing else, the free flag holds exactly on the lists keyed by size, cached pages are counted |
| PageModel.Run | vendor_memorypool/v3/src/PageCache.cpp:127-259 | Every state reached by any run of allocations and deallocations satisfies the invariant and is coalesced |
| PageModel.ReservedIsCachedPlusHanded | vendor_memorypool/v3/src/PageCache.cpp:75-88 | Reserved pages are the cached pages plus the pages handed out |
| PageModel.ReturnedMappingIsOneSpan | vendor_memorypool/v3/src/PageCache.cpp:211-259 | When every span carved from a mapping is back, the mapping is a single free span of exactly its address and length |
| PageModel.MergedWholeIff | vendor_memorypool/v3/src/PageCache.cpp:245-252 | After merging, a span covers its whole mapping exactly when it was the last one of that mapping handed out |
| PageModel.CapKeptIff | vendor_memorypool/v3/src/PageCache.cpp:245-258 | A deallocation keeps the cached pages within the limit exactly when the span goes straight back to the system, was the last of its mapping, or still fits |
| PageCap.CapExceededIff | vendor_memorypool/v3/src/PageCache.cpp:245-258 | Some run caches more pages than the limit exactly when some request gets a mapping of at least two pages and at most the limit; otherwise the limit holds in every reachable state |
| PageCap.CapUnbounded | vendor_memorypool/v3/src/PageCache.cpp:245-258 | With such a request the pages cached exceed any bound in some run |
| PageCaches.FindLowerBound | vendor_memorypool/v3/src/PageCache.cpp:134 | The least key that is at least the request, or none |
| PageCaches.PageCache.RegisterPages | vendor_memorypool/v3/src/PageCache.cpp:32-39 | Exactly the pages of the span are redirected to it |
| PageCaches.PageCache.UnregisterPages | vendor_memorypool/v3/src/PageCache.cpp:41-48 | Exactly the pages of the span are unmapped |
| PageCaches.PageCache.RedirectPages | vendor_memorypool/v3/src/PageCache.cpp:50-57 | The pages of one span come to lead to another |
| PageCaches.PageCache.FindSpan | vendor_memorypool/v3/src/PageCache.cpp:67-73 | The span object of a page, which is the one the invariant says contains it |
| PageCaches.PageCache.ReservedPages | vendor_memorypool/v3/src/PageCache.cpp:75-82 | The sum over the mappings |
| PageCaches.PageCache.UnlinkNode | vendor_memorypool/v3/src/PageCache.cpp:261-293 | The pointer walk finds the span exactly when its list holds it and unlinks it without touching anything else |
| PageCaches.PageCache.RemoveFromFreeList | vendor_memorypool/v3/src/PageCache.cpp:261-293 | The linked lists afterwards are the model's lists without the span |
| PageCaches.PageCache.PushFree | vendor_memorypool/v3/src/PageCache.cpp:254-258 | The span becomes the head of the list for its size |
| PageCaches.PageCache.SystemAlloc | vendor_memorypool/v3/src/PageCache.cpp:90-108 | Refuses sizes that overflow, rounds to the granularity and records the mapping |
| PageCaches.PageCache.AllocateSpan | vendor_memorypool/v3/src/PageCache.cpp:127-181 | The objects afterwards represent the model's allocateSpan; by the fields: the length of the span, the mappings and the count of cached pages in each of the three cases; objects of handed-out spans are unchanged |
| PageCaches.PageCache.ReleaseOrigin | vendor_memorypool/v3/src/PageCache.cpp:110-125 | The span, its pages and its mapping are forgotten |
| PageCaches.PageCache.MergeBoth | vendor_memorypool/v3/src/PageCache.cpp:211-243 | The pointer surgery does the model's two merge steps |
| PageCaches.PageCache.DeallocateSpan | vendor_memorypool/v3/src/PageCache.cpp:183-259 | The objects afterwards represent the model's deallocateSpan; by the fields: exactly when the mapping is given back, and the mappings and the count of cached pages in either case; objects of other handed-out spans are unchanged |
| SizeClasses.MakeSizeClassTable | vendor_memorypool/v3/src/Common.h:78-93 | The table holds the closed-form classes in order, as many as fit the limit and the slots |
| SizeClasses.LastClass | vendor_memorypool/v3/src/Common.h:136-138 | The three static assertions: 56 classes, the first is 8 bytes, the last is exactly the largest small size |
| SizeClasses.MakeIndexMap | vendor_memorypool/v3/src/Common.h:98-132 | Both index maps send every entry to the least class that is large enough |
| SizeClasses.GetIndex | vendor_memorypool/v3/src/Common.h:157-164 | The lookup through either map gives the least class large enough, or one past the classes |
| SizeClasses.RoundUpSameClass | vendor_memorypool/v3/src/Common.h:150-155 | Rounding a size up first does not change its class; up to the largest small size the result is the least class size large enough, beyond it the least multiple of 8 |
| SizeClasses.RequestExactly | vendor_memorypool/v3/src/ThreadCache.cpp:170-181 | An alignment up to 8 leaves the size alone; beyond it the request is the least multiple of the alignment large enough, or fails exactly when size plus alignment less one exceed the largest size |
| SizeClasses.ClassKeepsAlignment | vendor_memorypool/v3/src/ThreadCache.cpp:170-181 | The least class for a multiple of a power of two is again a multiple of it |
| SizeClasses.AlignedExactly | vendor_memorypool/v3/src/ThreadCache.cpp:170-181 | For every size and every power of two: all addresses that may be served, wherever spans lie, are aligned exactly when the alignment is at most a page, and the size is not zero or the alignment is at most 8 |
| SizeClasses.LargeAligned | vendor_memorypool/v3/src/ThreadCache.cpp:134-151 | Whole spans are aligned, wherever they lie, to exactly the powers of two up to the page size |
| CentralModel.SpanHolds | vendor_memorypool/v3/src/CentralCache.cpp:23-49 | For every page size the span asked for holds at least one block, so the branch that gives it back is never taken |
| CentralModel.SpanPagesExactly | vendor_memorypool/v3/src/CentralCache.cpp:23-38 | The span asked for is the largest number of whole pages within the target for the block size (32 KiB, 128 KiB, 512 KiB or 2 MiB), or one page if a page is larger |
| CentralModel.CutExactly | vendor_memorypool/v3/src/CentralCache.cpp:44-53 | A span is cut into as many blocks as have room in it, and its free list holds them in the order of their addresses |
| CentralModel.CreateKeeps | vendor_memorypool/v3/src/CentralCache.cpp:17-67 | A new span is cut into blocks that were not out before and changes no other span; it fails only when the page cache does |
| CentralModel.PopKeeps | vendor_memorypool/v3/src/CentralCache.cpp:107-123 | The first block of the first partial span comes out; the span leaves the list exactly when it was its last |
| CentralModel.PopsExactly | vendor_memorypool/v3/src/CentralCache.cpp:98-123 | It is the first block on the free list of the first span; only that span changes, and the span leaves the front of the list exactly when it was its last |
| CentralModel.FetchOneKeeps | vendor_memorypool/v3/src/CentralCache.cpp:96-124 | A block that was not out, of the class asked for, comes out; all blocks out before keep their span and class; it fails only when the list is empty and no span can be had |
| CentralModel.FetchFailsIff | vendor_memorypool/v3/src/CentralCache.cpp:96-124 | No block comes exactly when the list of the class is empty, no free span is long enough, and the system gives nothing |
| CentralModel.ReturnOneKeeps | vendor_memorypool/v3/src/CentralCache.cpp:139-166 | The branch that skips a pointer is never taken; the span goes back to the page cache exactly when this was its last block out; blocks still out keep their span and class |
| CentralModel.ReturnsExactly | vendor_memorypool/v3/src/CentralCache.cpp:139-166 | With another block of the span still out, the block becomes the first of its free list and a span that had none the first of the class's list; with none out the span is forgotten and deallocated; nothing else changes |
| CentralModel.Conserved | vendor_memorypool/v3/src/CentralCache.cpp:84-167 | Free blocks plus blocks out make all blocks of a span |
| CentralModel.LargeTaken | vendor_memorypool/v3/src/ThreadCache.cpp:134-151 | A large allocation takes a span that no class and no other large allocation has |
| PoolSystem.LargePagesExactly | vendor_memorypool/v3/src/ThreadCache.cpp:134-140 | A large request asks for exactly the pages its bytes need |
| CentralModel.LargeBack | vendor_memorypool/v3/src/ThreadCache.cpp:195-199 | Giving it back leaves all cut spans and other large ones alone |
| PoolSystem.BatchFits | vendor_memorypool/v3/src/ThreadCache.cpp:100-127 | A refill never leaves more blocks than the thread may cache |
| PoolSystem.BatchExactly | vendor_memorypool/v3/src/ThreadCache.cpp:117-127 | The batch is 512, 256, 128, 32 or 16 blocks up to 32, 64, 256, 1024 and 4096 bytes, and beyond that as many as fit 64 KiB, but at least one |
| PoolSystem.LimitExactly | vendor_memorypool/v3/src/ThreadCache.cpp:100-110 | The limit is 4096, 2048, 1024, 256 or 512 blocks up to the same sizes, and beyond that as many as fit 256 KiB, but at least one |
| PoolSystem.KeepFits | vendor_memorypool/v3/src/ThreadCache.cpp:286-293 | An overfull list is cut to a shorter, non-empty list within the limit |
| PoolSystem.KeepExactly | vendor_memorypool/v3/src/ThreadCache.cpp:286-293 | A list one over its limit keeps half of its blocks, but at least one |
| PoolSystem.AllocateKeeps | vendor_memorypool/v3/src/ThreadCache.cpp:129-168 | Serving a request from the thread's list, starting a refill, or taking a whole span keeps the system invariant |
| PoolSystem.FetchKeeps | vendor_memorypool/v3/src/CentralCache.cpp:96-124 | One round of a refill keeps it, for any mix of threads |
| PoolSystem.FetchEndKeeps | vendor_memorypool/v3/src/ThreadCache.cpp:261-282 | Ending a refill keeps the system invariant |
| PoolSystem.FindsClass | vendor_memorypool/v3/src/ThreadCache.cpp:183-203 | findSpan on a live pointer gives a large span exactly for large sizes and otherwise the cut span of the class it was allocated from |
| PoolSystem.FreeKeeps | vendor_memorypool/v3/src/ThreadCache.cpp:183-259 | Freeing, unsized or with a size of its class, removes exactly this pointer from the live ones and keeps the invariant |
| SizedFrees.SizedFreeKeepsIff | vendor_memorypool/v3/src/ThreadCache.cpp:214-259 | Freeing a live pointer with a size keeps the system invariant exactly when the size is large or of the class of the size allocated |
| SizedFrees.SizedFreeIsUnsizedIff | vendor_memorypool/v3/src/ThreadCache.cpp:183-259 | It does exactly what the unsized free does exactly under that condition |
| SizedFrees.AskedSizeFreesIff | vendor_memorypool/v3/src/ThreadCache.cpp:170-259 | For an aligned allocation: freeing with the size asked for is right exactly when that size is large or rounding to the alignment keeps its class, which it does up to the natural alignment |
| SizedFrees.AskedSizeBreaks | vendor_memorypool/v3/src/ThreadCache.cpp:170-259 | 24 bytes aligned to 64, or to half a megabyte, and freed as 24 bytes lose the invariant |
| SizedFrees.WrongSizeLoses | vendor_memorypool/v3/src/CentralCache.cpp:144-149 | Flushed and returned, a pointer freed with a wrong size is skipped: it is in no place any more and the central cache is unchanged |
| SizedFrees.NeverComesBack | vendor_memorypool/v3/src/CentralCache.cpp:84-167 | In every run of the shared caches in which a block is not returned by its own class, and a large span not freed, their spans stay handed out |
| SizedFrees.WrongSizeLosesSpan | vendor_memorypool/v3/src/ThreadCache.cpp:214-259 | So a pointer freed with a wrong size keeps its span from the page cache, whatever all threads do without freeing it again |
| PoolSystem.ReturnKeeps | vendor_memorypool/v3/src/CentralCache.cpp:139-166 | One round of a return keeps the invariant and never skips its pointer |
| PoolSystem.FlushKeeps | vendor_memorypool/v3/src/ThreadCache.cpp:87-98 | Flushing a list keeps the invariant |
| PoolSystem.NextKeeps | vendor_memorypool/v3/src/ThreadCache.cpp:87-314 | Every step of every thread keeps the whole system invariant, where sized frees say a size of the right class |
| PoolSystem.ReachableInv | vendor_memorypool/v3/src/ThreadCache.cpp:87-314 | It holds in every state of every run of any number of threads |
| PoolSystem.ExactlyOnePlace | vendor_memorypool/v3/src/ThreadCache.cpp:87-314 | In every reachable state each block of each span is in exactly one place, once: its span's list, one thread's list, one thread on its way, or one live allocation |
| PoolSystem.LiveDisjoint | vendor_memorypool/v3/src/ThreadCache.cpp:129-168 | In every reachable state the bytes of two live allocations do not overlap |
| PoolSystem.ListLengths | vendor_memorypool/v3/src/ThreadCache.cpp:112-115 | In every reachable state each recorded list length is the length and within the limit of its class |
| PoolSystem.PartialLists | vendor_memorypool/v3/src/CentralCache.cpp:96-166 | In every reachable state the list of a class holds, once each, exactly its spans with some but not all blocks free, and free counts are list lengths |
| PoolSystem.QuietIsWhole | vendor_memorypool/v3/src/CentralCache.cpp:154-158 | When nothing is live, cached by a thread or on its way, no span is left cut and every mapping is one free span |
| CentralCaches.CentralCache.CreateSpan | vendor_memorypool/v3/src/CentralCache.cpp:17-67 | The span object is cut as the model says and is on no list yet; no span comes exactly when the model's createSpan fails |
| CentralCaches.CentralCache.FetchRange | vendor_memorypool/v3/src/CentralCache.cpp:84-128 | The loop leaves the objects and returns the blocks that repeated model rounds do, and the invariant holds with exactly those blocks out |
| CentralCaches.FetchManyKeeps | vendor_memorypool/v3/src/CentralCache.cpp:84-128 | The blocks are distinct, were not out, are at most a batch and of the class asked for; blocks out before keep their spans |
| CentralCaches.FetchesWhatIsThere | vendor_memorypool/v3/src/CentralCache.cpp:84-128 | fetchRange stops short of a batch only when the class has no free block left and the page cache no span |
| CentralCaches.CentralCache.UnlinkPartial | vendor_memorypool/v3/src/CentralCache.cpp:69-82 | The walk over the next fields removes the span from its linked list and nothing else |
| CentralCaches.CentralCache.NeverOnBoth | vendor_memorypool/v3/src/CentralCache.cpp:69-123 | A span linked into a list of the central cache is on no list of the page cache, which uses the same field |
| CentralCaches.CentralCache.ReturnBlock | vendor_memorypool/v3/src/CentralCache.cpp:139-166 | One round does what the model says, giving the span back, relisting it, or skipping a block of another class |
| CentralCaches.CentralCache.ReturnRange | vendor_memorypool/v3/src/CentralCache.cpp:130-167 | All blocks are back in their spans and the invariant holds without them |
| ThreadCaches.FetchRun | vendor_memorypool/v3/src/CentralCache.cpp:84-128 | A whole fetchRange is a run of single rounds of the machine with the same result |
| ThreadCaches.RunsReachable | vendor_memorypool/v3/src/ThreadCache.cpp:129-314 | Whatever the methods of thread caches reach from a reachable state is reachable, and live allocations do not overlap there |
| ThreadCaches.RefillEnds | vendor_memorypool/v3/src/ThreadCache.cpp:261-282 | The first block fetched, which was not live, becomes the client's with the size asked for, and the rest become the thread's list |
| ThreadCaches.ReturnRun | vendor_memorypool/v3/src/CentralCache.cpp:130-167 | A whole returnRange is a run of single rounds of the machine with the same result |
| ThreadCaches.ThreadCache.constructor | vendor_memorypool/v3/src/ThreadCache.cpp:76-80 | A new thread cache is a thread of the machine with empty lists |
| ThreadCaches.ThreadCache.AllocateLarge | vendor_memorypool/v3/src/ThreadCache.cpp:134-151 | A run of the machine; the address was not live and is now live with this size; none comes, and nothing changes for the client, exactly when the size overflows, or no free span fits and the system gives nothing |
| ThreadCaches.ThreadCache.Allocate | vendor_memorypool/v3/src/ThreadCache.cpp:129-168 | A run of the machine in which only this thread moves; the address returned was not live and is now live with this size; none comes exactly when the thread has no block of the class and the layers below have neither a block nor a span; a list that has blocks gives up its first and the central cache is not touched, an empty one is left with the rest of a batch, whole unless nothing of the class was left, and other lists stay |
| ThreadCaches.ThreadCache.AllocateAligned | vendor_memorypool/v3/src/ThreadCache.cpp:170-181 | The same, for the size rounded up to the alignment, which is at least the size asked for; none comes exactly when rounding overflows or the rounded size cannot be had; the address is aligned as asked when the alignment is at most a page and the size is not zero or the alignment is natural |
| PoolSystem.ServedAligned | vendor_memorypool/v3/src/ThreadCache.cpp:170-181 | Whatever the machine serves for the rounded size is a multiple of an alignment up to the page size, unless a zero size met an alignment above 8 |
| ThreadCaches.ThreadCache.FetchFromCentralCache | vendor_memorypool/v3/src/ThreadCache.cpp:261-282 | A run of the machine that ends with the first block live and the rest of the batch on the list, which is whole unless nothing of the class was left; it brings nothing exactly when the central cache has no block and the page cache no span |
| ThreadCaches.ThreadCache.ReturnToCentralCache | vendor_memorypool/v3/src/ThreadCache.cpp:284-314 | A run of the machine that leaves live addresses alone; a list one over its limit keeps its first half |
| ThreadCaches.ThreadCache.Deallocate | vendor_memorypool/v3/src/ThreadCache.cpp:183-212 | A run of the machine that ends with exactly this address not live any more; a small block is now the first of the list of its class, which keeps only its first half if it was full, and other lists stay; an address on no known page is refused and changes nothing |
| ThreadCaches.ThreadCache.DeallocateSized | vendor_memorypool/v3/src/ThreadCache.cpp:214-259 | The same for a free with any size that is large or of the class of the size allocated |
| ThreadCaches.ThreadCache.FlushAll | vendor_memorypool/v3/src/ThreadCache.cpp:87-98 | A run of the machine after which every list is empty and live addresses are unchanged |
| FreeList.CasMeansUnchanged | vendor_memorypool/v1/src/MemoryPool.cpp:103-119 | A compare-and-swap that matches found the head unchanged since it was loaded exactly when the tag had not wrapped around meanwhile |
| FreeList.PushKeeps | vendor_memorypool/v1/src/MemoryPool.cpp:94-106 | A push that succeeds puts its slot on top of the list, even if the tag has wrapped around |
| FreeList.PopKeeps | vendor_memorypool/v1/src/MemoryPool.cpp:108-121 | A pop that succeeds before the tag wraps around removes exactly the current top, with its current next, however often that slot was popped, overwritten and pushed meanwhile |
| FreeList.StepRefines | vendor_memorypool/v1/src/MemoryPool.cpp:94-121 | Every step of every thread, but for a pop past a wrap-around, keeps the invariant and is a push, a pop or nothing of a sequential stack |
| FreeList.RunLinearizes | vendor_memorypool/v1/src/MemoryPool.cpp:94-121 | Every run in which no pop sleeps through a wrap-around linearizes: the events in order are legal for a stack that ends as the list |
| FreeList.ShortRunsLinearize | vendor_memorypool/v1/src/MemoryPool.cpp:94-121 | With tags that never wrap every run linearizes; with wrapping tags every run in which at most one compare-and-swap more succeeds than there are tags, nothing else assumed |
| FreeList.LinearizesIff | vendor_memorypool/v1/src/MemoryPool.cpp:94-121 | That bound is exact: for at least three tags, all runs with at most n successes linearize exactly when n is at most the number of tags plus one |
| FreeList.HandedOutOnce | vendor_memorypool/v1/src/MemoryPool.cpp:38-68 | No slot handed out is on the list or handed to another owner |
| FreeList.WrappedTagBreaks | vendor_memorypool/v1/src/MemoryPool.cpp:111-119 | For every number of tags, in some reachable state a pop succeeds and leaves a slot that a client owns at the head of the list |
| SlotBlocks.FirstSlotFitsIff | vendor_memorypool/v1/src/MemoryPool.cpp:78-91 | A new block has room for its first slot, wherever it lies, exactly when it holds the header and two slots |
| SlotBlocks.SlotPool.AllocateNewBlock | vendor_memorypool/v1/src/MemoryPool.cpp:70-84 | The bump pointer starts on the first slot boundary after the header of the new block, and stops where the last whole slot begins |
| SlotBlocks.SlotPool.CarveSlot | vendor_memorypool/v1/src/MemoryPool.cpp:45-59 | A slot on a slot boundary inside a block, apart from every slot handed out before; slots follow one another, and a new block is begun exactly when the old one is used up |
| Ir.CountElements | src/compiler.cpp:47-57 | The product of the dimensions, or zero for a scalar, a negative dimension or an overflow |
| Ir.ElementsExactly | src/compiler.cpp:47-57 | A scalar has none; one more dimension multiplies the number, unless it is negative or the product exceeds the 64-bit maximum, which leave none |
| Ir.InferMatMul | src/shape.cpp:11-19 | A result exactly when some shape satisfies the matrix product rule, and then that shape |
| Ir.InferBroadcast | src/shape.cpp:21-38 | A result exactly when some shape satisfies the broadcast rule, and then that shape |
| Ir.BroadcastUnique | src/shape.cpp:21-38 | The broadcast shape is unique |
| Ir.BroadcastIs | src/shape.cpp:21-38 | The broadcast rule on the dimensions themselves: aligned at the end they are equal or one of them is 1, and the result is as long as the longer shape and has the larger dimensions |
| Ir.IrModule.Emit | src/compiler.cpp:92-104 | Appends one node numbered by its position |
| Ir.DigitsRead | src/compiler.cpp:92-104 | Names end in a decimal number without leading zeros that reads back as the number of the node |
| Ir.IrModule.AddConstant | src/compiler.cpp:82-90 | A payload of the wrong size is an error, but the node has been added |
| Ir.IrModule.Users | src/compiler.cpp:111-119 | The nodes that read a value, in order |
| Ir.UsersAre | src/compiler.cpp:111-119 | Exactly the nodes with the value among their inputs, each once |
| Ir.Validate | src/shape.cpp:76-133 | Accepts exactly the well-formed modules and reports, for each node, exactly a wrong number of inputs, each input that is not an earlier node, and a shape that is not the inferred one; nodes of an accepted module have 0 inputs for parameters and constants, 3 for LayerNorm, 2 for MatMul, Add and Mul, and 1 for every other operator |
| Ir.AcceptedHas | src/shape.cpp:81-131 | An accepted module, operator by operator: numbers, earlier inputs, the number of inputs, and the shapes of matrix products, sums and products |
| Ir.AcceptedWhen | src/shape.cpp:81-131 | Conversely every module with these numbers, inputs and shapes is accepted |
| Meaning.SolutionIsValues | src/compiler.cpp:92-104 | A well-formed module determines the value of every node |
| ConstantFold.Fold | src/compiler.cpp:135-167 | On any module, the loop over nodes folds them in place, as FoldsExactly spells out, up to the first whose input lookup throws; a well-formed module is folded whole |
| ConstantFold.FoldsExactly | src/compiler.cpp:135-167 | On any module, operator by operator: an Add or Mul of two constants with payloads of one length becomes the constant of the sums or products, a Relu, Gelu, Cast or Reshape of a constant with a payload becomes the constant of the images, and every other node stays as it is |
| ConstantFold.FoldKeepsWellFormed | src/compiler.cpp:163-166 | The folded module is well formed and keeps all shapes |
| ConstantFold.FoldIsFixpoint | src/compiler.cpp:135-167 | After one pass no Add or Mul reads two constants with payloads of one length, and no Relu, Gelu, Cast or Reshape a constant with a payload, cascades included; a second pass changes nothing |
| ConstantFold.FoldPreserves | src/compiler.cpp:135-167 | When pairing folded operands by position is broadcasting them, every node keeps its value, for arbitrary scalar arithmetic |
| FoldLengths.FoldPreservesByLength | src/compiler.cpp:135-167 | For any scalar type: every node keeps its value when every node that folds, as payload lengths tell, pairs its operands as broadcasting would |
| FoldLengths.FoldPreservesAllIff | src/compiler.cpp:142-147 | On every well-formed module, all values are preserved for all arithmetic, parameters and payload contents exactly under that condition |
| ConstantFold.ColumnPlusRow | src/compiler.cpp:142-147 | A well-formed module whose values change |
| DeadCode.MarkLive | src/compiler.cpp:187-195 | The worklist terminates and marks exactly the nodes a path from an output reaches |
| DeadCode.Eliminate | src/compiler.cpp:185-217 | Without outputs nothing changes; otherwise the reached nodes are left, renumbered, every output becomes the new number of its node, and the count returned is the number of nodes that no output reaches |
| DeadCode.KeptExactly | src/compiler.cpp:201-211 | Every reached node is kept under its new number, with its inputs renumbered and nothing else changed, and the numbers keep the old order |
| DeadCode.NothingElse | src/compiler.cpp:201-206 | Every kept node is a reached one |
| DeadCode.EliminateKeepsWellFormed | src/compiler.cpp:207-212 | The result is well formed |
| DeadCode.EliminatePreserves | src/compiler.cpp:185-217 | Every reached node, so every output, keeps its value under its new number |
| DeadCode.EliminateTwice | src/compiler.cpp:185-217 | A second run leaves the nodes and the outputs as they are and removes no node |
| Fusion.Fuse | src/compiler.cpp:219-240 | On any module whose nodes are numbered in order, the loops with the visited set compute the groups, each named after its root |
| Fusion.FusePartitions | src/compiler.cpp:219-240 | Every node is in one group at one place, and every member but the last is read by the next one only, which is elementwise |
| Fusion.GroupReadsEarlier | src/compiler.cpp:228-234 | What a group reads lies in a group that ends earlier, so contracting groups leaves no cycle |
| Fusion.ByLastSorts | src/compiler.cpp:219-240 | The groups can be put in the order of their last nodes |
| Fusion.FusedRuns | src/compiler.cpp:219-240 | Whole groups run in that order give every node the value of node-by-node evaluation |
| FusionOrder.GroupsAreRootClasses | src/compiler.cpp:222-237 | The groups are the classes of nodes with one root, found on the module alone, each led by its root and in the order of the roots |
| FusionOrder.FusesExactly | src/compiler.cpp:219-240 | Every member of a group but the first is an Add, Mul, Relu, Gelu or Cast that alone reads the one before; and every such node that alone reads a member of a group is in that group or an earlier one, and leads none |
| FusionOrder.RootOrderIff | src/compiler.cpp:222-237 | The order in which groups are returned runs everything after what it reads exactly when no node reads a node with a later root |
| FusionOrder.RootOrderRuns | src/compiler.cpp:222-237 | Run in the returned order, groups give every node its value when no node with elements reads data from a node with a later root |
| FusionOrder.RootOrderRunsIff | src/compiler.cpp:222-237 | The returned order gives every node its value for all arithmetic and all parameters exactly under that condition |
| FusionOrder.RootOrderFails | src/compiler.cpp:222-237 | A module for which running the groups as returned gives a wrong value |
| Pipeline.InferLayout | src/compiler.cpp:169-176 | Every matrix product with two dimensions gets the tiled layout and is otherwise unchanged, and every other node is unchanged |
| Pipeline.LayoutPreserves | src/compiler.cpp:169-176 | Layouts change neither well-formedness nor values |
| Pipeline.Run | src/pipeline.cpp:29-83 | A malformed module is rejected unchanged; otherwise the module is the folded one, with rank-2 matrix products tiled exactly when layouts are asked for, still well formed, with one launch per node or per fused group, named after its first node, and a remark exactly for single-node groups |
| Pipeline.CompiledPreservesAllIff | src/pipeline.cpp:38-40 | The passes of the pipeline together preserve all values, for all arithmetic, parameters and payload contents, exactly when every folded pairing is right |
| Paged.PagedKV.constructor | src/memory.cpp:48-56 | An empty cache is well formed |
| Paged.PagedKV.Acquire | src/memory.cpp:58-68 | The first free page, or failure exactly when there is none |
| Paged.PagedKV.Release | src/memory.cpp:70-76 | The page is free with nothing written, no byte and no other page changes; the cache goes on refining its history exactly when no sequence held the page |
| PagedReleases.ReleaseMisplacesIff | src/memory.cpp:148-156 | After a release every byte is read as before, and locate calls a byte below the end invalid exactly when a sequence held the page |
| PagedReleases.ReleaseReadsIff | src/memory.cpp:70-178 | After a release all later runs that release no held page read every sequence as appended exactly when no sequence held the page; otherwise an append to another sequence changes a byte |
| PagedReleases.CleanReads | src/memory.cpp:58-178 | Along every run that releases no held page, every byte is read as appended since the last release of its sequence, and nothing past it |
| Paged.PagedKV.ReleaseSequence | src/memory.cpp:78-91 | The sequence is empty, exactly its pages become free, and the others keep their bytes |
| Paged.PagedKV.Append | src/memory.cpp:93-146 | All or nothing: fails exactly when the preflight count exceeds the free pages, and then changes no byte; otherwise appends exactly the bytes and takes exactly the pages counted |
| Paged.CopiedSome | src/memory.cpp:106-146 | With the pages the preflight asks for, in any state, the copy loop never throws and takes exactly that many |
| Paged.OpenNeeds | src/memory.cpp:119-133 | A page the copy loop takes is a page the preflight counted |
| Paged.ExtendNeeds | src/memory.cpp:119-143 | Writing to the tail page leaves the preflight count as it was |
| Paged.ContentsAt | src/memory.cpp:148-156 | Byte off of a sequence is byte off modulo the page size of its page number off divided by the page size |
| Paged.PagedKV.Locate | src/memory.cpp:148-156 | The location holds exactly that byte, and is invalid exactly past the end |
| Paged.PagedKV.Read | src/memory.cpp:158-178 | Copies exactly the slice of the bytes appended since the last release, whatever pages it spans, and nothing more |
| Paged.PagedKV.Bytes | src/memory.cpp:180-183 | The number of bytes appended since the last release |
| Scheduling.SubmitKeeps | src/scheduler.cpp:7-11 | Submission keeps the order and phase invariant |
| Scheduling.CancelKeeps | src/scheduler.cpp:13-27 | Cancelling keeps it |
| Scheduling.AdmitKeeps | src/scheduler.cpp:32-35 | Filling the active set keeps it: active followed by queued stays the same list, the limit is respected, and requests stay queued only when the limit is reached |
| Scheduling.CompleteKeeps | src/scheduler.cpp:52-67 | Completing keeps it: no finished request stays and a decoding one has tokens left to produce |
| Scheduling.CompletesExactly | src/scheduler.cpp:52-67 | A request with the id stays exactly when its prompt, its generated tokens and the new ones are below its total, and then decodes with the new ones added; all others stay as they are, and the order is kept |
| Scheduling.CancelsExactly | src/scheduler.cpp:13-27 | Exactly the requests with the id are gone from a list, and the others stay as they are, in order |
| Scheduling.BatchExactly | src/scheduler.cpp:36-49 | The batch holds exactly the active requests in the phase of the first, in order, and counts the prompt of each prefill and one token for each decode |
| Scheduling.LeavesExactly | src/scheduler.cpp:7-67 | Over every run, a request is gone exactly when it was cancelled, or was completed while active and its prompt and all tokens completed for it reach its total; otherwise it is there with exactly these tokens generated |
| Scheduling.SubmittedLeavesExactly | src/scheduler.cpp:7-67 | The same from its submission on, whatever phase it was submitted in |
| Scheduling.Scheduler.Next | src/scheduler.cpp:29-50 | The two loops admit from the front and return exactly the active requests of the front's phase with the matching token total; the batch is empty exactly when there was no request |
| Scheduling.Scheduler.Complete | src/scheduler.cpp:52-67 | The in-place loop and the erasure leave exactly the requests that stay, in order: those with the id and tokens still to produce, now decoding with the tokens added, and all others unchanged |
| Scheduling.RoundFalls | src/scheduler.cpp:29-67 | A round that completes its batch strictly lowers the remaining work |
| Scheduling.AllFinish | src/scheduler.cpp:29-67 | Without new submissions every request finishes within as many rounds as there is work |
| Scheduling.FirstBatch | src/scheduler.cpp:7-11 | Whatever is submitted to an idle scheduler, in whatever phase, the first batch prefills the first requests in order, as many as the limit admits, with the sum of their prompts as tokens |
| Tuning.RecordKeepsFastest | src/tuning.cpp:9-18 | Sorting in a measurement and cutting at 32 keeps the fastest of the whole history, for any sorted permutation |
| Tuning.FastestUnique | src/tuning.cpp:9-18 | The latencies kept are those of sorting the whole history once |
| Tuning.TuneDatabase.Record | src/tuning.cpp:9-18 | The entries of the key are the fastest ever recorded for it, 32 of them or all, and other keys are unchanged |
| Tuning.TuneDatabase.Best | src/tuning.cpp:20-24 | The fastest measurement ever recorded for the key, or the default, invalid one |
| Tuning.TuneDatabase.Candidates | src/tuning.cpp:26-31 | The kept measurements, sorted, 32 or all there are, or none |
| Gemm.Multiply | src/kernels.cpp:18-47 | For every shape, tile size, addition and multiplication, each output element is the left-to-right fold of the products over the inner index |
| Gemm.TimesIdentity | src/kernels.cpp:18-47 | The fold of a matrix with an identity matrix, on either side, gives back its elements, row by row |
| TiledKernel.StepKeeps | cuda/kernels.cu:44-63 | Every step of every thread keeps the invariant of loads, barriers and accumulators |
| TiledKernel.ReadsCurrentBlock | cuda/kernels.cu:53-61 | An accumulation reads the tile values of its own block only, and no thread of the block may write to a tile meanwhile |
| TiledKernel.NoDeadlock | cuda/kernels.cu:53-62 | Some thread can always move until all have finished |
| TiledKernel.LaunchEnds | cuda/kernels.cu:44-63 | Every launch takes the same number of steps however threads interleave: no run is longer, a run of that length has finished, and a shorter one can go on |
| TiledKernel.LaunchComputesProduct | cuda/kernels.cu:44-63 | A finished launch holds in every element the fold over the zero-padded inner index, for all sizes including ragged edges |
| TiledKernel.PaddedIsDotPlusZeros | cuda/kernels.cu:54-59 | The padded fold is the product with zeros added at the end |
| TiledKernel.LaunchAgreesWithCpu | cuda/kernels.cu:44-63 | The kernel and the CPU loop nest agree whenever adding zero times zero is a no-op |

## Left out

- vendor_memorypool/v2: superseded by v3.
- CentralCaches.CentralCache.FetchRange: the blocks of a span and of a thread's list are sequences, so the words inside freed blocks that link them are not modelled.
- ThreadCaches.ThreadCache.Allocate: the classes run one call at a time; interleavings are those of `PoolSystem`.
- Memory orderings and spin locks: critical sections are atomic and memory is sequentially consistent.
- PoolSystem.NextKeeps: a round of `returnRange` is one step, so the page cache is not observed between its lookup and its deallocation.
- SizeClasses.AlignedExactly: the test that an alignment is a power of two is not modelled bit by bit; the alignment is given by its exponent.
- SlotBlocks.SlotPool.CarveSlot: the list that links blocks for the destructor is not modelled.
- FoldLengths.FoldPreservesAllIff: over integers and all payload contents; `FoldLengths.FoldPreservesByLength` is for any scalar type.
- ConstantFold.FoldPreservesIff: needs payloads of the size of their shape and unary operators that keep the number of elements, which `validate` does not check.
- Meaning.SolutionIsValues: scalars, MatMul, LayerNorm, Softmax and ReduceSum are uninterpreted, so rounding is not modelled.
- Paged.PagedKV.Append: sizes are unbounded, so wrap-around of a byte count is not modelled.
- Scheduling.AllFinish: token counts are unbounded.
- Fusion.Fuse: nodes are numbered by position, as `emit` numbers them.
- DeadCode.Eliminate: needs a well-formed module and outputs in range, because the code indexes by them unchecked.
- FusionOrder.RootOrderRunsIff: over integers, so that arithmetic can tell a missing value from any payload; `FusionOrder.RootOrderRuns` is for any scalar type.
- Pipeline.Run: schedules, tuning choices and time estimates of a launch are not modelled.
- Gemm.Multiply: operands are matrices by construction, so the rank check is not modelled.
- Debug guards, statistics, the C API and the allocator adaptor of the pools: thin wrappers.
- gpuforge::MemoryPool: a counter over the pool that would only add easy members.
- infer_reshape and infer_reduce: neither `validate` nor a pass uses them.
- CUDA source emission, planner, schedule and cost heuristics: no claim beyond their formulas.
- Saving and loading the tuning database: file and text handling.
- Attention, softmax, layer normalisation and the WMMA kernels: floating point or opaque intrinsics.
- src/kv_cache.cpp, src/collective.cpp, src/precision.cpp, src/runtime.cpp, src/executor.cpp, src/graph.cpp: single formulas or timing.
