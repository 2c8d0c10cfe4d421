# Kernel heap bring-up of biboy, modelled in Dafny

This project models `src/allocator.rs` of biboy, a small x86-64 kernel. The file does two things.

- **Frame allocation.** A bump-style physical frame allocator reads the bootloader's memory map as one stream. For every `Usable` region, in map order, it takes the addresses `start, start + 4096, …` below `end` and turns each into the 4 KiB frame that contains it. The allocator keeps a cursor. Call number n returns element n of the stream, or nothing once the stream is exhausted. The cursor then advances whether or not a frame came back.
- **Heap bring-up (`init_heap`).** It maps every page of the fixed heap window `[0x4444_4444_0000, +10 MiB)` in ascending order. Each page gets a frame from that allocator and the flags `PRESENT | WRITABLE`, and its translation-cache entry is flushed. The page-table mapper may draw further frames from the same allocator for intermediate tables. The first error (no frame, or a `map_to` error) is returned at once and nothing is undone. Only after the last page is mapped is the global `LockedHeap` arena handed `(HEAP_START, HEAP_SIZE)`.

The project has five modules.

- `Wrappers` (`wrappers.dfy`): `Option` and `Result`.
- `Paging` (`paging.dfy`): pages, frames, `containing_address` and the `MapToError` kinds.
- `FrameAllocator` (`frame_allocator.dfy`):
  - the memory map;
  - the frame stream as functions (`StepAddresses` → `UsableAddresses` → `Frames` → `FrameAt`);
  - the imperative `Allocator` class, whose `AllocateFrame` is proved against `FrameAt`.
- `PageMapper` (`page_mapper.dfy`): an abstract `OffsetPageTable`.
  - `MapToSpec` is the effect of `map_to` as a function.
  - The `Mapper` class has a `MapTo` method that draws table frames from a live `Allocator` in a loop, and a `Flush` method.
- `Heap` (`heap.dfy`):
  - the constants and the inclusive page range;
  - the arena;
  - `MapHeapPages`, the mapping loop as a function of the allocator's frame stream (`Frames` of the memory map), the pages, the mapper's state and the cursor;
  - `MapPages`, the imperative `for page in page_range` loop driving a live `Allocator` and `Mapper`, proved against `MapHeapPages`;
  - `InitHeap`, which creates the allocator, runs that loop over the heap's pages and then initialises the arena;
  - lemmas about progress, no rollback, where each drawn frame went, frame distinctness, when the loop succeeds, and two concrete memory maps.

The code of `map_to` belongs to the x86_64 crate, and what it meets depends on page-table contents the model does not hold. For each page it is therefore described by a `TableWalk`:

- how many of the three intermediate tables are missing (each costs one frame from the shared allocator);
- whether a huge-page entry blocks the walk.

`map_to` then fails with `FrameAllocationFailed` when a table frame is missing (tables created so far stay in place). Otherwise it fails with `ParentEntryHugePage`, or with `PageAlreadyMapped`, or it installs the entry.

This order is the model's: all missing tables are created before the huge-parent and already-mapped checks, and a `TableWalk` may combine a huge parent or an existing entry with missing tables. The crate's walk cannot meet such combinations: a huge parent lies on the path before any table that would be missing below it, and a page that already has an entry has no missing table on its path. For every walk the crate can meet (a huge parent or an existing entry with no missing tables) the model's outcome is the crate's.

Two places where the code decides against an easy reading of it:

- **Frames need not lie inside their region.** The allocator steps through byte addresses from each region's start and takes `containing_address`. Frames are not filtered to lie wholly inside a usable region. When a region does not start on a 4096-byte boundary, a frame may reach below the region, and two adjacent regions can yield the same frame. `FrameAllocator.UnalignedRegionsShareFrame` exhibits this for regions `[0, 0x1800)` and `[0x1800, 0x3000)`: calls 1 and 2 both return frame `0x1000`. The model follows the code. Every "no frame twice" property is therefore proved under the hypotheses that usable regions are ascending and start on page boundaries (`UsableRegionsAscending`, `UsableRegionsAligned`). A region whose end is not a multiple of 4096 has the opposite problem, even when it starts on a boundary: its last frame runs past `end`. `FrameAllocator.UnalignedEndFrameOverruns` exhibits this for `[0, 0x1800)` followed by a reserved `[0x1800, 0x2000)`: call 1 returns frame `0x1000`, which also covers the reserved bytes. So "every frame lies within a usable region" holds only when usable regions are aligned at both ends (`UsableRegionEndsAligned`), and `FrameAllocator.FrameWithinUsableRegion` proves it under that hypothesis. The bootloader's own region type stores frame numbers, which makes both alignment hypotheses hold there.
- **The heap is 10 MiB.** `HEAP_SIZE` is `10 * 1024 * 1024` even though its comment says 100 MiB. The model uses the value: 10 MiB, which is 2560 pages (`Heap.HeapPagesLayout`).

## Model

| member | source | states |
|---|---|---|
| Paging.FrameContaining | src/allocator.rs:32 | the frame returned is 4096-aligned and holds the given address |
| Paging.PageContaining | src/allocator.rs:48-49 | the page returned is 4096-aligned and holds the given address |
| FrameAllocator.StepAddresses | src/allocator.rs:29 | `(start..end).step_by(4096)` as a sequence; its contract keeps every address inside `[start, end)`, and `StepAddressesLength` and `StepAddressesAt` give the count and each value |
| FrameAllocator.UsableAddresses | src/allocator.rs:27-30 | the filter / step / flatten chain over the memory map; its contract puts every address inside some `Usable` region, and the lemmas below give length, order and alignment |
| FrameAllocator.Frames | src/allocator.rs:25-33 | the address stream mapped through `containing_address`: one frame per address, frame k 4096-aligned and holding address k |
| FrameAllocator.FrameAt | src/allocator.rs:34 | `.nth(n)` on the frame stream: nothing exactly when n is at least the stream's length, otherwise an element of the stream |
| FrameAllocator.StepAddressesLength | src/allocator.rs:29 | `(start..end).step_by(4096)` yields exactly ⌈(end − start)/4096⌉ addresses, and none when `end <= start` |
| FrameAllocator.StepAddressesAt | src/allocator.rs:29 | the k-th stepped address is `start + k*4096`, lies in `[start, end)` and is a multiple of 4096 past `start` |
| FrameAllocator.UsableAddressesLength | src/allocator.rs:25-33 | the address stream and the frame stream are exactly as long as the independent count of usable frames (sum of per-region ceilings over `Usable` regions) |
| FrameAllocator.UsableAddressesAppend | src/allocator.rs:27-30 | the stream of a concatenated memory map is the concatenation of the two streams, in order |
| FrameAllocator.NonUsableRegionIgnored | src/allocator.rs:28 | inserting a non-`Usable` region anywhere in the map leaves the stream unchanged |
| FrameAllocator.RegionOfAddress | src/allocator.rs:28-30 | every stream address comes from some `Usable` region, lies inside it, and is a multiple of 4096 past its start |
| FrameAllocator.FrameAtNone | src/allocator.rs:34 | `nth(n)` returns nothing exactly when n is at least the number of usable frames |
| FrameAllocator.FrameAtInUsableRegion | src/allocator.rs:28-32 | every frame returned contains an address of a `Usable` region |
| FrameAllocator.FrameWithinUsableRegion | src/allocator.rs:27-33 | with usable regions aligned at both ends, every frame of the stream lies wholly inside one `Usable` region |
| FrameAllocator.UnalignedEndFrameOverruns | src/allocator.rs:29-32 | with aligned starts but a usable region ending at 0x1800 before a reserved one, call 1 returns frame 0x1000, which runs past the usable region into reserved bytes |
| FrameAllocator.UsableAddressesIncreasing | src/allocator.rs:27-30 | with ascending, non-overlapping usable regions the address stream strictly increases |
| FrameAllocator.FramesNonDecreasing | src/allocator.rs:27-32 | with ascending usable regions the frames handed out never go down |
| FrameAllocator.UsableAddressAligned | src/allocator.rs:28-30 | when usable regions start on 4096-byte boundaries every address of the stream is a multiple of 4096 |
| FrameAllocator.FramesIncreasing | src/allocator.rs:27-32 | with ascending, page-aligned usable regions the frames strictly increase, so none repeats |
| FrameAllocator.FrameStreamAscends | src/allocator.rs:27-32 | with ascending, page-aligned usable regions the whole frame stream is strictly ascending |
| FrameAllocator.SingleRegionFrameCount | src/allocator.rs:27-33 | a memory map of one usable region `[start, end)` yields ⌈(end − start)/4096⌉ frames |
| FrameAllocator.UnalignedRegionsShareFrame | src/allocator.rs:29-32 | two ascending unaligned regions meeting at 0x1800 make calls 1 and 2 both return frame 0x1000 |
| FrameAllocator.ExhaustedStaysExhausted | src/allocator.rs:34-35 | once a call returns nothing, every later call returns nothing |
| FrameAllocator.HistoryNeverRepeatsFrame | src/allocator.rs:24-37 | over an aligned, ascending map, two calls that both return a frame return different frames, the later one higher |
| FrameAllocator.Allocator.constructor | src/allocator.rs:15-20 | `Allocator::new` keeps the memory map and starts the cursor at 0 with an empty history |
| FrameAllocator.Allocator.AllocateFrame | src/allocator.rs:24-37 | returns element `next` of the frame stream (nothing exactly when the usable frames are exhausted); the result holds a usable address; the cursor advances by one in every case; the history grows by the result |
| PageMapper.MapToSpec | src/allocator.rs:60 | `map_to` as a function of the frame stream, the tables, the cursor, the page, the frame, the flags and the page's `TableWalk`; its contract is given by `MapToDrawsStream`, `MapToAppendsTables`, `MapToEffect` and `MapToErrorCause` |
| PageMapper.MapToDrawsStream | src/allocator.rs:60 | `map_to` draws at most one frame per missing table (so at most three), and they are the next frames of the allocator's stream, in order; the cursor counts every call, including the one that finds the stream exhausted |
| PageMapper.MapToAppendsTables | src/allocator.rs:60 | every frame `map_to` draws becomes an intermediate table: the tables grow by exactly those frames, in order, and the existing tables stay in place |
| PageMapper.MapToEffect | src/allocator.rs:60 | `map_to` succeeds exactly when there is no huge parent, the page is unmapped and the stream still holds the missing tables; then it installs page → frame with the flags and marks the page unflushed; on error it changes no entry |
| PageMapper.MapToErrorCause | src/allocator.rs:60 | each error of `map_to` exactly: `FrameAllocationFailed` iff the stream holds fewer frames than missing tables; `ParentEntryHugePage` iff enough frames and a huge parent; `PageAlreadyMapped` iff enough frames, no huge parent and the page already has an entry |
| PageMapper.Mapper.constructor | src/allocator.rs:42 | the mapper starts from whatever tables are active |
| PageMapper.Mapper.MapTo | src/allocator.rs:59-60 | draws table frames from the live allocator one call at a time and ends in exactly the state, cursor, result and error `MapToSpec` gives; the flush handle names the page |
| PageMapper.Mapper.Flush | src/allocator.rs:61 | flushing clears the page's stale mark and changes nothing else |
| Heap.HeapStart | src/allocator.rs:12 | `HEAP_START`: the heap window's virtual base, `0x4444_4444_0000` |
| Heap.HeapSize | src/allocator.rs:13 | `HEAP_SIZE`: `10 * 1024 * 1024` bytes, as written (the comment's 100 MiB is not the value) |
| Heap.HeapFlags | src/allocator.rs:57 | `PRESENT \| WRITABLE`: the flags every heap page is mapped with |
| Heap.PageRangeInclusive | src/allocator.rs:50 | `Page::range_inclusive(first, last)`: empty exactly when `first` lies above `last`, otherwise starting at `first`; every element lies between `first` and `last`; `PageRangeCovers` gives the step, the length and the coverage |
| Heap.PageRangeCovering | src/allocator.rs:45-51 | the range from the page of the first byte to the page of the last byte: non-empty, starting at the page of the first byte, no page starting past the last byte; `PageRangeCovers` gives the rest |
| Heap.HeapPages | src/allocator.rs:45-51 | the heap's page range: non-empty and starting at `HEAP_START`; `HeapPagesLayout` and `HeapPagesDistinct` give its length and shape |
| Heap.PageRangeCovers | src/allocator.rs:45-51 | the inclusive range runs from the page of the first byte to the page of the last byte, one page apart, with the stated length, and covers every byte of the window |
| Heap.PageRangeIndex | src/allocator.rs:45-51 | the page holding any byte of the window is an element of the inclusive range |
| Heap.HeapPagesLayout | src/allocator.rs:45-51 | with the given constants the range is 2560 = HEAP_SIZE/4096 contiguous pages from `HEAP_START` |
| Heap.HeapPagesDistinct | src/allocator.rs:45-51 | the heap's 2560 pages are all different |
| Heap.LockedHeap.constructor | src/allocator.rs:72-73 | `LockedHeap::empty()` starts empty |
| Heap.LockedHeap.Init | src/allocator.rs:65-67 | `init` on an empty arena makes it ready over `[bottom, bottom + size)` |
| Heap.MapHeapPages | src/allocator.rs:53-63 | the `for page in page_range` loop as a function of the frame stream, the pages, the tables and the cursor, returning the result, the final tables and cursor, every frame drawn and how many pages were mapped; its contract is given by the `MapHeapPages…` lemmas below |
| Heap.MapHeapStepDrawsStream | src/allocator.rs:54-60 | one iteration draws the page's own frame and then the table frames of `map_to`, the next frames of the stream, in order |
| Heap.MapHeapPagesDrawsStream | src/allocator.rs:53-63 | the frames the loop draws (page frames and table frames) are the next elements of the stream from the start cursor, in order |
| Heap.MapHeapPagesCountsCalls | src/allocator.rs:53-63 | the cursor counts every call to `allocate_frame`: one per frame drawn, plus one for the call that found the stream exhausted |
| Heap.MapHeapPagesProgress | src/allocator.rs:53-63 | the loop maps at most every page, and maps all of them exactly when it returns `Ok` |
| Heap.MapHeapPagesPreserves | src/allocator.rs:53-63 | no rollback and no collateral change: existing entries stay unchanged, no page is left stale, existing tables stay in place |
| Heap.MapHeapPagesMapsPrefix | src/allocator.rs:53-63 | each of the first `mapped` pages of the range was unmapped before, is now mapped with `PRESENT WRITABLE` and is flushed |
| Heap.MapHeapPagesOnlyPrefixMapped | src/allocator.rs:53-63 | no page outside the first `mapped` pages gains an entry |
| Heap.MapHeapPagesLeavesRestUnmapped | src/allocator.rs:53-63 | with distinct, unmapped pages, every page after the point where the loop stopped is still unmapped |
| Heap.MapHeapPagesNoPageTwice | src/allocator.rs:53-63 | the mapped prefix holds no page twice |
| Heap.MapHeapPagesFrameOfPage | src/allocator.rs:54-60 | the frame drawn for a page is the frame that page maps to at the end |
| Heap.MapHeapPagesDrawsForEachPage | src/allocator.rs:54-60 | every mapped page has a frame drawn for it |
| Heap.MapHeapPagesTablesDrawn | src/allocator.rs:53-63 | every table created during the loop is a frame drawn for that purpose |
| Heap.MapHeapPagesDrawsIncreasing | src/allocator.rs:53-63 | over a strictly ascending frame stream (which `FrameStreamAscends` gives for an aligned, ascending map) every frame the loop draws is higher than the one before |
| Heap.MapHeapPagesPagesDistinctFrames | src/allocator.rs:53-63 | over a strictly ascending frame stream two mapped heap pages never share a frame |
| Heap.MapHeapPagesPageNotTable | src/allocator.rs:53-63 | over a strictly ascending frame stream no mapped heap page shares its frame with a table created by the loop |
| Heap.MapHeapPagesNoSharedFrame | src/allocator.rs:53-63 | over a memory map whose usable regions ascend and start on page boundaries, no two mapped pages share a frame and no mapped page shares one with a table the loop created |
| Heap.MapHeapPagesOkIff | src/allocator.rs:53-63 | with distinct unmapped pages and no huge parents, the loop returns `Ok` exactly when the stream holds one frame per page plus one per missing table, and otherwise fails with `FrameAllocationFailed` |
| Heap.MapHeapPagesCountWithoutNewTables | src/allocator.rs:53-63 | with distinct pages, none mapped before, and every table present (no huge parent), the loop maps as many pages as frames remain, and all of them when there are enough |
| Heap.MapHeapPagesErrorAt | src/allocator.rs:53-63 | an error is returned from the page where the loop stopped, which is a page of the range; a `ParentEntryHugePage` error means that page's walk met a huge parent |
| Heap.MapHeapPagesAlreadyMappedAt | src/allocator.rs:53-63 | after a `PageAlreadyMapped` error the page where the loop stopped has an entry |
| Heap.MapHeapPagesAlreadyMappedCause | src/allocator.rs:53-63 | a `PageAlreadyMapped` error means the page where the loop stopped was mapped before the loop or occurs earlier in the range |
| Heap.MapHeapPagesFailedMeansExhausted | src/allocator.rs:53-63 | a `FrameAllocationFailed` result means the frame stream ran out: the frames the loop drew reach the end of the stream |
| Heap.InitHeapMapsAll | src/allocator.rs:53-69 | when the loop returns `Ok`, every heap page is mapped with `PRESENT WRITABLE` |
| Heap.InitHeapNoSharedFrame | src/allocator.rs:40-63 | over a memory map whose usable regions ascend and start on page boundaries, the heap pages `init_heap` maps get pairwise different frames, none of them a frame the loop used for a table |
| Heap.SixteenMebibytesMapWholeHeap | src/allocator.rs:40-70 | with no heap page mapped before, no huge parent and at most 1536 missing tables, a single 16 MiB usable region (4096 frames) maps all 2560 heap pages and returns `Ok` |
| Heap.OneMebibyteMapsFirstPages | src/allocator.rs:40-70 | with no heap page mapped before and every table present (no huge parent), a single 1 MiB usable region maps exactly the first 256 heap pages, then fails with `FrameAllocationFailed`, leaving the rest unmapped |
| Heap.MapPages | src/allocator.rs:53-63 | the imperative loop, drawing frames from a live allocator and mapping through a live mapper, returns the result and leaves the tables and the cursor exactly as `MapHeapPages` says; it returns at the first error |
| Heap.InitHeap | src/allocator.rs:40-70 | with a fresh allocator, returns the result and leaves the tables exactly as `MapHeapPages` over the heap's pages from cursor 0 says; the arena becomes ready over `(HEAP_START, HEAP_SIZE)` exactly on `Ok` and stays empty otherwise; on `Ok` every heap page is mapped with `PRESENT WRITABLE` |

## Left out

- `init` and `active_level_4_table` (src/allocator.rs:75-90) read the CR3 register and turn a physical address into a raw pointer. The model's `Mapper` starts from any `PageTables` value instead.
- The internals of `map_to` (the four-level walk, entry encoding, huge pages) belong to the x86_64 crate. Their outcome for each page is an input: a `TableWalk` per page, fixed in advance, giving the missing tables (at most three) and whether a huge parent blocks the walk. The model does not derive it from table contents, so a table created for one page does not automatically lower the count for the next. Walks the crate cannot meet (a huge parent or an existing entry together with missing tables) are allowed and resolved in the model's order.
- `flush` executes `invlpg`. It is modelled as removing the page from a set of stale pages.
- The allocation, deallocation and spinlock of `LockedHeap` (linked_list_allocator) are not part of this model. Only the empty-to-ready transition `init_heap` performs is modelled.
- `src/main.rs` (the boot entry point, which halts on any error) is not part of this model.
- Integer widths are not modelled. Addresses are unbounded naturals, so the `u64`/`usize` overflow does not arise, nor do the panics of `PhysAddr::new` (any of bits 52–63 set) and `VirtAddr::new` (an address that is not canonical).
- The bootloader's region kinds other than `Usable` are folded into `InUse`, `Reserved` and `Other(code)`. Only `Usable` matters to the allocator.
- FrameAllocator.Allocator.AllocateFrame: the returned frame is `UnusedPhysFrame::new(…)`, an unsafe promise that the frame is unused. The model returns the `PhysFrame` and proves non-reuse separately, under the alignment and ordering hypotheses above.
- Heap.OneMebibyteMapsFirstPages: stated only for the case where every page table already exists. When `map_to` must create tables, those tables consume frames from the same 256, and `Heap.MapHeapPagesOkIff` gives the general condition.
