# An implicit-free-list heap allocator, modelled in Dafny

`mm-implicit.c` is a `malloc`/`free`/`realloc` package built on an implicit
free list. The heap is one contiguous byte range, grown only at its end by
`mem_sbrk`. It is read as a back-to-back sequence of chunks. Each chunk starts
with a header (`header_t`) that holds the chunk's total size, header included,
and an `allocated` flag. There is no footer and no explicit free list.
`next_chunk` walks the heap by adding a chunk's size to its address.

The allocator's operations:

- `first_fit` returns the first free chunk that is large enough.
- `split` cuts that chunk to the requested chunk size.
- `ask_os_for_chunk` appends a new chunk at the end of the heap when nothing fits.
- `mm_free` marks a chunk free and `coalesce`s it with the free chunks that
  follow it.
- `mm_checkheap` walks the heap and adds up the allocated and free bytes. These
  must equal the heap size.

The project has four modules.

- `Layout` (`layout.dfy`) holds:
  - the header, `align`, `hdr_size`;
  - the header offsets `Off` of a chunk sequence;
  - the heap invariant `Tiles`. Its meaning: the chunk sizes tile the heap of
    length `len` exactly, every size is aligned and can hold a header, and the
    header word of chunk `i` is stored at offset `Off(cs, i)`;
  - `next_chunk` and `payload2header`, which are pure.
- `Ops` (`ops.dfy`) states what each operation does to the chunk sequence:
  - `FirstFitIndex`, `SplitChunks`, `Extend`, `MarkAllocated`, `Coalesced`,
    `FreeSpec`, `MallocSpec`, `ReallocSpec` and `Stats`;
  - the lemmas that give those effects their meaning.
- `Allocator` (`allocator.dfy`) is class `Heap`:
  - It holds the header words as a map from offset to header (`mem`) and the
    heap length (`len`), plus a ghost chunk sequence.
  - Each C function that changes the heap is a method that rewrites header
    words in place; the walks (`first_fit`, `mm_checkheap`) are methods with
    loops and invariants that change nothing.
  - Every method except `InitChunk` keeps `Valid()` (that is, `Tiles`) and is
    proved against its definition in `Ops`. `InitChunk` is the raw header
    write of `init_chunk`; on its own it may break the invariant, and `Split`
    and `AskOsForChunk`, which call it, restore it.
- `Scenarios` (`scenarios.dfy`) works out short runs on a fresh heap.

Addresses are byte offsets from `mem_heap_lo()`, and NULL is `None`. Like the C
code, `coalesce` rewrites only the surviving header. The headers of the chunks
it absorbs stay in `mem` as dead bytes, and the walk no longer reads them.

Coalescing is forward only. After a release one might expect no two
neighbouring chunks to be both free. This does not hold for this code, because
`coalesce` (mm-implicit.c:193-208) merges only the chunks after the freed one,
so a chunk freed just after a free chunk is not merged with it:

- `Ops.FreeSeparation` proves that the pair made of the freed chunk and the
  chunk before it is the only pair that can break the property.
- `Scenarios.ForwardOnlyCoalescing` exhibits that pair.

## Model

| member | source | states |
|---|---|---|
| Layout.Align | mm-implicit.c:148-151 | `align` rounds up to the next multiple of 16: the result is aligned and less than 16 above its argument |
| Layout.HdrSizeAligned | mm-implicit.c:60 | mm_init's assertion: `hdr_size == align(hdr_size)` |
| Layout.AlignIdempotent | mm-implicit.c:148-151 | aligning twice, as mm_malloc does, is aligning once |
| Layout.NextChunk | mm-implicit.c:32-51 | next_chunk returns NULL or a header offset inside the heap |
| Layout.NextChunkFirst | mm-implicit.c:38-41 | next_chunk(NULL) is NULL on an empty heap and the first chunk's header otherwise |
| Layout.NextChunkWalk | mm-implicit.c:45-48 | from the header of chunk i, next_chunk gives the header of chunk i+1, or NULL exactly when chunk i is the last |
| Layout.Payload2Header | mm-implicit.c:181-188 | payload2header steps back hdr_size bytes from a payload pointer, so the header lies hdr_size below it and keeps its alignment; Ops.MallocProps proves it maps the pointer mm_malloc returns back to that chunk's header |
| Layout.EndTestAligned | mm-implicit.c:45 | comparing the next header with the heap's last byte is the same as comparing it with the heap length, since both are aligned |
| Layout.EmptyIffNoChunks | mm-implicit.c:38 | a heap of size 0 holds no chunk, and a non-empty one holds at least one |
| Ops.FirstFitIndex | mm-implicit.c:71-99 | first_fit's choice is the lowest-indexed free chunk of at least csz bytes; it is None exactly when no chunk fits, including on an empty heap |
| Ops.FirstFitUnique | mm-implicit.c:82-93 | a fitting chunk with no fitting chunk before it is the one first_fit returns |
| Ops.SplitProps | mm-implicit.c:104-122 | split changes nothing exactly when csz >= the chunk's size. Otherwise the chunk becomes csz bytes, followed by a chunk of the remaining bytes with the same status. The other chunks are unchanged: no header before the cut moves, and every header after it lies where the header one chunk earlier lay. The total size and well-formedness are preserved |
| Ops.SplitTiles | mm-implicit.c:111-120 | writing the shrunk header and the remainder's header at offset + csz keeps the heap invariant |
| Ops.ExtendTiles | mm-implicit.c:127-135 | a free header written at the old end of a heap grown by csz keeps the heap invariant; the new chunk starts at the old heap length |
| Ops.ChunkSize | mm-implicit.c:148-151 | the chunk size is aligned and holds the header and the payload with less than 16 bytes to spare |
| Ops.MallocZero | mm-implicit.c:145 | mm_malloc(0) returns NULL and leaves the heap unchanged |
| Ops.MallocProps | mm-implicit.c:140-177 | for size > 0, the chunk handed out is allocated and ChunkSize(size) long. The pointer is its header plus hdr_size, which payload2header (line 185) maps back; the pointer is aligned. The heap grows by the chunk size only when first_fit finds nothing. Chunks before it are unchanged and those after it only move |
| Ops.MarkTiles | mm-implicit.c:167 | writing the allocated flag of a chunk's header keeps the heap invariant and moves no chunk |
| Ops.MarkProps | mm-implicit.c:224 | a status write changes no header offset and no size |
| Ops.RunEnd | mm-implicit.c:201-206 | coalesce's walk stops at the first allocated chunk or at the end of the heap, having passed only free chunks |
| Ops.RunEndAt | mm-implicit.c:201 | a free run that ends at an allocated chunk, or at the heap end, is exactly where coalesce stops |
| Ops.SpanTotal | mm-implicit.c:203 | the sizes coalesce adds one at a time sum to the bytes of the run |
| Ops.CoalesceStep | mm-implicit.c:201-205 | each step of coalesce's walk reaches the next chunk's header, past the chunk being grown |
| Ops.CoalesceDone | mm-implicit.c:193-208 | when the walk stops, the header built is that of the coalesced chunk, and the heap invariant holds again |
| Ops.CoalesceTiles | mm-implicit.c:193-208 | rewriting only the first header of the run, with the run's total size, keeps the heap invariant |
| Ops.FreeProps | mm-implicit.c:213-232 | after mm_free, chunk k is free and spans itself and the following free run. Its successor, if any, is allocated. Earlier chunks are unchanged and later ones only move down. The total size is kept and the heap stays well-formed |
| Ops.FreeSeparation | mm-implicit.c:193-225 | if no two neighbours were both free before mm_free, the only neighbours that can both be free afterwards are the freed chunk and the one before it |
| Ops.ReallocCopyBounds | mm-implicit.c:255-266 | for a non-null pointer and size > 0, realloc returns a pointer. The copy length, read after the free, lies between min(old payload, size) and size, fits the new payload, and lies inside the freed chunk |
| Ops.StatsTotals | mm-implicit.c:298-319 | the two counts add up to the number of chunks, and the two byte totals add up to the heap size, which is the assertion at line 319 |
| Ops.StatsByStatus | mm-implicit.c:300-316 | each pair of counters is the number and the byte total of the chunks with that status |
| Allocator.Heap.constructor | mm-implicit.c:57-64 | mm_init: the heap starts empty and valid |
| Allocator.Heap.InitChunk | mm-implicit.c:21-26 | init_chunk writes one header word and nothing else |
| Allocator.Heap.FirstFit | mm-implicit.c:71-99 | the walk returns the header of the chunk FirstFitIndex picks, or NULL when it picks none; the method changes nothing |
| Allocator.Heap.Split | mm-implicit.c:104-122 | the chunks become SplitChunks; the header words change at the chunk and at chunk + csz only when csz is smaller than the chunk; the invariant is kept |
| Allocator.Heap.AskOsForChunk | mm-implicit.c:127-135 | the heap grows by exactly csz; the new free chunk's header is at the old end, which is returned |
| Allocator.Heap.MmMalloc | mm-implicit.c:140-177 | the chunks and pointer are those of MallocSpec; the heap grows by ChunkSize(size) exactly when size > 0 and nothing fits; the invariant is kept |
| Allocator.Heap.Coalesce | mm-implicit.c:193-208 | the loop adds each following free chunk's size into the header word; afterwards the chunks are Coalesced and only that header word changed |
| Allocator.Heap.MmFree | mm-implicit.c:213-232 | the chunks become FreeSpec (mark free, then coalesce forward); only the freed chunk's header word changes; the heap length is unchanged |
| Allocator.Heap.MmRealloc | mm-implicit.c:241-275 | the chunks, the pointer and the copy length are those of ReallocSpec: malloc for NULL; free returning ptr for size 0; otherwise free, a copy length read from the freed header, then malloc |
| Allocator.Heap.WalkStats | mm-implicit.c:298-316 | the walk over a non-empty heap returns Stats of the chunks, whose totals are the chunk count and the heap size |
| Allocator.Heap.CheckHeap | mm-implicit.c:283-321 | with an empty-heap test added, mm_checkheap returns Stats of the chunks, and its byte totals add up to the heap size; it changes nothing |
| Allocator.Heap.CheckHeapAsWritten | mm-implicit.c:298-316 | as written, on an empty heap the walk counts the junk header at mem_heap_lo as one chunk |
| Scenarios.ForwardOnlyCoalescing | mm-implicit.c:193-225 | mm_malloc(100) and mm_malloc(50) give chunks of 128 and 80 bytes. Freeing them in address order leaves two free neighbours; freeing them in reverse order merges them into one 208-byte chunk |
| Scenarios.FreedChunkIsReused | mm-implicit.c:164-167 | a freed 128-byte chunk is reused and split for a 50-byte request at the same address, and the heap does not grow |
| Scenarios.CheckHeapEmptyPhantom | mm-implicit.c:298-319 | counting the junk header of an empty heap reports one chunk, and a byte total equal to its size instead of 0 |

## Left out

- Failure of `mem_sbrk`, which is never checked at mm-implicit.c:131. `AskOsForChunk` always grows the heap. A failing `mem_sbrk` would make `mm_malloc` write through the failure sentinel.
- The internals of memlib (`mem_sbrk`, `mem_heap_lo`, `mem_heap_hi`, `mem_heapsize`) are not part of this model. The heap is a length field that grows at the end, and addresses are offsets from `mem_heap_lo`. `mem_heap_hi()` is assumed to be the address of the heap's last byte, `lo + size - 1`. `Layout.EndTestAligned` shows that the end test at line 45 then means "at or past the heap length".
- `align` and `header_t` come from `mm-common.h` and `mm-implicit.h`, which are not part of this model. `align` rounds up to 16 and `hdr_size` is 16.
- Payload bytes and the `memcpy` at line 266. `MmRealloc` returns the byte count it would copy. Whether the copied bytes survive the header writes of the inner `mm_malloc` is not modelled.
- Allocator.Heap.MmMalloc: the header words are pinned only at the offsets of live chunks, through `Valid()`. It does not give a full equation for `mem`, unlike `Split`, `AskOsForChunk`, `Coalesce` and `MmFree`.
- Allocator.Heap.MmRealloc: the same as `MmMalloc` for its `mem`, since it calls `MmMalloc`.
- `size_t` arithmetic. Sizes are unbounded, so a request near `SIZE_MAX`, where `align(size)` would wrap, is not modelled.
- The `debug` flag and its `mm_checkheap` calls (lines 173-175, 229-231, 270-272). Also the `verbose` parameter and the abort of a failed `assert`. The asserted equations are proved instead.
- Pointers that were not handed out by `mm_malloc`. `MmFree` and `MmRealloc` require the payload offset of a chunk of the heap, identified by a ghost index.
- `mm_init`'s return value (always 0). The constructor stands for it.

## Findings

| source | as written | input that shows it | evidently intended | confidence | as-written member | corrected member |
|---|---|---|---|---|---|---|
| mm-implicit.c:298 | `mm_checkheap` starts its walk at `mem_heap_lo()` without the empty-heap test that `first_fit` has at line 77. On an empty heap it reads a header at `mem_heap_lo` before `next_chunk` returns NULL | `mm_init()` then `mm_checkheap(false)`. If the bytes at `mem_heap_lo` are zero, one free chunk of 0 bytes is reported for a heap with no chunks. A non-zero junk size makes the assertion at line 319 fail | all-zero statistics for an empty heap | not executed; medium (depends on the bytes at `mem_heap_lo`) | Allocator.Heap.CheckHeapAsWritten, Scenarios.CheckHeapEmptyPhantom | Allocator.Heap.CheckHeap |
