/** Short runs of the allocator on a fresh heap, worked out on the chunk
    sequence. */
module Scenarios {
  import opened Layout
  import opened Ops

  /** mm_malloc(100) and mm_malloc(50) on an empty heap make chunks of 128
      and 80 bytes. Freeing the second and then the first merges them;
      freeing them in address order leaves two free neighbours, because
      coalesce only looks forward. */
  lemma {:induction false} ForwardOnlyCoalescing()
    ensures var b := MallocSpec(MallocSpec([], 100).chunks, 50).chunks;
      && b == [Header(128, true), Header(80, true)]
      && FreeSpec(b, 0) == [Header(128, false), Header(80, true)]
      && FreeSpec(FreeSpec(b, 0), 1) == [Header(128, false), Header(80, false)]
      && !Separated(FreeSpec(FreeSpec(b, 0), 1))
      && FreeSpec(b, 1) == [Header(128, true), Header(80, false)]
      && FreeSpec(FreeSpec(b, 1), 0) == [Header(208, false)]
  {
    var f := [Header(128, false), Header(80, false)];
    assert !(f[1 - 1].isAllocated || f[1].isAllocated);
  }

  /** A freed chunk is handed out again, split to the new request, and the
      heap does not grow. */
  lemma {:induction false} FreedChunkIsReused()
    ensures var a := MallocSpec([], 100);
      && a == Alloc([Header(128, true)], Some(16))
      && FreeSpec(a.chunks, 0) == [Header(128, false)]
      && MallocSpec(FreeSpec(a.chunks, 0), 50) == Alloc([Header(80, true), Header(48, false)], Some(16))
  {
  }

  /** mm_checkheap as written on an empty heap counts whatever header junk
      lies at mem_heap_lo as one chunk: a heap with no chunk is reported
      with one, and the byte totals add up to the junk size instead of 0. */
  lemma {:induction false} CheckHeapEmptyPhantom(junk: Header)
    ensures var info := Count(HeapInfo(0, 0, 0, 0), junk);
      && info.numAllocatedChunks + info.numFreeChunks == 1
      && info.allocatedSize + info.freeSize == junk.size
      && Stats([]) == HeapInfo(0, 0, 0, 0)
  {
  }
}
