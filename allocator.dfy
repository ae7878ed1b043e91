/** The allocator of mm-implicit.c as it runs: the header words live in the
    heap buffer and every operation rewrites them in place. Each method but
    the raw header write InitChunk is proved against the definition in
    module Ops that says what it does to the chunk sequence, and keeps the
    heap invariant Tiles. */
module Allocator {
  import opened Layout
  import opened Ops

  class Heap {
    /** The header words written so far, by offset from mem_heap_lo. Words
        of chunks absorbed by coalesce stay behind but are no longer read. */
    var mem: map<nat, Header>
    /** mem_heapsize(): the number of bytes obtained from mem_sbrk. */
    var len: nat
    /** The chunks a walk with next_chunk visits, in address order. */
    ghost var chunks: seq<Header>

    /** The heap invariant: the chunks tile [0, len) and each header word
        is where the walk reads it. */
    ghost predicate Valid()
      reads this
    {
      Tiles(mem, len, chunks)
    }

    /** mm_init: the heap starts empty (hdr_size is aligned, which
        Layout.HdrSizeAligned proves). */
    constructor ()
      ensures Valid() && len == 0 && chunks == [] && mem == map[]
    {
      mem := map[];
      len := 0;
      chunks := [];
    }

    /** init_chunk: write a header word. */
    method InitChunk(p: nat, csz: nat, isAllocated: bool)
      modifies this
      ensures mem == old(mem)[p := Header(csz, isAllocated)]
      ensures len == old(len) && chunks == old(chunks)
    {
      mem := mem[p := Header(csz, isAllocated)];
    }

    /** first_fit: walk the heap from mem_heap_lo and return the header of
        the first free chunk of at least csz bytes, or NULL. */
    method FirstFit(csz: nat) returns (p: Option<nat>)
      requires Valid()
      ensures FirstFitIndex(chunks, csz).None? ==> p.None?
      ensures FirstFitIndex(chunks, csz).Some? ==> p == Some(Off(chunks, FirstFitIndex(chunks, csz).value))
    {
      if len == 0 {
        EmptyIffNoChunks(mem, len, chunks);
        return None;
      }
      EmptyIffNoChunks(mem, len, chunks);
      var curr: Option<nat> := Some(0);
      ghost var i: nat := 0;
      while curr.Some?
        invariant i <= |chunks|
        invariant curr.Some? ==> i < |chunks| && curr.value == Off(chunks, i)
        invariant curr.None? ==> i == |chunks|
        invariant forall j :: 0 <= j < i ==> !Fits(chunks[j], csz)
        decreases |chunks| - i
      {
        NextChunkWalk(mem, len, chunks, i);
        assert HeaderAt(mem, chunks, i);
        var h := mem[curr.value];
        if !h.isAllocated {
          if h.size >= csz {
            FirstFitUnique(chunks, csz, i);
            return curr;
          }
        }
        curr := NextChunk(mem, len, curr);
        i := i + 1;
      }
      return None;
    }

    /** split: cut the chunk whose header is at offset o (chunk k) into a
        chunk of csz bytes and a chunk of the remaining bytes with the same
        status; nothing happens when csz leaves no remainder. */
    method Split(o: nat, csz: nat, ghost k: nat)
      requires Valid() && k < |chunks| && o == Off(chunks, k)
      requires csz % ALIGNMENT == 0 && csz >= HDR_SIZE
      modifies this
      ensures Valid() && len == old(len)
      ensures chunks == SplitChunks(old(chunks), k, csz)
      ensures Off(chunks, k) == o
      ensures var h := old(chunks)[k];
        mem == if csz >= h.size then old(mem)
               else old(mem)[o := Header(csz, h.isAllocated)][o + csz := Header(h.size - csz, h.isAllocated)]
    {
      assert HeaderAt(mem, chunks, k);
      var h := mem[o];
      if csz >= h.size {
        return;
      }
      var second := h.size - csz;
      SplitTiles(mem, len, chunks, k, csz);
      SplitProps(chunks, k, csz);
      mem := mem[o := Header(csz, h.isAllocated)];
      InitChunk(o + csz, second, h.isAllocated);
      chunks := SplitChunks(chunks, k, csz);
    }

    /** ask_os_for_chunk: grow the heap by csz bytes with mem_sbrk and
        write a free header at the old end, which is returned. */
    method AskOsForChunk(csz: nat) returns (p: nat)
      requires Valid() && csz % ALIGNMENT == 0 && csz >= HDR_SIZE
      modifies this
      ensures Valid()
      ensures p == old(len) && len == old(len) + csz
      ensures mem == old(mem)[p := Header(csz, false)]
      ensures chunks == Extend(old(chunks), csz)
      ensures Off(chunks, |old(chunks)|) == p
    {
      ExtendTiles(mem, len, chunks, csz);
      p := len;
      len := len + csz;
      InitChunk(p, csz, false);
      chunks := Extend(chunks, csz);
    }

    /** mm_malloc: NULL for size 0; otherwise the first fit, split to the
        chunk size, or a new chunk from the OS, marked allocated; the result
        is the payload. The heap grows only when nothing fits. */
    method MmMalloc(size: nat) returns (p: Option<nat>)
      requires Valid()
      modifies this
      ensures Valid()
      ensures chunks == MallocSpec(old(chunks), size).chunks
      ensures p == MallocSpec(old(chunks), size).ptr
      ensures len == if size > 0 && FirstFitIndex(old(chunks), ChunkSize(size)).None?
                     then old(len) + ChunkSize(size) else old(len)
    {
      if size == 0 {
        return None;
      }
      var sz := Align(size);
      var csz := HDR_SIZE + Align(sz);
      assert csz == ChunkSize(size);
      ghost var cs := chunks;
      ghost var i: nat;
      var o: nat;
      var fit := FirstFit(csz);
      if fit.Some? {
        i := FirstFitIndex(cs, csz).value;
        o := fit.value;
        Split(o, csz, i);
        MallocFitSpec(cs, size);
      } else {
        i := |cs|;
        o := AskOsForChunk(csz);
        OffAll(cs);
      }
      assert HeaderAt(mem, chunks, i);
      var h := mem[o];
      MarkTiles(mem, len, chunks, i, true);
      mem := mem[o := Header(h.size, true)];
      chunks := MarkAllocated(chunks, i, true);
      p := Some(o + HDR_SIZE);
    }

    /** coalesce: the chunk whose header is at offset o (chunk k) absorbs
        the free chunks that follow it, adding their sizes to its own
        header word one at a time. */
    method Coalesce(o: nat, ghost k: nat)
      requires Valid() && k < |chunks| && o == Off(chunks, k)
      modifies this
      ensures Valid() && len == old(len)
      ensures chunks == Coalesced(old(chunks), k)
      ensures mem == old(mem)[o := Coalesced(old(chunks), k)[k]]
    {
      ghost var m0 := mem;
      ghost var cs := chunks;
      NextChunkWalk(mem, len, chunks, k);
      assert HeaderAt(mem, chunks, k);
      assert mem == m0[o := Header(Span(cs, k, k + 1), cs[k].isAllocated)];
      var curr := NextChunk(mem, len, Some(o));
      ghost var t: nat := k + 1;
      if t < |cs| {
        assert HeaderAt(m0, cs, t);
      }
      while curr.Some? && !mem[curr.value].isAllocated
        invariant len == old(len) && chunks == cs
        invariant k < t <= |cs|
        invariant curr.Some? ==> t < |cs| && curr.value == Off(cs, t) && curr.value in m0 && m0[curr.value] == cs[t]
        invariant curr.Some? ==> curr.value in mem && mem[curr.value] == cs[t]
        invariant curr.None? ==> t == |cs|
        invariant FreeRun(cs, k + 1, t)
        invariant mem == m0[o := Header(Span(cs, k, t), cs[k].isAllocated)]
        decreases |cs| - t
      {
        CoalesceStep(m0, len, cs, k, t);
        var h := mem[o];
        mem := mem[o := Header(h.size + mem[curr.value].size, h.isAllocated)];
        assert NextChunk(mem, len, curr) == NextChunk(m0, len, curr);
        curr := NextChunk(mem, len, curr);
        t := t + 1;
        if curr.Some? {
          CoalesceStep(m0, len, cs, k, t);
        }
      }
      CoalesceDone(m0, len, cs, k, t);
      chunks := Coalesced(cs, k);
    }

    /** mm_free: mark the chunk of payload p (chunk k) free, then coalesce
        forward. */
    method MmFree(p: nat, ghost k: nat)
      requires Valid() && k < |chunks| && p == Off(chunks, k) + HDR_SIZE
      modifies this
      ensures Valid() && len == old(len)
      ensures chunks == FreeSpec(old(chunks), k)
      ensures mem == old(mem)[Payload2Header(p) := FreeSpec(old(chunks), k)[k]]
    {
      var ptr := Payload2Header(p);
      assert HeaderAt(mem, chunks, k);
      var h := mem[ptr];
      MarkTiles(mem, len, chunks, k, false);
      MarkProps(chunks, k, false);
      mem := mem[ptr := Header(h.size, false)];
      chunks := MarkAllocated(chunks, k, false);
      Coalesce(ptr, k);
    }

    /** mm_realloc: mm_malloc when ptr is NULL; mm_free, returning ptr,
        when size is 0; otherwise free the chunk of ptr (chunk k), read the
        copy length from its header after the free, and allocate. memcpy
        is not modelled: copied is the byte count it is given. */
    method MmRealloc(ptr: Option<nat>, size: nat, ghost k: nat) returns (newptr: Option<nat>, copied: nat)
      requires Valid()
      requires ptr.Some? ==> k < |chunks| && ptr.value == Off(chunks, k) + HDR_SIZE
      modifies this
      ensures Valid()
      ensures Resized(chunks, newptr, copied) == ReallocSpec(old(chunks), ptr, k, size)
    {
      if ptr.None? {
        newptr := MmMalloc(size);
        return newptr, 0;
      }
      if size == 0 {
        MmFree(ptr.value, k);
        return ptr, 0;
      }
      var p := Payload2Header(ptr.value);
      ghost var cs := chunks;
      MmFree(ptr.value, k);
      FreeProps(cs, k);
      assert HeaderAt(mem, chunks, k);
      assert SizeOk(chunks, k);
      var min := mem[p].size - HDR_SIZE;
      if min > size {
        min := size;
      }
      newptr := MmMalloc(size);
      copied := min;
    }

    /** mm_checkheap, with the empty-heap test that first_fit makes: walk
        the heap and count the chunks and bytes of each status. The counts
        cover every chunk once and the byte totals add up to the heap
        size, which is the assertion the source ends with. */
    method CheckHeap() returns (info: HeapInfo)
      requires Valid()
      ensures info == Stats(chunks)
      ensures info.numAllocatedChunks + info.numFreeChunks == |chunks|
      ensures info.allocatedSize + info.freeSize == len
    {
      info := HeapInfo(0, 0, 0, 0);
      EmptyIffNoChunks(mem, len, chunks);
      if len == 0 {
        StatsTotals(chunks);
        return;
      }
      info := WalkStats();
    }

    /** mm_checkheap as written: the walk starts at mem_heap_lo even when
        the heap is empty, and then counts whatever header junk is stored
        there as one chunk. */
    method CheckHeapAsWritten(junk: Header) returns (info: HeapInfo)
      requires Valid()
      ensures len > 0 ==> info == Stats(chunks)
      ensures len == 0 ==> info == Count(HeapInfo(0, 0, 0, 0), junk)
    {
      info := HeapInfo(0, 0, 0, 0);
      if len == 0 {
        var curr: Option<nat> := Some(0);
        var h := junk;
        info := Count(info, h);
        curr := NextChunk(mem, len, curr);
        assert curr.None?;
        return;
      }
      info := WalkStats();
    }

    /** The walk of mm_checkheap over a non-empty heap. */
    method WalkStats() returns (info: HeapInfo)
      requires Valid() && len > 0
      ensures info == Stats(chunks)
      ensures info.numAllocatedChunks + info.numFreeChunks == |chunks|
      ensures info.allocatedSize + info.freeSize == len
    {
      info := HeapInfo(0, 0, 0, 0);
      EmptyIffNoChunks(mem, len, chunks);
      var curr: Option<nat> := Some(0);
      ghost var i: nat := 0;
      assert chunks[..0] == [];
      while curr.Some?
        invariant i <= |chunks|
        invariant curr.Some? ==> i < |chunks| && curr.value == Off(chunks, i)
        invariant curr.None? ==> i == |chunks|
        invariant info == Stats(chunks[..i])
        decreases |chunks| - i
      {
        NextChunkWalk(mem, len, chunks, i);
        assert HeaderAt(mem, chunks, i);
        var h := mem[curr.value];
        if h.isAllocated {
          info := info.(numAllocatedChunks := info.numAllocatedChunks + 1, allocatedSize := info.allocatedSize + h.size);
        } else {
          info := info.(numFreeChunks := info.numFreeChunks + 1, freeSize := info.freeSize + h.size);
        }
        assert chunks[..i + 1][..i] == chunks[..i];
        curr := NextChunk(mem, len, curr);
        i := i + 1;
      }
      assert chunks[..i] == chunks;
      StatsTotals(chunks);
    }
  }
}
