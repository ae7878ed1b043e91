/** What each operation of mm-implicit.c does to the heap, stated on the
    chunk sequence the walker sees, and the properties of those effects. The
    class in module Allocator performs the same operations on the header
    words in place and is proved against these definitions. */
module Ops {
  import opened Layout

  /** A chunk first_fit accepts for a request of csz bytes. */
  predicate Fits(h: Header, csz: nat)
  {
    !h.isAllocated && h.size >= csz
  }

  /** The first chunk at or after index i that fits. */
  function FirstFitFrom(cs: seq<Header>, csz: nat, i: nat): (r: Option<nat>)
    requires i <= |cs|
    ensures r.Some? ==> i <= r.value < |cs| && Fits(cs[r.value], csz)
    ensures r.Some? ==> forall j :: i <= j < r.value ==> !Fits(cs[j], csz)
    ensures r.None? ==> forall j :: i <= j < |cs| ==> !Fits(cs[j], csz)
    decreases |cs| - i
  {
    if i == |cs| then None
    else if Fits(cs[i], csz) then Some(i)
    else FirstFitFrom(cs, csz, i + 1)
  }

  /** The index of the chunk first_fit returns: the lowest one that is free
      and large enough, or None when there is none (an empty heap included). */
  function FirstFitIndex(cs: seq<Header>, csz: nat): (r: Option<nat>)
    ensures r.Some? ==> r.value < |cs| && Fits(cs[r.value], csz)
    ensures r.Some? ==> forall j :: 0 <= j < r.value ==> !Fits(cs[j], csz)
    ensures r.None? <==> forall j :: 0 <= j < |cs| ==> !Fits(cs[j], csz)
  {
    FirstFitFrom(cs, csz, 0)
  }

  /** split: chunk k becomes csz bytes long and the remainder becomes a new
      chunk with the same status; nothing happens when csz does not leave a
      remainder. */
  function SplitChunks(cs: seq<Header>, k: nat, csz: nat): seq<Header>
    requires k < |cs|
  {
    if csz >= cs[k].size then cs
    else cs[..k] + [Header(csz, cs[k].isAllocated), Header(cs[k].size - csz, cs[k].isAllocated)] + cs[k + 1..]
  }

  /** ask_os_for_chunk: a free chunk of csz bytes appended at the old end. */
  function Extend(cs: seq<Header>, csz: nat): seq<Header>
  {
    cs + [Header(csz, false)]
  }

  /** Writing the status of chunk k (mm_malloc and mm_free). */
  function MarkAllocated(cs: seq<Header>, k: nat, a: bool): seq<Header>
    requires k < |cs|
  {
    cs[k := Header(cs[k].size, a)]
  }

  /** One past the run of free chunks that starts at index i: where
      coalesce stops. */
  function RunEnd(cs: seq<Header>, i: nat): (j: nat)
    requires i <= |cs|
    ensures i <= j <= |cs|
    ensures forall t :: i <= t < j ==> !cs[t].isAllocated
    ensures j < |cs| ==> cs[j].isAllocated
    decreases |cs| - i
  {
    if i == |cs| || cs[i].isAllocated then i else RunEnd(cs, i + 1)
  }

  /** The chunks from index i up to j are all free. */
  predicate FreeRun(cs: seq<Header>, i: nat, j: nat)
    requires i <= j <= |cs|
  {
    forall t :: i <= t < j ==> !cs[t].isAllocated
  }

  /** A run of free chunks that ends at an allocated chunk or at the end of
      the heap is the run coalesce absorbs. */
  lemma {:induction false} RunEndAt(cs: seq<Header>, i: nat, j: nat)
    requires i <= j <= |cs| && FreeRun(cs, i, j)
    requires j < |cs| ==> cs[j].isAllocated
    ensures RunEnd(cs, i) == j
    decreases |cs| - i
  {
    if i < j {
      RunEndAt(cs, i + 1, j);
    }
  }

  /** coalesce: chunk k absorbs the run of free chunks that follows it. */
  function Coalesced(cs: seq<Header>, k: nat): seq<Header>
    requires k < |cs|
  {
    var j := RunEnd(cs, k + 1);
    cs[..k] + [Header(Total(cs[k..j]), cs[k].isAllocated)] + cs[j..]
  }

  /** mm_free of chunk k: mark it free, then coalesce forward. */
  function FreeSpec(cs: seq<Header>, k: nat): seq<Header>
    requires k < |cs|
  {
    Coalesced(MarkAllocated(cs, k, false), k)
  }

  /** The chunk size mm_malloc asks for: a header plus the aligned payload
      (mm_malloc aligns the request, then aligns it again). The chunk holds
      the payload with less than one alignment unit to spare. */
  function ChunkSize(size: nat): (csz: nat)
    ensures csz % ALIGNMENT == 0
    ensures HDR_SIZE + size <= csz < HDR_SIZE + size + ALIGNMENT
  {
    AlignIdempotent(size);
    HDR_SIZE + Align(Align(size))
  }

  /** The index of the chunk mm_malloc hands out for a chunk size csz. */
  function Placement(cs: seq<Header>, csz: nat): (i: nat)
    ensures i <= |cs|
  {
    match FirstFitIndex(cs, csz)
    case Some(i) => i
    case None => |cs|
  }

  /** The heap after a call and the pointer it returns (an offset; None is NULL). */
  datatype Alloc = Alloc(chunks: seq<Header>, ptr: Option<nat>)

  /** mm_malloc: NULL for a zero request; otherwise the first fit, split to
      the chunk size, or else a new chunk from the OS; the chunk is marked
      allocated and its payload returned. */
  function MallocSpec(cs: seq<Header>, size: nat): Alloc
  {
    if size == 0 then Alloc(cs, None) else PlaceChunk(cs, ChunkSize(size))
  }

  /** The part of mm_malloc after the size computation, for a chunk size csz. */
  function PlaceChunk(cs: seq<Header>, csz: nat): Alloc
  {
    var i := Placement(cs, csz);
    if FirstFitIndex(cs, csz).Some? then FitAlloc(cs, i, csz)
    else Alloc(MarkAllocated(Extend(cs, csz), i, true), Some(Off(cs, i) + HDR_SIZE))
  }

  /** Serving a request of csz bytes from chunk i of the heap: split it,
      mark it allocated and hand out its payload. */
  function FitAlloc(cs: seq<Header>, i: nat, csz: nat): Alloc
    requires i < |cs|
  {
    Alloc(MarkAllocated(SplitChunks(cs, i, csz), i, true), Some(Off(cs, i) + HDR_SIZE))
  }

  /** mm_realloc: the heap after the call, the pointer it returns and the
      byte count it hands to memcpy. */
  datatype Resized = Resized(chunks: seq<Header>, ptr: Option<nat>, copied: nat)

  /** mm_realloc of the payload ptr of chunk k: mm_malloc for NULL; mm_free
      returning ptr itself for size 0; otherwise mm_free, then the copy
      length read from the freed (possibly coalesced) chunk, then mm_malloc. */
  function ReallocSpec(cs: seq<Header>, ptr: Option<nat>, k: nat, size: nat): Resized
    requires WellFormed(cs) && (ptr.Some? ==> k < |cs|)
  {
    if ptr.None? then
      var r := MallocSpec(cs, size);
      Resized(r.chunks, r.ptr, 0)
    else if size == 0 then
      Resized(FreeSpec(cs, k), ptr, 0)
    else
      var freed := FreeSpec(cs, k);
      FreeProps(cs, k);
      assert SizeOk(freed, k);
      var r := MallocSpec(freed, size);
      Resized(r.chunks, r.ptr, Min(freed[k].size - HDR_SIZE, size))
  }

  function Min(a: nat, b: nat): nat
  {
    if a <= b then a else b
  }

  /** The statistics of mm_checkheap. */
  datatype HeapInfo = HeapInfo(numAllocatedChunks: nat, allocatedSize: nat, numFreeChunks: nat, freeSize: nat)

  /** One step of mm_checkheap's loop: count chunk h under its status. */
  function Count(info: HeapInfo, h: Header): HeapInfo
  {
    if h.isAllocated then info.(numAllocatedChunks := info.numAllocatedChunks + 1, allocatedSize := info.allocatedSize + h.size)
    else info.(numFreeChunks := info.numFreeChunks + 1, freeSize := info.freeSize + h.size)
  }

  /** The statistics of the chunks of cs, counted in address order. */
  function Stats(cs: seq<Header>): HeapInfo
  {
    if cs == [] then HeapInfo(0, 0, 0, 0) else Count(Stats(cs[..|cs| - 1]), cs[|cs| - 1])
  }

  /** The chunks of cs whose status is a, in order. */
  function WithStatus(cs: seq<Header>, a: bool): seq<Header>
  {
    if cs == [] then []
    else WithStatus(cs[..|cs| - 1], a) + (if cs[|cs| - 1].isAllocated == a then [cs[|cs| - 1]] else [])
  }

  // ---------------------------------------------------------------------
  // Splicing: every operation rewrites a run of consecutive chunks

  /** r is cs with the p chunks from index k on replaced by q chunks: the
      chunks before k are unchanged and those after the run are shifted. */
  predicate Spliced(cs: seq<Header>, r: seq<Header>, k: nat, p: nat, q: nat)
  {
    && k + p <= |cs| && k + q <= |r| && |r| + p == |cs| + q
    && (forall i :: 0 <= i < k ==> r[i] == cs[i])
    && (forall i :: k + q <= i < |r| ==> r[i] == cs[i + p - q])
  }

  /** The header words mem' agree with mem outside the byte range [lo, hi). */
  predicate SameOutside(mem: map<nat, Header>, mem': map<nat, Header>, lo: nat, hi: nat)
  {
    forall o :: o in mem && (o < lo || hi <= o) ==> o in mem' && mem'[o] == mem[o]
  }

  /** A splice moves no header before the rewritten run ... */
  lemma {:induction false} SplicedOffBefore(cs: seq<Header>, r: seq<Header>, k: nat, p: nat, q: nat, i: nat)
    requires Spliced(cs, r, k, p, q) && i <= k
    ensures Off(r, i) == Off(cs, i)
    decreases i
  {
    if i > 0 {
      SplicedOffBefore(cs, r, k, p, q, i - 1);
      assert r[i - 1] == cs[i - 1];
    }
  }

  /** ... and, when the new run is as long in bytes as the old one, shifts
      the headers after it by the change in the number of chunks only. */
  lemma {:induction false} SplicedOffAfter(cs: seq<Header>, r: seq<Header>, k: nat, p: nat, q: nat, i: nat)
    requires Spliced(cs, r, k, p, q) && Off(r, k + q) == Off(cs, k + p)
    requires k + q <= i <= |r|
    ensures Off(r, i) == Off(cs, i + p - q)
    decreases i
  {
    if i > k + q {
      SplicedOffAfter(cs, r, k, p, q, i - 1);
      assert r[i - 1] == cs[i - 1 + p - q];
    }
  }

  lemma {:induction false} SplicedTotal(cs: seq<Header>, r: seq<Header>, k: nat, p: nat, q: nat)
    requires Spliced(cs, r, k, p, q) && Off(r, k + q) == Off(cs, k + p)
    ensures Total(r) == Total(cs)
  {
    SplicedOffAfter(cs, r, k, p, q, |r|);
  }

  /** A splice of well-formed chunks into well-formed chunks is well-formed. */
  lemma {:induction false} SplicedWellFormed(cs: seq<Header>, r: seq<Header>, k: nat, p: nat, q: nat)
    requires WellFormed(cs) && Spliced(cs, r, k, p, q)
    requires forall t :: k <= t < k + q ==> SizeOk(r, t)
    ensures WellFormed(r)
  {
    forall i | 0 <= i < |r|
      ensures SizeOk(r, i)
    {
      if i < k {
        assert r[i] == cs[i] && SizeOk(cs, i);
      } else if i >= k + q {
        assert r[i] == cs[i + p - q] && SizeOk(cs, i + p - q);
      }
    }
  }

  /** A header before the rewritten run stays where it was. */
  lemma {:induction false} SplicedHeaderBefore(mem: map<nat, Header>, mem': map<nat, Header>, len: nat,
                            cs: seq<Header>, r: seq<Header>, k: nat, p: nat, q: nat, i: nat)
    requires Tiles(mem, len, cs) && Spliced(cs, r, k, p, q) && i < k
    requires SameOutside(mem, mem', Off(cs, k), Off(cs, k + p))
    ensures HeaderAt(mem', r, i)
  {
    SplicedOffBefore(cs, r, k, p, q, i);
    assert HeaderAt(mem, cs, i) && SizeOk(cs, i);
    OffMono(cs, i, k);
  }

  /** A header after the rewritten run is the one of the matching old chunk. */
  lemma {:induction false} SplicedHeaderAfter(mem: map<nat, Header>, mem': map<nat, Header>, len: nat,
                           cs: seq<Header>, r: seq<Header>, k: nat, p: nat, q: nat, i: nat)
    requires Tiles(mem, len, cs) && Spliced(cs, r, k, p, q) && k + q <= i < |r|
    requires Off(r, k + q) == Off(cs, k + p)
    requires SameOutside(mem, mem', Off(cs, k), Off(cs, k + p))
    ensures HeaderAt(mem', r, i)
  {
    var i' := i + p - q;
    SplicedOffAfter(cs, r, k, p, q, i);
    assert HeaderAt(mem, cs, i');
    OffLe(cs, k + p, i');
  }

  /** Rewriting the header words of a run of chunks as the headers of a new
      run of the same byte length, touching no header word outside the old
      run, keeps the heap invariant. Split, coalesce and the status writes
      are all of this form. */
  lemma {:induction false} SplicedTiles(mem: map<nat, Header>, mem': map<nat, Header>, len: nat,
                     cs: seq<Header>, r: seq<Header>, k: nat, p: nat, q: nat)
    requires Tiles(mem, len, cs) && Spliced(cs, r, k, p, q)
    requires Off(r, k + q) == Off(cs, k + p)
    requires SameOutside(mem, mem', Off(cs, k), Off(cs, k + p))
    requires forall t :: k <= t < k + q ==> SizeOk(r, t) && HeaderAt(mem', r, t)
    ensures Tiles(mem', len, r)
  {
    SplicedWellFormed(cs, r, k, p, q);
    SplicedTotal(cs, r, k, p, q);
    forall i | 0 <= i < |r|
      ensures HeaderAt(mem', r, i)
    {
      if i < k {
        SplicedHeaderBefore(mem, mem', len, cs, r, k, p, q, i);
      } else if i >= k + q {
        SplicedHeaderAfter(mem, mem', len, cs, r, k, p, q, i);
      }
    }
  }

  /** Offsets never decrease along the heap. */
  lemma {:induction false} OffLe(cs: seq<Header>, i: nat, j: nat)
    requires i <= j <= |cs|
    ensures Off(cs, i) <= Off(cs, j)
    decreases j
  {
    if i < j {
      OffStep(cs, j - 1);
      OffLe(cs, i, j - 1);
    }
  }

  /** The bytes of the chunks from k up to j: the distance between their
      headers. */
  lemma {:induction false} RunTotal(cs: seq<Header>, k: nat, j: nat)
    requires k <= j <= |cs|
    ensures Off(cs, j) == Off(cs, k) + Total(cs[k..j])
    decreases j
  {
    if j == k {
      assert cs[k..j] == [];
    } else {
      RunTotal(cs, k, j - 1);
      assert cs[k..j] == cs[k..j - 1] + [cs[j - 1]];
      TotalSnoc(cs[k..j - 1], cs[j - 1]);
      OffStep(cs, j - 1);
    }
  }

  // ---------------------------------------------------------------------
  // first_fit

  /** Only the lowest fitting chunk satisfies first_fit's description, so
      FirstFitIndex is determined by it. */
  lemma {:induction false} FirstFitUnique(cs: seq<Header>, csz: nat, k: nat)
    requires k < |cs| && Fits(cs[k], csz)
    requires forall j :: 0 <= j < k ==> !Fits(cs[j], csz)
    ensures FirstFitIndex(cs, csz) == Some(k)
  {
  }

  // ---------------------------------------------------------------------
  // split

  /** Replacing the chunks from k up to j by the chunks n is a splice. */
  lemma {:induction false} SliceSpliced(cs: seq<Header>, n: seq<Header>, k: nat, j: nat)
    requires k <= j <= |cs|
    ensures Spliced(cs, cs[..k] + n + cs[j..], k, j - k, |n|)
    ensures forall t :: 0 <= t < |n| ==> (cs[..k] + n + cs[j..])[k + t] == n[t]
  {
    var r := cs[..k] + n + cs[j..];
    forall i | 0 <= i < k
      ensures r[i] == cs[i]
    {
      assert r[i] == cs[..k][i];
    }
    forall i | k + |n| <= i < |r|
      ensures r[i] == cs[i + (j - k) - |n|]
    {
      assert r[i] == cs[j..][i - k - |n|];
    }
  }

  /** A cut replaces chunk k by the two halves. */
  lemma {:induction false} SplitSpliced(cs: seq<Header>, k: nat, csz: nat)
    requires k < |cs| && csz < cs[k].size
    ensures var r := SplitChunks(cs, k, csz);
      && Spliced(cs, r, k, 1, 2)
      && r[k] == Header(csz, cs[k].isAllocated)
      && r[k + 1] == Header(cs[k].size - csz, cs[k].isAllocated)
  {
    var x, y := Header(csz, cs[k].isAllocated), Header(cs[k].size - csz, cs[k].isAllocated);
    SliceSpliced(cs, [x, y], k, k + 1);
    assert (cs[..k] + [x, y] + cs[k + 1..])[k + 0] == x;
    assert (cs[..k] + [x, y] + cs[k + 1..])[k + 1] == y;
  }

  /** The halves of a cut chunk lie where the chunk lay. */
  lemma {:induction false} CutOffsets(cs: seq<Header>, r: seq<Header>, k: nat, csz: nat)
    requires Spliced(cs, r, k, 1, 2) && r[k].size == csz && r[k].size + r[k + 1].size == cs[k].size
    ensures Off(r, k) == Off(cs, k)
    ensures Off(r, k + 1) == Off(cs, k) + csz
    ensures Off(r, k + 2) == Off(cs, k + 1)
  {
    SplicedOffBefore(cs, r, k, 1, 2, k);
    OffStep(r, k);
    OffStep(r, k + 1);
    OffStep(cs, k);
  }

  /** A cut moves no header before it, and every header after it lies where
      the header one chunk earlier in cs lay. */
  lemma {:induction false} CutOffsetsAll(cs: seq<Header>, r: seq<Header>, k: nat, csz: nat)
    requires Spliced(cs, r, k, 1, 2) && r[k].size == csz && r[k].size + r[k + 1].size == cs[k].size
    ensures forall i :: 0 <= i <= k ==> Off(r, i) == Off(cs, i)
    ensures forall i :: k + 2 <= i <= |r| ==> Off(r, i) == Off(cs, i - 1)
  {
    CutOffsets(cs, r, k, csz);
    forall i | 0 <= i <= k
      ensures Off(r, i) == Off(cs, i)
    {
      SplicedOffBefore(cs, r, k, 1, 2, i);
    }
    forall i | k + 2 <= i <= |r|
      ensures Off(r, i) == Off(cs, i - 1)
    {
      SplicedOffAfter(cs, r, k, 1, 2, i);
    }
  }

  /** A cut of an aligned chunk at an aligned size keeps the total size and
      well-formedness. */
  lemma {:induction false} CutProps(cs: seq<Header>, r: seq<Header>, k: nat, csz: nat)
    requires WellFormed(cs) && Spliced(cs, r, k, 1, 2)
    requires csz % ALIGNMENT == 0 && csz >= HDR_SIZE && csz < cs[k].size
    requires r[k].size == csz && r[k + 1].size == cs[k].size - csz
    ensures Off(r, k) == Off(cs, k) && Off(r, k + 1) == Off(cs, k) + csz
    ensures Total(r) == Total(cs) && WellFormed(r)
  {
    CutOffsets(cs, r, k, csz);
    SplicedTotal(cs, r, k, 1, 2);
    assert SizeOk(cs, k);
    assert SizeOk(r, k) && SizeOk(r, k + 1);
    SplicedWellFormed(cs, r, k, 1, 2);
  }

  /** split either changes nothing (csz leaves no remainder) or cuts chunk k
      into a chunk of exactly csz bytes followed by the remainder, both with
      chunk k's status; the other chunks and the total size are unchanged,
      no header before the cut moves, every header after it lies where the
      one before it lay, and the result is well-formed. */
  lemma {:induction false} SplitProps(cs: seq<Header>, k: nat, csz: nat)
    requires WellFormed(cs) && k < |cs|
    requires csz % ALIGNMENT == 0 && csz >= HDR_SIZE
    ensures var r := SplitChunks(cs, k, csz);
      && (csz >= cs[k].size <==> r == cs)
      && (csz < cs[k].size ==>
            && Spliced(cs, r, k, 1, 2)
            && r[k] == Header(csz, cs[k].isAllocated)
            && r[k + 1] == Header(cs[k].size - csz, cs[k].isAllocated)
            && Off(r, k + 1) == Off(cs, k) + csz
            && (forall i :: k + 2 <= i <= |r| ==> Off(r, i) == Off(cs, i - 1)))
      && (forall i :: 0 <= i <= k ==> Off(r, i) == Off(cs, i))
      && Total(r) == Total(cs)
      && WellFormed(r)
  {
    if csz < cs[k].size {
      SplitSpliced(cs, k, csz);
      CutProps(cs, SplitChunks(cs, k, csz), k, csz);
      CutOffsetsAll(cs, SplitChunks(cs, k, csz), k, csz);
    }
  }

  /** What mm_malloc relies on after split: chunk k of s is csz bytes long
      and the chunks around it are those of cs. */
  predicate Kept(cs: seq<Header>, s: seq<Header>, k: nat, csz: nat)
  {
    && WellFormed(s) && k < |cs| && k < |s| && |s| >= |cs| && s[k].size == csz
    && (forall t :: 0 <= t < k ==> s[t] == cs[t])
    && (forall t :: k + |s| - |cs| < t < |s| ==> s[t] == cs[t - (|s| - |cs|)])
    && Total(s) == Total(cs) && Off(s, k) == Off(cs, k)
  }

  lemma {:induction false} SplitKeeps(cs: seq<Header>, k: nat, csz: nat)
    requires WellFormed(cs) && k < |cs|
    requires csz % ALIGNMENT == 0 && HDR_SIZE <= csz <= cs[k].size
    ensures Kept(cs, SplitChunks(cs, k, csz), k, csz)
  {
    var s := SplitChunks(cs, k, csz);
    if csz < cs[k].size {
      SplitSpliced(cs, k, csz);
      CutKept(cs, s, k, csz);
    } else {
      assert s == cs;
    }
  }

  lemma {:induction false} CutKept(cs: seq<Header>, s: seq<Header>, k: nat, csz: nat)
    requires WellFormed(cs) && Spliced(cs, s, k, 1, 2)
    requires csz % ALIGNMENT == 0 && csz >= HDR_SIZE && csz < cs[k].size
    requires s[k].size == csz && s[k + 1].size == cs[k].size - csz
    ensures Kept(cs, s, k, csz)
  {
    CutProps(cs, s, k, csz);
  }

  /** split, performed on the header words (chunk k's header shrinks to csz
      and a header for the remainder is written csz bytes after it), keeps
      the heap invariant. */
  lemma {:induction false} SplitTiles(mem: map<nat, Header>, len: nat, cs: seq<Header>, k: nat, csz: nat)
    requires Tiles(mem, len, cs) && k < |cs|
    requires csz % ALIGNMENT == 0 && csz >= HDR_SIZE && csz < cs[k].size
    ensures var o, a := Off(cs, k), cs[k].isAllocated;
      Tiles(mem[o := Header(csz, a)][o + csz := Header(cs[k].size - csz, a)], len, SplitChunks(cs, k, csz))
  {
    var a := cs[k].isAllocated;
    SplitSpliced(cs, k, csz);
    CutTiles(mem, len, cs, SplitChunks(cs, k, csz), k, Header(csz, a), Header(cs[k].size - csz, a));
  }

  /** Writing the headers of the two halves of a cut keeps the heap invariant. */
  lemma {:induction false} CutTiles(mem: map<nat, Header>, len: nat, cs: seq<Header>, r: seq<Header>, k: nat, x: Header, y: Header)
    requires Tiles(mem, len, cs) && Spliced(cs, r, k, 1, 2)
    requires x.size % ALIGNMENT == 0 && x.size >= HDR_SIZE && x.size < cs[k].size
    requires r[k] == x && r[k + 1] == y && y.size == cs[k].size - x.size
    ensures Tiles(mem[Off(cs, k) := x][Off(cs, k) + x.size := y], len, r)
  {
    var o, csz := Off(cs, k), x.size;
    var mem' := mem[o := x][o + csz := y];
    CutOffsets(cs, r, k, csz);
    OffStep(cs, k);
    assert SizeOk(cs, k);
    assert SizeOk(r, k) && SizeOk(r, k + 1);
    assert HeaderAt(mem', r, k) && HeaderAt(mem', r, k + 1);
    SplicedTiles(mem, mem', len, cs, r, k, 1, 2);
  }

  // ---------------------------------------------------------------------
  // ask_os_for_chunk

  /** Growing the heap by csz and writing a free header at the old end keeps
      the heap invariant. */
  lemma {:induction false} ExtendTiles(mem: map<nat, Header>, len: nat, cs: seq<Header>, csz: nat)
    requires Tiles(mem, len, cs)
    requires csz % ALIGNMENT == 0 && csz >= HDR_SIZE
    ensures Tiles(mem[len := Header(csz, false)], len + csz, Extend(cs, csz))
    ensures Off(Extend(cs, csz), |cs|) == len
  {
    var r := Extend(cs, csz);
    var mem' := mem[len := Header(csz, false)];
    assert r[..|cs|] == cs;
    OffAll(cs);
    TotalSnoc(cs, Header(csz, false));
    forall i | 0 <= i < |r|
      ensures SizeOk(r, i) && HeaderAt(mem', r, i)
    {
      OffPrefix(cs, [Header(csz, false)], i);
      if i < |cs| {
        assert r[i] == cs[i];
        assert HeaderAt(mem, cs, i) && SizeOk(cs, i);
        OffMono(cs, i, |cs|);
      }
    }
  }

  // ---------------------------------------------------------------------
  // Writing a status

  /** Writing the status of chunk k replaces it by one chunk of the same
      size and moves no header. */
  lemma {:induction false} MarkSpliced(cs: seq<Header>, k: nat, s: bool)
    requires k < |cs|
    ensures var r := MarkAllocated(cs, k, s);
      && Spliced(cs, r, k, 1, 1)
      && r[k] == Header(cs[k].size, s)
      && Off(r, k) == Off(cs, k)
      && Off(r, k + 1) == Off(cs, k + 1)
  {
    var r := MarkAllocated(cs, k, s);
    SplicedOffBefore(cs, r, k, 1, 1, k);
    OffStep(r, k);
    OffStep(cs, k);
  }

  /** A status write changes no size, so every header offset and the total
      size are those of cs, and a well-formed heap stays well-formed. */
  lemma {:induction false} MarkProps(cs: seq<Header>, k: nat, s: bool)
    requires WellFormed(cs) && k < |cs|
    ensures var r := MarkAllocated(cs, k, s);
      && Spliced(cs, r, k, 1, 1)
      && r[k] == Header(cs[k].size, s)
      && (forall i :: 0 <= i <= |cs| ==> Off(r, i) == Off(cs, i))
      && Total(r) == Total(cs)
      && WellFormed(r)
  {
    var r := MarkAllocated(cs, k, s);
    MarkSpliced(cs, k, s);
    forall i | 0 <= i <= |cs|
      ensures Off(r, i) == Off(cs, i)
    {
      if i <= k {
        SplicedOffBefore(cs, r, k, 1, 1, i);
      } else {
        SplicedOffAfter(cs, r, k, 1, 1, i);
      }
    }
    assert SizeOk(cs, k) && SizeOk(r, k);
    SplicedWellFormed(cs, r, k, 1, 1);
  }

  /** Writing the status of chunk k in its header word keeps the heap
      invariant. */
  lemma {:induction false} MarkTiles(mem: map<nat, Header>, len: nat, cs: seq<Header>, k: nat, s: bool)
    requires Tiles(mem, len, cs) && k < |cs|
    ensures Tiles(mem[Off(cs, k) := Header(cs[k].size, s)], len, MarkAllocated(cs, k, s))
  {
    MarkSpliced(cs, k, s);
    assert SizeOk(cs, k);
    RewriteRun(mem, len, cs, MarkAllocated(cs, k, s), k, k + 1, Header(cs[k].size, s));
  }

  /** Rewriting the header word of chunk k as the header of one chunk
      spanning chunks k up to j keeps the heap invariant. */
  lemma {:induction false} RewriteRun(mem: map<nat, Header>, len: nat, cs: seq<Header>, r: seq<Header>, k: nat, j: nat, h: Header)
    requires Tiles(mem, len, cs) && k < j <= |cs|
    requires Spliced(cs, r, k, j - k, 1) && r[k] == h && SizeOk(r, k)
    requires Off(r, k) == Off(cs, k) && Off(r, k + 1) == Off(cs, j)
    ensures Tiles(mem[Off(cs, k) := h], len, r)
  {
    var mem' := mem[Off(cs, k) := h];
    OffStep(cs, k);
    assert SizeOk(cs, k);
    OffLe(cs, k + 1, j);
    assert HeaderAt(mem', r, k);
    SplicedTiles(mem, mem', len, cs, r, k, j - k, 1);
  }

  // ---------------------------------------------------------------------
  // coalesce and mm_free

  /** coalesce replaces chunk k and the free run after it by one chunk
      spanning them all, with chunk k's status. */
  lemma {:induction false} CoalesceSpliced(cs: seq<Header>, k: nat)
    requires k < |cs|
    ensures var r, j := Coalesced(cs, k), RunEnd(cs, k + 1);
      && Spliced(cs, r, k, j - k, 1)
      && r[k] == Header(Total(cs[k..j]), cs[k].isAllocated)
  {
    var j := RunEnd(cs, k + 1);
    var m := Header(Total(cs[k..j]), cs[k].isAllocated);
    SliceSpliced(cs, [m], k, j);
    assert (cs[..k] + [m] + cs[j..])[k + 0] == m;
  }

  /** The chunk that spans chunks k up to j lies where they lay. */
  lemma {:induction false} RunOffsets(cs: seq<Header>, r: seq<Header>, k: nat, j: nat)
    requires k < j <= |cs| && Spliced(cs, r, k, j - k, 1) && r[k].size == Total(cs[k..j])
    ensures Off(r, k) == Off(cs, k) && Off(r, k + 1) == Off(cs, j)
  {
    SplicedOffBefore(cs, r, k, j - k, 1, k);
    OffStep(r, k);
    RunTotal(cs, k, j);
  }

  /** The chunks k up to j together are aligned and at least as long as
      chunk k. */
  lemma {:induction false} RunSize(cs: seq<Header>, k: nat, j: nat)
    requires WellFormed(cs) && k < j <= |cs|
    ensures Total(cs[k..j]) >= cs[k].size
    ensures Total(cs[k..j]) % ALIGNMENT == 0
  {
    RunTotal(cs, k, j);
    OffMono(cs, k, j);
    OffAligned(cs, k);
    OffAligned(cs, j);
  }

  /** The bytes of chunks k up to j, added up one chunk at a time as
      coalesce does. */
  function Span(cs: seq<Header>, k: nat, j: nat): nat
    requires k <= j <= |cs|
    decreases j
  {
    if j == k then 0 else Span(cs, k, j - 1) + cs[j - 1].size
  }

  /** Adding up the sizes one at a time gives the total size of the run. */
  lemma {:induction false} SpanTotal(cs: seq<Header>, k: nat, j: nat)
    requires k <= j <= |cs|
    ensures Span(cs, k, j) == Total(cs[k..j])
    decreases j
  {
    if j == k {
      assert cs[k..j] == [];
    } else {
      SpanTotal(cs, k, j - 1);
      assert cs[k..j] == cs[k..j - 1] + [cs[j - 1]];
      TotalSnoc(cs[k..j - 1], cs[j - 1]);
    }
  }

  /** One step of coalesce's walk from chunk k: chunk t lies past chunk k
      and next_chunk moves on to chunk t + 1. */
  lemma {:induction false} CoalesceStep(mem: map<nat, Header>, len: nat, cs: seq<Header>, k: nat, t: nat)
    requires Tiles(mem, len, cs) && k < t < |cs|
    ensures Off(cs, k) < Off(cs, t)
    ensures Off(cs, t) in mem
    ensures NextChunk(mem, len, Some(Off(cs, t))) == if t + 1 < |cs| then Some(Off(cs, t + 1)) else None
    ensures t + 1 < |cs| ==> Off(cs, t + 1) in mem && mem[Off(cs, t + 1)] == cs[t + 1]
  {
    assert SizeOk(cs, k);
    OffMono(cs, k, t);
    NextChunkWalk(mem, len, cs, t);
    if t + 1 < |cs| {
      assert HeaderAt(mem, cs, t + 1);
    }
  }

  /** When coalesce's walk stops at chunk t, the header it has built in
      chunk k is the one Coalesced describes, and the heap invariant holds
      again. */
  lemma {:induction false} CoalesceDone(mem: map<nat, Header>, len: nat, cs: seq<Header>, k: nat, t: nat)
    requires Tiles(mem, len, cs) && k < t <= |cs|
    requires FreeRun(cs, k + 1, t) && (t < |cs| ==> cs[t].isAllocated)
    ensures var h := Header(Span(cs, k, t), cs[k].isAllocated);
      Coalesced(cs, k)[k] == h && Tiles(mem[Off(cs, k) := h], len, Coalesced(cs, k))
  {
    RunEndAt(cs, k + 1, t);
    SpanTotal(cs, k, t);
    CoalesceTiles(mem, len, cs, k);
    CoalescedHead(cs, k);
  }

  /** The header coalesce leaves in chunk k spans the run it absorbs. */
  lemma {:induction false} CoalescedHead(cs: seq<Header>, k: nat)
    requires k < |cs|
    ensures Coalesced(cs, k)[k] == Header(Total(cs[k..RunEnd(cs, k + 1)]), cs[k].isAllocated)
  {
    CoalesceSpliced(cs, k);
  }

  /** coalesce, performed on the header words (only the header of chunk k is
      rewritten; the absorbed headers stay behind as dead bytes), keeps the
      heap invariant. */
  lemma {:induction false} CoalesceTiles(mem: map<nat, Header>, len: nat, cs: seq<Header>, k: nat)
    requires Tiles(mem, len, cs) && k < |cs|
    ensures var j := RunEnd(cs, k + 1);
      Tiles(mem[Off(cs, k) := Header(Total(cs[k..j]), cs[k].isAllocated)], len, Coalesced(cs, k))
  {
    var j := RunEnd(cs, k + 1);
    var r := Coalesced(cs, k);
    CoalesceSpliced(cs, k);
    RunOffsets(cs, r, k, j);
    RunSize(cs, k, j);
    assert SizeOk(cs, k);
    RewriteRun(mem, len, cs, r, k, j, Header(Total(cs[k..j]), cs[k].isAllocated));
  }

  /** The run coalesce absorbs depends only on the status of the chunks it
      walks over. */
  lemma {:induction false} RunEndSame(cs: seq<Header>, ds: seq<Header>, i: nat)
    requires |cs| == |ds| && i <= |cs|
    requires forall t :: i <= t < |cs| ==> cs[t].isAllocated == ds[t].isAllocated
    ensures RunEnd(cs, i) == RunEnd(ds, i)
    decreases |cs| - i
  {
    if i < |cs| && !cs[i].isAllocated {
      RunEndSame(cs, ds, i + 1);
    }
  }

  /** mm_free of chunk k: chunk k becomes one free chunk spanning itself and
      the run of free chunks after it; the chunks before it are unchanged
      and those after the run only move down; the next chunk, if any, is
      allocated; the total size is unchanged and the heap stays well-formed. */
  lemma {:induction false} FreeProps(cs: seq<Header>, k: nat)
    requires WellFormed(cs) && k < |cs|
    ensures var r, j := FreeSpec(cs, k), RunEnd(cs, k + 1);
      && Spliced(cs, r, k, j - k, 1)
      && r[k] == Header(Total(cs[k..j]), false)
      && r[k].size >= cs[k].size
      && Off(r, k) == Off(cs, k)
      && (k + 1 < |r| ==> r[k + 1].isAllocated)
      && Total(r) == Total(cs)
      && WellFormed(r)
  {
    FreeShape(cs, k);
    FreedProps(cs, FreeSpec(cs, k), k, RunEnd(cs, k + 1));
  }

  /** mm_free as one splice of cs. */
  lemma {:induction false} FreeShape(cs: seq<Header>, k: nat)
    requires k < |cs|
    ensures var r, j := FreeSpec(cs, k), RunEnd(cs, k + 1);
      && Spliced(cs, r, k, j - k, 1)
      && r[k] == Header(Total(cs[k..j]), false)
  {
    var mk := MarkAllocated(cs, k, false);
    var j := RunEnd(cs, k + 1);
    MarkSpliced(cs, k, false);
    RunEndSame(mk, cs, k + 1);
    CoalesceSpliced(mk, k);
    MarkedRun(cs, mk, k, j);
    FreeSpliced(cs, mk, Coalesced(mk, k), k, j);
  }

  /** A status write does not change the bytes of a run that starts at it. */
  lemma {:induction false} MarkedRun(cs: seq<Header>, mk: seq<Header>, k: nat, j: nat)
    requires k < j <= |cs| && Spliced(cs, mk, k, 1, 1)
    requires Off(mk, k) == Off(cs, k) && Off(mk, k + 1) == Off(cs, k + 1)
    ensures Total(mk[k..j]) == Total(cs[k..j])
  {
    SplicedOffAfter(cs, mk, k, 1, 1, j);
    RunTotal(mk, k, j);
    RunTotal(cs, k, j);
  }

  /** A status write of chunk k followed by a splice at k is one splice at k. */
  lemma {:induction false} FreeSpliced(cs: seq<Header>, mk: seq<Header>, r: seq<Header>, k: nat, j: nat)
    requires k < j && Spliced(cs, mk, k, 1, 1) && Spliced(mk, r, k, j - k, 1)
    ensures Spliced(cs, r, k, j - k, 1)
  {
    forall i | k + 1 <= i < |r|
      ensures r[i] == cs[i + (j - k) - 1]
    {
      assert r[i] == mk[i + (j - k) - 1];
    }
  }

  /** The properties of a freed and coalesced chunk k spanning chunks k up
      to the end j of the free run after it. */
  lemma {:induction false} FreedProps(cs: seq<Header>, r: seq<Header>, k: nat, j: nat)
    requires WellFormed(cs) && k < j <= |cs| && (j < |cs| ==> cs[j].isAllocated)
    requires Spliced(cs, r, k, j - k, 1) && r[k] == Header(Total(cs[k..j]), false)
    ensures r[k].size >= cs[k].size
    ensures Off(r, k) == Off(cs, k)
    ensures k + 1 < |r| ==> r[k + 1].isAllocated
    ensures Total(r) == Total(cs)
    ensures WellFormed(r)
  {
    RunOffsets(cs, r, k, j);
    SplicedTotal(cs, r, k, j - k, 1);
    RunSize(cs, k, j);
    assert SizeOk(cs, k) && SizeOk(r, k);
    SplicedWellFormed(cs, r, k, j - k, 1);
    if k + 1 < |r| {
      assert r[k + 1] == cs[k + 1 + (j - k) - 1];
    }
  }

  /** No two neighbouring chunks are both free: the maximal coalescing a
      release is meant to leave behind. */
  predicate Separated(cs: seq<Header>)
  {
    forall i :: 0 < i < |cs| ==> cs[i - 1].isAllocated || cs[i].isAllocated
  }

  /** Coalescing only looks forward: when no two neighbours were both free
      before mm_free, the only neighbours that can both be free afterwards
      are chunk k - 1 and the freed chunk k. */
  lemma {:induction false} FreeSeparation(cs: seq<Header>, k: nat)
    requires WellFormed(cs) && k < |cs| && Separated(cs)
    ensures var r := FreeSpec(cs, k);
      forall i :: 0 < i < |r| && i != k ==> r[i - 1].isAllocated || r[i].isAllocated
  {
    var r, j := FreeSpec(cs, k), RunEnd(cs, k + 1);
    FreeProps(cs, k);
    forall i | 0 < i < |r| && i != k
      ensures r[i - 1].isAllocated || r[i].isAllocated
    {
      if i < k {
        assert r[i - 1] == cs[i - 1] && r[i] == cs[i];
      } else if i > k + 1 {
        var d := j - k - 1;
        assert r[i] == cs[i + d];
        assert r[i - 1] == cs[i - 1 + d];
        assert cs[i + d - 1].isAllocated || cs[i + d].isAllocated;
      }
    }
  }

  // ---------------------------------------------------------------------
  // mm_malloc

  /** mm_malloc of a non-zero size hands out the chunk at Placement, now
      allocated and exactly ChunkSize(size) long, and returns its header
      offset plus hdr_size, which payload2header maps back to the header;
      the payload is aligned. The heap grows by the chunk size only when no
      free chunk fits, and no other chunk changes. */
  lemma {:induction false} MallocProps(cs: seq<Header>, size: nat)
    requires WellFormed(cs) && size > 0
    ensures var csz := ChunkSize(size); var r := MallocSpec(cs, size); var i := Placement(cs, csz);
      && i < |r.chunks|
      && r.chunks[i] == Header(csz, true)
      && r.ptr == Some(Off(r.chunks, i) + HDR_SIZE)
      && Payload2Header(r.ptr.value) == Off(r.chunks, i)
      && r.ptr.value % ALIGNMENT == 0
      && WellFormed(r.chunks)
      && Total(r.chunks) == (if FirstFitIndex(cs, csz).Some? then Total(cs) else Total(cs) + csz)
      && (forall t :: 0 <= t < i ==> r.chunks[t] == cs[t])
      && (forall t :: i + |r.chunks| - |cs| < t < |r.chunks| ==> r.chunks[t] == cs[t - (|r.chunks| - |cs|)])
  {
    if FirstFitIndex(cs, ChunkSize(size)).Some? {
      MallocFit(cs, size);
    } else {
      MallocGrow(cs, size);
    }
  }

  /** The facts MallocProps states, for the chunks r handed out at index i
      with chunk size csz and pointer p. */
  predicate Served(cs: seq<Header>, csz: nat, i: nat, r: seq<Header>, p: Option<nat>)
  {
    && i < |r|
    && r[i] == Header(csz, true)
    && p == Some(Off(r, i) + HDR_SIZE)
    && Off(r, i) % ALIGNMENT == 0
    && WellFormed(r)
    && i <= |cs| && |r| >= |cs|
    && (forall t :: 0 <= t < i ==> r[t] == cs[t])
    && (forall t :: i + |r| - |cs| < t < |r| ==> r[t] == cs[t - (|r| - |cs|)])
  }

  lemma {:induction false} MallocFit(cs: seq<Header>, size: nat)
    requires WellFormed(cs) && size > 0 && FirstFitIndex(cs, ChunkSize(size)).Some?
    ensures var csz := ChunkSize(size); var r := MallocSpec(cs, size);
      && Served(cs, csz, Placement(cs, csz), r.chunks, r.ptr)
      && Total(r.chunks) == Total(cs)
  {
    MallocFitSpec(cs, size);
    FitServed(cs, Placement(cs, ChunkSize(size)), ChunkSize(size));
  }

  /** Splitting a chunk that fits and marking it allocated serves the request. */
  lemma {:induction false} FitServed(cs: seq<Header>, i: nat, csz: nat)
    requires WellFormed(cs) && i < |cs|
    requires csz % ALIGNMENT == 0 && HDR_SIZE <= csz <= cs[i].size
    ensures var r := FitAlloc(cs, i, csz);
      && Served(cs, csz, i, r.chunks, r.ptr)
      && Total(r.chunks) == Total(cs)
  {
    FitMarked(cs, i, csz);
  }

  lemma {:induction false} FitMarked(cs: seq<Header>, i: nat, csz: nat)
    requires WellFormed(cs) && i < |cs|
    requires csz % ALIGNMENT == 0 && HDR_SIZE <= csz <= cs[i].size
    ensures var m := MarkAllocated(SplitChunks(cs, i, csz), i, true);
      && Served(cs, csz, i, m, Some(Off(cs, i) + HDR_SIZE))
      && Total(m) == Total(cs)
  {
    SplitKeeps(cs, i, csz);
    OffAligned(cs, i);
    MarkServed(cs, SplitChunks(cs, i, csz), i, csz);
  }

  /** Marking the chunk of the right size allocated serves the request. */
  lemma {:induction false} MarkServed(cs: seq<Header>, s: seq<Header>, i: nat, csz: nat)
    requires Kept(cs, s, i, csz) && Off(cs, i) % ALIGNMENT == 0
    ensures var m := MarkAllocated(s, i, true);
      && Served(cs, csz, i, m, Some(Off(cs, i) + HDR_SIZE))
      && Total(m) == Total(cs)
  {
    var m := MarkAllocated(s, i, true);
    MarkProps(s, i, true);
    forall t | i + |m| - |cs| < t < |m|
      ensures m[t] == cs[t - (|m| - |cs|)]
    {
      assert m[t] == s[t];
    }
  }

  lemma {:induction false} MallocFitSpec(cs: seq<Header>, size: nat)
    requires size > 0 && FirstFitIndex(cs, ChunkSize(size)).Some?
    ensures var csz := ChunkSize(size); var i := Placement(cs, csz);
      i < |cs| && MallocSpec(cs, size) == FitAlloc(cs, i, csz)
  {
    PlaceFit(cs, ChunkSize(size));
  }

  lemma {:induction false} PlaceFit(cs: seq<Header>, csz: nat)
    requires FirstFitIndex(cs, csz).Some?
    ensures var i := Placement(cs, csz);
      i < |cs| && PlaceChunk(cs, csz) == FitAlloc(cs, i, csz)
  {
  }

  lemma {:induction false} MallocGrow(cs: seq<Header>, size: nat)
    requires WellFormed(cs) && size > 0 && FirstFitIndex(cs, ChunkSize(size)).None?
    ensures var csz := ChunkSize(size); var r := MallocSpec(cs, size);
      && Served(cs, csz, Placement(cs, csz), r.chunks, r.ptr)
      && Total(r.chunks) == Total(cs) + csz
  {
    var csz := ChunkSize(size);
    var r := MallocSpec(cs, size);
    assert r.chunks == cs + [Header(csz, true)];
    assert r.chunks[..|cs|] == cs;
    OffPrefix(cs, [Header(csz, true)], |cs|);
    OffAll(cs);
    TotalSnoc(cs, Header(csz, true));
    forall t | 0 <= t < |r.chunks|
      ensures SizeOk(r.chunks, t)
    {
      if t < |cs| {
        assert SizeOk(cs, t);
      }
    }
    TotalAligned(cs);
  }

  /** mm_malloc(0) returns NULL and leaves the heap alone. */
  lemma {:induction false} MallocZero(cs: seq<Header>)
    ensures MallocSpec(cs, 0) == Alloc(cs, None)
  {
  }

  // ---------------------------------------------------------------------
  // mm_realloc

  /** For a non-null pointer and a non-zero size, mm_realloc hands out a
      new payload, and the byte count it copies (read after the free, so
      possibly from a coalesced chunk) covers at least the old payload up
      to the new size, never exceeds the new size, fits the new payload and
      lies inside the chunk the free produced. */
  lemma {:induction false} ReallocCopyBounds(cs: seq<Header>, ptr: nat, k: nat, size: nat)
    requires WellFormed(cs) && k < |cs| && size > 0
    ensures HDR_SIZE <= cs[k].size <= FreeSpec(cs, k)[k].size
    ensures var r := ReallocSpec(cs, Some(ptr), k, size);
      && r.ptr.Some?
      && Min(cs[k].size - HDR_SIZE, size) <= r.copied <= size
      && r.copied <= ChunkSize(size) - HDR_SIZE
      && HDR_SIZE + r.copied <= FreeSpec(cs, k)[k].size
  {
    FreeProps(cs, k);
    assert SizeOk(cs, k);
    MallocProps(FreeSpec(cs, k), size);
  }

  // ---------------------------------------------------------------------
  // mm_checkheap

  /** The statistics count every chunk once, and the two byte totals add up
      to the sum of the chunk sizes: mm_checkheap's assertion. */
  lemma {:induction false} StatsTotals(cs: seq<Header>)
    ensures Stats(cs).numAllocatedChunks + Stats(cs).numFreeChunks == |cs|
    ensures Stats(cs).allocatedSize + Stats(cs).freeSize == Total(cs)
    decreases |cs|
  {
    if cs != [] {
      StatsTotals(cs[..|cs| - 1]);
      TotalSnoc(cs[..|cs| - 1], cs[|cs| - 1]);
      assert cs[..|cs| - 1] + [cs[|cs| - 1]] == cs;
    }
  }

  /** Each pair of counters is the number and total size of the chunks with
      that status. */
  lemma {:induction false} StatsByStatus(cs: seq<Header>)
    ensures Stats(cs).numAllocatedChunks == |WithStatus(cs, true)|
    ensures Stats(cs).allocatedSize == Total(WithStatus(cs, true))
    ensures Stats(cs).numFreeChunks == |WithStatus(cs, false)|
    ensures Stats(cs).freeSize == Total(WithStatus(cs, false))
    decreases |cs|
  {
    if cs != [] {
      var p, h := cs[..|cs| - 1], cs[|cs| - 1];
      StatsByStatus(p);
      TotalAppend(WithStatus(p, true), if h.isAllocated then [h] else []);
      TotalAppend(WithStatus(p, false), if h.isAllocated then [] else [h]);
      TotalSingle(h);
    }
  }
}
