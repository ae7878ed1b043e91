/** The layout of the implicit-list heap of mm-implicit.c.
    The managed heap is one contiguous byte range read as a back-to-back
    sequence of chunks, each starting with a header. Addresses are byte
    offsets from the heap's low bound (mem_heap_lo()), so offset 0 holds the
    first header and the heap's current size is the offset one past its last
    byte. The header words written into the heap are a map from offset to
    header; the chunk sequence that the walker sees is the abstract view. */
module Layout {

  datatype Option<T> = None | Some(value: T)

  /** header_t: the chunk's total length in bytes (header included) and
      whether its payload is owned by a caller. */
  datatype Header = Header(size: nat, isAllocated: bool)

  /** The unit align() rounds up to, and sizeof(header_t) (a size_t and a
      bool, padded to 16 bytes on the 64-bit target). */
  const ALIGNMENT: nat := 16
  const HDR_SIZE: nat := 16

  /** align(): round a byte count up to the next multiple of the unit. */
  function Align(n: nat): (r: nat)
    ensures r % ALIGNMENT == 0
    ensures n <= r < n + ALIGNMENT
  {
    (n + ALIGNMENT - 1) / ALIGNMENT * ALIGNMENT
  }

  /** The assertion of mm_init: hdr_size is already aligned. */
  lemma HdrSizeAligned()
    ensures Align(HDR_SIZE) == HDR_SIZE
    ensures HDR_SIZE % ALIGNMENT == 0
  {
  }

  /** An aligned count is a fixed point of Align, so aligning twice (as
      mm_malloc does) is the same as aligning once. */
  lemma {:induction false} AlignIdempotent(n: nat)
    ensures Align(Align(n)) == Align(n)
  {
    var a := Align(n);
    var b := Align(a);
    assert a % ALIGNMENT == 0 && b % ALIGNMENT == 0;
    assert a <= b < a + ALIGNMENT;
    assert a == a / ALIGNMENT * ALIGNMENT;
    assert b == b / ALIGNMENT * ALIGNMENT;
    assert b / ALIGNMENT == a / ALIGNMENT;
  }

  /** Offset of the header of chunk i: the sizes of the chunks before it. */
  function Off(cs: seq<Header>, i: nat): nat
    requires i <= |cs|
    decreases i
  {
    if i == 0 then 0 else Off(cs, i - 1) + cs[i - 1].size
  }

  /** Sum of the chunk sizes. */
  function Total(cs: seq<Header>): nat
  {
    Off(cs, |cs|)
  }

  /** Every chunk can hold its header and has an aligned size (so every
      header offset, and every payload, is aligned too). */
  predicate WellFormed(cs: seq<Header>)
  {
    forall i :: 0 <= i < |cs| ==> SizeOk(cs, i)
  }

  /** Chunk i can hold its header and has an aligned size. */
  predicate SizeOk(cs: seq<Header>, i: nat)
    requires i < |cs|
  {
    HDR_SIZE <= cs[i].size && cs[i].size % ALIGNMENT == 0
  }

  /** The heap invariant checked by mm_checkheap: the chunk sizes tile the
      heap of length len exactly, and the header of chunk i is the header
      word stored at offset Off(cs, i). */
  predicate Tiles(mem: map<nat, Header>, len: nat, cs: seq<Header>)
  {
    && WellFormed(cs)
    && Total(cs) == len
    && forall i :: 0 <= i < |cs| ==> HeaderAt(mem, cs, i)
  }

  /** The header word at the offset of chunk i is chunk i's header. */
  predicate HeaderAt(mem: map<nat, Header>, cs: seq<Header>, i: nat)
    requires i < |cs|
  {
    Off(cs, i) in mem && mem[Off(cs, i)] == cs[i]
  }

  /** next_chunk, with None for NULL. The end test compares the next header
      offset with mem_heap_hi(), the offset of the heap's last byte. */
  function NextChunk(mem: map<nat, Header>, len: nat, h: Option<nat>): (r: Option<nat>)
    requires len > 0 && h.Some? ==> h.value in mem
    ensures r.Some? ==> r.value < len
  {
    if len == 0 then None
    else if h.None? then Some(0)
    else if h.value + mem[h.value].size >= HeapHi(len) then None
    else Some(h.value + mem[h.value].size)
  }

  /** mem_heap_hi() as an offset: the heap's last byte. */
  function HeapHi(len: nat): int
  {
    len - 1
  }

  /** payload2header: step back over the header. The header lies hdr_size
      bytes below the payload, and an aligned payload has an aligned header. */
  function Payload2Header(p: nat): (h: nat)
    requires p >= HDR_SIZE
    ensures h + HDR_SIZE == p
    ensures h % ALIGNMENT == p % ALIGNMENT
  {
    p - HDR_SIZE
  }

  lemma {:induction false} OffPrefix(a: seq<Header>, b: seq<Header>, i: nat)
    requires i <= |a|
    ensures Off(a + b, i) == Off(a, i)
    decreases i
  {
    if i > 0 {
      OffPrefix(a, b, i - 1);
    }
  }

  lemma {:induction false} OffConcat(a: seq<Header>, b: seq<Header>, t: nat)
    requires t <= |b|
    ensures Off(a + b, |a| + t) == Total(a) + Off(b, t)
    decreases t
  {
    if t == 0 {
      OffPrefix(a, b, |a|);
    } else {
      OffConcat(a, b, t - 1);
    }
  }

  lemma {:induction false} TotalAppend(a: seq<Header>, b: seq<Header>)
    ensures Total(a + b) == Total(a) + Total(b)
  {
    OffConcat(a, b, |b|);
  }

  lemma {:induction false} TotalSingle(h: Header)
    ensures Total([h]) == h.size
  {
    assert Off([h], 0) == 0;
  }

  lemma {:induction false} TotalSnoc(cs: seq<Header>, h: Header)
    ensures Total(cs + [h]) == Total(cs) + h.size
  {
    TotalAppend(cs, [h]);
    TotalSingle(h);
  }

  lemma {:induction false} OffAll(cs: seq<Header>)
    ensures Off(cs, |cs|) == Total(cs)
  {
  }

  lemma {:induction false} OffStep(cs: seq<Header>, i: nat)
    requires i < |cs|
    ensures Off(cs, i + 1) == Off(cs, i) + cs[i].size
  {
  }

  /** The header offsets strictly increase, each chunk ending no later than
      the start of any later chunk. */
  lemma {:induction false} OffMono(cs: seq<Header>, i: nat, j: nat)
    requires WellFormed(cs)
    requires i < j <= |cs|
    ensures Off(cs, i) + cs[i].size <= Off(cs, j)
    decreases j
  {
    OffStep(cs, j - 1);
    if j - 1 > i {
      OffMono(cs, i, j - 1);
    }
  }

  /** Every header offset is aligned. */
  lemma {:induction false} OffAligned(cs: seq<Header>, i: nat)
    requires WellFormed(cs)
    requires i <= |cs|
    ensures Off(cs, i) % ALIGNMENT == 0
    decreases i
  {
    if i > 0 {
      assert SizeOk(cs, i - 1);
      OffStep(cs, i - 1);
      OffAligned(cs, i - 1);
    }
  }

  lemma {:induction false} TotalAligned(cs: seq<Header>)
    requires WellFormed(cs)
    ensures Total(cs) % ALIGNMENT == 0
  {
    OffAligned(cs, |cs|);
    OffAll(cs);
  }

  /** A non-empty well-formed sequence is at least as long as its first chunk. */
  lemma {:induction false} TotalAtLeastFirst(cs: seq<Header>)
    requires WellFormed(cs) && cs != []
    ensures Total(cs) >= cs[0].size
  {
    OffStep(cs, 0);
    if |cs| > 1 {
      OffMono(cs, 1, |cs|);
    }
    OffAll(cs);
  }

  /** With every offset and the heap length aligned, next_chunk's comparison
      against the last byte (mem_heap_hi) is the same as a comparison against
      the heap length. */
  lemma {:induction false} EndTestAligned(o: nat, len: nat)
    requires o % ALIGNMENT == 0 && len % ALIGNMENT == 0 && len > 0
    ensures o >= HeapHi(len) <==> o >= len
  {
  }

  /** The heap is empty exactly when it holds no chunk. */
  lemma {:induction false} EmptyIffNoChunks(mem: map<nat, Header>, len: nat, cs: seq<Header>)
    requires Tiles(mem, len, cs)
    ensures len == 0 <==> cs == []
  {
    if cs != [] {
      assert SizeOk(cs, 0);
      TotalAtLeastFirst(cs);
    }
  }

  /** next_chunk(NULL) is the first chunk, or NULL on an empty heap. */
  lemma {:induction false} NextChunkFirst(mem: map<nat, Header>, len: nat, cs: seq<Header>)
    requires Tiles(mem, len, cs)
    ensures NextChunk(mem, len, None) == if cs == [] then None else Some(Off(cs, 0))
  {
    EmptyIffNoChunks(mem, len, cs);
    assert cs[..0] == [];
  }

  /** next_chunk from the header of chunk i gives the header of chunk i + 1,
      or NULL when chunk i is the last one. */
  lemma {:induction false} NextChunkWalk(mem: map<nat, Header>, len: nat, cs: seq<Header>, i: nat)
    requires Tiles(mem, len, cs)
    requires i < |cs|
    ensures Off(cs, i) in mem
    ensures NextChunk(mem, len, Some(Off(cs, i))) == if i + 1 < |cs| then Some(Off(cs, i + 1)) else None
  {
    assert HeaderAt(mem, cs, i);
    EmptyIffNoChunks(mem, len, cs);
    OffStep(cs, i);
    OffAll(cs);
    OffAligned(cs, i + 1);
    TotalAligned(cs);
    EndTestAligned(Off(cs, i + 1), len);
    if i + 1 < |cs| {
      assert SizeOk(cs, i + 1);
      OffMono(cs, i + 1, |cs|);
    }
  }
}
