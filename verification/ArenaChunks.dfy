/** The arena as a value: what each request does to the chunks it has given out (lib/mem/arena.c). */
module ArenaChunks {
  import opened Sizes

  // `k4c_arena_alloc_header` rounded up to the alignment.
  const HEADER: nat := 16

  // One allocation: where its header starts, and the size of its payload.
  datatype Chunk = Chunk(off: nat, size: nat) {
    function Payload(): nat { off + HEADER }
    function End(): nat { off + HEADER + size }
  }

  // The chunks given out since the last reset, and where the next one goes.
  datatype Pool = Pool(chunks: seq<Chunk>, offset: nat)

  datatype Taken = Taken(pool: Pool, result: Pointer)

  /** The chunks stand one behind the other from the start of the buffer up to `offset`. */
  ghost predicate Packed(cs: seq<Chunk>, offset: nat)
    decreases |cs|
  {
    if cs == [] then offset == 0
    else
      var c := cs[|cs| - 1];
      && c.End() == offset && c.off % MEMORY_ALIGN == 0 && c.size > 0 && c.size % MEMORY_ALIGN == 0
      && Packed(cs[..|cs| - 1], c.off)
  }

  /** Payloads are aligned, inside the used part, and in order, so no two overlap. */
  lemma {:induction false} PackedApart(cs: seq<Chunk>, offset: nat, i: nat, j: nat)
    requires Packed(cs, offset) && i <= j < |cs|
    ensures cs[i].Payload() % MEMORY_ALIGN == 0 && cs[i].size > 0 && cs[i].End() <= cs[j].End() <= offset
    ensures i < j ==> cs[i].End() <= cs[j].off
    decreases |cs|
  {
    var n := |cs| - 1;
    var rest := cs[..n];
    if j < n {
      PackedApart(rest, cs[n].off, i, j);
    } else if i < n {
      PackedApart(rest, cs[n].off, i, n - 1);
      assert rest[n - 1].End() == cs[n].off;
    }
  }

  predicate Fits(offset: nat, capacity: nat, request: SizeT)
  {
    AlignUpOverflow(request).Value? && offset + HEADER + AlignUpOverflow(request).value <= capacity
  }

  /** `k4c_arena_vtable_alloc` */
  function Take(pool: Pool, capacity: nat, request: SizeT): Taken
  {
    if Fits(pool.offset, capacity, request) then
      var size := AlignUpOverflow(request).value;
      Taken(Pool(pool.chunks + [Chunk(pool.offset, size)], pool.offset + HEADER + size), Ptr(pool.offset + HEADER))
    else Taken(pool, Null)
  }

  predicate Holds(pool: Pool, p: nat, size: nat)
  {
    p >= HEADER && Chunk(p - HEADER, size) in pool.chunks
  }

  // What the assertion inside the resize asks of its caller.
  predicate NoShrink(size: nat, request: SizeT)
  {
    AlignUpOverflow(request).Value? ==> size <= AlignUpOverflow(request).value
  }

  /** `k4c_arena_vtable_realloc` for the chunk at `p` with payload `size` */
  function Retake(pool: Pool, capacity: nat, p: nat, size: nat, request: SizeT): Taken
    requires Holds(pool, p, size) && (request > 0 ==> NoShrink(size, request))
  {
    if request == 0 then Taken(pool, Null)
    else if AlignUpOverflow(request).Value? && AlignUpOverflow(request).value == size then Taken(pool, Ptr(p))
    else Take(pool, capacity, request)
  }

  /** One more chunk behind the others, of the least multiple that holds the request; or no multiple fits. */
  ghost predicate Bumped(pool: Pool, capacity: nat, request: nat, t: Taken)
  {
    match t.result
    case Null =>
      && t.pool == pool
      && forall m: nat {:trigger Multiple(m)} :: Multiple(m) && request <= m <= SIZE_MAX ==>
           pool.offset + HEADER + m > capacity
    case Ptr(at) =>
      && at == pool.offset + HEADER
      && exists m: nat :: Multiple(m) && request <= m < request + MEMORY_ALIGN && at + m <= capacity
           && t.pool == Pool(pool.chunks + [Chunk(pool.offset, m)], at + m)
  }

  // Requests of `a` and of `b` bytes get chunks of the same size.
  ghost predicate SameChunk(a: nat, b: nat)
  {
    exists m: nat :: Multiple(m) && a <= m < a + MEMORY_ALIGN && b <= m < b + MEMORY_ALIGN
  }

  /** What becomes of the chunk at `p` that was taken for `held` bytes. */
  ghost predicate Rechunked(pool: Pool, capacity: nat, p: nat, held: nat, request: nat, t: Taken)
  {
    if request == 0 then t == Taken(pool, Null)
    else if SameChunk(held, request) then t == Taken(pool, Ptr(p))
    else Bumped(pool, capacity, request, t)
  }

  /** A request is refused exactly when no multiple of the alignment that holds it fits behind the offset. */
  lemma TakeExactly(pool: Pool, capacity: nat, request: SizeT)
    requires capacity <= SIZE_MAX
    ensures Bumped(pool, capacity, request, Take(pool, capacity, request))
  {
    AlignsToMultiple(request);
    if Fits(pool.offset, capacity, request) {
      assert Multiple(AlignUpOverflow(request).value);
    }
  }

  /** A resize stays exactly when both requests round to the same size. */
  lemma RetakeExactly(pool: Pool, capacity: nat, p: nat, size: SizeT, held: SizeT, request: SizeT)
    requires capacity <= SIZE_MAX && Holds(pool, p, size) && (request > 0 ==> NoShrink(size, request))
    requires AlignUpOverflow(held) == Value(size)
    ensures Rechunked(pool, capacity, p, held, request, Retake(pool, capacity, p, size, request))
  {
    SameChunkAligns(held, request);
    TakeExactly(pool, capacity, request);
  }

  lemma SameChunkAligns(a: SizeT, b: SizeT)
    requires AlignUpOverflow(a).Value?
    ensures SameChunk(a, b) <==> AlignUpOverflow(b) == AlignUpOverflow(a)
  {
    var n := AlignUpOverflow(a).value;
    assert Multiple(n);
    forall m: nat | Multiple(m) && a <= m < a + MEMORY_ALIGN ensures m == n {
      MultiplesApart(if m < n then m else n, if m < n then n else m);
    }
    if SameChunk(a, b) {
      AlignsToMultiple(b);
      var r := AlignUpOverflow(b).value;
      MultiplesApart(if r < n then r else n, if r < n then n else r);
    }
  }

  /** The assertion against shrinking fails exactly when a smaller multiple than the chunk holds the request. */
  lemma ShrinkExactly(held: SizeT, request: SizeT)
    requires AlignUpOverflow(held).Value?
    ensures !NoShrink(AlignUpOverflow(held).value, request) <==>
            exists m: nat :: Multiple(m) && request <= m < held
  {
    AlignsToMultiple(held);
    AlignsToMultiple(request);
    var n := AlignUpOverflow(held).value;
    if !NoShrink(n, request) {
      var r := AlignUpOverflow(request).value;
      assert Multiple(r) && request <= r;
      assert r < held;
    } else {
      forall m: nat | Multiple(m) && request <= m ensures held <= m {
      }
    }
  }

  ghost predicate PoolOk(pool: Pool, capacity: nat)
  {
    Packed(pool.chunks, pool.offset) && pool.offset <= capacity
  }

  lemma PackedAligned(cs: seq<Chunk>, offset: nat)
    requires Packed(cs, offset)
    ensures offset % MEMORY_ALIGN == 0
  {
    if cs != [] {
      var c := cs[|cs| - 1];
      AlignedEnd(c.off, c.size);
    }
  }

  lemma AlignedEnd(off: nat, size: nat)
    requires off % MEMORY_ALIGN == 0 && size % MEMORY_ALIGN == 0
    ensures (off + HEADER + size) % MEMORY_ALIGN == 0
  {
  }

  lemma {:induction false} ChunkAligned(cs: seq<Chunk>, offset: nat, i: nat)
    requires Packed(cs, offset) && i < |cs|
    ensures cs[i].size % MEMORY_ALIGN == 0
    decreases |cs|
  {
    var n := |cs| - 1;
    if i < n {
      ChunkAligned(cs[..n], cs[n].off, i);
    }
  }

  lemma NewOffset(cs: seq<Chunk>, offset: nat)
    requires Packed(cs, offset)
    ensures forall c :: c in cs ==> c.End() <= offset
  {
  }

  /** The payloads of two chunks do not overlap, nor does one reach into the other's header. */
  lemma HoldersApart(pool: Pool, capacity: nat, p: nat, m: nat, q: nat, n: nat)
    requires PoolOk(pool, capacity) && Holds(pool, p, m) && Holds(pool, q, n) && p != q
    ensures p + m <= q - HEADER || q + n <= p - HEADER
    ensures p % MEMORY_ALIGN == 0 && p + m <= capacity
  {
    var cs := pool.chunks;
    var i :| 0 <= i < |cs| && cs[i] == Chunk(p - HEADER, m);
    var j :| 0 <= j < |cs| && cs[j] == Chunk(q - HEADER, n);
    PackedApart(cs, pool.offset, if i < j then i else j, if i < j then j else i);
    PackedApart(cs, pool.offset, i, i);
  }

  /** A new chunk stands behind all others and moves none of them. */
  lemma TakeOk(pool: Pool, capacity: nat, request: SizeT)
    requires PoolOk(pool, capacity) && request > 0
    ensures var t := Take(pool, capacity, request);
            && PoolOk(t.pool, capacity) && pool.chunks <= t.pool.chunks
            && (t.result.Ptr? ==> Holds(t.pool, t.result.at, AlignUpOverflow(request).value))
            && (t.result.Ptr? ==> forall p: nat, size: nat :: Holds(pool, p, size) ==> p < t.result.at)
  {
    var t := Take(pool, capacity, request);
    if t.result.Ptr? {
      PackedAligned(pool.chunks, pool.offset);
      NewOffset(pool.chunks, pool.offset);
      assert t.pool.chunks[..|pool.chunks|] == pool.chunks;
    }
  }

  /** A resize that asks for no fewer bytes than last time meets the assertion in the arena. */
  lemma GrowthMeetsNoShrink(held: SizeT, request: SizeT)
    requires held <= request && AlignUpOverflow(held).Value?
    ensures NoShrink(AlignUpOverflow(held).value, request)
  {
    if AlignUpOverflow(request).Value? {
      AlignMonotone(held, request);
    }
  }
}
