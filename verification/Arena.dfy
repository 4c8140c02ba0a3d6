/** The bump allocator over its buffer (lib/mem/arena.c). */
module Arenas {
  import opened Sizes
  import opened Allocators
  import opened ArenaChunks

  // The payload bytes of the chunks are the same in both images of the buffer.
  ghost predicate Kept(cs: seq<Chunk>, before: seq<bv8>, after: seq<bv8>)
  {
    |before| == |after| &&
    forall c, k :: c in cs && c.Payload() <= k < c.End() && k < |before| ==> after[k] == before[k]
  }

  // `sizeof(k4c_arena)` on LP64.
  const HANDLE_SIZE: SizeT := 24

  class Arena {
    const capacity: SizeT
    const buffer: array<bv8>
    const handle: nat             // the addresses of the two blocks
    const block: nat
    var offset: SizeT
    var sizeAt: map<nat, nat>     // the header that a cast of the address yields
    ghost var chunks: seq<Chunk>  // the allocations since the last reset

    ghost predicate Valid()
      reads this
    {
      && buffer.Length == capacity && offset <= capacity
      && Packed(chunks, offset)
      && forall c :: c in chunks ==> c.off in sizeAt && sizeAt[c.off] == c.size
    }

    ghost function State(): Pool
      reads this
    {
      Pool(chunks, offset)
    }

    constructor (bytes: SizeT, h: nat, b: nat)
      requires bytes > 0 && bytes % MEMORY_ALIGN == 0
      ensures Valid() && capacity == bytes && chunks == [] && fresh(buffer) && handle == h && block == b
    {
      handle, block := h, b;
      capacity, buffer, offset, sizeAt, chunks := bytes, new bv8[bytes], 0, map[], [];
    }

    /** `k4c_arena_vtable_alloc`: fails exactly when header and aligned payload do not fit behind the offset. */
    method Alloc(request: SizeT) returns (p: Pointer)
      requires Valid() && request > 0
      modifies this`offset, this`sizeAt, this`chunks, buffer
      ensures Valid() && Taken(State(), p) == Take(old(State()), capacity, request)
      ensures Bumped(old(State()), capacity, request, Taken(State(), p))
      ensures Kept(old(chunks), old(buffer[..]), buffer[..])
    {
      TakeExactly(State(), capacity, request);
      var aligned := AlignUpOverflow(request);
      if aligned.Overflow? {
        return Null;
      }
      var size := aligned.value;
      if size > capacity || HEADER > capacity - size || offset > capacity - HEADER - size {
        return Null;
      }
      PackedAligned(chunks, offset);
      WriteHeader();
      assert (chunks + [Chunk(offset, size)])[..|chunks|] == chunks;
      NewOffset(chunks, offset);
      sizeAt := sizeAt[offset := size];
      chunks := chunks + [Chunk(offset, size)];
      p := Ptr(offset + HEADER);
      offset := offset + HEADER + size;
    }

    method WriteHeader()
      requires Valid() && offset + HEADER <= capacity
      modifies buffer
      ensures Kept(chunks, old(buffer[..]), buffer[..])
    {
      for k := offset to offset + HEADER
        invariant forall j :: 0 <= j < offset ==> buffer[j] == old(buffer[j])
      {
        buffer[k] := *;
      }
      forall c, k | c in chunks && c.Payload() <= k < c.End() && k < buffer.Length
        ensures buffer[k] == old(buffer[k])
      {
        var i :| 0 <= i < |chunks| && chunks[i] == c;
        PackedApart(chunks, offset, i, i);
      }
    }

    /** `k4c_arena_create`: the handle and the buffer, or neither. */
    static method Create(bytes: SizeT, a: Allocator) returns (st: Status, r: Arena?)
      requires bytes > 0
      modifies a
      ensures (st == OK <==> r != null) && st in {OK, OVERFLOW, NO_MEMORY}
      ensures st == OVERFLOW <==> AlignUpOverflow(bytes).Overflow?
      ensures r != null ==> fresh(r) && fresh(r.buffer) && r.Valid() && r.chunks == []
      ensures r != null ==> bytes <= r.capacity < bytes + MEMORY_ALIGN && r.capacity % MEMORY_ALIGN == 0
      ensures a.outstanding == old(a.outstanding) + if r != null then 2 else 0
      ensures a.failed == old(a.failed) + if st == NO_MEMORY then 1 else 0
      ensures r == null ==> a.books.granted == old(a.books.granted)
      ensures r != null ==> HoldsBesides(a.books.granted, r.handle, r.block, old(a.books.granted))
      ensures r != null ==> r.handle != r.block && Grants(a.books, r.block, r.capacity)
      ensures r != null ==> Grants(a.books, r.handle, HANDLE_SIZE)
    {
      r := null;
      var aligned := AlignUpOverflow(bytes);
      if aligned.Overflow? {
        return OVERFLOW, null;
      }
      var handle := a.Alloc(HANDLE_SIZE);
      if handle.Null? {
        return NO_MEMORY, null;
      }
      var block := a.Alloc(aligned.value);
      if block.Null? {
        Undone(old(a.books.granted), handle.at, HANDLE_SIZE);
        a.Dealloc(handle);
        return NO_MEMORY, null;
      }
      r := new Arena(aligned.value, handle.at, block.at);
      st := OK;
    }

    /** `k4c_arena_destroy` */
    method Destroy(a: Allocator)
      requires a.outstanding >= 2
      modifies a`deallocCount, a`outstanding, a`books
      ensures a.outstanding == old(a.outstanding) - 2
      ensures a.books.granted == old(a.books.granted) - {block, handle}
    {
      a.Dealloc(Ptr(block));
      a.Dealloc(Ptr(handle));
    }

    /**
     `k4c_arena_vtable_realloc` for the chunk at `p` with payload `size`; a request that aligns to
     less is a caller's error. The old chunk is not given back.
     */
    method Resize(p: Pointer, size: SizeT, request: SizeT) returns (q: Pointer)
      requires Valid() && (p.Null? ==> request > 0)
      requires p.Ptr? ==> Holds(State(), p.at, size) && (request > 0 ==> NoShrink(size, request))
      modifies this`offset, this`sizeAt, this`chunks, buffer
      ensures Valid()
      ensures Taken(State(), q) == if p.Null? then Take(old(State()), capacity, request)
                                   else Retake(old(State()), capacity, p.at, size, request)
      ensures p.Null? ==> Bumped(old(State()), capacity, request, Taken(State(), q))
      ensures p.Ptr? ==> Rechunked(old(State()), capacity, p.at, size, request, Taken(State(), q))
      ensures Kept(old(chunks), old(buffer[..]), buffer[..])
      ensures p.Ptr? && q.Ptr? ==> p.at + size <= capacity && q.at + size <= capacity
                                   && buffer[q.at..q.at + size] == old(buffer[p.at..p.at + size])
    {
      if p.Null? {
        q := Alloc(request);
        return;
      }
      Located(p.at, size);
      RetakeExactly(State(), capacity, p.at, size, size, request);
      q := ResizeChunk(p.at, size, request);
    }

    method ResizeChunk(p: nat, size: SizeT, request: SizeT) returns (q: Pointer)
      requires Valid() && Holds(State(), p, size) && (request > 0 ==> NoShrink(size, request))
      modifies this`offset, this`sizeAt, this`chunks, buffer
      ensures Valid() && Taken(State(), q) == Retake(old(State()), capacity, p, size, request)
      ensures Kept(old(chunks), old(buffer[..]), buffer[..])
      ensures q.Ptr? ==> p + size <= capacity && q.at + size <= capacity
                         && buffer[q.at..q.at + size] == old(buffer[p..p + size])
    {
      Located(p, size);
      if request == 0 {
        return Null;
      }
      var aligned := AlignUpOverflow(request);
      if aligned.Overflow? {
        return Null;
      }
      var held := sizeAt[p - HEADER];
      if aligned.value == held {
        return Ptr(p);
      }
      AlignedUnchanged(aligned.value);
      q := Relocate(p, held, aligned.value);
    }

    /** A larger chunk behind everything else, with the payload of the old one copied into it. */
    method Relocate(p: nat, held: SizeT, size: SizeT) returns (q: Pointer)
      requires Valid() && Holds(State(), p, held) && held < size && AlignUpOverflow(size) == Value(size)
      modifies this`offset, this`sizeAt, this`chunks, buffer
      ensures Valid() && Taken(State(), q) == Take(old(State()), capacity, size)
      ensures Kept(old(chunks), old(buffer[..]), buffer[..])
      ensures p + held <= capacity
      ensures q.Ptr? ==> q.at + held <= capacity && buffer[q.at..q.at + held] == old(buffer[p..p + held])
    {
      ghost var start, c := buffer[..], Chunk(p - HEADER, held);
      NewOffset(chunks, offset);
      assert c.End() <= offset;
      q := Alloc(size);
      if q.Ptr? {
        ghost var middle := buffer[..];
        CopyBehind(q.at, p, held);
        MovedBehind(old(chunks), c, start, middle, buffer[..], q.at);
      }
    }

    lemma Located(p: nat, size: nat)
      requires Valid() && Holds(State(), p, size)
      ensures p + size <= offset && p - HEADER in sizeAt && sizeAt[p - HEADER] == size
      ensures size > 0 && AlignUpOverflow(size) == Value(size)
    {
      var i :| 0 <= i < |chunks| && chunks[i] == Chunk(p - HEADER, size);
      PackedApart(chunks, offset, i, i);
      ChunkAligned(chunks, offset, i);
      AlignedUnchanged(size);
    }

    /** `memcpy` to a payload behind everything else. */
    method CopyBehind(dst: nat, src: nat, n: nat)
      requires src + n <= dst && dst + n <= buffer.Length
      modifies buffer
      ensures buffer[dst..dst + n] == old(buffer[src..src + n])
      ensures forall k :: 0 <= k < dst ==> buffer[k] == old(buffer[k])
    {
      for j := 0 to n
        invariant forall k :: dst <= k < dst + j ==> buffer[k] == old(buffer[k - dst + src])
        invariant forall k :: 0 <= k < dst ==> buffer[k] == old(buffer[k])
      {
        buffer[dst + j] := buffer[src + j];
      }
    }

    /** `k4c_arena_reset` */
    method Reset()
      requires Valid()
      modifies this`offset, this`chunks
      ensures Valid() && chunks == [] && offset == 0
    {
      offset, chunks := 0, [];
    }
  }

  // A copy behind all chunks keeps them, and carries the payload of `c` over.
  lemma MovedBehind(cs: seq<Chunk>, c: Chunk, before: seq<bv8>, middle: seq<bv8>, after: seq<bv8>, q: nat)
    requires Kept(cs, before, middle) && |after| == |middle| && c in cs && q + c.size <= |middle|
    requires forall k :: 0 <= k < q ==> after[k] == middle[k]
    requires c.End() <= q && forall d :: d in cs ==> d.End() <= q
    requires after[q..q + c.size] == middle[c.Payload()..c.End()]
    ensures Kept(cs, before, after) && after[q..q + c.size] == before[c.Payload()..c.End()]
  {
  }
}
