/**
 The allocator handle that containers are given (lib/mem/allocator.c). Behind it stands either the
 counting allocator over `malloc`, which may refuse any request (lib/mem/test_allocator.c), or an
 arena (lib/mem/arena.c).
 */
module Allocators {
  import opened Sizes
  import opened ArenaChunks

  const NO_FAILURE: SizeT := SIZE_MAX

  // The blocks the client holds, each with the bytes it last asked for. `malloc` gives addresses from `top` on.
  datatype Ledger =
    | Malloc(top: nat, granted: map<nat, SizeT>)
    | Bump(capacity: nat, pool: Pool, granted: map<nat, SizeT>)

  // Each block of an arena's client is a chunk of the aligned size.
  ghost predicate LedgerOk(l: Ledger)
  {
    match l
    case Malloc(top, granted) => forall b {:trigger Given(top, b, granted[b])} :: b in granted ==>
        Given(top, b, granted[b])
    case Bump(capacity, pool, granted) =>
      && capacity <= MAX_OBJECT && PoolOk(pool, capacity)
      && forall b {:trigger IsChunk(pool, b, granted[b])} :: b in granted ==> IsChunk(pool, b, granted[b])
  }

  predicate Given(top: nat, b: nat, bytes: SizeT)
  {
    b < top && bytes <= MAX_OBJECT
  }

  ghost predicate IsChunk(pool: Pool, b: nat, bytes: SizeT)
  {
    AlignUpOverflow(bytes).Value? && Holds(pool, b, AlignUpOverflow(bytes).value)
  }

  type Books = l: Ledger | LedgerOk(l) witness Malloc(0, map[])

  // `block` is the client's and holds `bytes` bytes.
  ghost predicate Grants(l: Ledger, block: nat, bytes: nat)
  {
    block in l.granted && l.granted[block] == bytes
  }

  // Still `malloc`, or still the same arena.
  ghost predicate SameBacking(before: Ledger, after: Ledger)
  {
    before.Bump? == after.Bump? && (before.Bump? ==> before.capacity == after.capacity)
  }

  // Apart from `block`, which became `block'`, the client holds what it held.
  ghost predicate OthersKept(before: Ledger, block: nat, after: Ledger, block': nat)
  {
    && SameBacking(before, after)
    && before.granted - {block} == after.granted - {block'}
    && (block' == block || block' !in before.granted)
  }

  // A client's blocks are `block`, `handle` and `others`.
  ghost predicate HoldsBesides(granted: map<nat, SizeT>, handle: nat, block: nat, others: map<nat, SizeT>)
  {
    granted - {handle, block} == others && handle !in others && block !in others
  }

  lemma BesidesKept(before: Ledger, handle: nat, block: nat, after: Ledger, block': nat, others: map<nat, SizeT>)
    requires HoldsBesides(before.granted, handle, block, others) && OthersKept(before, block, after, block')
    requires handle in before.granted && handle != block
    ensures HoldsBesides(after.granted, handle, block', others)
  {
    assert handle in before.granted - {block};
    assert before.granted - {handle, block} == (before.granted - {block}) - {handle};
    assert after.granted - {handle, block'} == (after.granted - {block'}) - {handle};
  }

  lemma OtherKept(before: Ledger, block: nat, after: Ledger, block': nat, b: nat)
    requires OthersKept(before, block, after, block') && b in before.granted && b != block
    ensures b != block' && Grants(after, b, before.granted[b])
  {
    assert b in before.granted - {block} && (before.granted - {block})[b] == before.granted[b];
    assert b in after.granted - {block'};
  }

  // A block taken in place of another, which is then given back.
  lemma ReplacedKept(before: Ledger, block: nat, after: Ledger, block': nat, bytes: SizeT)
    requires block in before.granted && block' !in before.granted && SameBacking(before, after)
    requires after.granted == before.granted[block' := bytes] - {block}
    ensures OthersKept(before, block, after, block') && block' in after.granted
  {
  }

  lemma Undone(granted: map<nat, SizeT>, p: nat, bytes: SizeT)
    requires p !in granted
    ensures granted[p := bytes] - {p} == granted
  {
  }

  // A scratch block taken and given back.
  lemma ScratchBesides(granted: map<nat, SizeT>, handle: nat, block: nat, others: map<nat, SizeT>, p: nat, bytes: SizeT)
    requires handle in granted && block in granted && p !in granted
    requires HoldsBesides(granted, handle, block, others)
    ensures HoldsBesides(granted[p := bytes], handle, block, others[p := bytes])
    ensures p !in others && others[p := bytes] - {p} == others
  {
  }

  lemma ScratchReturned(granted: map<nat, SizeT>, handle: nat, block: nat, others: map<nat, SizeT>, p: nat)
    requires HoldsBesides(granted, handle, block, others) && p != handle && p != block
    ensures HoldsBesides(granted - {p}, handle, block, others - {p})
  {
  }

  /** How many operations of a run were refused memory. */
  function Refusals(sts: seq<Status>): nat
  {
    if sts == [] then 0 else Refusals(sts[..|sts| - 1]) + if sts[|sts| - 1] == NO_MEMORY then 1 else 0
  }

  lemma RefusalsSnoc(sts: seq<Status>, st: Status)
    ensures Refusals(sts + [st]) == Refusals(sts) + if st == NO_MEMORY then 1 else 0
  {
    assert (sts + [st])[..|sts|] == sts;
  }

  lemma {:induction false} NoRefusal(sts: seq<Status>)
    requires Refusals(sts) == 0
    ensures NO_MEMORY !in sts
  {
    if sts != [] {
      NoRefusal(sts[..|sts| - 1]);
    }
  }

  function Malloced(top: nat, granted: map<nat, SizeT>, bytes: SizeT): Ledger
  {
    Malloc(top + bytes + 1, granted[top := bytes])
  }

  lemma BumpAllocOk(l: Books, bytes: SizeT)
    requires l.Bump? && bytes > 0
    ensures var t := Take(l.pool, l.capacity, bytes);
            && LedgerOk(Bump(l.capacity, t.pool, if t.result.Ptr? then l.granted[t.result.at := bytes] else l.granted))
            && (t.result.Ptr? ==> t.result.at !in l.granted)
  {
    TakeOk(l.pool, l.capacity, bytes);
    var t := Take(l.pool, l.capacity, bytes);
    KeptChunks(l, t.pool);
    if t.result.Ptr? {
      NotGranted(l, t.result.at);
    }
  }

  // The size of the chunk that is the client's block `p`.
  function ChunkSize(l: Books, p: nat): SizeT
    requires l.Bump? && p in l.granted
    ensures Holds(l.pool, p, ChunkSize(l, p))
  {
    assert IsChunk(l.pool, p, l.granted[p]);
    AlignUpOverflow(l.granted[p]).value
  }

  // The assertion of the arena's resize fails: it is asked for less than the chunk.
  predicate ResizeTrips(l: Books, p: nat, bytes: SizeT)
    requires p in l.granted
  {
    l.Bump? && bytes > 0 && !NoShrink(ChunkSize(l, p), bytes)
  }

  /** A client that only ever asks for more than it holds never trips the assertion. */
  lemma GrowthNeverTrips(l: Books, p: nat, bytes: SizeT)
    requires p in l.granted && l.granted[p] <= bytes
    ensures !ResizeTrips(l, p, bytes)
    ensures !Shrinks(l, p, bytes)
  {
    if l.Bump? {
      assert IsChunk(l.pool, p, l.granted[p]);
      GrowthMeetsNoShrink(l.granted[p], bytes);
    }
  }

  // A smaller multiple of the alignment than the block's own holds the request.
  ghost predicate Shrinks(l: Ledger, p: nat, bytes: nat)
    requires p in l.granted
  {
    l.Bump? && bytes > 0 && exists m: nat :: Multiple(m) && bytes <= m < l.granted[p]
  }

  /** Over an arena, that is when a smaller multiple of the alignment holds the request; else the answer is exact. */
  lemma BumpResizeExactly(l: Books, p: nat, bytes: SizeT)
    requires p in l.granted
    ensures ResizeTrips(l, p, bytes) <==> Shrinks(l, p, bytes)
    ensures l.Bump? && !ResizeTrips(l, p, bytes) ==>
              Rechunked(l.pool, l.capacity, p, l.granted[p], bytes, Rebumped(l, p, bytes))
  {
    if l.Bump? {
      assert IsChunk(l.pool, p, l.granted[p]);
      ShrinkExactly(l.granted[p], bytes);
      if !ResizeTrips(l, p, bytes) {
        RetakeExactly(l.pool, l.capacity, p, ChunkSize(l, p), l.granted[p], bytes);
      }
    }
  }

  function Rebumped(l: Books, p: nat, bytes: SizeT): Taken
    requires l.Bump? && p in l.granted && !ResizeTrips(l, p, bytes)
  {
    Retake(l.pool, l.capacity, p, ChunkSize(l, p), bytes)
  }

  function Regranted(l: Ledger, p: nat, t: Taken, bytes: SizeT): Ledger
    requires l.Bump?
  {
    Bump(l.capacity, t.pool, if t.result.Ptr? then (l.granted - {p})[t.result.at := bytes] else l.granted)
  }

  lemma BumpResizeOk(l: Books, p: nat, bytes: SizeT)
    requires l.Bump? && p in l.granted && bytes > 0 && !ResizeTrips(l, p, bytes)
    ensures var t := Rebumped(l, p, bytes);
            var after := Regranted(l, p, t, bytes);
            && LedgerOk(after)
            && (t.result.Ptr? ==> Grants(after, t.result.at, bytes) && OthersKept(l, p, after, t.result.at))
  {
    var t, size := Rebumped(l, p, bytes), ChunkSize(l, p);
    if AlignUpOverflow(bytes).Value? && AlignUpOverflow(bytes).value == size {
      KeptChunks(l, l.pool);
      RegrantOk(l, p, l.pool, p, bytes);
    } else {
      TakeOk(l.pool, l.capacity, bytes);
      KeptChunks(l, t.pool);
      if t.result.Ptr? {
        NotGranted(l, t.result.at);
        RegrantOk(l, p, t.pool, t.result.at, bytes);
      }
    }
  }

  lemma KeptChunks(l: Books, pool: Pool)
    requires l.Bump? && l.pool.chunks <= pool.chunks
    ensures forall b :: b in l.granted ==> IsChunk(pool, b, l.granted[b])
  {
    forall b | b in l.granted ensures IsChunk(pool, b, l.granted[b]) {
      assert IsChunk(l.pool, b, l.granted[b]);
    }
  }

  // A payload behind all chunks is not one of them.
  lemma NotGranted(l: Books, q: nat)
    requires l.Bump? && forall p: nat, size: nat :: Holds(l.pool, p, size) ==> p < q
    ensures q !in l.granted
  {
    forall b | b in l.granted ensures b < q {
      assert Holds(l.pool, b, ChunkSize(l, b));
    }
  }

  lemma RegrantOk(l: Books, p: nat, pool: Pool, q: nat, bytes: SizeT)
    requires l.Bump? && p in l.granted && PoolOk(pool, l.capacity) && IsChunk(pool, q, bytes)
    requires forall b :: b in l.granted ==> IsChunk(pool, b, l.granted[b])
    requires q == p || q !in l.granted
    ensures var after := Bump(l.capacity, pool, (l.granted - {p})[q := bytes]);
            LedgerOk(after) && Grants(after, q, bytes) && OthersKept(l, p, after, q)
  {
  }

  lemma BelowTop(l: Books)
    requires l.Malloc?
    ensures forall b :: b in l.granted ==> b < l.top && l.granted[b] <= MAX_OBJECT
  {
    forall b | b in l.granted ensures b < l.top && l.granted[b] <= MAX_OBJECT {
      assert Given(l.top, b, l.granted[b]);
    }
  }

  lemma MallocOk(l: Books, bytes: SizeT)
    requires l.Malloc? && bytes <= MAX_OBJECT
    ensures l.top !in l.granted && LedgerOk(Malloced(l.top, l.granted, bytes))
  {
    BelowTop(l);
  }

  lemma ReallocOk(l: Books, p: nat, bytes: SizeT)
    requires l.Malloc? && p in l.granted && bytes <= MAX_OBJECT
    ensures l.top !in l.granted && LedgerOk(Malloced(l.top, l.granted - {p}, bytes))
    ensures LedgerOk(Malloc(l.top, l.granted[p := bytes]))
    ensures OthersKept(l, p, Malloced(l.top, l.granted - {p}, bytes), l.top)
    ensures OthersKept(l, p, Malloc(l.top, l.granted[p := bytes]), p)
  {
    BelowTop(l);
  }

  /** No block is larger than an object may be. */
  lemma GrantedBound(l: Books, b: nat)
    requires b in l.granted
    ensures l.granted[b] <= MAX_OBJECT
  {
    match l
    case Malloc(_, _) => BelowTop(l);
    case Bump(capacity, pool, granted) =>
      assert IsChunk(pool, b, granted[b]);
      NewOffset(pool.chunks, pool.offset);
  }

  class Allocator {
    var allocCount: nat
    var reallocCount: nat
    var deallocCount: nat
    var outstanding: nat
    var failed: nat
    var failAfter: SizeT
    var books: Books
    var tripped: bool    // an assertion of the arena has failed

    constructor ()
      ensures allocCount == reallocCount == deallocCount == outstanding == failed == 0
      ensures failAfter == NO_FAILURE && books == Malloc(0, map[]) && !tripped
    {
      allocCount, reallocCount, deallocCount, outstanding, failed := 0, 0, 0, 0, 0;
      failAfter, books, tripped := NO_FAILURE, Malloc(0, map[]), false;
    }

    /** `k4c_arena_allocator_view` of an arena that is empty or was just reset. */
    constructor OverArena(capacity: SizeT)
      requires capacity <= MAX_OBJECT
      ensures books == Bump(capacity, Pool([], 0), map[]) && !tripped && outstanding == failed == 0
    {
      allocCount, reallocCount, deallocCount, outstanding, failed := 0, 0, 0, 0, 0;
      failAfter, books, tripped := NO_FAILURE, Bump(capacity, Pool([], 0), map[]), false;
    }

    method ShouldFail() returns (fail: bool)
      modifies this`failed, this`failAfter
      ensures fail <==> old(failAfter) == 0
      ensures failed == old(failed) + if fail then 1 else 0
      ensures failAfter == if old(failAfter) == NO_FAILURE || fail then old(failAfter) else old(failAfter) - 1
    {
      if failAfter == NO_FAILURE {
        return false;
      }
      if failAfter == 0 {
        failed := failed + 1;
        return true;
      }
      failAfter := failAfter - 1;
      return false;
    }

    /** `k4c_alloc` */
    method Alloc(bytes: SizeT) returns (p: Pointer)
      modifies this
      ensures p.Ptr? ==> p.at !in old(books).granted && books.granted == old(books).granted[p.at := bytes]
      ensures p.Null? ==> books.granted == old(books).granted
      ensures bytes > 0 ==> tripped == old(tripped)
      ensures outstanding == old(outstanding) + if p.Ptr? then 1 else 0
      ensures failed == old(failed) + if p.Ptr? then 0 else 1
      ensures SameBacking(old(books), books)
    {
      p := AllocEntry(bytes);
    }

    /** The `alloc` entry of the handle's table. */
    method AllocEntry(bytes: SizeT) returns (p: Pointer)
      modifies this
      ensures old(books).Malloc? && old(failAfter) == 0 ==> p.Null?
      ensures old(books).Bump? && bytes > 0 ==>
                books.Bump? && Taken(books.pool, p) == Take(old(books).pool, old(books).capacity, bytes)
      ensures old(books).Bump? && bytes > 0 ==>
                books.Bump? && Bumped(old(books).pool, old(books).capacity, bytes, Taken(books.pool, p))
      ensures p.Ptr? ==> p.at !in old(books).granted && books.granted == old(books).granted[p.at := bytes]
      ensures p.Null? ==> books.granted == old(books).granted
      ensures tripped == (old(tripped) || (old(books).Bump? && bytes == 0))
      ensures failAfter == if old(books).Malloc? && 0 < old(failAfter) < NO_FAILURE then old(failAfter) - 1
                           else old(failAfter)
      ensures allocCount == old(allocCount) + if p.Ptr? then 1 else 0
      ensures outstanding == old(outstanding) + if p.Ptr? then 1 else 0
      ensures failed == old(failed) + if p.Ptr? then 0 else 1
      ensures reallocCount == old(reallocCount) && deallocCount == old(deallocCount)
      ensures SameBacking(old(books), books)
    {
      if books.Malloc? {
        p := AllocMalloc(bytes);
      } else {
        p := AllocBump(bytes);
      }
      if p.Ptr? {
        allocCount := allocCount + 1;
        outstanding := outstanding + 1;
      }
    }

    /** `k4c_test_allocator_alloc`, up to the counting of success */
    method AllocMalloc(bytes: SizeT) returns (p: Pointer)
      requires books.Malloc?
      modifies this`books, this`failed, this`failAfter
      ensures old(failAfter) == 0 ==> p.Null?
      ensures failAfter == if 0 < old(failAfter) < NO_FAILURE then old(failAfter) - 1 else old(failAfter)
      ensures failed == old(failed) + if p.Ptr? then 0 else 1
      ensures p.Ptr? ==> p.at !in old(books).granted && books.granted == old(books).granted[p.at := bytes]
      ensures p.Null? ==> books == old(books)
      ensures books.Malloc?
    {
      var fail := ShouldFail();
      if fail {
        return Null;
      }
      fail := *;  // malloc
      if fail || bytes > MAX_OBJECT {
        failed := failed + 1;
        return Null;
      }
      MallocOk(books, bytes);
      p := Ptr(books.top);
      books := Malloced(books.top, books.granted, bytes);
    }

    method AllocBump(bytes: SizeT) returns (p: Pointer)
      requires books.Bump?
      modifies this`books, this`failed, this`tripped
      ensures tripped == (old(tripped) || bytes == 0)
      ensures failed == old(failed) + if p.Ptr? then 0 else 1
      ensures SameBacking(old(books), books)
      ensures bytes > 0 ==>
                books.Bump? && Taken(books.pool, p) == Take(old(books).pool, old(books).capacity, bytes)
      ensures bytes > 0 ==>
                books.Bump? && Bumped(old(books).pool, old(books).capacity, bytes, Taken(books.pool, p))
      ensures p.Ptr? ==> p.at !in old(books).granted && books.granted == old(books).granted[p.at := bytes]
      ensures p.Null? ==> books.granted == old(books).granted
    {
      if bytes == 0 {
        tripped, failed := true, failed + 1;
        return Null;
      }
      BumpAllocOk(books, bytes);
      TakeExactly(books.pool, books.capacity, bytes);
      var t := Take(books.pool, books.capacity, bytes);
      p := t.result;
      books := Bump(books.capacity, t.pool, if p.Ptr? then books.granted[p.at := bytes] else books.granted);
      if p.Null? {
        failed := failed + 1;
      }
    }

    /** The `resize` entry of the handle's table, for a null pointer or a block the client holds. */
    method ResizeEntry(p: Pointer, bytes: SizeT) returns (q: Pointer)
      requires p.Ptr? ==> p.at in books.granted
      modifies this
      ensures old(books).Malloc? && old(failAfter) == 0 ==> q.Null?
      ensures old(books).Bump? && p.Ptr? && !Shrinks(old(books), p.at, bytes) ==>
                books.Bump? && Rechunked(old(books).pool, old(books).capacity, p.at, old(books).granted[p.at], bytes,
                                         Taken(books.pool, q))
      ensures q.Ptr? && p.Ptr? ==> Grants(books, q.at, bytes) && OthersKept(old(books), p.at, books, q.at)
      ensures q.Ptr? && p.Null? ==> q.at !in old(books).granted && books.granted == old(books).granted[q.at := bytes]
      ensures q.Null? ==>
                books.granted ==
                if p.Ptr? && bytes == 0 && old(books).Malloc? then old(books).granted - {p.at} else old(books).granted
      ensures p.Ptr? && bytes == 0 ==> q.Null?
      ensures p.Ptr? && Shrinks(old(books), p.at, bytes) ==> q.Null? && books == old(books)
      ensures p.Ptr? ==> tripped == (old(tripped) || Shrinks(old(books), p.at, bytes))
      ensures p.Null? ==> tripped == (old(tripped) || (old(books).Bump? && bytes == 0))
      ensures failAfter == if old(books).Malloc? && 0 < old(failAfter) < NO_FAILURE && (p.Null? || bytes > 0)
                           then old(failAfter) - 1 else old(failAfter)
      ensures p.Ptr? && bytes > 0 ==> outstanding == old(outstanding)
      ensures p.Null? ==> outstanding == old(outstanding) + if q.Ptr? then 1 else 0
      ensures failed == old(failed) + if q.Null? && (p.Null? || bytes > 0) then 1 else 0
      ensures reallocCount == old(reallocCount) + if q.Ptr? && p.Ptr? then 1 else 0
      ensures allocCount == old(allocCount) + if q.Ptr? && p.Null? then 1 else 0
      ensures SameBacking(old(books), books)
    {
      if p.Null? {
        q := AllocEntry(bytes);
      } else if books.Bump? {
        q := ResizeBump(p.at, bytes);
      } else if bytes == 0 {
        Dealloc(p);
        q := Null;
      } else {
        q := ResizeMalloc(p.at, bytes);
      }
    }

    /** `k4c_test_allocator_realloc` of a block to a positive size */
    method ResizeMalloc(p: nat, bytes: SizeT) returns (q: Pointer)
      requires books.Malloc? && p in books.granted && bytes > 0
      modifies this`books, this`failed, this`failAfter, this`reallocCount
      ensures old(failAfter) == 0 ==> q.Null?
      ensures failAfter == if 0 < old(failAfter) < NO_FAILURE then old(failAfter) - 1 else old(failAfter)
      ensures q.Ptr? ==> Grants(books, q.at, bytes) && OthersKept(old(books), p, books, q.at)
      ensures q.Null? ==> books == old(books)
      ensures failed == old(failed) + if q.Ptr? then 0 else 1
      ensures reallocCount == old(reallocCount) + if q.Ptr? then 1 else 0
    {
      var fail := ShouldFail();
      if fail {
        return Null;
      }
      fail := *;  // realloc
      if fail || bytes > MAX_OBJECT {
        failed := failed + 1;
        return Null;
      }
      ReallocOk(books, p, bytes);
      var moved: bool := *;
      q := if moved then Ptr(books.top) else Ptr(p);
      books := if moved then Malloced(books.top, books.granted - {p}, bytes)
               else Malloc(books.top, books.granted[p := bytes]);
      reallocCount := reallocCount + 1;
    }

    method ResizeBump(p: nat, bytes: SizeT) returns (q: Pointer)
      requires books.Bump? && p in books.granted
      modifies this`books, this`failed, this`reallocCount, this`tripped
      ensures books.Bump? && (Shrinks(old(books), p, bytes) ==> q.Null? && books == old(books))
      ensures !Shrinks(old(books), p, bytes) ==>
                Rechunked(old(books).pool, old(books).capacity, p, old(books).granted[p], bytes, Taken(books.pool, q))
      ensures q.Ptr? ==> bytes > 0 && Grants(books, q.at, bytes) && OthersKept(old(books), p, books, q.at)
      ensures q.Null? ==> books.granted == old(books).granted
      ensures tripped == (old(tripped) || Shrinks(old(books), p, bytes))
      ensures failed == old(failed) + if q.Null? && bytes > 0 then 1 else 0
      ensures reallocCount == old(reallocCount) + if q.Ptr? then 1 else 0
      ensures SameBacking(old(books), books)
    {
      BumpResizeExactly(books, p, bytes);
      if bytes == 0 {
        return Null;
      }
      if ResizeTrips(books, p, bytes) {
        tripped, failed := true, failed + 1;
        return Null;
      }
      BumpResizeOk(books, p, bytes);
      var t := Rebumped(books, p, bytes);
      q := t.result;
      books := Regranted(books, p, t, bytes);
      if q.Ptr? {
        reallocCount := reallocCount + 1;
      } else {
        failed := failed + 1;
      }
    }

    /** `k4c_resize` of a block the client holds; nothing becomes a null pointer. */
    method Resize(p: nat, bytes: SizeT) returns (ok: bool, q: Pointer)
      requires p in books.granted
      modifies this
      ensures bytes > 0 ==> ok == q.Ptr? && outstanding == old(outstanding)
      ensures failed == old(failed) + if ok then 0 else 1
      ensures SameBacking(old(books), books)
      ensures bytes > 0 ==> tripped == (old(tripped) || Shrinks(old(books), p, bytes))
      ensures q.Ptr? ==> Grants(books, q.at, bytes) && OthersKept(old(books), p, books, q.at)
      ensures q.Null? ==> books.granted == if bytes == 0 then old(books.granted) - {p} else old(books.granted)
      ensures bytes == 0 ==> ok && q.Null? && tripped == old(tripped)
    {
      if bytes == 0 {
        Dealloc(Ptr(p));
        return true, Null;
      }
      q := ResizeEntry(Ptr(p), bytes);
      ok := q.Ptr?;
    }

    /** `k4c_dealloc`, which never reaches an arena. */
    method Dealloc(p: Pointer)
      modifies this`deallocCount, this`outstanding, this`books
      ensures deallocCount == old(deallocCount) + if p.Ptr? then 1 else 0
      ensures outstanding == old(outstanding) - if p.Ptr? && old(outstanding) > 0 then 1 else 0
      ensures books.granted == if p.Ptr? then old(books).granted - {p.at} else old(books).granted
      ensures SameBacking(old(books), books)
    {
      if p.Null? {
        return;
      }
      deallocCount := deallocCount + 1;
      if outstanding > 0 {
        outstanding := outstanding - 1;
      }
      books := books.(granted := books.granted - {p.at});
    }
  }
}
