/**
 The block list of the free-list allocator (lib/mem/general_heap.c) as a value: what each
 operation does to the sequence of blocks, and what every run of operations keeps.
 A pointer is an offset into the buffer.
 */
module HeapBlocks {
  import opened Sizes

  // `sizeof(k4c_heap_block)` on LP64, a multiple of the alignment.
  const HEADER: nat := 32

  datatype Block = Block(off: nat, size: nat, free: bool) {
    function Payload(): nat { off + HEADER }
    function End(): nat { off + HEADER + size }
  }

  datatype Outcome = Outcome(blocks: seq<Block>, result: Pointer)

  datatype Op = Alloc(size: SizeT) | Free(p: nat) | Resize(ptr: Pointer, newSize: SizeT)

  // ---------- invariant ----------

  predicate Tiles(bs: seq<Block>, capacity: nat)
  {
    && |bs| > 0
    && bs[0].off == 0
    && bs[|bs| - 1].End() == capacity
    && (forall i :: 0 <= i < |bs| ==> bs[i].off % MEMORY_ALIGN == 0)
    && (forall i :: 0 <= i < |bs| ==> bs[i].size > 0 && bs[i].size % MEMORY_ALIGN == 0)
    && (forall i, j :: 0 <= i < |bs| && j == i + 1 && j < |bs| ==> bs[j].off == bs[i].End())
  }

  function Initial(capacity: nat): seq<Block>
    requires capacity > HEADER
  {
    [Block(0, capacity - HEADER, true)]
  }

  // ---------- operations ----------

  /** `k4c_heap_split_block` */
  function Split(bs: seq<Block>, i: nat, size: nat): seq<Block>
    requires i < |bs| && size <= bs[i].size
  {
    if Splits(bs[i].size, size) then Splice(bs, i, 1, [bs[i].(size := size), Remainder(bs[i], size)])
    else bs
  }

  /** `bs` with the `n` blocks from `i` on replaced by `mid`. */
  function Splice(bs: seq<Block>, i: nat, n: nat, mid: seq<Block>): (r: seq<Block>)
    requires i + n <= |bs|
    ensures |r| == |bs| - n + |mid|
  {
    if i == 0 then mid + bs[n..] else [bs[0]] + Splice(bs[1..], i - 1, n, mid)
  }

  lemma {:induction false} SpliceIs(bs: seq<Block>, i: nat, n: nat, mid: seq<Block>)
    requires i + n <= |bs|
    ensures Splice(bs, i, n, mid) == bs[..i] + mid + bs[i + n..]
  {
    if i > 0 {
      SpliceIs(bs[1..], i - 1, n, mid);
      assert bs[..i] == [bs[0]] + bs[1..][..i - 1];
      assert bs[1..][i - 1 + n..] == bs[i + n..];
    }
  }

  predicate Splits(have: nat, size: nat)
  {
    have > size + HEADER + MEMORY_ALIGN
  }

  function Remainder(b: Block, size: nat): Block
    requires Splits(b.size, size)
  {
    Block(b.off + HEADER + size, b.size - size - HEADER, true)
  }

  /** Block `i` takes over its successor, header included. */
  function Merge(bs: seq<Block>, i: nat): (r: seq<Block>)
    requires i + 1 < |bs|
    ensures |r| == |bs| - 1 && r[i] == Joined(bs[i], bs[i + 1])
  {
    SpliceIs(bs, i, 2, [Joined(bs[i], bs[i + 1])]);
    Splice(bs, i, 2, [Joined(bs[i], bs[i + 1])])
  }

  function Joined(b: Block, next: Block): Block
  {
    b.(size := b.size + HEADER + next.size)
  }

  function MergeIfNextFree(bs: seq<Block>, i: nat): seq<Block>
    requires i < |bs|
  {
    if i + 1 < |bs| && bs[i + 1].free then Merge(bs, i) else bs
  }

  function MergeIfPrevFree(bs: seq<Block>, i: nat): seq<Block>
    requires i < |bs|
  {
    if i > 0 && bs[i - 1].free then Merge(bs, i - 1) else bs
  }

  /** `k4c_heap_coalesce`: first with the next block, then with the previous one. */
  function Coalesce(bs: seq<Block>, i: nat): seq<Block>
    requires i < |bs|
  {
    MergeIfPrevFree(MergeIfNextFree(bs, i), i)
  }

  predicate Fits(b: Block, size: nat)
  {
    b.free && b.size >= size
  }

  /** Index of the first free block that holds `size` bytes, or `|bs|`. */
  function FirstFit(bs: seq<Block>, size: nat): (i: nat)
    ensures i <= |bs|
    ensures i < |bs| ==> Fits(bs[i], size)
    ensures forall j :: 0 <= j < i ==> !Fits(bs[j], size)
  {
    if bs == [] then 0
    else if Fits(bs[0], size) then 0
    else 1 + FirstFit(bs[1..], size)
  }

  /** First fit for a request that is already aligned. */
  function Place(bs: seq<Block>, size: nat): Outcome
  {
    var i := FirstFit(bs, size);
    if i == |bs| then Outcome(bs, Null) else Taken(bs, i, size)
  }

  function Taken(bs: seq<Block>, i: nat, size: nat): Outcome
    requires i < |bs| && Fits(bs[i], size)
  {
    var split := Split(bs, i, size);
    Outcome(split[i := split[i].(free := false)], Ptr(bs[i].Payload()))
  }

  /** `k4c_heap_vtable_alloc` */
  function AllocBlock(bs: seq<Block>, size: SizeT): Outcome
  {
    match AlignUpOverflow(size)
    case Overflow => Outcome(bs, Null)
    case Value(aligned) => Place(bs, aligned)
  }

  predicate LiveAt(bs: seq<Block>, i: nat, p: nat)
  {
    i < |bs| && !bs[i].free && bs[i].Payload() == p
  }

  ghost predicate IsLive(bs: seq<Block>, p: nat)
  {
    exists i: nat :: LiveAt(bs, i, p)
  }

  /** Index of the block whose payload starts at `p`, or `|bs|`. */
  function BlockOf(bs: seq<Block>, p: nat): (i: nat)
    ensures i <= |bs|
    ensures i < |bs| ==> bs[i].Payload() == p
    ensures i == |bs| ==> forall j :: 0 <= j < |bs| ==> bs[j].Payload() != p
  {
    if bs == [] then 0
    else if bs[0].Payload() == p then 0
    else 1 + BlockOf(bs[1..], p)
  }

  /** `k4c_heap_vtable_dealloc` for a pointer that heads a block; any other pointer is ignored. */
  function FreeBlock(bs: seq<Block>, p: nat): seq<Block>
  {
    var i := BlockOf(bs, p);
    if i == |bs| then bs else Coalesce(bs[i := bs[i].(free := true)], i)
  }

  /** The three ways of `k4c_heap_vtable_realloc`, for an aligned size. */
  datatype Way = Shrink | Absorb | Move

  function ResizeWay(bs: seq<Block>, i: nat, size: nat): Way
    requires i < |bs|
  {
    if bs[i].size >= size then Shrink
    else if i + 1 < |bs| && bs[i + 1].free && bs[i].size + HEADER + bs[i + 1].size >= size then Absorb
    else Move
  }

  /** `k4c_heap_vtable_realloc` */
  function ResizeBlock(bs: seq<Block>, ptr: Pointer, size: SizeT): Outcome
  {
    if ptr.Null? then AllocBlock(bs, size)
    else if size == 0 then Outcome(FreeBlock(bs, ptr.at), Null)
    else
      var i := BlockOf(bs, ptr.at);
      match AlignUpOverflow(size)
      case Overflow => Outcome(bs, Null)
      case Value(aligned) =>
        if i == |bs| then Outcome(bs, Null)
        else ResizeTo(bs, i, aligned)
  }

  function ResizeTo(bs: seq<Block>, i: nat, size: nat): Outcome
    requires i < |bs|
  {
    var p := bs[i].Payload();
    match ResizeWay(bs, i, size)
    case Shrink => Outcome(Split(bs, i, size), Ptr(p))
    case Absorb => Outcome(Split(Merge(bs, i), i, size), Ptr(p))
    case Move => MoveBlock(bs, p, size)
  }

  function MoveBlock(bs: seq<Block>, p: nat, size: nat): Outcome
  {
    var placed := Place(bs, size);
    if placed.result.Null? then placed
    else Outcome(FreeBlock(placed.blocks, p), placed.result)
  }

  // ---------- shape of the list ----------

  lemma {:induction false} TilesOrdered(bs: seq<Block>, capacity: nat, i: nat, j: nat)
    requires Tiles(bs, capacity) && i <= j < |bs|
    ensures i < j ==> bs[i].End() <= bs[j].off
    ensures bs[i].End() <= bs[j].End() <= capacity
    decreases |bs| - i
  {
    if i < j {
      TilesOrdered(bs, capacity, i + 1, j);
    } else if i + 1 < |bs| {
      TilesOrdered(bs, capacity, i + 1, |bs| - 1);
    }
  }

  /** Payloads are aligned, inside the buffer, and disjoint from each other and from every header. */
  lemma PayloadsDisjoint(bs: seq<Block>, capacity: nat, i: nat, j: nat)
    requires Tiles(bs, capacity) && i < |bs| && j < |bs|
    ensures bs[i].Payload() % MEMORY_ALIGN == 0 && bs[i].Payload() < bs[i].End() <= capacity
    ensures i != j ==> bs[i].End() <= bs[j].off || bs[j].End() <= bs[i].off
  {
    TilesOrdered(bs, capacity, i, if i < j then j else i);
    if j < i {
      TilesOrdered(bs, capacity, j, i);
    }
  }

  /** `mid` covers the stretch from `from` to `to` with blocks of legal size. */
  predicate Covers(mid: seq<Block>, from: nat, to: nat)
  {
    && mid != [] && mid[0].off == from && mid[|mid| - 1].End() == to
    && (forall k :: 0 <= k < |mid| ==> mid[k].off % MEMORY_ALIGN == 0)
    && (forall k :: 0 <= k < |mid| ==> mid[k].size > 0 && mid[k].size % MEMORY_ALIGN == 0)
    && (forall k, l :: 0 <= k < |mid| && l == k + 1 && l < |mid| ==> mid[l].off == mid[k].End())
  }

  /** Blocks that cover the same stretch may replace each other. */
  lemma SpliceTiles(bs: seq<Block>, capacity: nat, i: nat, n: nat, mid: seq<Block>)
    requires Tiles(bs, capacity) && n > 0 && i + n <= |bs| && Covers(mid, bs[i].off, bs[i + n - 1].End())
    ensures Tiles(Splice(bs, i, n, mid), capacity)
  {
    SpliceIs(bs, i, n, mid);
    ReplacedTiles(bs, capacity, i, n, mid, Splice(bs, i, n, mid));
  }

  lemma ReplacedTiles(bs: seq<Block>, capacity: nat, i: nat, n: nat, mid: seq<Block>, r: seq<Block>)
    requires Tiles(bs, capacity) && n > 0 && i + n <= |bs| && Covers(mid, bs[i].off, bs[i + n - 1].End())
    requires r == bs[..i] + mid + bs[i + n..]
    ensures Tiles(r, capacity)
  {
    var m := |mid|;
    assert forall k :: 0 <= k < i ==> r[k] == bs[k];
    assert forall k :: i <= k < i + m ==> r[k] == mid[k - i];
    assert forall k :: i + m <= k < |r| ==> r[k] == bs[k - m + n];
    forall k | 0 <= k < |r|
      ensures r[k].off % MEMORY_ALIGN == 0 && r[k].size > 0 && r[k].size % MEMORY_ALIGN == 0
      ensures k + 1 < |r| ==> r[k + 1].off == r[k].End()
    {
    }
  }

  lemma SplitTiles(bs: seq<Block>, capacity: nat, i: nat, size: nat)
    requires Tiles(bs, capacity) && i < |bs| && 0 < size <= bs[i].size && size % MEMORY_ALIGN == 0
    ensures Tiles(Split(bs, i, size), capacity)
  {
    if Splits(bs[i].size, size) {
      SplitCovers(bs[i], size);
      SpliceTiles(bs, capacity, i, 1, [bs[i].(size := size), Remainder(bs[i], size)]);
    }
  }

  lemma SplitCovers(b: Block, size: nat)
    requires 0 < size && Splits(b.size, size) && b.off % MEMORY_ALIGN == 0
    requires b.size % MEMORY_ALIGN == 0 && size % MEMORY_ALIGN == 0
    ensures Covers([b.(size := size), Remainder(b, size)], b.off, b.End())
  {
    var kept, cut := b.(size := size), Remainder(b, size);
    assert cut.off == kept.End() && cut.off % MEMORY_ALIGN == 0 && cut.size % MEMORY_ALIGN == 0 && cut.End() == b.End();
  }

  lemma MergeTiles(bs: seq<Block>, capacity: nat, i: nat)
    requires Tiles(bs, capacity) && i + 1 < |bs|
    ensures Tiles(Merge(bs, i), capacity)
  {
    assert bs[i + 1].off == bs[i].End();
    SpliceTiles(bs, capacity, i, 2, [Joined(bs[i], bs[i + 1])]);
  }

  lemma CoalesceTiles(bs: seq<Block>, capacity: nat, i: nat)
    requires Tiles(bs, capacity) && i < |bs|
    ensures Tiles(Coalesce(bs, i), capacity)
  {
    var merged := MergeIfNextFree(bs, i);
    if merged != bs {
      MergeTiles(bs, capacity, i);
    }
    if i > 0 && merged[i - 1].free {
      MergeTiles(merged, capacity, i - 1);
    }
  }

  lemma PlaceTiles(bs: seq<Block>, capacity: nat, size: nat)
    requires Tiles(bs, capacity) && size > 0 && size % MEMORY_ALIGN == 0
    ensures Tiles(Place(bs, size).blocks, capacity)
  {
    var i := FirstFit(bs, size);
    if i < |bs| {
      SplitTiles(bs, capacity, i, size);
    }
  }

  lemma FreeTiles(bs: seq<Block>, capacity: nat, p: nat)
    requires Tiles(bs, capacity)
    ensures Tiles(FreeBlock(bs, p), capacity)
  {
    var i := BlockOf(bs, p);
    if i < |bs| {
      CoalesceTiles(bs[i := bs[i].(free := true)], capacity, i);
    }
  }

  lemma AllocTiles(bs: seq<Block>, capacity: nat, size: SizeT)
    requires Tiles(bs, capacity) && size > 0
    ensures Tiles(AllocBlock(bs, size).blocks, capacity)
  {
    var aligned := AlignUpOverflow(size);
    if aligned.Value? {
      PlaceTiles(bs, capacity, aligned.value);
    }
  }

  lemma ResizeTiles(bs: seq<Block>, capacity: nat, ptr: Pointer, size: SizeT)
    requires Tiles(bs, capacity) && (ptr.Null? ==> size > 0)
    ensures Tiles(ResizeBlock(bs, ptr, size).blocks, capacity)
  {
    if ptr.Null? {
      AllocTiles(bs, capacity, size);
    } else if size == 0 {
      FreeTiles(bs, capacity, ptr.at);
    } else {
      var i, aligned := BlockOf(bs, ptr.at), AlignUpOverflow(size);
      if i < |bs| && aligned.Value? {
        match ResizeWay(bs, i, aligned.value)
        case Shrink =>
          SplitTiles(bs, capacity, i, aligned.value);
        case Absorb =>
          MergeTiles(bs, capacity, i);
          SplitTiles(Merge(bs, i), capacity, i, aligned.value);
        case Move =>
          PlaceTiles(bs, capacity, aligned.value);
          FreeTiles(Place(bs, aligned.value).blocks, capacity, ptr.at);
      }
    }
  }

  // ---------- the set of live blocks ----------

  ghost function Used(bs: seq<Block>): set<Block>
  {
    set b | b in bs && !b.free
  }

  lemma {:induction false} BlockOfAt(bs: seq<Block>, capacity: nat, i: nat)
    requires Tiles(bs, capacity) && i < |bs|
    ensures BlockOf(bs, bs[i].Payload()) == i
  {
    var k := BlockOf(bs, bs[i].Payload());
    if k < i {
      TilesOrdered(bs, capacity, k, i);
    } else if i < k < |bs| {
      TilesOrdered(bs, capacity, i, k);
    }
  }

  lemma OffsetsDistinct(bs: seq<Block>, capacity: nat, i: nat)
    requires Tiles(bs, capacity) && i < |bs|
    ensures forall j :: 0 <= j < |bs| && j != i ==> bs[j].off != bs[i].off
  {
    forall j | 0 <= j < |bs| && j != i ensures bs[j].off != bs[i].off {
      PayloadsDisjoint(bs, capacity, i, j);
    }
  }

  lemma LiveBlockOf(bs: seq<Block>, capacity: nat, p: nat)
    requires Tiles(bs, capacity) && IsLive(bs, p)
    ensures LiveAt(bs, BlockOf(bs, p), p)
  {
    var i: nat :| LiveAt(bs, i, p);
    BlockOfAt(bs, capacity, i);
  }

  lemma MemberAt(bs: seq<Block>, capacity: nat, i: nat, b: Block)
    requires Tiles(bs, capacity) && i < |bs| && b in bs && b.off == bs[i].off
    ensures b == bs[i]
  {
    var k: nat :| k < |bs| && bs[k] == b;
    BlockOfAt(bs, capacity, k);
    BlockOfAt(bs, capacity, i);
  }

  lemma Pieces(bs: seq<Block>, capacity: nat, i: nat, n: nat, b: Block)
    requires Tiles(bs, capacity) && i + n <= |bs|
    ensures b in bs <==> b in bs[..i] || b in bs[i..i + n] || b in bs[i + n..]
    ensures b in bs[i..i + n] ==> b !in bs[..i] && b !in bs[i + n..]
  {
    assert bs == bs[..i] + bs[i..i + n] + bs[i + n..];
    if b in bs[i..i + n] {
      var k: nat :| i <= k < i + n && bs[k] == b;
      BlockOfAt(bs, capacity, k);
      if b in bs[..i] {
        var j: nat :| j < i && bs[j] == b;
        BlockOfAt(bs, capacity, j);
      }
      if b in bs[i + n..] {
        var j: nat :| i + n <= j < |bs| && bs[j] == b;
        BlockOfAt(bs, capacity, j);
      }
    }
  }

  /** Replacing the `n` blocks from `i` on by `mid` changes the live blocks by just that much. */
  lemma SpliceUsed(bs: seq<Block>, capacity: nat, i: nat, n: nat, mid: seq<Block>, r: seq<Block>)
    requires Tiles(bs, capacity) && i + n <= |bs| && r == bs[..i] + mid + bs[i + n..]
    ensures Used(r) == Used(bs) - Used(bs[i..i + n]) + Used(mid)
  {
    forall b: Block
      ensures b in Used(r) <==> b in Used(bs) - Used(bs[i..i + n]) + Used(mid)
    {
      Pieces(bs, capacity, i, n, b);
      assert b in r <==> b in bs[..i] || b in mid || b in bs[i + n..];
    }
  }

  // The blocks that are free.
  ghost function Unused(bs: seq<Block>): set<Block>
  {
    set b | b in bs && b.free
  }

  lemma SpliceUnused(bs: seq<Block>, capacity: nat, i: nat, n: nat, mid: seq<Block>, r: seq<Block>)
    requires Tiles(bs, capacity) && i + n <= |bs| && r == bs[..i] + mid + bs[i + n..]
    ensures Unused(r) == Unused(bs) - Unused(bs[i..i + n]) + Unused(mid)
  {
    forall b: Block
      ensures b in Unused(r) <==> b in Unused(bs) - Unused(bs[i..i + n]) + Unused(mid)
    {
      Pieces(bs, capacity, i, n, b);
      assert b in r <==> b in bs[..i] || b in mid || b in bs[i + n..];
    }
  }

  /** What is left of block `b` after `Split` to `size` bytes. */
  function Trimmed(b: Block, size: nat): (t: Block)
    requires size <= b.size
    ensures size <= t.size <= size + HEADER + MEMORY_ALIGN && t.size <= b.size
  {
    if Splits(b.size, size) then b.(size := size) else b
  }

  lemma SplitUsed(bs: seq<Block>, capacity: nat, i: nat, size: nat)
    requires Tiles(bs, capacity) && i < |bs| && size <= bs[i].size
    ensures var r := Split(bs, i, size); i < |r| && r[i] == Trimmed(bs[i], size) && r[..i] == bs[..i]
    ensures Used(Split(bs, i, size)) == if bs[i].free then Used(bs) else Used(bs) - {bs[i]} + {Trimmed(bs[i], size)}
  {
    if Splits(bs[i].size, size) {
      var mid := [Trimmed(bs[i], size), Remainder(bs[i], size)];
      SpliceIs(bs, i, 1, mid);
      SpliceUsed(bs, capacity, i, 1, mid, Split(bs, i, size));
      assert bs[i..i + 1] == [bs[i]];
    }
  }

  lemma MergeUsed(bs: seq<Block>, capacity: nat, i: nat)
    requires Tiles(bs, capacity) && i + 1 < |bs| && bs[i + 1].free
    ensures Used(Merge(bs, i)) ==
            if bs[i].free then Used(bs) else Used(bs) - {bs[i]} + {Joined(bs[i], bs[i + 1])}
  {
    SpliceIs(bs, i, 2, [Joined(bs[i], bs[i + 1])]);
    SpliceUsed(bs, capacity, i, 2, [Joined(bs[i], bs[i + 1])], Merge(bs, i));
    assert bs[i..i + 2] == [bs[i], bs[i + 1]];
    UsedOfTwo(bs[i], bs[i + 1]);
    UsedOfTwo(Joined(bs[i], bs[i + 1]), bs[i + 1]);
  }

  lemma UsedOfTwo(b: Block, c: Block)
    requires c.free
    ensures Used([b, c]) == Used([b]) == if b.free then {} else {b}
  {
  }

  lemma FlagTiles(bs: seq<Block>, capacity: nat, i: nat, free: bool)
    requires Tiles(bs, capacity) && i < |bs|
    ensures Tiles(bs[i := bs[i].(free := free)], capacity)
  {
  }

  lemma FlagUsed(bs: seq<Block>, capacity: nat, i: nat, free: bool)
    requires Tiles(bs, capacity) && i < |bs|
    ensures var r := bs[i := bs[i].(free := free)];
            Tiles(r, capacity) && Used(r) == Used(bs) - {bs[i]} + if free then {} else {bs[i].(free := false)}
  {
    var r := bs[i := bs[i].(free := free)];
    assert r == bs[..i] + [bs[i].(free := free)] + bs[i + 1..];
    SpliceUsed(bs, capacity, i, 1, [bs[i].(free := free)], r);
    assert bs[i..i + 1] == [bs[i]];
  }

  lemma CoalesceUsed(bs: seq<Block>, capacity: nat, i: nat)
    requires Tiles(bs, capacity) && i < |bs| && bs[i].free
    ensures Used(Coalesce(bs, i)) == Used(bs)
  {
    var merged := MergeIfNextFree(bs, i);
    if i + 1 < |bs| && bs[i + 1].free {
      MergeUsed(bs, capacity, i);
      MergeTiles(bs, capacity, i);
    }
    if i > 0 && merged[i - 1].free {
      MergeUsed(merged, capacity, i - 1);
    }
  }

  // What a claim of `size` bytes leaves of the free block `b`.
  ghost function Rest(b: Block, size: nat): set<Block>
  {
    if Splits(b.size, size) then {Remainder(b, size)} else {}
  }

  lemma UnusedOfTwo(b: Block, c: Block)
    requires !b.free && c.free
    ensures Unused([b]) == {} && Unused([b, c]) == {c}
  {
  }

  lemma PlaceUnused(bs: seq<Block>, capacity: nat, size: nat)
    requires Tiles(bs, capacity) && FirstFit(bs, size) < |bs|
    ensures var b := bs[FirstFit(bs, size)]; Unused(Place(bs, size).blocks) == Unused(bs) - {b} + Rest(b, size)
  {
    var i := FirstFit(bs, size);
    var b := bs[i];
    assert bs[i..i + 1] == [b] && Unused([b]) == {b};
    var t := Trimmed(b, size).(free := false);
    UnusedOfTwo(t, b);
    if Splits(b.size, size) {
      var cut := Remainder(b, size);
      assert Place(bs, size).blocks == bs[..i] + [t, cut] + bs[i + 1..] by {
        SpliceIs(bs, i, 1, [b.(size := size), cut]);
      }
      UnusedOfTwo(t, cut);
      SpliceUnused(bs, capacity, i, 1, [t, cut], Place(bs, size).blocks);
    } else {
      SpliceUnused(bs, capacity, i, 1, [t], Place(bs, size).blocks);
    }
  }

  /** First fit adds one live block: the lowest-addressed one that fits, at most a header and a unit too large. */
  lemma PlaceEffect(bs: seq<Block>, capacity: nat, size: nat)
    requires Tiles(bs, capacity) && size > 0 && size % MEMORY_ALIGN == 0
    ensures var r := Place(bs, size);
            var i := FirstFit(bs, size);
            if i == |bs| then r == Outcome(bs, Null) && forall b :: b in bs ==> !Fits(b, size)
            else Claims(bs, bs[i], size, r)
  {
    var r, i := Place(bs, size), FirstFit(bs, size);
    if i < |bs| {
      SplitUsed(bs, capacity, i, size);
      SplitTiles(bs, capacity, i, size);
      FlagUsed(Split(bs, i, size), capacity, i, false);
      PlaceUnused(bs, capacity, size);
      forall b | b in bs && Fits(b, size)
        ensures bs[i].off <= b.off
      {
        var k: nat :| k < |bs| && bs[k] == b;
        TilesOrdered(bs, capacity, i, k);
      }
    }
  }

  /** `r` is the state after `b`, the lowest block of `bs` that holds `size` bytes, went live. */
  ghost predicate Claims(bs: seq<Block>, b: Block, size: nat, r: Outcome)
  {
    && Fits(b, size)
    && (forall c :: c in bs && Fits(c, size) ==> b.off <= c.off)
    && r.result == Ptr(b.Payload())
    && size <= Trimmed(b, size).size <= size + HEADER + MEMORY_ALIGN
    && Used(r.blocks) == Used(bs) + {Trimmed(b, size).(free := false)}
    && Unused(r.blocks) == Unused(bs) - {b} + Rest(b, size)
  }

  /** Releasing a live pointer takes exactly its block out of the live ones. */
  lemma FreeEffect(bs: seq<Block>, capacity: nat, i: nat)
    requires Tiles(bs, capacity) && i < |bs| && !bs[i].free
    ensures Used(FreeBlock(bs, bs[i].Payload())) == Used(bs) - {bs[i]}
  {
    BlockOfAt(bs, capacity, i);
    FlagUsed(bs, capacity, i, true);
    CoalesceUsed(bs[i := bs[i].(free := true)], capacity, i);
  }

  lemma PlaceKeepsLive(bs: seq<Block>, capacity: nat, size: nat, i: nat)
    requires Tiles(bs, capacity) && size > 0 && size % MEMORY_ALIGN == 0
    requires i < |bs| && !bs[i].free
    ensures var r := Place(bs, size).blocks; exists k :: 0 <= k < |r| && r[k] == bs[i]
  {
    PlaceEffect(bs, capacity, size);
    assert bs[i] in Used(bs);
    assert bs[i] in Used(Place(bs, size).blocks);
  }

  lemma ShrinkEffect(bs: seq<Block>, capacity: nat, i: nat, n: nat)
    requires Tiles(bs, capacity) && i < |bs| && !bs[i].free && n <= bs[i].size
    ensures InPlace(bs, bs[i], n, Trimmed(bs[i], n), Outcome(Split(bs, i, n), Ptr(bs[i].Payload())))
  {
    SplitUsed(bs, capacity, i, n);
  }

  lemma AbsorbEffect(bs: seq<Block>, capacity: nat, i: nat, n: nat)
    requires Tiles(bs, capacity) && i < |bs| && !bs[i].free && ResizeWay(bs, i, n) == Absorb
    ensures InPlace(bs, bs[i], n, Trimmed(Merge(bs, i)[i], n), Outcome(Split(Merge(bs, i), i, n), Ptr(bs[i].Payload())))
  {
    var merged := Merge(bs, i);
    MergeUsed(bs, capacity, i);
    MergeTiles(bs, capacity, i);
    SplitUsed(merged, capacity, i, n);
    assert bs[i] in bs;
    SameOffset(bs, capacity, bs[i], merged[i]);
    calc {
      Used(Split(merged, i, n));
      Used(merged) - {merged[i]} + {Trimmed(merged[i], n)};
      Used(bs) - {bs[i]} + {merged[i]} - {merged[i]} + {Trimmed(merged[i], n)};
      Used(bs) - {bs[i]} + {Trimmed(merged[i], n)};
    }
  }

  lemma ReleaseAfterPlace(bs: seq<Block>, capacity: nat, i: nat, j: nat, n: nat)
    requires Tiles(bs, capacity) && i < |bs| && !bs[i].free && n > 0 && n % MEMORY_ALIGN == 0
    requires j == FirstFit(bs, n) && j < |bs|
    ensures Used(FreeBlock(Place(bs, n).blocks, bs[i].Payload())) ==
            Used(bs) - {bs[i]} + {Trimmed(bs[j], n).(free := false)}
  {
    var placed, t := Place(bs, n).blocks, Trimmed(bs[j], n).(free := false);
    assert Used(placed) == Used(bs) + {t} by {
      PlaceEffect(bs, capacity, n);
    }
    assert Tiles(placed, capacity) by {
      PlaceTiles(bs, capacity, n);
    }
    assert t != bs[i] by {
      OffsetsDistinct(bs, capacity, i);
    }
    assert bs[i] in Used(bs);
    ReleaseOther(placed, capacity, Used(bs), t, bs[i]);
  }

  lemma ReleaseOther(bs: seq<Block>, capacity: nat, was: set<Block>, t: Block, b: Block)
    requires Tiles(bs, capacity) && Used(bs) == was + {t} && b in was && b != t
    ensures Used(FreeBlock(bs, b.Payload())) == was - {b} + {t}
  {
    assert b in Used(bs);
    var k: nat :| k < |bs| && bs[k] == b;
    FreeEffect(bs, capacity, k);
  }

  lemma SameOffset(bs: seq<Block>, capacity: nat, b: Block, c: Block)
    requires Tiles(bs, capacity) && b in bs && c.off == b.off && c != b
    ensures c !in bs
  {
    if c in bs {
      var i: nat :| i < |bs| && bs[i] == b;
      MemberAt(bs, capacity, i, c);
    }
  }

  ghost predicate InPlace(bs: seq<Block>, b: Block, size: nat, kept: Block, r: Outcome)
  {
    && r.result == Ptr(b.Payload())
    && kept.off == b.off && !kept.free
    && size <= kept.size <= size + HEADER + MEMORY_ALIGN
    && Used(r.blocks) == Used(bs) - {b} + {kept}
  }
}
