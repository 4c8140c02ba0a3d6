/**
 What a request to the free-list allocator does (lib/mem/general_heap.c), stated on the list of
 blocks and in arithmetic alone, independently of how the operations compute it.
 */
module HeapEffects {
  import opened Sizes
  import opened HeapBlocks

  /**
   Of a block cut to `n` bytes `kept` stays. The surplus stays with it unless a header and more than
   one unit of alignment fit there; then it becomes the free block in `tail`.
   */
  ghost predicate CutTo(b: Block, n: nat, kept: Block, tail: set<Block>)
  {
    && kept.off == b.off && !kept.free && n <= b.size
    && if b.size - n <= HEADER + MEMORY_ALIGN then kept.size == b.size && tail == {}
       else kept.size == n && tail == {Block(b.off + HEADER + n, b.size - n - HEADER, true)}
  }

  // The free block of at least `n` bytes with the lowest address.
  ghost predicate LowestFit(bs: seq<Block>, b: Block, n: nat)
  {
    && b in bs && b.free && b.size >= n
    && forall c :: c in bs && c.free && c.size >= n ==> b.off <= c.off
  }

  ghost predicate NothingFits(bs: seq<Block>, n: nat)
  {
    forall b :: b in bs && b.free ==> b.size < n
  }

  ghost predicate AllocatedAs(bs: seq<Block>, n: nat, b: Block, kept: Block, tail: set<Block>, r: Outcome)
  {
    && LowestFit(bs, b, n) && CutTo(b, n, kept, tail) && r.result == Ptr(b.off + HEADER)
    && Used(r.blocks) == Used(bs) + {kept} && Unused(r.blocks) == Unused(bs) - {b} + tail
  }

  /** The lowest fit went live, cut to `n` bytes; or nothing fits and nothing happened. */
  ghost predicate Allocated(bs: seq<Block>, n: nat, r: Outcome)
  {
    if NothingFits(bs, n) then r == Outcome(bs, Null)
    else exists b, kept, tail :: AllocatedAs(bs, n, b, kept, tail, r)
  }

  ghost predicate AllocatedFor(bs: seq<Block>, request: SizeT, r: Outcome)
  {
    match AlignUpOverflow(request)
    case Overflow => r == Outcome(bs, Null)
    case Value(n) => Allocated(bs, n, r)
  }

  // Block `b` of `bs`, extended to `have` bytes by what is in `gone`, was cut to `n` bytes where it is.
  ghost predicate CutHere(bs: seq<Block>, b: Block, have: nat, gone: set<Block>, n: nat, kept: Block,
                          tail: set<Block>, r: Outcome)
  {
    && CutTo(Block(b.off, have, false), n, kept, tail) && r.result == Ptr(b.off + HEADER)
    && Used(r.blocks) == Used(bs) - {b} + {kept} && Unused(r.blocks) == Unused(bs) - gone + tail
  }

  // The contents moved from `b` to the lowest fit `c`, cut to `n` bytes.
  ghost predicate MovedTo(bs: seq<Block>, b: Block, n: nat, c: Block, kept: Block, tail: set<Block>, r: Outcome)
  {
    && LowestFit(bs, c, n) && CutTo(c, n, kept, tail) && r.result == Ptr(c.off + HEADER)
    && Used(r.blocks) == Used(bs) - {b} + {kept}
  }

  // The block itself, or with its free successor, holds `n` bytes.
  ghost predicate StaysFor(bs: seq<Block>, i: nat, n: nat)
    requires i < |bs|
  {
    bs[i].size >= n || (i + 1 < |bs| && bs[i + 1].free && bs[i + 1].End() - bs[i].Payload() >= n)
  }

  ghost predicate Resized(bs: seq<Block>, i: nat, n: nat, r: Outcome)
    requires i < |bs|
  {
    var b := bs[i];
    if b.size >= n then exists kept, tail :: CutHere(bs, b, b.size, {}, n, kept, tail, r)
    else if StaysFor(bs, i, n) then
      var have, gone := bs[i + 1].End() - b.Payload(), {bs[i + 1]};
      exists kept, tail :: CutHere(bs, b, have, gone, n, kept, tail, r)
    else if NothingFits(bs, n) then r == Outcome(bs, Null)
    else exists c, kept, tail :: MovedTo(bs, b, n, c, kept, tail, r)
  }

  ghost predicate ResizedFor(bs: seq<Block>, i: nat, request: SizeT, r: Outcome)
    requires i < |bs|
  {
    match AlignUpOverflow(request)
    case Overflow => r == Outcome(bs, Null)
    case Value(n) => Resized(bs, i, n, r)
  }

  // ---------- the operations do just that ----------

  lemma TrimmedCut(b: Block, n: nat)
    requires n <= b.size
    ensures CutTo(b, n, Trimmed(b, n).(free := false), Rest(b, n))
  {
  }

  lemma FirstFitIsLowest(bs: seq<Block>, capacity: nat, n: nat)
    requires Tiles(bs, capacity) && n > 0 && n % MEMORY_ALIGN == 0
    ensures FirstFit(bs, n) == |bs| <==> NothingFits(bs, n)
    ensures FirstFit(bs, n) < |bs| ==> LowestFit(bs, bs[FirstFit(bs, n)], n)
  {
    var i := FirstFit(bs, n);
    forall c | c in bs && c.free && c.size >= n ensures i < |bs| && bs[i].off <= c.off {
      var k: nat :| k < |bs| && bs[k] == c;
      assert Fits(bs[k], n);
      TilesOrdered(bs, capacity, i, k);
    }
    assert i < |bs| ==> bs[i] in bs;
  }

  lemma PlaceAllocates(bs: seq<Block>, capacity: nat, n: nat)
    requires Tiles(bs, capacity) && n > 0 && n % MEMORY_ALIGN == 0
    ensures Allocated(bs, n, Place(bs, n))
  {
    FirstFitIsLowest(bs, capacity, n);
    var i := FirstFit(bs, n);
    if i < |bs| {
      PlaceEffect(bs, capacity, n);
      TrimmedCut(bs[i], n);
      assert AllocatedAs(bs, n, bs[i], Trimmed(bs[i], n).(free := false), Rest(bs[i], n), Place(bs, n));
    }
  }

  /**
   Allocation fails exactly when aligning overflows or no free block holds the aligned size;
   otherwise the lowest block that does goes live, and what is cut off stays free.
   */
  lemma AllocEffect(bs: seq<Block>, capacity: nat, request: SizeT)
    requires Tiles(bs, capacity) && request > 0
    ensures AllocatedFor(bs, request, AllocBlock(bs, request))
  {
    var aligned := AlignUpOverflow(request);
    if aligned.Value? {
      PlaceAllocates(bs, capacity, aligned.value);
    }
  }

  lemma SplitUnused(bs: seq<Block>, capacity: nat, i: nat, n: nat)
    requires Tiles(bs, capacity) && i < |bs| && !bs[i].free && n <= bs[i].size
    ensures Unused(Split(bs, i, n)) == Unused(bs) + Rest(bs[i], n)
  {
    if Splits(bs[i].size, n) {
      var kept, cut := bs[i].(size := n), Remainder(bs[i], n);
      assert Split(bs, i, n) == bs[..i] + [kept, cut] + bs[i + 1..] by {
        SpliceIs(bs, i, 1, [kept, cut]);
      }
      SpliceUnused(bs, capacity, i, 1, [kept, cut], Split(bs, i, n));
      assert bs[i..i + 1] == [bs[i]];
      UnusedOfTwo(bs[i], cut);
      UnusedOfTwo(kept, cut);
    }
  }

  lemma MergeUnused(bs: seq<Block>, capacity: nat, i: nat)
    requires Tiles(bs, capacity) && i + 1 < |bs| && !bs[i].free && bs[i + 1].free
    ensures Unused(Merge(bs, i)) == Unused(bs) - {bs[i + 1]}
  {
    var grown := Joined(bs[i], bs[i + 1]);
    assert Merge(bs, i) == bs[..i] + [grown] + bs[i + 2..] by {
      SpliceIs(bs, i, 2, [grown]);
    }
    SpliceUnused(bs, capacity, i, 2, [grown], Merge(bs, i));
    assert bs[i..i + 2] == [bs[i], bs[i + 1]];
    UnusedOfTwo(bs[i], bs[i + 1]);
    UnusedOfTwo(grown, bs[i + 1]);
  }

  lemma ShrinkResizes(bs: seq<Block>, capacity: nat, i: nat, n: nat)
    requires Tiles(bs, capacity) && i < |bs| && !bs[i].free && n <= bs[i].size
    ensures var r := Outcome(Split(bs, i, n), Ptr(bs[i].Payload()));
            CutHere(bs, bs[i], bs[i].size, {}, n, Trimmed(bs[i], n), Rest(bs[i], n), r)
  {
    ShrinkEffect(bs, capacity, i, n);
    SplitUnused(bs, capacity, i, n);
    TrimmedCut(bs[i], n);
  }

  lemma AbsorbResizes(bs: seq<Block>, capacity: nat, i: nat, n: nat)
    requires Tiles(bs, capacity) && i + 1 < |bs| && !bs[i].free && bs[i + 1].free
    requires bs[i].size < n <= Joined(bs[i], bs[i + 1]).size
    ensures var have, gone := bs[i + 1].End() - bs[i].Payload(), {bs[i + 1]};
            var grown, r := Joined(bs[i], bs[i + 1]), Outcome(Split(Merge(bs, i), i, n), Ptr(bs[i].Payload()));
            CutHere(bs, bs[i], have, gone, n, Trimmed(grown, n), Rest(grown, n), r)
  {
    var merged := Merge(bs, i);
    assert bs[i + 1].off == bs[i].End();
    AbsorbEffect(bs, capacity, i, n);
    MergeTiles(bs, capacity, i);
    SplitUnused(merged, capacity, i, n);
    MergeUnused(bs, capacity, i);
    TrimmedCut(merged[i], n);
  }

  lemma MoveResizes(bs: seq<Block>, capacity: nat, i: nat, n: nat)
    requires Tiles(bs, capacity) && i < |bs| && !bs[i].free && n > 0 && n % MEMORY_ALIGN == 0
    ensures var r := MoveBlock(bs, bs[i].Payload(), n);
            if NothingFits(bs, n) then r == Outcome(bs, Null)
            else exists c, kept, tail :: MovedTo(bs, bs[i], n, c, kept, tail, r)
  {
    FirstFitIsLowest(bs, capacity, n);
    var j := FirstFit(bs, n);
    if j < |bs| {
      var r := MoveBlock(bs, bs[i].Payload(), n);
      assert Used(r.blocks) == Used(bs) - {bs[i]} + {Trimmed(bs[j], n).(free := false)} by {
        ReleaseAfterPlace(bs, capacity, i, j, n);
      }
      TrimmedCut(bs[j], n);
      assert MovedTo(bs, bs[i], n, bs[j], Trimmed(bs[j], n).(free := false), Rest(bs[j], n), r);
    }
  }

  /**
   Reallocation of the live block `i`: it stays where it is exactly when it holds the aligned size
   itself or together with a free successor; otherwise the lowest fit replaces it, and only when
   there is none the request is refused.
   */
  lemma ResizeEffect(bs: seq<Block>, capacity: nat, i: nat, request: SizeT)
    requires Tiles(bs, capacity) && i < |bs| && !bs[i].free && request > 0
    ensures var r := ResizeBlock(bs, Ptr(bs[i].Payload()), request);
            && ResizedFor(bs, i, request, r)
            && (AlignUpOverflow(request).Value? ==>
                  (r.result == Ptr(bs[i].Payload()) <==> StaysFor(bs, i, AlignUpOverflow(request).value)))
  {
    BlockOfAt(bs, capacity, i);
    var aligned, r := AlignUpOverflow(request), ResizeBlock(bs, Ptr(bs[i].Payload()), request);
    if aligned.Value? {
      var n := aligned.value;
      assert i + 1 < |bs| ==> bs[i + 1].off == bs[i].End();
      if bs[i].size >= n {
        ShrinkResizes(bs, capacity, i, n);
      } else if StaysFor(bs, i, n) {
        AbsorbResizes(bs, capacity, i, n);
        var have, gone := bs[i + 1].End() - bs[i].Payload(), {bs[i + 1]};
        assert exists kept, tail :: CutHere(bs, bs[i], have, gone, n, kept, tail, r);
      } else {
        MoveResizes(bs, capacity, i, n);
        MovedAway(bs, capacity, i, n, r);
      }
    }
  }

  // The lowest fit is another block.
  lemma MovedAway(bs: seq<Block>, capacity: nat, i: nat, n: nat, r: Outcome)
    requires Tiles(bs, capacity) && i < |bs| && !bs[i].free
    requires if NothingFits(bs, n) then r == Outcome(bs, Null)
             else exists c, kept, tail :: MovedTo(bs, bs[i], n, c, kept, tail, r)
    ensures r.result != Ptr(bs[i].Payload())
  {
    if !NothingFits(bs, n) {
      var c, kept, tail :| MovedTo(bs, bs[i], n, c, kept, tail, r);
      if c.off == bs[i].off {
        MemberAt(bs, capacity, i, c);
      }
    }
  }

  /** Reallocating a null pointer allocates, and to nothing releases. */
  lemma ResizeEdges(bs: seq<Block>, capacity: nat, i: nat, request: SizeT)
    requires Tiles(bs, capacity)
    ensures request > 0 ==> AllocatedFor(bs, request, ResizeBlock(bs, Null, request))
    ensures i < |bs| && !bs[i].free ==>
              var r := ResizeBlock(bs, Ptr(bs[i].Payload()), 0); r.result.Null? && Used(r.blocks) == Used(bs) - {bs[i]}
  {
    if request > 0 {
      AllocEffect(bs, capacity, request);
    }
    if i < |bs| && !bs[i].free {
      FreeEffect(bs, capacity, i);
    }
  }
}
