/** What every run of allocator operations keeps: the tiling, the accounts, and the number of free neighbours. */
module HeapRuns {
  import opened Sizes
  import opened HeapBlocks

  // ---------- accounts ----------

  function FreeBytes(bs: seq<Block>): nat
  {
    if bs == [] then 0 else (if bs[0].free then bs[0].size else 0) + FreeBytes(bs[1..])
  }

  function UsedBytes(bs: seq<Block>): nat
  {
    if bs == [] then 0 else (if bs[0].free then 0 else bs[0].size) + UsedBytes(bs[1..])
  }

  /** Free bytes, used bytes and one header per block make up the whole buffer. */
  lemma Accounts(bs: seq<Block>, capacity: nat)
    requires Tiles(bs, capacity)
    ensures FreeBytes(bs) + UsedBytes(bs) + |bs| * HEADER == capacity
  {
    SpanAccounts(bs);
  }

  lemma {:induction false} SpanAccounts(bs: seq<Block>)
    requires |bs| > 0
    requires forall i, j :: 0 <= i < |bs| && j == i + 1 && j < |bs| ==> bs[j].off == bs[i].End()
    ensures FreeBytes(bs) + UsedBytes(bs) + |bs| * HEADER == bs[|bs| - 1].End() - bs[0].off
  {
    if |bs| == 1 {
      assert bs[1..] == [];
    } else {
      var rest := bs[1..];
      forall i, j | 0 <= i < |rest| && j == i + 1 && j < |rest| ensures rest[j].off == rest[i].End() {
        assert rest[i] == bs[i + 1] && rest[j] == bs[j + 1];
      }
      SpanAccounts(rest);
      assert rest[0] == bs[1] && bs[1].off == bs[0].End();
    }
  }

  lemma {:induction false} FreeBytesSnoc(bs: seq<Block>, b: Block)
    ensures FreeBytes(bs + [b]) == FreeBytes(bs) + if b.free then b.size else 0
  {
    if bs == [] {
      assert [b][1..] == [];
    } else {
      assert (bs + [b])[1..] == bs[1..] + [b];
      FreeBytesSnoc(bs[1..], b);
    }
  }

  // ---------- adjacent free blocks ----------

  /** How many neighbours are both free. */
  function FreePairs(bs: seq<Block>): nat
  {
    if |bs| <= 1 then 0 else (if bs[0].free && bs[1].free then 1 else 0) + FreePairs(bs[1..])
  }

  function Joint(a: seq<Block>, b: seq<Block>): nat
  {
    if a != [] && b != [] && a[|a| - 1].free && b[0].free then 1 else 0
  }

  lemma {:induction false} PairsConcat(a: seq<Block>, b: seq<Block>)
    ensures FreePairs(a + b) == FreePairs(a) + FreePairs(b) + Joint(a, b)
  {
    if a == [] {
      assert a + b == b;
    } else if b == [] {
      assert a + b == a;
    } else {
      PairsConcat(a[1..], b);
      assert (a + b)[1..] == a[1..] + b;
      if |a| == 1 {
        assert a[1..] + b == b;
      }
    }
  }

  lemma PairsSplice(pre: seq<Block>, mid: seq<Block>, post: seq<Block>)
    requires mid != []
    ensures FreePairs(pre + mid + post) ==
            FreePairs(pre) + FreePairs(mid) + FreePairs(post) + Joint(pre, mid) + Joint(mid, post)
  {
    PairsConcat(pre, mid);
    PairsConcat(pre + mid, post);
  }

  /** The same count with the list cut into what precedes `i`, the blocks `i .. i + n`, and the rest. */
  lemma PairsAround(bs: seq<Block>, i: nat, n: nat)
    requires n > 0 && i + n <= |bs|
    ensures FreePairs(bs) == FreePairs(bs[..i]) + FreePairs(bs[i..i + n]) + FreePairs(bs[i + n..])
                             + Joint(bs[..i], bs[i..i + n]) + Joint(bs[i..i + n], bs[i + n..])
  {
    PairsSplice(bs[..i], bs[i..i + n], bs[i + n..]);
    assert bs == bs[..i] + bs[i..i + n] + bs[i + n..];
  }

  lemma SplicePairs(bs: seq<Block>, i: nat, n: nat, mid: seq<Block>, r: seq<Block>)
    requires n > 0 && i + n <= |bs| && mid != [] && r == bs[..i] + mid + bs[i + n..]
    ensures var was, pre, post := bs[i..i + n], bs[..i], bs[i + n..];
            FreePairs(r) + FreePairs(was) + Joint(pre, was) + Joint(was, post) ==
            FreePairs(bs) + FreePairs(mid) + Joint(pre, mid) + Joint(mid, post)
  {
    PairsAround(bs, i, n);
    PairsSplice(bs[..i], mid, bs[i + n..]);
  }

  lemma PairsOfTwo(b: Block, c: Block)
    ensures FreePairs([b, c]) == if b.free && c.free then 1 else 0
    ensures FreePairs([b]) == 0
  {
  }

  predicate NextFree(bs: seq<Block>, i: nat)
  {
    i + 1 < |bs| && bs[i + 1].free
  }

  lemma SplitPairs(bs: seq<Block>, i: nat, size: nat)
    requires i < |bs| && size <= bs[i].size && !bs[i].free
    ensures FreePairs(Split(bs, i, size)) ==
            FreePairs(bs) + if Splits(bs[i].size, size) && NextFree(bs, i) then 1 else 0
  {
    if Splits(bs[i].size, size) {
      var b, c := bs[i].(size := size), Remainder(bs[i], size);
      assert Split(bs, i, size) == bs[..i] + [b, c] + bs[i + 1..] by {
        SpliceIs(bs, i, 1, [b, c]);
      }
      assert bs[i..i + 1] == [bs[i]];
      SplicePairs(bs, i, 1, [b, c], Split(bs, i, size));
      PairsOfTwo(b, c);
      PairsOfTwo(bs[i], c);
    }
  }

  lemma PlacePairs(bs: seq<Block>, size: nat)
    ensures FreePairs(Place(bs, size).blocks) <= FreePairs(bs)
  {
    var i := FirstFit(bs, size);
    if i < |bs| {
      assert bs[i..i + 1] == [bs[i]];
      PairsOfTwo(bs[i], bs[i]);
      var b := Trimmed(bs[i], size).(free := false);
      if Splits(bs[i].size, size) {
        var c := Remainder(bs[i], size);
        SpliceIs(bs, i, 1, [bs[i].(size := size), c]);
        SplicePairs(bs, i, 1, [b, c], Place(bs, size).blocks);
        PairsOfTwo(b, c);
      } else {
        SplicePairs(bs, i, 1, [b], Place(bs, size).blocks);
        PairsOfTwo(b, b);
      }
    }
  }

  /** Merging two free blocks removes exactly their pair. */
  lemma MergePairs(bs: seq<Block>, i: nat)
    requires i + 1 < |bs| && bs[i].free && bs[i + 1].free
    ensures FreePairs(Merge(bs, i)) + 1 == FreePairs(bs)
  {
    var m := Joined(bs[i], bs[i + 1]);
    assert bs == bs[..i] + [bs[i], bs[i + 1]] + bs[i + 2..];
    SpliceIs(bs, i, 2, [m]);
    JoinPairs(bs, Merge(bs, i), bs[..i], bs[i], bs[i + 1], m, bs[i + 2..]);
  }

  lemma JoinPairs(s: seq<Block>, t: seq<Block>, pre: seq<Block>, b: Block, c: Block, m: Block, post: seq<Block>)
    requires b.free && c.free && m.free
    requires s == pre + [b, c] + post && t == pre + [m] + post
    ensures FreePairs(t) + 1 == FreePairs(s)
  {
    PairsSplice(pre, [b, c], post);
    PairsOfTwo(b, c);
    PairsSplice(pre, [m], post);
    PairsOfTwo(m, m);
  }

  /** Setting a used block free adds a pair for each free neighbour. */
  lemma FlagPairs(bs: seq<Block>, i: nat)
    requires i < |bs| && !bs[i].free
    ensures FreePairs(bs[i := bs[i].(free := true)]) ==
            FreePairs(bs) + (if i > 0 && bs[i - 1].free then 1 else 0) + (if NextFree(bs, i) then 1 else 0)
  {
    var f := bs[i].(free := true);
    PairsAround(bs, i, 1);
    assert bs[i..i + 1] == [bs[i]];
    PairsSplice(bs[..i], [f], bs[i + 1..]);
    PairsOfTwo(f, f);
    PairsOfTwo(bs[i], bs[i]);
    assert bs[i := f] == bs[..i] + [f] + bs[i + 1..];
  }

  /** Releasing a block leaves the number of free neighbours exactly as it was. */
  lemma ReleasePairs(bs: seq<Block>, capacity: nat, p: nat)
    requires Tiles(bs, capacity) && (IsLive(bs, p) || BlockOf(bs, p) == |bs|)
    ensures FreePairs(FreeBlock(bs, p)) == FreePairs(bs)
  {
    var i := BlockOf(bs, p);
    if i < |bs| {
      LiveBlockOf(bs, capacity, p);
      FlagPairs(bs, i);
      var flagged := bs[i := bs[i].(free := true)];
      if NextFree(flagged, i) {
        MergePairs(flagged, i);
        SpliceIs(flagged, i, 2, [Joined(flagged[i], flagged[i + 1])]);
      }
      var merged := MergeIfNextFree(flagged, i);
      if i > 0 && merged[i - 1].free {
        MergePairs(merged, i - 1);
      }
    }
  }

  lemma AbsorbPairs(bs: seq<Block>, i: nat, size: nat)
    requires i + 1 < |bs| && !bs[i].free && bs[i + 1].free
    requires size <= bs[i].size + HEADER + bs[i + 1].size
    ensures FreePairs(Split(Merge(bs, i), i, size)) <= FreePairs(bs)
  {
    var m := Merge(bs, i);
    SpliceIs(bs, i, 2, [m[i]]);
    SplicePairs(bs, i, 2, [m[i]], m);
    assert bs[i..i + 2] == [bs[i], bs[i + 1]];
    PairsOfTwo(bs[i], bs[i + 1]);
    PairsOfTwo(m[i], m[i]);
    assert NextFree(m, i) ==> bs[i + 2..][0] == m[i + 1];
    SplitPairs(m, i, size);
  }

  // ---------- runs ----------

  function Step(bs: seq<Block>, op: Op): seq<Block>
  {
    match op
    case Alloc(size) => AllocBlock(bs, size).blocks
    case Free(p) => FreeBlock(bs, p)
    case Resize(ptr, size) => ResizeBlock(bs, ptr, size).blocks
  }

  // Requests are positive, pointers are live; a pointer outside the buffer may be released.
  ghost predicate Legal(bs: seq<Block>, capacity: nat, op: Op)
  {
    match op
    case Alloc(size) => size > 0
    case Free(p) => IsLive(bs, p) || p == 0 || p >= capacity
    case Resize(ptr, size) => if ptr.Null? then size > 0 else IsLive(bs, ptr.at)
  }

  function Run(bs: seq<Block>, ops: seq<Op>): seq<Block>
    decreases |ops|
  {
    if ops == [] then bs else Run(Step(bs, ops[0]), ops[1..])
  }

  ghost predicate LegalRun(bs: seq<Block>, capacity: nat, ops: seq<Op>)
    decreases |ops|
  {
    ops == [] || (Legal(bs, capacity, ops[0]) && LegalRun(Step(bs, ops[0]), capacity, ops[1..]))
  }

  /** The guard of the one branch that can leave two free neighbours behind. */
  predicate SplitsBesideFree(bs: seq<Block>, op: Op)
  {
    op.Resize? && op.ptr.Ptr? && op.newSize > 0 &&
    var aligned, i := AlignUpOverflow(op.newSize), BlockOf(bs, op.ptr.at);
    aligned.Value? && i < |bs| && bs[i].size > aligned.value + HEADER + MEMORY_ALIGN && NextFree(bs, i)
  }

  lemma OutsidePointer(bs: seq<Block>, capacity: nat, p: nat)
    requires Tiles(bs, capacity) && (p == 0 || p >= capacity)
    ensures BlockOf(bs, p) == |bs|
  {
    var i := BlockOf(bs, p);
    if i < |bs| {
      PayloadsDisjoint(bs, capacity, i, i);
    }
  }

  lemma StepTiles(bs: seq<Block>, capacity: nat, op: Op)
    requires Tiles(bs, capacity) && Legal(bs, capacity, op)
    ensures Tiles(Step(bs, op), capacity)
  {
    match op
    case Alloc(size) => AllocTiles(bs, capacity, size);
    case Free(p) => FreeTiles(bs, capacity, p);
    case Resize(ptr, size) => ResizeTiles(bs, capacity, ptr, size);
  }

  /** A step adds a pair of free neighbours exactly when it takes that branch, and then it adds one. */
  lemma StepPairs(bs: seq<Block>, capacity: nat, op: Op)
    requires Tiles(bs, capacity) && Legal(bs, capacity, op)
    ensures FreePairs(Step(bs, op)) > FreePairs(bs) <==> SplitsBesideFree(bs, op)
    ensures FreePairs(Step(bs, op)) <= FreePairs(bs) + 1
  {
    match op
    case Alloc(size) => AllocPairs(bs, size);
    case Free(p) =>
      if !IsLive(bs, p) {
        OutsidePointer(bs, capacity, p);
      }
      ReleasePairs(bs, capacity, p);
    case Resize(ptr, size) =>
      if ptr.Null? {
        AllocPairs(bs, size);
      } else if size == 0 {
        ReleasePairs(bs, capacity, ptr.at);
      } else {
        ResizePairs(bs, capacity, ptr.at, size);
      }
  }

  lemma AllocPairs(bs: seq<Block>, size: SizeT)
    ensures FreePairs(AllocBlock(bs, size).blocks) <= FreePairs(bs)
  {
    var aligned := AlignUpOverflow(size);
    if aligned.Value? {
      PlacePairs(bs, aligned.value);
    }
  }

  lemma ResizePairs(bs: seq<Block>, capacity: nat, p: nat, size: SizeT)
    requires Tiles(bs, capacity) && IsLive(bs, p) && size > 0
    ensures FreePairs(ResizeBlock(bs, Ptr(p), size).blocks) <=
            FreePairs(bs) + if SplitsBesideFree(bs, Resize(Ptr(p), size)) then 1 else 0
    ensures SplitsBesideFree(bs, Resize(Ptr(p), size)) ==>
              FreePairs(ResizeBlock(bs, Ptr(p), size).blocks) == FreePairs(bs) + 1
  {
    var i, aligned := BlockOf(bs, p), AlignUpOverflow(size);
    LiveBlockOf(bs, capacity, p);
    if aligned.Value? {
      var n := aligned.value;
      match ResizeWay(bs, i, n)
      case Shrink => SplitPairs(bs, i, n);
      case Absorb => AbsorbPairs(bs, i, n);
      case Move =>
        PlacePairs(bs, n);
        var placed := Place(bs, n);
        if placed.result.Ptr? {
          PlaceTiles(bs, capacity, n);
          PlaceKeepsLive(bs, capacity, n, i);
          var k: nat :| k < |placed.blocks| && placed.blocks[k] == bs[i];
          assert LiveAt(placed.blocks, k, p);
          ReleasePairs(placed.blocks, capacity, p);
        }
    }
  }

  /** Every state that a legal run reaches tiles the buffer and balances the accounts. */
  lemma {:induction false} RunTiles(bs: seq<Block>, capacity: nat, ops: seq<Op>)
    requires Tiles(bs, capacity) && LegalRun(bs, capacity, ops)
    ensures Tiles(Run(bs, ops), capacity)
    ensures FreeBytes(Run(bs, ops)) + UsedBytes(Run(bs, ops)) + |Run(bs, ops)| * HEADER == capacity
    decreases |ops|
  {
    if ops == [] {
      Accounts(bs, capacity);
    } else {
      StepTiles(bs, capacity, ops[0]);
      RunTiles(Step(bs, ops[0]), capacity, ops[1..]);
    }
  }

  /** How many steps of the run take the splitting branch beside a free block. */
  function Strays(bs: seq<Block>, ops: seq<Op>): nat
    decreases |ops|
  {
    if ops == [] then 0
    else (if SplitsBesideFree(bs, ops[0]) then 1 else 0) + Strays(Step(bs, ops[0]), ops[1..])
  }

  /** A run gains at most one pair of free neighbours per such step. */
  lemma {:induction false} RunPairs(bs: seq<Block>, capacity: nat, ops: seq<Op>)
    requires Tiles(bs, capacity) && LegalRun(bs, capacity, ops)
    ensures FreePairs(Run(bs, ops)) <= FreePairs(bs) + Strays(bs, ops)
    decreases |ops|
  {
    if ops != [] {
      StepPairs(bs, capacity, ops[0]);
      StepTiles(bs, capacity, ops[0]);
      RunPairs(Step(bs, ops[0]), capacity, ops[1..]);
    }
  }

  /** From a fresh heap, a run without such steps never leaves two free neighbours. */
  lemma FreshRunCoalesced(capacity: nat, ops: seq<Op>, i: nat)
    requires capacity > HEADER && Tiles(Initial(capacity), capacity)
    requires LegalRun(Initial(capacity), capacity, ops) && Strays(Initial(capacity), ops) == 0
    requires i + 1 < |Run(Initial(capacity), ops)|
    ensures var bs := Run(Initial(capacity), ops); !(bs[i].free && bs[i + 1].free)
  {
    RunPairs(Initial(capacity), capacity, ops);
    var bs := Run(Initial(capacity), ops);
    if bs[i].free && bs[i + 1].free {
      PairAt(bs, i);
    }
  }

  lemma {:induction false} PairAt(bs: seq<Block>, i: nat)
    requires i + 1 < |bs| && bs[i].free && bs[i + 1].free
    ensures FreePairs(bs) > 0
  {
    if i > 0 {
      PairAt(bs[1..], i - 1);
    }
  }

  // ---------- releasing everything ----------

  function Releases(ps: seq<nat>): seq<Op>
  {
    seq(|ps|, i requires 0 <= i < |ps| => Free(ps[i]))
  }

  lemma {:induction false} DrainPairs(bs: seq<Block>, capacity: nat, ps: seq<nat>)
    requires Tiles(bs, capacity) && LegalRun(bs, capacity, Releases(ps))
    ensures FreePairs(Run(bs, Releases(ps))) == FreePairs(bs)
    decreases |ps|
  {
    if ps != [] {
      assert Releases(ps)[1..] == Releases(ps[1..]);
      var p := ps[0];
      assert Legal(bs, capacity, Free(p));
      if !IsLive(bs, p) {
        OutsidePointer(bs, capacity, p);
      }
      ReleasePairs(bs, capacity, p);
      StepTiles(bs, capacity, Free(p));
      DrainPairs(FreeBlock(bs, p), capacity, ps[1..]);
    }
  }

  lemma {:induction false} AllFreePairs(bs: seq<Block>)
    requires |bs| > 0 && forall b :: b in bs ==> b.free
    ensures FreePairs(bs) == |bs| - 1
    ensures UsedBytes(bs) == 0
  {
    if |bs| == 1 {
      assert bs[1..] == [];
    } else {
      AllFreePairs(bs[1..]);
    }
  }

  /**
   Once every pointer is released, in whatever order, the free list holds one block more than
   there were pairs of free neighbours at the start, so the heap is back in its initial state
   exactly when there were none.
   */
  lemma DrainRestores(bs: seq<Block>, capacity: nat, ps: seq<nat>)
    requires Tiles(bs, capacity) && LegalRun(bs, capacity, Releases(ps))
    requires Used(Run(bs, Releases(ps))) == {}
    requires capacity > HEADER
    ensures var end := Run(bs, Releases(ps));
            && |end| == FreePairs(bs) + 1
            && FreeBytes(end) == capacity - (FreePairs(bs) + 1) * HEADER
            && (end == Initial(capacity) <==> FreePairs(bs) == 0)
  {
    var end := Run(bs, Releases(ps));
    DrainPairs(bs, capacity, ps);
    RunTiles(bs, capacity, Releases(ps));
    forall b | b in end ensures b.free {
      assert b in Used(end) <==> !b.free;
    }
    AllFreePairs(end);
    assert |end| == FreePairs(bs) + 1;
    if |end| == 1 {
      assert end[0] == Block(0, capacity - HEADER, true);
    }
  }

  ghost predicate Backed(bs: seq<Block>, p: nat)
  {
    exists b :: b in Used(bs) && b.Payload() == p
  }

  /** `ps` names every live pointer once, in any order. */
  ghost predicate NamesLive(bs: seq<Block>, ps: seq<nat>)
  {
    && (forall i, j :: 0 <= i < j < |ps| ==> ps[i] != ps[j])
    && (forall i :: 0 <= i < |ps| ==> Backed(bs, ps[i]))
    && (forall b :: b in Used(bs) ==> b.Payload() in ps)
  }

  lemma UsedIsLive(bs: seq<Block>, b: Block)
    requires b in Used(bs)
    ensures exists i: nat :: LiveAt(bs, i, b.Payload()) && bs[i] == b
  {
  }

  /** Every live pointer can be released, in any order, and then no block is live. */
  lemma {:induction false} ReleaseAllLegal(bs: seq<Block>, capacity: nat, ps: seq<nat>)
    requires Tiles(bs, capacity) && NamesLive(bs, ps)
    ensures LegalRun(bs, capacity, Releases(ps)) && Used(Run(bs, Releases(ps))) == {}
    decreases |ps|
  {
    if ps == [] {
      assert Releases(ps) == [];
    } else {
      var after := FreeBlock(bs, ps[0]);
      ReleaseFirst(bs, capacity, ps, after);
      ReleaseAllLegal(after, capacity, ps[1..]);
      RunFirst(bs, capacity, ps, after);
    }
  }

  lemma ReleaseFirst(bs: seq<Block>, capacity: nat, ps: seq<nat>, after: seq<Block>)
    requires Tiles(bs, capacity) && NamesLive(bs, ps) && ps != [] && after == FreeBlock(bs, ps[0])
    ensures IsLive(bs, ps[0]) && Tiles(after, capacity) && NamesLive(after, ps[1..])
  {
    assert Backed(bs, ps[0]);
    var b :| b in Used(bs) && b.Payload() == ps[0];
    UsedIsLive(bs, b);
    var i: nat :| LiveAt(bs, i, ps[0]) && bs[i] == b;
    assert Used(after) == Used(bs) - {bs[i]} by {
      FreeEffect(bs, capacity, i);
    }
    assert Tiles(after, capacity) by {
      FreeTiles(bs, capacity, ps[0]);
    }
    NamesRest(bs, capacity, ps, i, after);
  }

  lemma RunFirst(bs: seq<Block>, capacity: nat, ps: seq<nat>, after: seq<Block>)
    requires ps != [] && IsLive(bs, ps[0]) && after == FreeBlock(bs, ps[0])
    requires LegalRun(after, capacity, Releases(ps[1..]))
    ensures LegalRun(bs, capacity, Releases(ps)) && Run(bs, Releases(ps)) == Run(after, Releases(ps[1..]))
  {
    var ops := Releases(ps);
    assert ops[0] == Free(ps[0]) && ops[1..] == Releases(ps[1..]);
    assert Step(bs, ops[0]) == after;
  }

  lemma NamesRest(bs: seq<Block>, capacity: nat, ps: seq<nat>, i: nat, after: seq<Block>)
    requires Tiles(bs, capacity) && NamesLive(bs, ps) && ps != [] && LiveAt(bs, i, ps[0])
    requires Used(after) == Used(bs) - {bs[i]}
    ensures NamesLive(after, ps[1..])
  {
    forall k | 0 <= k < |ps| - 1 ensures Backed(after, ps[1..][k]) {
      assert Backed(bs, ps[k + 1]);
      var b :| b in Used(bs) && b.Payload() == ps[k + 1];
      assert b in Used(after);
    }
    forall b | b in Used(after) ensures b.Payload() in ps[1..] {
      NamedBehind(bs, capacity, ps, i, b);
    }
  }

  lemma NamedBehind(bs: seq<Block>, capacity: nat, ps: seq<nat>, i: nat, b: Block)
    requires Tiles(bs, capacity) && NamesLive(bs, ps) && ps != [] && LiveAt(bs, i, ps[0])
    requires b in Used(bs) && b != bs[i]
    ensures b.Payload() in ps[1..]
  {
    var j: nat :| j < |bs| && bs[j] == b;
    OffsetsDistinct(bs, capacity, i);
    assert j != i && b.Payload() != ps[0];
    assert b.Payload() in ps && ps == [ps[0]] + ps[1..];
  }

  /** Releasing every live pointer, in any order, restores the fresh heap exactly when no neighbours were free. */
  lemma ReleaseAllRestores(bs: seq<Block>, capacity: nat, ps: seq<nat>)
    requires Tiles(bs, capacity) && NamesLive(bs, ps) && capacity > HEADER
    ensures LegalRun(bs, capacity, Releases(ps))
    ensures Run(bs, Releases(ps)) == Initial(capacity) <==> FreePairs(bs) == 0
    ensures FreeBytes(Run(bs, Releases(ps))) == capacity - (FreePairs(bs) + 1) * HEADER
  {
    ReleaseAllLegal(bs, capacity, ps);
    DrainRestores(bs, capacity, ps);
  }

  /** A fresh heap that never split beside a free block is whole again after every pointer is released. */
  lemma FreshRunRestored(capacity: nat, ops: seq<Op>, ps: seq<nat>)
    requires capacity > HEADER && Tiles(Initial(capacity), capacity)
    requires LegalRun(Initial(capacity), capacity, ops) && Strays(Initial(capacity), ops) == 0
    requires NamesLive(Run(Initial(capacity), ops), ps)
    ensures LegalRun(Run(Initial(capacity), ops), capacity, Releases(ps))
    ensures Run(Run(Initial(capacity), ops), Releases(ps)) == Initial(capacity)
    ensures FreeBytes(Initial(capacity)) == capacity - HEADER
  {
    RunPairs(Initial(capacity), capacity, ops);
    RunTiles(Initial(capacity), capacity, ops);
    ReleaseAllRestores(Run(Initial(capacity), ops), capacity, ps);
  }

  /**
   The promise of coalescing fails on this run: shrinking a block beside a free one, then
   releasing it, leaves two free neighbours, and a request for all the free bytes is refused.
   */
  lemma ShrinkLeavesFreeNeighbours()
    ensures var ops := [Alloc(512), Resize(Ptr(32), 16), Free(32)];
            var end := Run(Initial(1024), ops);
            && LegalRun(Initial(1024), 1024, ops)
            && end == [Block(0, 512, true), Block(544, 448, true)]
            && AllocBlock(end, 992).result == Null
            && AllocBlock(Initial(1024), 992).result == Ptr(32)
  {
    var b0 := Initial(1024);
    var b1 := [Block(0, 512, false), Block(544, 448, true)];
    var b2 := [Block(0, 16, false), Block(48, 464, true), Block(544, 448, true)];
    var b3 := [Block(0, 512, true), Block(544, 448, true)];
    assert Step(b0, Alloc(512)) == b1;
    assert LiveAt(b1, 0, 32);
    assert Step(b1, Resize(Ptr(32), 16)) == b2;
    assert LiveAt(b2, 0, 32);
    assert Step(b2, Free(32)) == b3;
    var ops := [Alloc(512), Resize(Ptr(32), 16), Free(32)];
    assert ops[1..] == [Resize(Ptr(32), 16), Free(32)] && ops[1..][1..] == [Free(32)] && ops[1..][1..][1..] == [];
    assert FirstFit(b3[1..], 992) == 1;
  }
}
