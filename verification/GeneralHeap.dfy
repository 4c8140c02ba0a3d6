/** The free-list allocator itself (lib/mem/general_heap.c), over a buffer that also holds the headers. */
module GeneralHeaps {
  import opened Sizes
  import opened Allocators
  import opened DoublyLinkedLists
  import opened HeapBlocks
  import opened HeapEffects
  import opened HeapRuns

  /** The payload bytes of the blocks in `s` are the same in both images of the buffer. */
  ghost predicate Preserved(s: set<Block>, before: seq<bv8>, after: seq<bv8>)
  {
    && |before| == |after|
    && forall b, k :: b in s && b.Payload() <= k < b.End() && k < |before| ==> after[k] == before[k]
  }

  lemma PreservedThrough(s: set<Block>, a: seq<bv8>, b: seq<bv8>, c: seq<bv8>)
    requires Preserved(s, a, b) && Preserved(s, b, c)
    ensures Preserved(s, a, c)
  {
  }

  lemma SubsetPreserved(s: set<Block>, t: set<Block>, a: seq<bv8>, b: seq<bv8>, c: seq<bv8>)
    requires s <= t && Preserved(t, a, b) && Preserved(t, b, c)
    ensures Preserved(s, a, c)
  {
  }

  lemma SubsetAfter(s: set<Block>, t: set<Block>, a: seq<bv8>, b: seq<bv8>, c: seq<bv8>)
    requires s <= t && Preserved(s, a, b) && Preserved(t, b, c)
    ensures Preserved(s, a, c)
  {
  }

  // Casting the address of a block finds the list member that stands for it.
  ghost predicate Casts(nodes: seq<Node<Block>>, bs: seq<Block>, headerAt: map<nat, Node<Block>>)
  {
    && |nodes| == |bs|
    && forall i :: 0 <= i < |bs| ==> bs[i].off in headerAt && headerAt[bs[i].off] == nodes[i]
  }

  lemma CastsInsert(nodes: seq<Node<Block>>, bs: seq<Block>, headerAt: map<nat, Node<Block>>,
                    i: nat, kept: Block, split: Node<Block>, cut: Block)
    requires Casts(nodes, bs, headerAt) && i < |bs| && kept.off == bs[i].off
    requires forall j :: 0 <= j < |bs| ==> bs[j].off != cut.off
    ensures Casts(nodes[..i + 1] + [split] + nodes[i + 1..], bs[..i] + [kept, cut] + bs[i + 1..],
                  headerAt[cut.off := split])
  {
  }

  lemma CastsRemove(nodes: seq<Node<Block>>, bs: seq<Block>, headerAt: map<nat, Node<Block>>, i: nat, grown: Block)
    requires Casts(nodes, bs, headerAt) && i + 1 < |bs| && grown.off == bs[i].off
    ensures Casts(nodes[..i + 1] + nodes[i + 2..], bs[..i] + [grown] + bs[i + 2..], headerAt)
  {
  }

  // The nodes hold the fields of the blocks, one by one.
  ghost predicate Carry(nodes: seq<Node<Block>>, bs: seq<Block>)
    reads nodes`data
  {
    |nodes| == |bs| && forall i :: 0 <= i < |bs| ==> nodes[i].data == bs[i]
  }

  lemma CarryInsert(nodes: seq<Node<Block>>, bs: seq<Block>, i: nat, split: Node<Block>)
    requires Carry(nodes, bs) && i < |bs|
    ensures Carry(nodes[..i + 1] + [split] + nodes[i + 1..], bs[..i] + [bs[i], split.data] + bs[i + 1..])
  {
  }

  lemma MembersInsert(nodes: seq<Node<Block>>, i: nat, split: Node<Block>)
    requires i < |nodes|
    ensures var t := nodes[..i + 1] + [split] + nodes[i + 1..];
            forall k :: 0 <= k < |t| ==> t[k] in nodes || t[k] == split
  {
  }

  lemma CarryRemove(nodes: seq<Node<Block>>, bs: seq<Block>, i: nat)
    requires Carry(nodes, bs) && i + 1 < |bs|
    ensures Carry(nodes[..i + 1] + nodes[i + 2..], bs[..i] + [bs[i]] + bs[i + 2..])
  {
  }

  lemma Reindexed(bs: seq<Block>, i: nat, b: Block)
    requires i < |bs|
    ensures var t := bs[i := b]; t[i] == b && t[..i] == bs[..i] && t[i + 1..] == bs[i + 1..]
    ensures i + 1 < |bs| ==> bs[i := b][i + 2..] == bs[i + 2..]
  {
  }

  lemma CutOffset(bs: seq<Block>, capacity: nat, i: nat, size: nat)
    requires Tiles(bs, capacity)
    requires i < |bs| && size > 0 && Splits(bs[i].size, size) && size % MEMORY_ALIGN == 0
    ensures forall j :: 0 <= j < |bs| ==> bs[j].off != Remainder(bs[i], size).off
  {
    forall j | 0 <= j < |bs| ensures bs[j].off != Remainder(bs[i], size).off {
      PayloadsDisjoint(bs, capacity, i, j);
    }
  }

  ghost function All(bs: seq<Block>): set<Block>
  {
    set b | b in bs
  }

  // `sizeof(k4c_heap)` and `sizeof(k4c_doubly_linked_list)` on LP64.
  const HANDLE_SIZE: SizeT := 24
  const LIST_SIZE: SizeT := 48

  class Heap {
    const capacity: SizeT
    const buffer: array<bv8>
    const blocks: List<Block>
    const handle: nat             // the addresses of the three blocks
    const bufferBlock: nat
    const listBlock: nat
    // The header that a cast of the address at this offset yields.
    var headerAt: map<nat, Node<Block>>
    ghost var view: seq<Block>

    constructor (bytes: SizeT, h: nat, b: nat, l: nat)
      requires bytes > HEADER + MEMORY_ALIGN && bytes % MEMORY_ALIGN == 0
      ensures handle == h && bufferBlock == b && listBlock == l
      ensures Valid() && capacity == bytes && view == Initial(bytes)
      ensures fresh(blocks) && fresh(blocks.nodes) && fresh(buffer)
    {
      capacity, handle, bufferBlock, listBlock := bytes, h, b, l;
      buffer := new bv8[bytes];
      blocks := new List();
      headerAt, view := map[], Initial(bytes);
      new;
      var block := new Node(Block(0, capacity - HEADER, true));
      AddFirst(block);
    }

    method AddFirst(block: Node<Block>)
      requires blocks.Valid() && blocks.nodes == [] && view == [block.data] && block.data.off == 0
      modifies this`headerAt, blocks, block`prev, block`next
      ensures Listed() && blocks.nodes == [block]
    {
      headerAt := headerAt[0 := block];
      blocks.Push(block);
      assert HeaderAt(0) && Headers(0);
    }

    ghost predicate Valid()
      reads this, blocks, blocks.nodes
    {
      && Listed()
      && buffer.Length == capacity
      && Tiles(view, capacity)
    }

    // The list members carry the blocks of `view`.
    ghost predicate Listed()
      reads this, blocks, blocks.nodes
    {
      |blocks.nodes| == |view| && Headers(|view|)
    }

    // Header by header rather than for all at once, so that a client sees the list as a unit.
    ghost predicate Headers(n: nat)
      requires n <= |view| == |blocks.nodes|
      reads this, blocks, blocks.nodes
    {
      if n == 0 then blocks.Valid() else HeaderAt(n - 1) && Headers(n - 1)
    }

    // The member holds the fields of the block, and casting the address of the block finds it.
    ghost predicate HeaderAt(i: nat)
      requires i < |view| == |blocks.nodes|
      reads this, blocks, blocks.nodes
    {
      && blocks.nodes[i].data == view[i]
      && view[i].off in headerAt && headerAt[view[i].off] == blocks.nodes[i]
    }

    lemma Open()
      requires Listed()
      ensures blocks.Valid() && Casts(blocks.nodes, view, headerAt) && Carry(blocks.nodes, view)
    {
      OpenHeaders(|view|);
    }

    lemma {:induction false} OpenHeaders(n: nat)
      requires n <= |view| == |blocks.nodes| && Headers(n)
      ensures blocks.Valid()
      ensures forall i :: 0 <= i < n ==> blocks.nodes[i].data == view[i]
      ensures forall i :: 0 <= i < n ==> view[i].off in headerAt && headerAt[view[i].off] == blocks.nodes[i]
    {
      if n > 0 {
        OpenHeaders(n - 1);
      }
    }

    lemma Close()
      requires blocks.Valid() && Casts(blocks.nodes, view, headerAt) && Carry(blocks.nodes, view)
      ensures Listed()
    {
      CloseHeaders(|view|);
    }

    lemma {:induction false} CloseHeaders(n: nat)
      requires blocks.Valid() && Casts(blocks.nodes, view, headerAt) && Carry(blocks.nodes, view) && n <= |view|
      ensures Headers(n)
    {
      if n > 0 {
        CloseHeaders(n - 1);
      }
    }

    ghost predicate NodeAt(node: Node<Block>, i: nat)
      reads this, blocks, node
    {
      i < |blocks.nodes| == |view| && blocks.nodes[i] == node && node.data == view[i]
    }

    /** What the fields of member `i` say. */
    lemma Links(node: Node<Block>, i: nat)
      requires Listed() && NodeAt(node, i)
      ensures view[i].off in headerAt && headerAt[view[i].off] == node
      ensures node.next == null <==> i + 1 == |view|
      ensures node.next != null ==> NodeAt(node.next, i + 1)
      ensures node.prev == null <==> i == 0
      ensures node.prev != null ==> NodeAt(node.prev, i - 1)
    {
      Open();
    }

    /** Overwrites the header bytes of a block with anything at all. */
    method WriteHeader(node: Node<Block>, ghost i: nat)
      requires Valid() && NodeAt(node, i)
      modifies buffer
      ensures Preserved(All(view), old(buffer[..]), buffer[..])
    {
      ghost var bs := view;
      PayloadsDisjoint(bs, capacity, i, i);
      assert bs[i] == node.data;
      var off := node.data.off;
      for k := off to off + HEADER
        invariant forall j :: 0 <= j < buffer.Length && !(off <= j < k) ==> buffer[j] == old(buffer[j])
      {
        buffer[k] := *;
      }
      forall b, k | b in All(bs) && b.Payload() <= k < b.End() && k < buffer.Length
        ensures buffer[k] == old(buffer[k])
      {
        var j: nat :| j < |bs| && bs[j] == b;
        PayloadsDisjoint(bs, capacity, i, j);
      }
    }

    /** Sets block `i` to `kept` and links the header `split` of a new block behind it. */
    method LinkBehind(block: Node<Block>, ghost i: nat, kept: Block, split: Node<Block>)
      requires Listed() && NodeAt(block, i) && kept.off == view[i].off && split !in blocks.nodes
      requires forall j :: 0 <= j < |view| ==> view[j].off != split.data.off
      modifies this, blocks, blocks.nodes, split`prev, split`next
      ensures Listed() && NodeAt(block, i)
      ensures forall k :: 0 <= k < |blocks.nodes| ==> blocks.nodes[k] in old(blocks.nodes) || blocks.nodes[k] == split
      ensures view == old(view)[..i] + [kept, split.data] + old(view)[i + 1..]
    {
      Open();
      CastsInsert(blocks.nodes, view, headerAt, i, kept, split, split.data);
      PutBehind(block, i, kept, split);
      headerAt := headerAt[split.data.off := split];
      view := view[..i] + [kept, split.data] + view[i + 1..];
      Close();
    }

    // The list's part of it.
    method PutBehind(block: Node<Block>, ghost i: nat, kept: Block, split: Node<Block>)
      requires blocks.Valid() && Carry(blocks.nodes, view) && i < |view| && blocks.nodes[i] == block
      requires split !in blocks.nodes
      modifies blocks, blocks.nodes, split`prev, split`next
      ensures blocks.Valid() && blocks.nodes == old(blocks.nodes)[..i + 1] + [split] + old(blocks.nodes)[i + 1..]
      ensures Carry(blocks.nodes, view[..i] + [kept, split.data] + view[i + 1..])
      ensures forall k :: 0 <= k < |blocks.nodes| ==> blocks.nodes[k] in old(blocks.nodes) || blocks.nodes[k] == split
    {
      ghost var was, bs := blocks.nodes, view[i := kept];
      block.data := kept;
      assert Carry(was, bs);
      blocks.InsertAfter(block, split, i);
      CarryInsert(was, bs, i, split);
      MembersInsert(was, i, split);
      Reindexed(view, i, kept);
    }

    /** Unlinks the successor of block `i` and sets the block to `grown`. */
    method UnlinkBehind(block: Node<Block>, ghost i: nat, grown: Block)
      requires Listed() && NodeAt(block, i) && block.next != null && grown.off == view[i].off
      modifies this, blocks, blocks.nodes
      ensures Listed() && NodeAt(block, i) && |old(view)| > i + 1
      ensures forall k :: 0 <= k < |blocks.nodes| ==> blocks.nodes[k] in old(blocks.nodes)
      ensures view == old(view)[..i] + [grown] + old(view)[i + 2..]
    {
      Open();
      CastsRemove(blocks.nodes, view, headerAt, i, grown);
      CutBehind(block, i, grown);
      view := view[..i] + [grown] + view[i + 2..];
      Close();
    }

    method CutBehind(block: Node<Block>, ghost i: nat, grown: Block)
      requires blocks.Valid() && Carry(blocks.nodes, view) && i < |view| && blocks.nodes[i] == block &&
                block.next != null
      modifies blocks, blocks.nodes
      ensures i + 1 < |view|
      ensures blocks.Valid() && blocks.nodes == old(blocks.nodes)[..i + 1] + old(blocks.nodes)[i + 2..]
      ensures Carry(blocks.nodes, view[..i] + [grown] + view[i + 2..])
      ensures forall k :: 0 <= k < |blocks.nodes| ==> blocks.nodes[k] in old(blocks.nodes)
    {
      ghost var was, bs := blocks.nodes, view[i := grown];
      block.data := grown;
      assert Carry(was, bs);
      blocks.Remove(block.next, i + 1);
      CarryRemove(was, bs, i);
      Reindexed(view, i, grown);
    }

    /** Overwrites the headers whose fields a list update behind block `i` may touch. */
    method WriteHeadersFrom(block: Node<Block>, ghost i: nat)
      requires Valid() && NodeAt(block, i)
      modifies buffer
      ensures Preserved(All(view), old(buffer[..]), buffer[..])
    {
      Links(block, i);
      WriteHeader(block, i);
      ghost var first := buffer[..];
      if block.next != null {
        Links(block.next, i + 1);
        WriteHeader(block.next, i + 1);
        ghost var second := buffer[..];
        PreservedThrough(All(view), old(buffer[..]), first, second);
        if block.next.next != null {
          WriteHeader(block.next.next, i + 2);
          PreservedThrough(All(view), old(buffer[..]), second, buffer[..]);
        }
      }
    }

    /** `k4c_heap_split_block` */
    method SplitBlock(block: Node<Block>, size: nat, ghost i: nat)
      requires Valid() && NodeAt(block, i)
      requires 0 < size <= block.data.size && size % MEMORY_ALIGN == 0
      modifies this, blocks, blocks.nodes, buffer
      ensures Valid() && NodeAt(block, i)
      ensures forall k :: 0 <= k < |blocks.nodes| ==> blocks.nodes[k] in old(blocks.nodes) || fresh(blocks.nodes[k])
      ensures view == Split(old(view), i, size)
      ensures Preserved(All(view), old(buffer[..]), buffer[..])
    {
      var remaining := block.data.size - size;
      if remaining <= HEADER + MEMORY_ALIGN {
        return;
      }
      CutTail(block, size, i);
      WriteHeadersFrom(block, i);
    }

    method CutTail(block: Node<Block>, size: nat, ghost i: nat)
      requires Valid() && NodeAt(block, i) && Splits(view[i].size, size) && size > 0 && size % MEMORY_ALIGN == 0
      modifies this, blocks, blocks.nodes
      ensures Valid() && NodeAt(block, i)
      ensures forall k :: 0 <= k < |blocks.nodes| ==> blocks.nodes[k] in old(blocks.nodes) || fresh(blocks.nodes[k])
      ensures view == Split(old(view), i, size)
    {
      CutOffset(view, capacity, i, size);
      assert Tiles(Split(view, i, size), capacity) by {
        SplitTiles(view, capacity, i, size);
      }
      SpliceIs(view, i, 1, [view[i].(size := size), Remainder(view[i], size)]);
      var split := new Node(Remainder(block.data, size));
      LinkBehind(block, i, block.data.(size := size), split);
    }

    /** The free successor of block `i` becomes part of it. */
    method MergeNext(block: Node<Block>, ghost i: nat)
      requires Valid() && NodeAt(block, i) && block.next != null && i + 1 < |view|
      modifies this, blocks, blocks.nodes, buffer
      ensures Valid() && NodeAt(block, i)
      ensures forall k :: 0 <= k < |blocks.nodes| ==> blocks.nodes[k] in old(blocks.nodes)
      ensures view == Merge(old(view), i)
      ensures Preserved(All(old(view)), old(buffer[..]), buffer[..])
    {
      MergeTiles(view, capacity, i);
      WriteHeadersFrom(block, i);
      Links(block, i);
      SpliceIs(view, i, 2, [Joined(view[i], view[i + 1])]);
      UnlinkBehind(block, i, Joined(block.data, block.next.data));
    }

    method MergeNextIfFree(block: Node<Block>, ghost i: nat)
      requires Valid() && NodeAt(block, i)
      modifies this, blocks, blocks.nodes, buffer
      ensures Valid() && NodeAt(block, i)
      ensures forall k :: 0 <= k < |blocks.nodes| ==> blocks.nodes[k] in old(blocks.nodes)
      ensures view == MergeIfNextFree(old(view), i)
      ensures Preserved(All(old(view)), old(buffer[..]), buffer[..])
    {
      Links(block, i);
      var next := block.next;
      if next != null && next.data.free {
        MergeNext(block, i);
      }
    }

    /** `k4c_heap_coalesce` */
    method CoalesceBlock(block: Node<Block>, ghost i: nat)
      requires Valid() && NodeAt(block, i) && view[i].free
      modifies this, blocks, blocks.nodes, buffer
      ensures Valid() && forall k :: 0 <= k < |blocks.nodes| ==> blocks.nodes[k] in old(blocks.nodes)
      ensures view == Coalesce(old(view), i)
      ensures Preserved(Used(old(view)), old(buffer[..]), buffer[..])
    {
      ghost var was, start := view, buffer[..];
      MergedKeepsUsed(was, i);
      MergeNextIfFree(block, i);
      ghost var merged, middle := view, buffer[..];
      MergePrevIfFree(block, i);
      assert Preserved(Used(was), start, middle);
      SubsetAfter(Used(was), All(merged), start, middle, buffer[..]);
    }

    method MergePrevIfFree(block: Node<Block>, ghost i: nat)
      requires Valid() && NodeAt(block, i)
      modifies this, blocks, blocks.nodes, buffer
      ensures Valid() && forall k :: 0 <= k < |blocks.nodes| ==> blocks.nodes[k] in old(blocks.nodes)
      ensures view == MergeIfPrevFree(old(view), i)
      ensures Preserved(All(old(view)), old(buffer[..]), buffer[..])
    {
      Links(block, i);
      var prev := block.prev;
      if prev != null && prev.data.free {
        Links(prev, i - 1);
        MergeNext(prev, i - 1);
      }
    }

    method SetFree(block: Node<Block>, free: bool, ghost i: nat)
      requires Valid() && NodeAt(block, i)
      modifies this`view, block`data, buffer
      ensures Valid() && NodeAt(block, i)
      ensures view == old(view)[i := old(view)[i].(free := free)]
      ensures Preserved(All(old(view)), old(buffer[..]), buffer[..])
      ensures Preserved(Used(view), old(buffer[..]), buffer[..])
    {
      WriteHeader(block, i);
      FlagTiles(view, capacity, i, free);
      FlagPreserves(view, i, free, old(buffer[..]), buffer[..]);
      SetFlag(block, free, i);
    }

    method SetFlag(block: Node<Block>, free: bool, ghost i: nat)
      requires Listed() && NodeAt(block, i)
      modifies this`view, block`data
      ensures Listed() && NodeAt(block, i)
      ensures view == old(view)[i := old(view)[i].(free := free)]
    {
      Open();
      block.data := block.data.(free := free);
      view := view[i := view[i].(free := free)];
      Close();
    }

    /** Takes `size` bytes of the free block `i`. */
    method TakeBlock(block: Node<Block>, size: nat, ghost i: nat) returns (p: Pointer)
      requires Valid() && NodeAt(block, i) && Fits(view[i], size)
      requires size > 0 && size % MEMORY_ALIGN == 0
      modifies this, blocks, blocks.nodes, buffer
      ensures Valid()
      ensures forall k :: 0 <= k < |blocks.nodes| ==> blocks.nodes[k] in old(blocks.nodes) || fresh(blocks.nodes[k])
      ensures Outcome(view, p) == Taken(old(view), i, size)
      ensures Preserved(Used(old(view)), old(buffer[..]), buffer[..])
    {
      ghost var was, start := view, buffer[..];
      p := Ptr(block.data.off + HEADER);
      SplitKeepsUsed(was, capacity, i, size);
      SplitBlock(block, size, i);
      ghost var split, middle := view, buffer[..];
      SetFree(block, false, i);
      SubsetPreserved(Used(was), All(split), start, middle, buffer[..]);
    }

    /** `k4c_heap_vtable_alloc` */
    method Alloc(request: SizeT) returns (p: Pointer)
      requires Valid() && request > 0
      modifies this, blocks, blocks.nodes, buffer
      ensures Valid()
      ensures forall k :: 0 <= k < |blocks.nodes| ==> blocks.nodes[k] in old(blocks.nodes) || fresh(blocks.nodes[k])
      ensures Outcome(view, p) == AllocBlock(old(view), request)
      ensures Preserved(Used(old(view)), old(buffer[..]), buffer[..])
      ensures AllocatedFor(old(view), request, Outcome(view, p))
    {
      AllocEffect(view, capacity, request);
      var aligned := AlignUpOverflow(request);
      if aligned.Overflow? {
        return Null;
      }
      var size := aligned.value;
      Open();
      var block := blocks.head;
      ghost var i := 0;
      while block != null
        invariant i <= |view|
        invariant block == if i < |view| then blocks.nodes[i] else null
        invariant forall j :: 0 <= j < i ==> !Fits(view[j], size)
        decreases |view| - i
      {
        if block.data.free && block.data.size >= size {
          FirstFitIs(view, size, i);
          p := TakeBlock(block, size, i);
          return;
        }
        block := block.next;
        i := i + 1;
      }
      FirstFitIs(view, size, i);
      p := Null;
    }

    /** `k4c_heap_vtable_dealloc` */
    method Free(p: nat)
      requires Valid() && (IsLive(view, p) || p == 0 || p >= capacity)
      modifies this, blocks, blocks.nodes, buffer
      ensures Valid()
      ensures forall k :: 0 <= k < |blocks.nodes| ==> blocks.nodes[k] in old(blocks.nodes)
      ensures view == FreeBlock(old(view), p)
      ensures Preserved(Used(view), old(buffer[..]), buffer[..])
    {
      ghost var start := buffer[..];
      if p == 0 || p >= capacity {
        OutsidePointer(view, capacity, p);
        return;
      }
      LiveBlockOf(view, capacity, p);
      ghost var i := BlockOf(view, p);
      Open();
      var block := headerAt[p - HEADER];
      SetFree(block, true, i);
      ghost var flagged, middle := view, buffer[..];
      CoalesceBlock(block, i);
      CoalesceUsed(flagged, capacity, i);
      assert Preserved(Used(flagged), start, middle);
      PreservedThrough(Used(flagged), start, middle, buffer[..]);
    }

    /** `memcpy` between two payloads. */
    method CopyBytes(dst: nat, src: nat, n: nat)
      requires dst + n <= buffer.Length && src + n <= buffer.Length
      requires dst + n <= src || src + n <= dst
      modifies buffer
      ensures forall k :: dst <= k < dst + n ==> buffer[k] == old(buffer[k - dst + src])
      ensures forall k :: 0 <= k < buffer.Length && !(dst <= k < dst + n) ==> buffer[k] == old(buffer[k])
    {
      for j := 0 to n
        invariant forall k :: dst <= k < dst + j ==> buffer[k] == old(buffer[k - dst + src])
        invariant forall k :: 0 <= k < buffer.Length && !(dst <= k < dst + j) ==> buffer[k] == old(buffer[k])
      {
        buffer[dst + j] := buffer[src + j];
      }
    }

    /** Reallocation of the live block at `p` in place, by giving back its tail. */
    method ShrinkInPlace(block: Node<Block>, size: nat, ghost i: nat) returns (p: Pointer)
      requires Valid() && NodeAt(block, i) && !view[i].free
      requires size > 0 && size % MEMORY_ALIGN == 0 && ResizeWay(view, i, size) == Shrink
      modifies this, blocks, blocks.nodes, buffer
      ensures Valid()
      ensures forall k :: 0 <= k < |blocks.nodes| ==> blocks.nodes[k] in old(blocks.nodes) || fresh(blocks.nodes[k])
      ensures Outcome(view, p) == ResizeTo(old(view), i, size)
      ensures Preserved(Used(old(view)) * Used(view), old(buffer[..]), buffer[..])
      ensures p.Ptr? && Carries(old(view), old(view)[i].Payload(), old(buffer[..]), view, p.at, buffer[..])
    {
      p := Ptr(block.data.off + HEADER);
      SplitInPlace(block, size, i);
    }

    method SplitInPlace(block: Node<Block>, size: nat, ghost i: nat)
      requires Valid() && NodeAt(block, i) && 0 < size <= view[i].size && size % MEMORY_ALIGN == 0
      modifies this, blocks, blocks.nodes, buffer
      ensures Valid()
      ensures forall k :: 0 <= k < |blocks.nodes| ==> blocks.nodes[k] in old(blocks.nodes) || fresh(blocks.nodes[k])
      ensures view == Split(old(view), i, size)
      ensures Preserved(Used(old(view)) * Used(view), old(buffer[..]), buffer[..])
      ensures Carries(old(view), old(view)[i].Payload(), old(buffer[..]), view, old(view)[i].Payload(), buffer[..])
    {
      ghost var was, start := view, buffer[..];
      SplitBlock(block, size, i);
      BothPreserved(was, start, start, view, buffer[..], was[i].Payload());
    }

    /** Reallocation in place, by taking over the free successor. */
    method GrowInPlace(block: Node<Block>, size: nat, ghost i: nat) returns (p: Pointer)
      requires Valid() && NodeAt(block, i) && !view[i].free
      requires size > 0 && size % MEMORY_ALIGN == 0 && ResizeWay(view, i, size) == Absorb
      modifies this, blocks, blocks.nodes, buffer
      ensures Valid()
      ensures forall k :: 0 <= k < |blocks.nodes| ==> blocks.nodes[k] in old(blocks.nodes) || fresh(blocks.nodes[k])
      ensures Outcome(view, p) == ResizeTo(old(view), i, size)
      ensures Preserved(Used(old(view)) * Used(view), old(buffer[..]), buffer[..])
      ensures p.Ptr? && Carries(old(view), old(view)[i].Payload(), old(buffer[..]), view, p.at, buffer[..])
    {
      p := Ptr(block.data.off + HEADER);
      AbsorbAndSplit(block, size, i);
    }

    method AbsorbAndSplit(block: Node<Block>, size: nat, ghost i: nat)
      requires Valid() && NodeAt(block, i) && i + 1 < |view|
      requires 0 < size <= Joined(view[i], view[i + 1]).size && size % MEMORY_ALIGN == 0
      modifies this, blocks, blocks.nodes, buffer
      ensures Valid()
      ensures forall k :: 0 <= k < |blocks.nodes| ==> blocks.nodes[k] in old(blocks.nodes) || fresh(blocks.nodes[k])
      ensures view == Split(Merge(old(view), i), i, size)
      ensures Preserved(Used(old(view)) * Used(view), old(buffer[..]), buffer[..])
      ensures Carries(old(view), old(view)[i].Payload(), old(buffer[..]), view, old(view)[i].Payload(), buffer[..])
    {
      ghost var was, start := view, buffer[..];
      Links(block, i);
      MergeNext(block, i);
      ghost var middle := buffer[..];
      SplitBlock(block, size, i);
      BothPreserved(was, start, middle, view, buffer[..], was[i].Payload());
    }

    /** Copies the whole payload of the live block at `src`, whose header gives the length. */
    method CopyPayload(dst: nat, src: nat, ghost k: nat, ghost b: Block, ghost t: Block)
      requires Valid() && k < |view| && view[k] == b && b.Payload() == src && t.Payload() == dst
      requires b.size < t.size && b.End() <= capacity && t.End() <= capacity
      requires dst + b.size <= src || src + b.size <= dst
      modifies buffer
      ensures Copied(b, t, old(buffer[..]), buffer[..])
    {
      Open();
      var source := headerAt[src - HEADER];
      CopyBytes(dst, src, source.data.size);
    }

    method CopyAndRelease(dst: nat, src: nat, ghost k: nat, ghost b: Block, ghost t: Block)
      returns (ghost copied: seq<bv8>)
      requires Valid() && LiveAt(view, k, src) && view[k] == b && t.Payload() == dst
      requires b.size < t.size && b.End() <= capacity && t.End() <= capacity
      requires t.End() <= b.off || b.End() <= t.off
      modifies this, blocks, blocks.nodes, buffer
      ensures Valid() && view == FreeBlock(old(view), src)
      ensures forall k :: 0 <= k < |blocks.nodes| ==> blocks.nodes[k] in old(blocks.nodes)
      ensures Copied(b, t, old(buffer[..]), copied) && Preserved(Used(view), copied, buffer[..])
    {
      CopyPayload(dst, src, k, b, t);
      copied := buffer[..];
      Free(src);
    }

    /** The second half of a move: block `i` of `was` gets its new place at `dst`. */
    method MoveContents(dst: nat, src: nat, size: nat, ghost was: seq<Block>, ghost i: nat, ghost start: seq<bv8>)
      requires Valid() && Tiles(was, capacity) && i < |was| && !was[i].free && was[i].Payload() == src
      requires was[i].size < size && size % MEMORY_ALIGN == 0 && Outcome(view, Ptr(dst)) == Place(was, size)
      requires |start| == capacity && Preserved(Used(was), start, buffer[..])
      modifies this, blocks, blocks.nodes, buffer
      ensures Valid()
      ensures forall k :: 0 <= k < |blocks.nodes| ==> blocks.nodes[k] in old(blocks.nodes)
      ensures Outcome(view, Ptr(dst)) == MoveBlock(was, src, size)
      ensures Preserved(Used(was) * Used(view), start, buffer[..])
      ensures Carries(was, src, start, view, dst, buffer[..])
    {
      ghost var final, placed := FreeBlock(view, src), buffer[..];
      ghost var k, t := MoveShape(was, capacity, i, size, Outcome(view, Ptr(dst)), final);
      ghost var copied := CopyAndRelease(dst, src, k, was[i], t);
      MovePreserves(was, capacity, i, final, t, start, placed, copied, buffer[..]);
    }

    /** Reallocation by allocating elsewhere, copying and releasing. */
    method MoveElsewhere(block: Node<Block>, size: SizeT, ghost i: nat) returns (p: Pointer)
      requires Valid() && NodeAt(block, i) && !view[i].free
      requires size > 0 && size % MEMORY_ALIGN == 0 && ResizeWay(view, i, size) == Move
      modifies this, blocks, blocks.nodes, buffer
      ensures Valid()
      ensures forall k :: 0 <= k < |blocks.nodes| ==> blocks.nodes[k] in old(blocks.nodes) || fresh(blocks.nodes[k])
      ensures Outcome(view, p) == MoveBlock(old(view), old(view)[i].Payload(), size)
      ensures Preserved(Used(old(view)) * Used(view), old(buffer[..]), buffer[..])
      ensures p.Ptr? ==> Carries(old(view), old(view)[i].Payload(), old(buffer[..]), view, p.at, buffer[..])
    {
      ghost var was, start := view, buffer[..];
      var at := block.data.off + HEADER;
      PlaceAligned(was, size);
      p := Alloc(size);
      FinishMove(p, at, size, was, i, start);
    }

    method FinishMove(p: Pointer, src: nat, size: nat, ghost was: seq<Block>, ghost i: nat, ghost start: seq<bv8>)
      requires Valid() && Tiles(was, capacity) && i < |was| && !was[i].free && was[i].Payload() == src
      requires was[i].size < size && size % MEMORY_ALIGN == 0 && Outcome(view, p) == Place(was, size)
      requires |start| == capacity && Preserved(Used(was), start, buffer[..])
      modifies this, blocks, blocks.nodes, buffer
      ensures Valid()
      ensures forall k :: 0 <= k < |blocks.nodes| ==> blocks.nodes[k] in old(blocks.nodes)
      ensures Outcome(view, p) == MoveBlock(was, src, size)
      ensures Preserved(Used(was) * Used(view), start, buffer[..])
      ensures p.Ptr? ==> Carries(was, src, start, view, p.at, buffer[..])
    {
      if p.Ptr? {
        MoveContents(p.at, src, size, was, i, start);
      }
    }

    /** `k4c_heap_vtable_realloc` */
    method Resize(ptr: Pointer, request: SizeT) returns (p: Pointer)
      requires Valid() && (if ptr.Null? then request > 0 else IsLive(view, ptr.at))
      modifies this, blocks, blocks.nodes, buffer
      ensures Valid()
      ensures forall k :: 0 <= k < |blocks.nodes| ==> blocks.nodes[k] in old(blocks.nodes) || fresh(blocks.nodes[k])
      ensures Outcome(view, p) == ResizeBlock(old(view), ptr, request)
      ensures Preserved(Used(old(view)) * Used(view), old(buffer[..]), buffer[..])
      ensures ptr.Ptr? && p.Ptr? ==> Carries(old(view), ptr.at, old(buffer[..]), view, p.at, buffer[..])
      ensures ptr.Null? ==> AllocatedFor(old(view), request, Outcome(view, p))
      ensures ptr.Ptr? && request > 0 ==>
                exists i: nat :: LiveAt(old(view), i, ptr.at) && ResizedFor(old(view), i, request, Outcome(view, p))
    {
      ResizeExactly(view, capacity, ptr, request);
      if ptr.Null? {
        p := Alloc(request);
      } else if request == 0 {
        Free(ptr.at);
        p := Null;
      } else {
        p := ResizeLive(ptr.at, request);
      }
    }

    method ResizeLive(at: nat, request: SizeT) returns (p: Pointer)
      requires Valid() && IsLive(view, at) && request > 0
      modifies this, blocks, blocks.nodes, buffer
      ensures Valid()
      ensures forall k :: 0 <= k < |blocks.nodes| ==> blocks.nodes[k] in old(blocks.nodes) || fresh(blocks.nodes[k])
      ensures Outcome(view, p) == ResizeBlock(old(view), Ptr(at), request)
      ensures Preserved(Used(old(view)) * Used(view), old(buffer[..]), buffer[..])
      ensures p.Ptr? ==> Carries(old(view), at, old(buffer[..]), view, p.at, buffer[..])
    {
      var aligned := AlignUpOverflow(request);
      if aligned.Overflow? {
        return Null;
      }
      var size := aligned.value;
      LiveBlockOf(view, capacity, at);
      ghost var i := BlockOf(view, at);
      Open();
      var block := headerAt[at - HEADER];
      p := ResizeAligned(block, size, i);
    }

    method ResizeAligned(block: Node<Block>, size: SizeT, ghost i: nat) returns (p: Pointer)
      requires Valid() && NodeAt(block, i) && !view[i].free && size > 0 && size % MEMORY_ALIGN == 0
      modifies this, blocks, blocks.nodes, buffer
      ensures Valid()
      ensures forall k :: 0 <= k < |blocks.nodes| ==> blocks.nodes[k] in old(blocks.nodes) || fresh(blocks.nodes[k])
      ensures Outcome(view, p) == ResizeTo(old(view), i, size)
      ensures Preserved(Used(old(view)) * Used(view), old(buffer[..]), buffer[..])
      ensures p.Ptr? ==> Carries(old(view), old(view)[i].Payload(), old(buffer[..]), view, p.at, buffer[..])
    {
      var way := ChooseWay(block, size, i);
      match way
      case Shrink =>
        p := ShrinkInPlace(block, size, i);
      case Absorb =>
        p := GrowInPlace(block, size, i);
      case Move =>
        p := MoveElsewhere(block, size, i);
    }

    /** The tests that `k4c_heap_vtable_realloc` makes on the block and its successor. */
    method ChooseWay(block: Node<Block>, size: SizeT, ghost i: nat) returns (way: Way)
      requires Valid() && NodeAt(block, i)
      ensures way == ResizeWay(view, i, size)
    {
      Links(block, i);
      var next := block.next;
      if block.data.size >= size {
        way := Shrink;
      } else if next != null && next.data.free && block.data.size + HEADER + next.data.size >= size {
        way := Absorb;
      } else {
        way := Move;
      }
    }

    /** `k4c_heap_available` */
    method Available() returns (total: nat)
      requires Valid()
      ensures total == FreeBytes(view)
    {
      Open();
      total := 0;
      var block := blocks.head;
      ghost var i := 0;
      while block != null
        invariant i <= |view| && total == FreeBytes(view[..i])
        invariant block == if i < |view| then blocks.nodes[i] else null
        decreases |view| - i
      {
        if block.data.free {
          total := total + block.data.size;
        }
        FreeBytesSnoc(view[..i], view[i]);
        assert view[..i + 1] == view[..i] + [view[i]];
        block := block.next;
        i := i + 1;
      }
      assert view[..i] == view;
    }

    // The client's ledger gained the blocks of the heap.
    ghost predicate Took(granted: map<nat, SizeT>, before: map<nat, SizeT>)
    {
      && handle !in before && bufferBlock !in before && listBlock !in before
      && handle != bufferBlock && handle != listBlock && bufferBlock != listBlock
      && granted == before[handle := HANDLE_SIZE][bufferBlock := capacity][listBlock := LIST_SIZE]
    }

    /** `k4c_heap_destroy` */
    method Destroy(a: Allocator)
      requires a.outstanding >= 3
      modifies a`deallocCount, a`outstanding, a`books
      ensures a.outstanding == old(a.outstanding) - 3
      ensures forall before :: Took(old(a.books.granted), before) ==> a.books.granted == before
    {
      a.Dealloc(Ptr(listBlock));
      a.Dealloc(Ptr(bufferBlock));
      a.Dealloc(Ptr(handle));
      assert a.books.granted == old(a.books.granted) - {listBlock} - {bufferBlock} - {handle};
      forall before | Took(old(a.books.granted), before) ensures a.books.granted == before {
        Undone(before[handle := HANDLE_SIZE][bufferBlock := capacity], listBlock, LIST_SIZE);
        Undone(before[handle := HANDLE_SIZE], bufferBlock, capacity);
        Undone(before, handle, HANDLE_SIZE);
      }
    }

    /**
     `k4c_heap_create`: three requests to the allocator (the handle, the buffer, the list handle),
     undone when a later one fails.
     */
    static method Create(bytes: SizeT, a: Allocator) returns (st: Status, h: Heap?)
      requires bytes > HEADER + MEMORY_ALIGN
      modifies a
      ensures st == OK <==> h != null
      ensures st == OVERFLOW <==> AlignUpOverflow(bytes).Overflow?
      ensures st in {OK, NO_MEMORY, OVERFLOW}
      ensures h != null ==> fresh(h) && fresh(h.blocks) && fresh(h.blocks.nodes) && fresh(h.buffer)
      ensures h != null ==> h.Valid() && h.capacity == AlignUpOverflow(bytes).value && h.view == Initial(h.capacity)
      ensures a.outstanding == old(a.outstanding) + if h != null then 3 else 0
      ensures a.failed == old(a.failed) + if st == NO_MEMORY then 1 else 0
      ensures h == null ==> a.books.granted == old(a.books.granted)
      ensures h != null ==> h.Took(a.books.granted, old(a.books.granted))
    {
      h := null;
      var aligned := AlignUpOverflow(bytes);
      if aligned.Overflow? {
        return OVERFLOW, null;
      }
      ghost var before := a.books.granted;
      var handle := a.Alloc(HANDLE_SIZE);
      if handle.Null? {
        return NO_MEMORY, null;
      }
      var block := a.Alloc(aligned.value);
      if block.Null? {
        Undone(before, handle.at, HANDLE_SIZE);
        a.Dealloc(handle);
        return NO_MEMORY, null;
      }
      var list := a.Alloc(LIST_SIZE);
      if list.Null? {
        Undone(before[handle.at := HANDLE_SIZE], block.at, aligned.value);
        Undone(before, handle.at, HANDLE_SIZE);
        a.Dealloc(block);
        a.Dealloc(handle);
        return NO_MEMORY, null;
      }
      h := new Heap(aligned.value, handle.at, block.at, list.at);
      st := OK;
    }
  }

  lemma ResizeExactly(bs: seq<Block>, capacity: nat, ptr: Pointer, request: SizeT)
    requires Tiles(bs, capacity) && (if ptr.Null? then request > 0 else IsLive(bs, ptr.at))
    ensures ptr.Null? ==> AllocatedFor(bs, request, ResizeBlock(bs, ptr, request))
    ensures ptr.Ptr? && request > 0 ==>
              exists i: nat :: LiveAt(bs, i, ptr.at) && ResizedFor(bs, i, request, ResizeBlock(bs, ptr, request))
  {
    if ptr.Null? {
      AllocEffect(bs, capacity, request);
    } else if request > 0 {
      LiveBlockOf(bs, capacity, ptr.at);
      ResizeEffect(bs, capacity, BlockOf(bs, ptr.at), request);
    }
  }

  function Min(a: nat, b: nat): nat { if a < b then a else b }

  /** A live block of `was` at `p` and one of `now` at `q` agree on the bytes that both have. */
  ghost predicate Carries(was: seq<Block>, p: nat, before: seq<bv8>, now: seq<Block>, q: nat, after: seq<bv8>)
  {
    forall b, c :: b in Used(was) && b.Payload() == p && c in Used(now) && c.Payload() == q ==>
      SameBytes(before, p, after, q, Min(b.size, c.size))
  }

  ghost predicate SameBytes(before: seq<bv8>, p: nat, after: seq<bv8>, q: nat, n: nat)
  {
    p + n <= |before| && q + n <= |after| && after[q..q + n] == before[p..p + n]
  }

  lemma BothPreserved(was: seq<Block>, start: seq<bv8>, middle: seq<bv8>, now: seq<Block>, end: seq<bv8>, p: nat)
    requires Preserved(All(was), start, middle) && Preserved(All(now), middle, end)
    requires Tiles(was, |start|)
    ensures Preserved(Used(was) * Used(now), start, end)
    ensures Carries(was, p, start, now, p, end)
  {
    forall b, c | b in Used(was) && b.Payload() == p && c in Used(now) && c.Payload() == p
      ensures SameBytes(start, p, end, p, Min(b.size, c.size))
    {
      var n := Min(b.size, c.size);
      InBuffer(was, |start|, b);
      assert b in All(was) && c in All(now);
      assert forall k :: p <= k < p + n ==> end[k] == start[k];
    }
  }

  lemma PlaceAligned(bs: seq<Block>, size: SizeT)
    requires size % MEMORY_ALIGN == 0
    ensures AllocBlock(bs, size) == Place(bs, size)
  {
    AlignedUnchanged(size);
  }

  // `s2` is `s1` with the payload of `b` copied to the start of the payload of `t`.
  ghost predicate Copied(b: Block, t: Block, s1: seq<bv8>, s2: seq<bv8>)
  {
    && b.size < t.size && b.End() <= |s1| && t.End() <= |s1| == |s2|
    && s2[t.Payload()..t.Payload() + b.size] == s1[b.Payload()..b.End()]
    && forall k :: 0 <= k < |s1| && !(t.Payload() <= k < t.Payload() + b.size) ==> s2[k] == s1[k]
  }

  lemma OthersKept(was: set<Block>, now: seq<Block>, b: Block, t: Block,
                   s0: seq<bv8>, s1: seq<bv8>, s2: seq<bv8>, s3: seq<bv8>)
    requires Preserved(was, s0, s1) && Copied(b, t, s1, s2) && Preserved(Used(now), s2, s3)
    requires Tiles(now, |s0|) && t in Used(now) && t !in was
    ensures Preserved(was * Used(now), s0, s3)
  {
    forall d, k | d in was * Used(now) && d.Payload() <= k < d.End() && k < |s0|
      ensures s3[k] == s0[k]
    {
      DisjointMembers(now, |s0|, d, t);
    }
  }

  lemma ContentsKept(was: set<Block>, now: set<Block>, b: Block, t: Block,
                     s0: seq<bv8>, s1: seq<bv8>, s2: seq<bv8>, s3: seq<bv8>)
    requires Preserved(was, s0, s1) && Copied(b, t, s1, s2) && Preserved(now, s2, s3)
    requires b in was && t in now
    ensures SameBytes(s0, b.Payload(), s3, t.Payload(), b.size)
  {
    var p, n := t.Payload(), b.size;
    assert s1[b.Payload()..b.End()] == s0[b.Payload()..b.End()];
    assert s3[p..p + n] == s2[p..p + n];
  }

  /** A move in full: where block `i` is after the allocation, and the block `t` that takes its place. */
  lemma MoveShape(bs: seq<Block>, capacity: nat, i: nat, size: nat, placed: Outcome, final: seq<Block>)
    returns (k: nat, t: Block)
    requires Tiles(bs, capacity) && i < |bs| && !bs[i].free && bs[i].size < size && size % MEMORY_ALIGN == 0
    requires placed == Place(bs, size) && placed.result.Ptr?
    requires final == FreeBlock(placed.blocks, bs[i].Payload())
    ensures MoveBlock(bs, bs[i].Payload(), size) == Outcome(final, placed.result)
    ensures k < |placed.blocks| && placed.blocks[k] == bs[i] && LiveAt(placed.blocks, k, bs[i].Payload())
    ensures Tiles(final, capacity) && t in Used(final) && t !in Used(bs)
    ensures t.Payload() == placed.result.at && t.size >= size
    ensures t.End() <= capacity && bs[i].End() <= capacity && (t.End() <= bs[i].off || bs[i].End() <= t.off)
  {
    var j := FirstFit(bs, size);
    t := Trimmed(bs[j], size).(free := false);
    PlaceTiles(bs, capacity, size);
    PlaceKeepsLive(bs, capacity, size, i);
    k :| k < |placed.blocks| && placed.blocks[k] == bs[i];
    ReleaseAfterPlace(bs, capacity, i, j, size);
    FreeTiles(placed.blocks, capacity, bs[i].Payload());
    InBuffer(final, capacity, t);
    InBuffer(bs, capacity, bs[i]);
    if t in Used(bs) {
      MemberAt(bs, capacity, j, t);
    }
    TrimmedDisjoint(bs, capacity, i, j, size);
  }

  lemma TrimmedDisjoint(bs: seq<Block>, capacity: nat, i: nat, j: nat, size: nat)
    requires Tiles(bs, capacity) && i < |bs| && j < |bs| && i != j && size <= bs[j].size
    ensures var t := Trimmed(bs[j], size); t.End() <= bs[i].off || bs[i].End() <= t.off
  {
    PayloadsDisjoint(bs, capacity, i, j);
  }

  lemma MovePreserves(bs: seq<Block>, capacity: nat, i: nat, now: seq<Block>, t: Block,
                      s0: seq<bv8>, s1: seq<bv8>, s2: seq<bv8>, s3: seq<bv8>)
    requires Tiles(bs, capacity) && i < |bs| && !bs[i].free && capacity == |s0|
    requires Tiles(now, capacity) && t in Used(now) && t !in Used(bs)
    requires Preserved(Used(bs), s0, s1) && Copied(bs[i], t, s1, s2) && Preserved(Used(now), s2, s3)
    ensures Preserved(Used(bs) * Used(now), s0, s3)
    ensures Carries(bs, bs[i].Payload(), s0, now, t.Payload(), s3)
  {
    OthersKept(Used(bs), now, bs[i], t, s0, s1, s2, s3);
    assert bs[i] in Used(bs);
    ContentsKept(Used(bs), Used(now), bs[i], t, s0, s1, s2, s3);
    forall b, c | b in Used(bs) && b.Payload() == bs[i].Payload() && c in Used(now) && c.Payload() == t.Payload()
      ensures b == bs[i] && c == t
    {
      MemberAt(bs, capacity, i, b);
      DisjointMembers(now, capacity, c, t);
    }
  }

  /** Two different members occupy disjoint ranges. */
  lemma DisjointMembers(bs: seq<Block>, capacity: nat, b: Block, c: Block)
    requires Tiles(bs, capacity) && b in bs && c in bs
    ensures b != c ==> b.End() <= c.off || c.End() <= b.off
  {
    var i: nat :| i < |bs| && bs[i] == b;
    var j: nat :| j < |bs| && bs[j] == c;
    PayloadsDisjoint(bs, capacity, i, j);
  }

  lemma InBuffer(bs: seq<Block>, capacity: nat, b: Block)
    requires Tiles(bs, capacity) && b in bs
    ensures b.End() <= capacity
  {
    var i: nat :| i < |bs| && bs[i] == b;
    PayloadsDisjoint(bs, capacity, i, i);
  }

  lemma FirstFitIs(bs: seq<Block>, size: nat, i: nat)
    requires i <= |bs| && (forall j :: 0 <= j < i ==> !Fits(bs[j], size))
    requires i < |bs| ==> Fits(bs[i], size)
    ensures FirstFit(bs, size) == i
  {
  }

  lemma FlagPreserves(bs: seq<Block>, i: nat, free: bool, before: seq<bv8>, after: seq<bv8>)
    requires i < |bs| && Preserved(All(bs), before, after)
    ensures Preserved(Used(bs[i := bs[i].(free := free)]), before, after)
  {
    var flagged := bs[i := bs[i].(free := free)];
    forall b, k | b in Used(flagged) && b.Payload() <= k < b.End() && k < |before|
      ensures after[k] == before[k]
    {
      var j: nat :| j < |flagged| && flagged[j] == b;
      assert bs[j] in All(bs) && bs[j].Payload() <= k < bs[j].End();
    }
  }

  lemma SplitKeepsUsed(bs: seq<Block>, capacity: nat, i: nat, size: nat)
    requires Tiles(bs, capacity) && i < |bs| && Fits(bs[i], size)
    ensures Used(bs) <= All(Split(bs, i, size))
  {
    SplitUsed(bs, capacity, i, size);
    assert Used(Split(bs, i, size)) <= All(Split(bs, i, size));
  }

  lemma MergedKeepsUsed(bs: seq<Block>, i: nat)
    requires i < |bs|
    ensures Used(bs) <= All(bs)
    ensures bs[i].free ==> Used(bs) <= All(MergeIfNextFree(bs, i))
  {
    if bs[i].free && i + 1 < |bs| && bs[i + 1].free {
      SpliceIs(bs, i, 2, [Joined(bs[i], bs[i + 1])]);
      forall b | b in Used(bs)
        ensures b in Merge(bs, i)
      {
        var k: nat :| k < |bs| && bs[k] == b;
        assert Merge(bs, i)[if k < i then k else k - 1] == b;
      }
    }
  }
}
