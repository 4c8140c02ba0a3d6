/**
 The free-list allocator as its clients see it (lib/mem/general_heap.c): a map from live pointers
 to the bytes behind them, which only the clients' own stores change.
 */
module HeapContents {
  import opened Sequences
  import opened Sizes
  import opened HeapBlocks
  import opened HeapEffects
  import opened HeapRuns
  import opened GeneralHeaps

  type Memory = map<nat, seq<bv8>>

  ghost function Pointers(bs: seq<Block>): set<nat>
  {
    set b | b in Used(bs) :: b.Payload()
  }

  ghost function PayloadBytes(bs: seq<Block>, bytes: seq<bv8>, p: nat): seq<bv8>
  {
    var i := BlockOf(bs, p);
    if i < |bs| && bs[i].End() <= |bytes| then bytes[p..bs[i].End()] else []
  }

  /** What lies behind each live pointer. */
  ghost function Contents(bs: seq<Block>, bytes: seq<bv8>): Memory
  {
    map p | p in Pointers(bs) :: PayloadBytes(bs, bytes, p)
  }

  // `m` maps the payload of `b` to its bytes.
  ghost predicate Shown(m: Memory, bytes: seq<bv8>, b: Block)
  {
    b.Payload() in m && b.End() <= |bytes| && m[b.Payload()] == bytes[b.Payload()..b.End()]
  }

  // `m` holds the live payloads and nothing else.
  ghost predicate Shows(m: Memory, bs: seq<Block>, bytes: seq<bv8>)
  {
    && (forall b {:trigger Shown(m, bytes, b)} :: b in Used(bs) ==> Shown(m, bytes, b))
    && (forall p {:trigger Backed(bs, p)} :: p in m ==> Backed(bs, p))
  }

  lemma ContentsShow(bs: seq<Block>, capacity: nat, bytes: seq<bv8>)
    requires Tiles(bs, capacity) && |bytes| == capacity
    ensures Shows(Contents(bs, bytes), bs, bytes)
  {
    forall b | b in Used(bs) ensures Shown(Contents(bs, bytes), bytes, b) {
      var i: nat :| i < |bs| && bs[i] == b;
      BlockOfAt(bs, capacity, i);
      InBuffer(bs, capacity, b);
    }
  }

  lemma SamePayload(bs: seq<Block>, capacity: nat, b: Block, c: Block)
    requires Tiles(bs, capacity) && b in bs && c in bs && b.Payload() == c.Payload()
    ensures b == c
  {
    DisjointMembers(bs, capacity, b, c);
  }

  /** Outside `gone` and `come` two states of the heap show the same pointers and bytes. */
  lemma MemoryApart(m: Memory, bs: seq<Block>, before: seq<bv8>, n: Memory, now: seq<Block>, after: seq<bv8>,
                    gone: set<nat>, come: set<nat>)
    requires Shows(m, bs, before) && Shows(n, now, after)
    requires forall b :: b in Used(bs) && b.Payload() !in gone ==> b in Used(now)
    requires forall b :: b in Used(now) && b.Payload() !in come ==> b in Used(bs)
    requires forall b :: b in Used(bs) && b in Used(now) ==> (b.Payload() in gone <==> b.Payload() in come)
    requires Preserved(Used(bs) * Used(now), before, after)
    ensures n - come == m - gone
  {
    forall p | p in m - gone ensures p in n - come && n[p] == m[p] {
      assert Backed(bs, p);
      var b :| b in Used(bs) && b.Payload() == p;
      SameBytesIn(m, bs, before, n, now, after, b);
    }
    forall p | p in n - come ensures p in m - gone {
      assert Backed(now, p);
      var b :| b in Used(now) && b.Payload() == p;
      SameBytesIn(m, bs, before, n, now, after, b);
    }
  }

  lemma SameBytesIn(m: Memory, bs: seq<Block>, before: seq<bv8>, n: Memory, now: seq<Block>, after: seq<bv8>, b: Block)
    requires Shows(m, bs, before) && Shows(n, now, after)
    requires b in Used(bs) && b in Used(now) && Preserved(Used(bs) * Used(now), before, after)
    ensures b.Payload() in m && b.Payload() in n && n[b.Payload()] == m[b.Payload()]
  {
    assert Shown(m, before, b) && Shown(n, after, b);
    var p, e := b.Payload(), b.End();
    assert b in Used(bs) * Used(now);
    assert forall k :: p <= k < e ==> after[k] == before[k];
  }

  lemma SameMemory(m: Memory, bs: seq<Block>, before: seq<bv8>, n: Memory, after: seq<bv8>)
    requires Shows(m, bs, before) && Shows(n, bs, after) && Preserved(Used(bs), before, after)
    ensures m == n
  {
    MemoryApart(m, bs, before, n, bs, after, {}, {});
    assert m - {} == m && n - {} == n;
  }

  // ---------- what a client may rely on ----------

  datatype ClientOp = Request(op: Op) | Store(p: nat, k: nat, x: bv8)

  // A new block of at least `n` bytes at `q`, or nothing.
  ghost predicate Acquired(before: Memory, n: nat, q: Pointer, after: Memory)
  {
    if q.Null? then after == before
    else q.at !in before && q.at in after && n <= |after[q.at]| && after - {q.at} == before
  }

  // The block at `p` is now at `q` with at least `n` bytes and its old bytes as far as both reach.
  ghost predicate Resettled(before: Memory, p: nat, n: nat, q: nat, after: Memory)
  {
    && p in before && q in after && (q == p || q !in before)
    && n <= |after[q]| && after - {q} == before - {p}
    && forall k :: 0 <= k < |before[p]| && k < |after[q]| ==> after[q][k] == before[p][k]
  }

  ghost predicate Related(before: Memory, op: ClientOp, q: Pointer, after: Memory)
  {
    match op
    case Store(p, k, x) => p in before && k < |before[p]| && after == before[p := before[p][k := x]]
    case Request(Alloc(n)) => Acquired(before, n, q, after)
    case Request(Free(p)) => after == before - {p}
    case Request(Resize(ptr, n)) =>
      if ptr.Null? then Acquired(before, n, q, after)
      else if n == 0 then after == before - {ptr.at}
      else if q.Null? then after == before
      else Resettled(before, ptr.at, n, q.at, after)
  }

  ghost predicate Permitted(bs: seq<Block>, capacity: nat, op: ClientOp)
  {
    match op
    case Request(op) => Legal(bs, capacity, op)
    case Store(p, k, _) => exists b :: b in Used(bs) && b.Payload() == p && k < b.size
  }

  function ClientStep(bs: seq<Block>, op: ClientOp): seq<Block>
  {
    match op
    case Request(op) => Step(bs, op)
    case Store(_, _, _) => bs
  }

  /** What the value model answers; a null pointer also to what yields none. */
  function Answer(bs: seq<Block>, op: ClientOp): Pointer
  {
    match op
    case Store(_, _, _) => Null
    case Request(Alloc(n)) => AllocBlock(bs, n).result
    case Request(Free(_)) => Null
    case Request(Resize(ptr, n)) => ResizeBlock(bs, ptr, n).result
  }

  function ClientRun(bs: seq<Block>, ops: seq<ClientOp>): seq<Block>
    decreases |ops|
  {
    if ops == [] then bs else ClientRun(ClientStep(bs, ops[0]), ops[1..])
  }

  function Answers(bs: seq<Block>, ops: seq<ClientOp>): seq<Pointer>
    decreases |ops|
  {
    if ops == [] then [] else [Answer(bs, ops[0])] + Answers(ClientStep(bs, ops[0]), ops[1..])
  }

  // ---------- each step ----------

  lemma AllocRelated(m: Memory, bs: seq<Block>, before: seq<bv8>, n: SizeT, r: Outcome, m': Memory, after: seq<bv8>)
    requires Tiles(bs, |before|) && n > 0 && r == AllocBlock(bs, n)
    requires Shows(m, bs, before) && Shows(m', r.blocks, after) && Preserved(Used(bs), before, after)
    ensures Acquired(m, n, r.result, m')
  {
    AllocEffect(bs, |before|, n);
    AllocatedRelated(m, bs, before, n, AlignUpOverflow(n), r, m', after);
  }

  lemma AllocatedRelated(m: Memory, bs: seq<Block>, before: seq<bv8>, n: SizeT, aligned: Checked, r: Outcome,
                         m': Memory, after: seq<bv8>)
    requires Tiles(bs, |before|) && (aligned.Value? ==> n <= aligned.value)
    requires Shows(m, bs, before) && Shows(m', r.blocks, after) && Preserved(Used(bs), before, after)
    requires r == Outcome(bs, Null)
             || (aligned.Value? && !NothingFits(bs, aligned.value) && Allocated(bs, aligned.value, r))
    ensures Acquired(m, n, r.result, m')
  {
    if r == Outcome(bs, Null) {
      SameMemory(m, bs, before, m', after);
    } else {
      var b, kept, tail :| AllocatedAs(bs, aligned.value, b, kept, tail, r);
      NewPointer(m, bs, before, b, kept, m', r.blocks, after);
    }
  }

  lemma NewPointer(m: Memory, bs: seq<Block>, before: seq<bv8>, b: Block, t: Block,
                   m': Memory, now: seq<Block>, after: seq<bv8>)
    requires Tiles(bs, |before|) && Shows(m, bs, before) && Shows(m', now, after)
    requires b in bs && b.free && t.off == b.off && !t.free && Used(now) == Used(bs) + {t}
    requires Preserved(Used(bs), before, after)
    ensures Acquired(m, t.size, Ptr(t.Payload()), m')
  {
    var q := t.Payload();
    forall c | c in Used(bs) ensures c.Payload() != q {
      if c.Payload() == q {
        SamePayload(bs, |before|, b, c);
      }
    }
    assert Shown(m', after, t);
    assert !Backed(bs, q);
    MemoryApart(m, bs, before, m', now, after, {}, {q});
    assert m - {} == m;
  }

  lemma FreeRelated(m: Memory, bs: seq<Block>, before: seq<bv8>, p: nat, m': Memory, after: seq<bv8>)
    requires Tiles(bs, |before|) && (IsLive(bs, p) || p == 0 || p >= |before|)
    requires Shows(m, bs, before) && Shows(m', FreeBlock(bs, p), after)
    requires Preserved(Used(FreeBlock(bs, p)), before, after)
    ensures m' == m - {p}
  {
    if IsLive(bs, p) {
      LiveBlockOf(bs, |before|, p);
      var i := BlockOf(bs, p);
      FreeEffect(bs, |before|, i);
      LeftPointer(m, bs, before, bs[i], m', FreeBlock(bs, p), after);
    } else {
      OutsidePointer(bs, |before|, p);
      SameMemory(m, bs, before, m', after);
      NoPointer(m, bs, |before|, before, p);
    }
  }

  lemma NoPointer(m: Memory, bs: seq<Block>, capacity: nat, bytes: seq<bv8>, p: nat)
    requires Shows(m, bs, bytes) && BlockOf(bs, p) == |bs|
    ensures m - {p} == m
  {
    forall b | b in Used(bs) ensures b.Payload() != p {
      var i: nat :| i < |bs| && bs[i] == b;
    }
    assert !Backed(bs, p);
  }

  lemma LeftPointer(m: Memory, bs: seq<Block>, before: seq<bv8>, b: Block, m': Memory, now: seq<Block>, after: seq<bv8>)
    requires Tiles(bs, |before|) && b in Used(bs) && Used(now) == Used(bs) - {b}
    requires Shows(m, bs, before) && Shows(m', now, after) && Preserved(Used(now), before, after)
    ensures m' == m - {b.Payload()}
  {
    forall c | c in Used(bs) && c.Payload() == b.Payload() ensures c == b {
      SamePayload(bs, |before|, c, b);
    }
    MemoryApart(m, bs, before, m', now, after, {b.Payload()}, {});
    assert m' - {} == m';
  }

  // Block `b` of `bs` gave way to `c`.
  lemma ReplacedRelated(m: Memory, bs: seq<Block>, before: seq<bv8>, b: Block, c: Block,
                        m': Memory, now: seq<Block>, after: seq<bv8>)
    requires Tiles(bs, |before|) && Tiles(now, |after|) && Shows(m, bs, before) && Shows(m', now, after)
    requires b in Used(bs) && c in Used(now) && Used(now) == Used(bs) - {b} + {c}
    requires c.Payload() == b.Payload() || forall d :: d in Used(bs) ==> d.Payload() != c.Payload()
    requires Preserved(Used(bs) * Used(now), before, after)
    requires Carries(bs, b.Payload(), before, now, c.Payload(), after)
    ensures Resettled(m, b.Payload(), c.size, c.Payload(), m')
  {
    var p, q := b.Payload(), c.Payload();
    assert Shown(m, before, b) && Shown(m', after, c);
    forall d | d in Used(bs) && d.Payload() == p ensures d == b {
      SamePayload(bs, |before|, d, b);
    }
    forall d | d in Used(now) && d.Payload() == q ensures d == c {
      SamePayload(now, |after|, d, c);
    }
    assert q != p ==> !Backed(bs, q);
    MemoryApart(m, bs, before, m', now, after, {p}, {q});
    FirstBytes(before, p, after, q, b.size, c.size, m[p], m'[q]);
  }

  lemma FirstBytes(before: seq<bv8>, p: nat, after: seq<bv8>, q: nat, i: nat, j: nat, s: seq<bv8>, t: seq<bv8>)
    requires p + i <= |before| && q + j <= |after| && SameBytes(before, p, after, q, Min(i, j))
    requires s == before[p..p + i] && t == after[q..q + j]
    ensures forall k :: 0 <= k < i && k < j ==> t[k] == s[k]
  {
    forall k | 0 <= k < i && k < j ensures t[k] == s[k] {
      assert after[q..q + Min(i, j)][k] == before[p..p + Min(i, j)][k];
    }
  }

  lemma ResizeRelated(m: Memory, bs: seq<Block>, before: seq<bv8>, p: nat, n: SizeT, r: Outcome,
                      m': Memory, after: seq<bv8>)
    requires Tiles(bs, |before|) && Tiles(r.blocks, |after|) && IsLive(bs, p) && n > 0
    requires Shows(m, bs, before) && Shows(m', r.blocks, after)
    requires r == ResizeBlock(bs, Ptr(p), n) && Preserved(Used(bs) * Used(r.blocks), before, after)
    requires r.result.Ptr? ==> Carries(bs, p, before, r.blocks, r.result.at, after)
    ensures if r.result.Null? then m' == m else Resettled(m, p, n, r.result.at, m')
  {
    LiveBlockOf(bs, |before|, p);
    var i := BlockOf(bs, p);
    ResizeEffect(bs, |before|, i, n);
    ResizedRelated(m, bs, before, i, n, r, m', after);
  }

  lemma ResizedRelated(m: Memory, bs: seq<Block>, before: seq<bv8>, i: nat, n: SizeT, r: Outcome,
                       m': Memory, after: seq<bv8>)
    requires Tiles(bs, |before|) && Tiles(r.blocks, |after|) && i < |bs| && !bs[i].free
    requires Shows(m, bs, before) && Shows(m', r.blocks, after)
    requires ResizedFor(bs, i, n, r)
    requires Preserved(Used(bs) * Used(r.blocks), before, after)
    requires r.result.Ptr? ==> Carries(bs, bs[i].Payload(), before, r.blocks, r.result.at, after)
    ensures if r.result.Null? then m' == m else Resettled(m, bs[i].Payload(), n, r.result.at, m')
  {
    if r == Outcome(bs, Null) {
      assert Used(bs) * Used(bs) == Used(bs);
      SameMemory(m, bs, before, m', after);
    } else {
      var c := ResizedBlock(bs, |before|, i, n, r);
      assert bs[i] in Used(bs);
      ReplacedRelated(m, bs, before, bs[i], c, m', r.blocks, after);
    }
  }

  lemma ResizedBlock(bs: seq<Block>, capacity: nat, i: nat, n: SizeT, r: Outcome) returns (c: Block)
    requires Tiles(bs, capacity) && i < |bs| && !bs[i].free && AlignUpOverflow(n).Value? && r != Outcome(bs, Null)
    requires ResizedFor(bs, i, n, r)
    ensures c in Used(r.blocks) && Used(r.blocks) == Used(bs) - {bs[i]} + {c}
    ensures r.result == Ptr(c.Payload()) && n <= c.size
    ensures c.Payload() == bs[i].Payload() || forall d :: d in Used(bs) ==> d.Payload() != c.Payload()
  {
    var size := AlignUpOverflow(n).value;
    if bs[i].size >= size {
      var kept, tail :| CutHere(bs, bs[i], bs[i].size, {}, size, kept, tail, r);
      c := kept;
    } else if StaysFor(bs, i, size) {
      var have, gone := bs[i + 1].End() - bs[i].Payload(), {bs[i + 1]};
      var kept, tail :| CutHere(bs, bs[i], have, gone, size, kept, tail, r);
      c := kept;
    } else {
      var f, kept, tail :| MovedTo(bs, bs[i], size, f, kept, tail, r);
      c := kept;
      forall d | d in Used(bs) ensures d.Payload() != f.Payload() {
        if d.Payload() == f.Payload() {
          SamePayload(bs, capacity, d, f);
        }
      }
    }
  }

  lemma StoreRelated(m: Memory, bs: seq<Block>, before: seq<bv8>, b: Block, k: nat, x: bv8, m': Memory)
    requires Tiles(bs, |before|) && b in Used(bs) && k < b.size && b.End() <= |before|
    requires Shows(m, bs, before) && Shows(m', bs, before[b.Payload() + k := x])
    ensures Related(m, Store(b.Payload(), k, x), Null, m')
  {
    var p, after := b.Payload(), before[b.Payload() + k := x];
    assert Shown(m, before, b) && Shown(m', after, b);
    assert m'[p] == m[p][k := x];
    forall q | q in m && q != p ensures q in m' && m'[q] == m[q] {
      assert Backed(bs, q);
      var c :| c in Used(bs) && c.Payload() == q;
      assert Shown(m, before, c) && Shown(m', after, c);
      DisjointMembers(bs, |before|, b, c);
    }
    forall q | q in m' ensures q in m {
      assert Backed(bs, q);
      var c :| c in Used(bs) && c.Payload() == q;
      assert Shown(m, before, c);
    }
  }

  lemma StoreInto(bs: seq<Block>, capacity: nat, before: seq<bv8>, p: nat, k: nat, x: bv8)
    requires Tiles(bs, capacity) && |before| == capacity && Permitted(bs, capacity, Store(p, k, x))
    ensures p + k < capacity
    ensures Related(Contents(bs, before), Store(p, k, x), Null, Contents(bs, before[p + k := x]))
  {
    var b :| b in Used(bs) && b.Payload() == p && k < b.size;
    InBuffer(bs, capacity, b);
    var after := before[p + k := x];
    ContentsShow(bs, capacity, before);
    ContentsShow(bs, capacity, after);
    StoreRelated(Contents(bs, before), bs, before, b, k, x, Contents(bs, after));
  }

  // What one request to the heap ensures.
  ghost predicate Served(bs: seq<Block>, before: seq<bv8>, op: Op, q: Pointer, now: seq<Block>, after: seq<bv8>)
  {
    match op
    case Alloc(n) => Outcome(now, q) == AllocBlock(bs, n) && Preserved(Used(bs), before, after)
    case Free(p) => now == FreeBlock(bs, p) && Preserved(Used(now), before, after)
    case Resize(ptr, n) =>
      if ptr.Null? then Outcome(now, q) == AllocBlock(bs, n) && Preserved(Used(bs), before, after)
      else if n == 0 then now == FreeBlock(bs, ptr.at) && Preserved(Used(now), before, after)
      else
        && Outcome(now, q) == ResizeBlock(bs, ptr, n) && Preserved(Used(bs) * Used(now), before, after)
        && (q.Ptr? ==> Carries(bs, ptr.at, before, now, q.at, after))
  }

  lemma ServedRelated(bs: seq<Block>, before: seq<bv8>, op: Op, q: Pointer, now: seq<Block>, after: seq<bv8>)
    requires Tiles(bs, |before|) && Tiles(now, |after|) && Legal(bs, |before|, op)
    requires Served(bs, before, op, q, now, after)
    ensures Related(Contents(bs, before), Request(op), q, Contents(now, after))
  {
    ContentsShow(bs, |before|, before);
    ContentsShow(now, |after|, after);
    ServedRelatedAs(Contents(bs, before), bs, before, op, q, Contents(now, after), now, after);
  }

  lemma ServedRelatedAs(m: Memory, bs: seq<Block>, before: seq<bv8>, op: Op, q: Pointer,
                        m': Memory, now: seq<Block>, after: seq<bv8>)
    requires Tiles(bs, |before|) && Tiles(now, |after|) && Legal(bs, |before|, op)
    requires Shows(m, bs, before) && Shows(m', now, after) && Served(bs, before, op, q, now, after)
    ensures Related(m, Request(op), q, m')
  {
    match op
    case Alloc(n) => AllocRelated(m, bs, before, n, Outcome(now, q), m', after);
    case Free(p) => FreeRelated(m, bs, before, p, m', after);
    case Resize(ptr, n) =>
      if ptr.Null? {
        AllocRelated(m, bs, before, n, Outcome(now, q), m', after);
      } else if n == 0 {
        FreeRelated(m, bs, before, ptr.at, m', after);
      } else {
        ResizeRelated(m, bs, before, ptr.at, n, Outcome(now, q), m', after);
      }
  }

  // ---------- runs ----------

  method Serve(h: Heap, op: Op) returns (q: Pointer)
    requires h.Valid() && Legal(h.view, h.capacity, op)
    modifies h, h.blocks, h.blocks.nodes, h.buffer
    ensures h.Valid() && h.view == Step(old(h.view), op)
    ensures forall k :: 0 <= k < |h.blocks.nodes| ==>
              h.blocks.nodes[k] in old(h.blocks.nodes) || fresh(h.blocks.nodes[k])
    ensures Served(old(h.view), old(h.buffer[..]), op, q, h.view, h.buffer[..])
    ensures q == Answer(old(h.view), Request(op))
  {
    match op
    case Alloc(n) => q := h.Alloc(n);
    case Free(p) => h.Free(p); q := Null;
    case Resize(ptr, n) =>
      if ptr.Null? {
        q := h.Alloc(n);
      } else if n == 0 {
        h.Free(ptr.at);
        q := Null;
      } else {
        q := h.Resize(ptr, n);
      }
  }

  lemma InPayload(bs: seq<Block>, capacity: nat, p: nat, k: nat, x: bv8)
    requires Tiles(bs, capacity) && Permitted(bs, capacity, Store(p, k, x))
    ensures p + k < capacity
  {
    var b :| b in Used(bs) && b.Payload() == p && k < b.size;
    InBuffer(bs, capacity, b);
  }

  /** A client's store into a payload. */
  method StoreByte(h: Heap, p: nat, k: nat, x: bv8)
    requires h.Valid() && Permitted(h.view, h.capacity, Store(p, k, x))
    modifies h.buffer
    ensures h.Valid() && p + k < h.buffer.Length && h.buffer[..] == old(h.buffer[..])[p + k := x]
  {
    InPayload(h.view, h.capacity, p, k, x);
    h.buffer[p + k] := x;
  }

  // `m` is what the heap shows.
  ghost predicate IsMemory(h: Heap, m: Memory)
    reads h, h.buffer
  {
    m == Contents(h.view, h.buffer[..])
  }

  /** A request, or a store. */
  method Apply(h: Heap, op: ClientOp, ghost m: Memory) returns (q: Pointer, ghost m': Memory)
    requires h.Valid() && Permitted(h.view, h.capacity, op) && IsMemory(h, m)
    modifies h, h.blocks, h.blocks.nodes, h.buffer
    ensures h.Valid() && h.view == ClientStep(old(h.view), op) && q == Answer(old(h.view), op)
    ensures IsMemory(h, m') && Related(m, op, q, m')
    ensures forall k :: 0 <= k < |h.blocks.nodes| ==>
              h.blocks.nodes[k] in old(h.blocks.nodes) || fresh(h.blocks.nodes[k])
  {
    if op.Request? {
      q, m' := ApplyRequest(h, op.op, m);
    } else {
      q := Null;
      m' := ApplyStore(h, op.p, op.k, op.x, m);
    }
  }

  method ApplyRequest(h: Heap, op: Op, ghost m: Memory) returns (q: Pointer, ghost m': Memory)
    requires h.Valid() && Legal(h.view, h.capacity, op) && IsMemory(h, m)
    modifies h, h.blocks, h.blocks.nodes, h.buffer
    ensures h.Valid() && h.view == Step(old(h.view), op) && q == Answer(old(h.view), Request(op))
    ensures IsMemory(h, m') && Related(m, Request(op), q, m')
    ensures forall k :: 0 <= k < |h.blocks.nodes| ==>
              h.blocks.nodes[k] in old(h.blocks.nodes) || fresh(h.blocks.nodes[k])
  {
    q := Serve(h, op);
    ServedRelated(old(h.view), old(h.buffer[..]), op, q, h.view, h.buffer[..]);
    m' := Contents(h.view, h.buffer[..]);
  }

  method ApplyStore(h: Heap, p: nat, k: nat, x: bv8, ghost m: Memory) returns (ghost m': Memory)
    requires h.Valid() && Permitted(h.view, h.capacity, Store(p, k, x)) && IsMemory(h, m)
    modifies h.buffer
    ensures h.Valid() && IsMemory(h, m') && Related(m, Store(p, k, x), Null, m')
  {
    StoreInto(h.view, h.capacity, h.buffer[..], p, k, x);
    StoreByte(h, p, k, x);
    m' := Contents(h.view, h.buffer[..]);
  }

  ghost predicate PermittedRun(bs: seq<Block>, capacity: nat, ops: seq<ClientOp>)
    decreases |ops|
  {
    ops == [] || (Permitted(bs, capacity, ops[0]) && PermittedRun(ClientStep(bs, ops[0]), capacity, ops[1..]))
  }

  /** The memories between the operations of a run. */
  ghost predicate Trace(ms: seq<Memory>, ops: seq<ClientOp>, qs: seq<Pointer>)
  {
    |ms| == |ops| + 1 && |qs| == |ops| &&
    forall i :: 0 <= i < |ops| ==> Related(ms[i], ops[i], qs[i], ms[i + 1])
  }

  /**
   Over any run of requests and stores the heap answers as the value model does, so that it refuses
   only what does not fit, and is the map from live pointers to bytes that the client expects.
   */
  method Execute(h: Heap, ops: seq<ClientOp>) returns (qs: seq<Pointer>, ghost ms: seq<Memory>)
    requires h.Valid() && PermittedRun(h.view, h.capacity, ops)
    modifies h, h.blocks, h.blocks.nodes, h.buffer
    ensures h.Valid() && h.view == ClientRun(old(h.view), ops) && qs == Answers(old(h.view), ops)
    ensures AllJustified(old(h.view), ops, qs)
    ensures Trace(ms, ops, qs)
    ensures old(IsMemory(h, ms[0])) && IsMemory(h, ms[|ops|])
  {
    ghost var bs, m := h.view, Contents(h.view, h.buffer[..]);
    ghost var start := m;
    qs, ms := [], [m];
    OnCourseStart(bs, h.capacity, ops, m);
    for i := 0 to |ops|
      invariant h.Valid() && IsMemory(h, m)
      invariant OnCourse(bs, start, h.capacity, ops, i, qs, ms, h.view, m)
      invariant forall k :: 0 <= k < |h.blocks.nodes| ==>
                h.blocks.nodes[k] in old(h.blocks.nodes) || fresh(h.blocks.nodes[k])
    {
      ghost var was := h.view;
      NextPermitted(was, h.capacity, ops, i);
      var q;
      q, m := Apply(h, ops[i], m);
      OnCourseMore(bs, start, h.capacity, ops, i, qs, ms, was, q, m);
      qs, ms := qs + [q], ms + [m];
    }
    OnCourseEnd(bs, start, h.capacity, ops, qs, ms, h.view, m);
    AnswersJustified(bs, h.capacity, ops);
  }

  // The answer to one operation, stated on the blocks alone.
  ghost predicate Justified(bs: seq<Block>, op: ClientOp, r: Outcome)
  {
    match op
    case Store(_, _, _) => r == Outcome(bs, Null)
    case Request(Alloc(n)) => AllocatedFor(bs, n, r)
    case Request(Free(p)) => r.result.Null? && Used(r.blocks) == set b | b in Used(bs) && b.Payload() != p
    case Request(Resize(ptr, n)) =>
      if ptr.Null? then AllocatedFor(bs, n, r)
      else if n == 0 then r.result.Null? && Used(r.blocks) == set b | b in Used(bs) && b.Payload() != ptr.at
      else exists i: nat :: LiveAt(bs, i, ptr.at) && ResizedFor(bs, i, n, r)
  }

  ghost predicate AllJustified(bs: seq<Block>, ops: seq<ClientOp>, qs: seq<Pointer>)
    decreases |ops|
  {
    if ops == [] then qs == []
    else
      && qs != [] && Justified(bs, ops[0], Outcome(ClientStep(bs, ops[0]), qs[0]))
      && AllJustified(ClientStep(bs, ops[0]), ops[1..], qs[1..])
  }

  lemma {:induction false} AnswersJustified(bs: seq<Block>, capacity: nat, ops: seq<ClientOp>)
    requires Tiles(bs, capacity) && PermittedRun(bs, capacity, ops)
    ensures AllJustified(bs, ops, Answers(bs, ops))
    decreases |ops|
  {
    if ops != [] {
      AnswerJustified(bs, capacity, ops[0]);
      if ops[0].Request? {
        StepTiles(bs, capacity, ops[0].op);
      }
      AnswersJustified(ClientStep(bs, ops[0]), capacity, ops[1..]);
    }
  }

  lemma AnswerJustified(bs: seq<Block>, capacity: nat, op: ClientOp)
    requires Tiles(bs, capacity) && Permitted(bs, capacity, op)
    ensures Justified(bs, op, Outcome(ClientStep(bs, op), Answer(bs, op)))
  {
    match op
    case Store(_, _, _) =>
    case Request(Alloc(n)) => AllocEffect(bs, capacity, n);
    case Request(Free(p)) => FreeJustified(bs, capacity, p);
    case Request(Resize(ptr, n)) =>
      if ptr.Null? {
        AllocEffect(bs, capacity, n);
      } else if n == 0 {
        FreeJustified(bs, capacity, ptr.at);
      } else {
        LiveBlockOf(bs, capacity, ptr.at);
        ResizeEffect(bs, capacity, BlockOf(bs, ptr.at), n);
      }
  }

  lemma FreeJustified(bs: seq<Block>, capacity: nat, p: nat)
    requires Tiles(bs, capacity) && (IsLive(bs, p) || p == 0 || p >= capacity)
    ensures Used(FreeBlock(bs, p)) == set b | b in Used(bs) && b.Payload() != p
  {
    if IsLive(bs, p) {
      LiveBlockOf(bs, capacity, p);
      var i := BlockOf(bs, p);
      FreeEffect(bs, capacity, i);
      forall b | b in Used(bs) && b.Payload() == p ensures b == bs[i] {
        SamePayload(bs, capacity, b, bs[i]);
      }
    } else {
      OutsidePointer(bs, capacity, p);
      forall b | b in Used(bs) ensures b.Payload() != p {
        var i: nat :| i < |bs| && bs[i] == b;
      }
    }
  }

  // After `i` operations the blocks are `now` and the memory `m`, and the rest of the run is still ahead.
  ghost predicate OnCourse(bs: seq<Block>, start: Memory, capacity: nat, ops: seq<ClientOp>, i: nat,
                           qs: seq<Pointer>, ms: seq<Memory>, now: seq<Block>, m: Memory)
  {
    && i <= |ops| && Trace(ms, ops[..i], qs) && ms[0] == start && ms[i] == m
    && Ahead(bs, capacity, ops, i, qs, now)
  }

  ghost predicate Ahead(bs: seq<Block>, capacity: nat, ops: seq<ClientOp>, i: nat, qs: seq<Pointer>, now: seq<Block>)
    requires i <= |ops|
  {
    && PermittedRun(now, capacity, ops[i..])
    && ClientRun(now, ops[i..]) == ClientRun(bs, ops) && qs + Answers(now, ops[i..]) == Answers(bs, ops)
  }

  lemma AheadMore(bs: seq<Block>, capacity: nat, ops: seq<ClientOp>, i: nat, qs: seq<Pointer>, now: seq<Block>)
    requires i < |ops| && Ahead(bs, capacity, ops, i, qs, now)
    ensures Ahead(bs, capacity, ops, i + 1, qs + [Answer(now, ops[i])], ClientStep(now, ops[i]))
  {
    NextPermitted(now, capacity, ops, i);
    Associate(qs, [Answer(now, ops[i])], Answers(ClientStep(now, ops[i]), ops[i + 1..]));
  }

  lemma OnCourseStart(bs: seq<Block>, capacity: nat, ops: seq<ClientOp>, m: Memory)
    requires PermittedRun(bs, capacity, ops)
    ensures OnCourse(bs, m, capacity, ops, 0, [], [m], bs, m)
  {
    assert ops[0..] == ops;
  }

  lemma OnCourseMore(bs: seq<Block>, start: Memory, capacity: nat, ops: seq<ClientOp>, i: nat,
                     qs: seq<Pointer>, ms: seq<Memory>, now: seq<Block>, q: Pointer, m: Memory)
    requires i < |ops| && |ms| > i && OnCourse(bs, start, capacity, ops, i, qs, ms, now, ms[i])
    requires q == Answer(now, ops[i]) && Related(ms[i], ops[i], q, m)
    ensures OnCourse(bs, start, capacity, ops, i + 1, qs + [q], ms + [m], ClientStep(now, ops[i]), m)
  {
    TraceMore(ms, ops, i, qs, q, m);
    AheadMore(bs, capacity, ops, i, qs, now);
  }

  lemma OnCourseEnd(bs: seq<Block>, start: Memory, capacity: nat, ops: seq<ClientOp>,
                    qs: seq<Pointer>, ms: seq<Memory>, now: seq<Block>, m: Memory)
    requires OnCourse(bs, start, capacity, ops, |ops|, qs, ms, now, m)
    ensures Trace(ms, ops, qs) && ms[0] == start && ms[|ops|] == m
    ensures now == ClientRun(bs, ops) && qs == Answers(bs, ops)
  {
    assert ops[..|ops|] == ops && ops[|ops|..] == [];
  }

  // The first operation that is still ahead.
  lemma NextPermitted(bs: seq<Block>, capacity: nat, ops: seq<ClientOp>, i: nat)
    requires i < |ops| && PermittedRun(bs, capacity, ops[i..])
    ensures var next := ClientStep(bs, ops[i]);
            && Permitted(bs, capacity, ops[i]) && PermittedRun(next, capacity, ops[i + 1..])
            && ClientRun(bs, ops[i..]) == ClientRun(next, ops[i + 1..])
            && Answers(bs, ops[i..]) == [Answer(bs, ops[i])] + Answers(next, ops[i + 1..])
  {
    assert ops[i..][1..] == ops[i + 1..];
  }

  lemma TraceMore(ms: seq<Memory>, ops: seq<ClientOp>, i: nat, qs: seq<Pointer>, q: Pointer, m: Memory)
    requires i < |ops| && Trace(ms, ops[..i], qs) && Related(ms[i], ops[i], q, m)
    ensures Trace(ms + [m], ops[..i + 1], qs + [q])
  {
    var ms', qs' := ms + [m], qs + [q];
    forall j | 0 <= j < i + 1 ensures Related(ms'[j], ops[..i + 1][j], qs'[j], ms'[j + 1]) {
      if j < i {
        assert Related(ms[j], ops[..i][j], qs[j], ms[j + 1]);
      }
    }
  }

  // ---------- what that gives a client ----------

  // Where the block at `p` is after the operation.
  function Next(op: ClientOp, q: Pointer, p: nat): nat
  {
    if op.Request? && op.op.Resize? && op.op.ptr == Ptr(p) && q.Ptr? then q.at else p
  }

  function Track(ops: seq<ClientOp>, qs: seq<Pointer>, p: nat): nat
    requires |ops| == |qs|
    decreases |ops|
  {
    if ops == [] then p else Track(ops[1..], qs[1..], Next(ops[0], qs[0], p))
  }

  // The operation neither gives up nor overwrites byte `k` of the block at `p`.
  predicate Spares(op: ClientOp, p: nat, k: nat)
  {
    match op
    case Store(p', k', _) => p' != p || k' != k
    case Request(Alloc(_)) => true
    case Request(Free(p')) => p' != p
    case Request(Resize(ptr, n)) => ptr != Ptr(p) || k < n
  }

  predicate RunSpares(ops: seq<ClientOp>, qs: seq<Pointer>, p: nat, k: nat)
    requires |ops| == |qs|
    decreases |ops|
  {
    ops == [] || (Spares(ops[0], p, k) && RunSpares(ops[1..], qs[1..], Next(ops[0], qs[0], p), k))
  }

  lemma StepPersists(m: Memory, op: ClientOp, q: Pointer, m': Memory, p: nat, k: nat)
    requires Related(m, op, q, m') && p in m && k < |m[p]| && Spares(op, p, k)
    ensures var r := Next(op, q, p); r in m' && k < |m'[r]| && m'[r][k] == m[p][k]
  {
    match op
    case Store(_, _, _) =>
    case Request(Alloc(_)) => Elsewhere(m, {}, m', if q.Ptr? then {q.at} else {}, p);
    case Request(Free(p')) => assert p in m - {p'};
    case Request(Resize(ptr, n)) =>
      if ptr.Null? {
        Elsewhere(m, {}, m', if q.Ptr? then {q.at} else {}, p);
      } else if ptr.at != p && n > 0 && q.Ptr? {
        Elsewhere(m, {ptr.at}, m', {q.at}, p);
      }
  }

  lemma Elsewhere(m: Memory, gone: set<nat>, m': Memory, come: set<nat>, p: nat)
    requires m' - come == m - gone && p in m && p !in gone
    ensures p in m' && m'[p] == m[p]
  {
    assert p in m - gone && (m - gone)[p] == m[p];
    assert p in m' - come && (m' - come)[p] == m'[p];
  }

  /**
   A byte stays with its block, wherever reallocation takes it, until the client frees the block,
   shrinks it below the byte or stores another value there.
   */
  lemma {:induction false} BytePersists(ms: seq<Memory>, ops: seq<ClientOp>, qs: seq<Pointer>, p: nat, k: nat)
    requires Trace(ms, ops, qs) && p in ms[0] && k < |ms[0][p]| && RunSpares(ops, qs, p, k)
    ensures var r, end := Track(ops, qs, p), ms[|ops|];
            r in end && k < |end[r]| && end[r][k] == ms[0][p][k]
    decreases |ops|
  {
    if ops != [] {
      assert Related(ms[0], ops[0], qs[0], ms[1]);
      StepPersists(ms[0], ops[0], qs[0], ms[1], p, k);
      forall i | 0 <= i < |ops| - 1 ensures Related(ms[1..][i], ops[1..][i], qs[1..][i], ms[1..][i + 1]) {
        assert Related(ms[i + 1], ops[i + 1], qs[i + 1], ms[i + 2]);
      }
      BytePersists(ms[1..], ops[1..], qs[1..], Next(ops[0], qs[0], p), k);
    }
  }
}
