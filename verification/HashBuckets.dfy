/** Bucket arrays of singly linked chains (lib/hash/common.c). */
module HashBuckets {
  import opened Sequences
  import opened Sizes
  import opened Allocators
  import opened HashModel

  class Entry<K, V> {
    var next: Entry?<K, V>
    const hash: nat
    const key: K
    const block: nat  // its address
    var value: V

    constructor (h: nat, k: K, v: V, p: nat)
      ensures hash == h && key == k && value == v && block == p
    {
      hash, key, value, block, next := h, k, v, p, null;
    }
  }

  /** Following `next` from `head` visits exactly `chain` and ends. */
  ghost predicate Chain<K, V>(head: Entry?<K, V>, chain: seq<Entry<K, V>>)
    reads chain`next
  {
    && head == (if chain == [] then null else chain[0])
    && forall j {:trigger chain[j].next} :: 0 <= j < |chain| ==>
        chain[j].next == if j + 1 < |chain| then chain[j + 1] else null
  }

  predicate Matches<K, V>(e: Entry<K, V>, key: K, hash: nat, eq: Equality<K>)
  {
    e.hash == hash && eq(e.key, key)
  }

  /** The first entry of the chain with this hash and an equal key, or null. */
  method Find<K, V>(head: Entry?<K, V>, key: K, hash: nat, eq: Equality<K>, ghost chain: seq<Entry<K, V>>)
    returns (found: Entry?<K, V>)
    requires Chain(head, chain)
    ensures found == null ==> forall e :: e in chain ==> !Matches(e, key, hash, eq)
    ensures found != null ==> found in chain && Matches(found, key, hash, eq)
  {
    var node := head;
    ghost var j := 0;
    while node != null
      invariant j <= |chain| && node == if j < |chain| then chain[j] else null
      invariant forall i :: 0 <= i < j ==> !Matches(chain[i], key, hash, eq)
      decreases |chain| - j
    {
      if Matches(node, key, hash, eq) {
        return node;
      }
      node := node.next;
      j := j + 1;
    }
    found := null;
  }

  function Slot(hash: nat, capacity: nat): (b: nat)
    requires capacity > 0
    ensures b < capacity
  {
    hash % capacity
  }

  function Home<K, V>(e: Entry<K, V>, capacity: nat): (b: nat)
    requires capacity > 0
    ensures b < capacity
  {
    Slot(e.hash, capacity)
  }

  /** The chains hold exactly `nodes`, each once, in the bucket that its hash selects. */
  ghost predicate Filed<K, V>(chains: seq<seq<Entry<K, V>>>, nodes: set<Entry<K, V>>)
  {
    && |chains| > 0
    && (forall b, e :: 0 <= b < |chains| && e in chains[b] ==> e in nodes && Home(e, |chains|) == b)
    && (forall e :: e in nodes ==> e in chains[Home(e, |chains|)])
    && (forall b :: 0 <= b < |chains| ==> Distinct(chains[b]))
  }

  /** Row `b` of a table of `n` buckets. */
  ghost predicate Row<K, V>(head: Entry?<K, V>, chain: seq<Entry<K, V>>, nodes: set<Entry<K, V>>, n: nat, b: nat)
    requires n > 0
    reads nodes`next
  {
    && (forall e :: e in chain ==> e in nodes && Home(e, n) == b)
    && Distinct(chain)
    && Chain(head, chain)
  }

  // Row by row rather than for all rows at once, so that a client sees a table as a unit.
  ghost predicate Rows<K, V>(buckets: array<Entry?<K, V>>, chains: seq<seq<Entry<K, V>>>, nodes: set<Entry<K, V>>,
                             i: nat)
    requires 0 < |chains| == buckets.Length && i <= |chains|
    reads buckets, nodes`next
  {
    if i == 0 then forall e :: e in nodes ==> e in chains[Home(e, |chains|)]
    else Row(buckets[i - 1], chains[i - 1], nodes, |chains|, i - 1) && Rows(buckets, chains, nodes, i - 1)
  }

  /** The array heads the chains, which hold exactly `nodes`. */
  ghost predicate Table<K, V>(buckets: array<Entry?<K, V>>, chains: seq<seq<Entry<K, V>>>, nodes: set<Entry<K, V>>)
    reads buckets, nodes`next
  {
    0 < |chains| == buckets.Length && Rows(buckets, chains, nodes, |chains|)
  }

  lemma OpenTable<K, V>(buckets: array<Entry?<K, V>>, chains: seq<seq<Entry<K, V>>>, nodes: set<Entry<K, V>>)
    requires Table(buckets, chains, nodes)
    ensures Filed(chains, nodes)
    ensures forall b :: 0 <= b < |chains| ==> Chain(buckets[b], chains[b])
  {
    OpenRows(buckets, chains, nodes, |chains|);
  }

  lemma {:induction false} OpenRows<K, V>(buckets: array<Entry?<K, V>>, chains: seq<seq<Entry<K, V>>>,
                                          nodes: set<Entry<K, V>>, i: nat)
    requires 0 < |chains| == buckets.Length && i <= |chains| && Rows(buckets, chains, nodes, i)
    ensures forall e :: e in nodes ==> e in chains[Home(e, |chains|)]
    ensures forall b :: 0 <= b < i ==> Row(buckets[b], chains[b], nodes, |chains|, b)
  {
    if i > 0 {
      OpenRows(buckets, chains, nodes, i - 1);
    }
  }

  lemma CloseTable<K, V>(buckets: array<Entry?<K, V>>, chains: seq<seq<Entry<K, V>>>, nodes: set<Entry<K, V>>)
    requires Filed(chains, nodes) && buckets.Length == |chains|
    requires forall b :: 0 <= b < |chains| ==> Chain(buckets[b], chains[b])
    ensures Table(buckets, chains, nodes)
  {
    CloseRows(buckets, chains, nodes, |chains|);
  }

  lemma {:induction false} CloseRows<K, V>(buckets: array<Entry?<K, V>>, chains: seq<seq<Entry<K, V>>>,
                                           nodes: set<Entry<K, V>>, i: nat)
    requires Filed(chains, nodes) && buckets.Length == |chains| && i <= |chains|
    requires forall b :: 0 <= b < |chains| ==> Chain(buckets[b], chains[b])
    ensures Rows(buckets, chains, nodes, i)
  {
    if i > 0 {
      CloseRows(buckets, chains, nodes, i - 1);
    }
  }

  lemma FiledPush<K, V>(chains: seq<seq<Entry<K, V>>>, nodes: set<Entry<K, V>>, b: nat, node: Entry<K, V>)
    requires Filed(chains, nodes) && node !in nodes && b == Home(node, |chains|)
    ensures Filed(chains[b := [node] + chains[b]], nodes + {node})
  {
  }

  /** `k4c_hash_common_bucket_pushfront` */
  method PushFront<K, V>(buckets: array<Entry?<K, V>>, b: nat, node: Entry<K, V>,
                         ghost chains: seq<seq<Entry<K, V>>>, ghost nodes: set<Entry<K, V>>)
    requires Table(buckets, chains, nodes) && node !in nodes && b == Home(node, |chains|)
    modifies buckets, node`next
    ensures Table(buckets, chains[b := [node] + chains[b]], nodes + {node})
  {
    OpenTable(buckets, chains, nodes);
    FiledPush(chains, nodes, b, node);
    assert forall c :: 0 <= c < |chains| ==> node !in chains[c];
    node.next := buckets[b];
    buckets[b] := node;
    ghost var after := chains[b := [node] + chains[b]];
    forall c | 0 <= c < |after|
      ensures Chain(buckets[c], after[c])
    {
      assert Chain(old(buckets[c]), chains[c]);
      if c == b {
        PushedChain(node, old(buckets[b]), chains[b]);
      }
    }
    CloseTable(buckets, after, nodes + {node});
  }

  lemma PushedChain<K, V>(node: Entry<K, V>, head: Entry?<K, V>, chain: seq<Entry<K, V>>)
    requires Chain(head, chain) && node.next == head
    ensures Chain(node, [node] + chain)
  {
  }

  ghost function Members<K, V>(chain: seq<Entry<K, V>>): set<Entry<K, V>>
  {
    set e | e in chain
  }

  lemma MembersSnoc<K, V>(chain: seq<Entry<K, V>>, j: nat)
    requires j < |chain| && Distinct(chain)
    ensures Members(chain[..j + 1]) == Members(chain[..j]) + {chain[j]}
    ensures chain[j] !in Members(chain[..j])
  {
  }

  lemma ChainRest<K, V>(head: Entry?<K, V>, chain: seq<Entry<K, V>>)
    requires Chain(head, chain) && head != null
    ensures chain != [] && chain[0] == head && Chain(head.next, chain[1..])
  {
  }

  /** Relinks a whole chain into the table `buckets`. */
  method MoveChain<K, V>(head: Entry?<K, V>, buckets: array<Entry?<K, V>>, ghost chain: seq<Entry<K, V>>,
                         ghost chains: seq<seq<Entry<K, V>>>, ghost moved: set<Entry<K, V>>)
    returns (ghost chains': seq<seq<Entry<K, V>>>)
    requires Chain(head, chain) && Distinct(chain) && forall e :: e in chain ==> e !in moved
    requires Table(buckets, chains, moved)
    modifies buckets, chain`next
    ensures |chains'| == |chains| && Table(buckets, chains', moved + Members(chain))
  {
    chains' := chains;
    var node := head;
    ghost var j := 0;
    assert chain[0..] == chain && moved + Members(chain[..0]) == moved;
    while node != null
      invariant j <= |chain| && Chain(node, chain[j..])
      invariant |chains'| == |chains| && Table(buckets, chains', moved + Members(chain[..j]))
      decreases |chain| - j
    {
      ChainRest(node, chain[j..]);
      MembersSnoc(chain, j);
      assert chain[j] == node && chain[j..][1..] == chain[j + 1..];
      var next := node.next;
      var b := Home(node, buckets.Length);
      PushFront(buckets, b, node, chains', moved + Members(chain[..j]));
      chains' := chains'[b := [node] + chains'[b]];
      assert moved + Members(chain[..j]) + {node} == moved + Members(chain[..j + 1]);
      node := next;
      j := j + 1;
    }
    assert chain[..j] == chain;
  }

  // `sizeof(k4c_hash_common_bucket)` on LP64.
  const BUCKET_SIZE: SizeT := 8

  /** `k4c_hash_common_buckets_create` */
  method CreateBuckets<K, V>(capacity: SizeT, a: Allocator)
    returns (st: Status, out: array?<Entry?<K, V>>, block: Pointer)
    requires capacity > 0
    modifies a
    ensures st in {OK, OVERFLOW, NO_MEMORY} && (st == OK <==> out != null)
    ensures st == OVERFLOW <==> BUCKET_SIZE * capacity > SIZE_MAX
    ensures out != null ==> fresh(out) && out.Length == capacity
    ensures out != null ==> Table(out, Empty<K, V>(capacity), {})
    ensures st == OK <==> block.Ptr?
    ensures a.outstanding == old(a.outstanding) + if st == OK then 1 else 0
    ensures a.failed == old(a.failed) + if st == NO_MEMORY then 1 else 0
    ensures st == OK ==> block.at !in old(a.books.granted)
                         && a.books.granted == old(a.books.granted)[block.at := BUCKET_SIZE * capacity]
    ensures st != OK ==> a.books.granted == old(a.books.granted)
  {
    out := null;
    var bytes := MulOverflow(BUCKET_SIZE, capacity);
    if bytes.Overflow? {
      return OVERFLOW, null, Null;
    }
    block := a.Alloc(bytes.value);
    if block.Null? {
      return NO_MEMORY, null, Null;
    }
    out := new Entry?<K, V>[capacity](_ => null);
    CloseTable(out, Empty<K, V>(capacity), {});
    st := OK;
  }

  ghost function Empty<K, V>(capacity: nat): seq<seq<Entry<K, V>>>
  {
    seq(capacity, _ => [])
  }

  // The entries that sit in the first `i` buckets.
  ghost function Below<K, V>(nodes: set<Entry<K, V>>, capacity: nat, i: nat): set<Entry<K, V>>
    requires capacity > 0
  {
    set e | e in nodes && Home(e, capacity) < i
  }

  lemma BelowNext<K, V>(chains: seq<seq<Entry<K, V>>>, nodes: set<Entry<K, V>>, i: nat)
    requires Filed(chains, nodes) && i < |chains|
    ensures Below(nodes, |chains|, i + 1) == Below(nodes, |chains|, i) + Members(chains[i])
    ensures forall e :: e in chains[i] ==> e !in Below(nodes, |chains|, i)
    ensures forall k :: 0 <= k < |chains[i]| ==> chains[i][k] in nodes
  {
  }

  /**
   `k4c_hash_common_buckets_rehash`: the same entries in a new table of `newCapacity` buckets,
   or, when the request for it fails, the old table as it was.
   */
  method Rehash<K, V>(buckets: array<Entry?<K, V>>, block: nat, newCapacity: SizeT, a: Allocator,
                      ghost chains: seq<seq<Entry<K, V>>>, ghost nodes: set<Entry<K, V>>)
    returns (st: Status, out: array?<Entry?<K, V>>, block': Pointer, ghost chains': seq<seq<Entry<K, V>>>)
    requires Table(buckets, chains, nodes) && newCapacity > 0
    modifies nodes`next, a
    ensures st in {OK, OVERFLOW, NO_MEMORY} && (st == OK <==> out != null)
    ensures out != null ==> fresh(out) && out.Length == newCapacity && Table(out, chains', nodes)
    ensures out != null ==> |chains'| == newCapacity && forall e :: e in nodes ==> e in chains'[e.hash % newCapacity]
    ensures out == null ==> Table(buckets, chains, nodes)
    ensures (st == OK <==> block'.Ptr?) && a.outstanding == old(a.outstanding)
    ensures st == OVERFLOW <==> BUCKET_SIZE * newCapacity > SIZE_MAX
    ensures a.failed == old(a.failed) + if st == NO_MEMORY then 1 else 0
    ensures st == OK ==> block'.at !in old(a.books.granted)
                         && a.books.granted == old(a.books.granted)[block'.at := BUCKET_SIZE * newCapacity] - {block}
    ensures st != OK ==> a.books.granted == old(a.books.granted)
  {
    chains' := Empty(newCapacity);
    st, out, block' := CreateBuckets(newCapacity, a);
    if st != OK {
      return;
    }
    chains' := MoveAll(buckets, out, chains, nodes, chains');
    a.Dealloc(Ptr(block));
    OpenTable(out, chains', nodes);
    assert forall e :: e in nodes ==> e in chains'[Home(e, newCapacity)];
  }

  // The entries that sit in bucket `i` or behind it.
  ghost function Above<K, V>(nodes: set<Entry<K, V>>, capacity: nat, i: nat): set<Entry<K, V>>
    requires capacity > 0
  {
    set e | e in nodes && Home(e, capacity) >= i
  }

  // The chains from bucket `i` on are still in place, which concerns the entries there only.
  ghost predicate Upper<K, V>(buckets: array<Entry?<K, V>>, chains: seq<seq<Entry<K, V>>>, nodes: set<Entry<K, V>>,
                              i: nat)
    requires i <= |chains| == buckets.Length && |chains| > 0
    reads buckets, Above(nodes, |chains|, i)`next
    decreases |chains| - i
  {
    if i == |chains| then Filed(chains, nodes)
    else InPlace(buckets[i], chains[i], Above(nodes, |chains|, i)) && Upper(buckets, chains, nodes, i + 1)
  }

  ghost predicate InPlace<K, V>(head: Entry?<K, V>, chain: seq<Entry<K, V>>, nodes: set<Entry<K, V>>)
    reads nodes`next
  {
    (forall k :: 0 <= k < |chain| ==> chain[k] in nodes) && Chain(head, chain)
  }

  lemma {:induction false} OpenUpper<K, V>(buckets: array<Entry?<K, V>>, chains: seq<seq<Entry<K, V>>>,
                                           nodes: set<Entry<K, V>>, i: nat)
    requires i <= |chains| == buckets.Length && |chains| > 0 && Upper(buckets, chains, nodes, i)
    ensures Filed(chains, nodes)
    ensures i < |chains| ==> Chain(buckets[i], chains[i]) && Upper(buckets, chains, nodes, i + 1)
    decreases |chains| - i
  {
    if i < |chains| {
      OpenUpper(buckets, chains, nodes, i + 1);
    }
  }

  lemma {:induction false} CloseUpper<K, V>(buckets: array<Entry?<K, V>>, chains: seq<seq<Entry<K, V>>>,
                                            nodes: set<Entry<K, V>>, i: nat)
    requires Filed(chains, nodes) && i <= |chains| == buckets.Length
    requires forall c :: 0 <= c < |chains| ==> Chain(buckets[c], chains[c])
    ensures Upper(buckets, chains, nodes, i)
    decreases |chains| - i
  {
    if i < |chains| {
      CloseUpper(buckets, chains, nodes, i + 1);
    }
  }

  method MoveAll<K, V>(buckets: array<Entry?<K, V>>, out: array<Entry?<K, V>>,
                       ghost chains: seq<seq<Entry<K, V>>>, ghost nodes: set<Entry<K, V>>,
                       ghost start: seq<seq<Entry<K, V>>>)
    returns (ghost chains': seq<seq<Entry<K, V>>>)
    requires Table(buckets, chains, nodes) && Table(out, start, {}) && buckets != out
    modifies out, nodes`next
    ensures Table(out, chains', nodes)
  {
    AllUpper(buckets, chains, nodes);
    chains' := start;
    for i := 0 to buckets.Length
      invariant |chains'| == out.Length && Table(out, chains', Below(nodes, |chains|, i))
      invariant Upper(buckets, chains, nodes, i)
    {
      chains' := MoveBucket(buckets, i, out, chains, nodes, chains');
    }
    AllBelow(nodes, |chains|);
  }

  lemma AllUpper<K, V>(buckets: array<Entry?<K, V>>, chains: seq<seq<Entry<K, V>>>, nodes: set<Entry<K, V>>)
    requires Table(buckets, chains, nodes)
    ensures Upper(buckets, chains, nodes, 0) && Below(nodes, |chains|, 0) == {}
  {
    OpenTable(buckets, chains, nodes);
    CloseUpper(buckets, chains, nodes, 0);
  }

  lemma AllBelow<K, V>(nodes: set<Entry<K, V>>, n: nat)
    requires n > 0
    ensures Below(nodes, n, n) == nodes
  {
  }

  method MoveBucket<K, V>(buckets: array<Entry?<K, V>>, i: nat, out: array<Entry?<K, V>>,
                          ghost chains: seq<seq<Entry<K, V>>>, ghost nodes: set<Entry<K, V>>,
                          ghost before: seq<seq<Entry<K, V>>>)
    returns (ghost chains': seq<seq<Entry<K, V>>>)
    requires i < |chains| == buckets.Length && buckets != out && Upper(buckets, chains, nodes, i)
    requires Table(out, before, Below(nodes, |chains|, i))
    modifies out, nodes`next
    ensures Upper(buckets, chains, nodes, i + 1)
    ensures |chains'| == out.Length && Table(out, chains', Below(nodes, |chains|, i + 1))
  {
    OpenUpper(buckets, chains, nodes, i);
    BelowNext(chains, nodes, i);
    assert forall e :: e in chains[i] ==> e !in Above(nodes, |chains|, i + 1);
    chains' := MoveChain(buckets[i], out, chains[i], before, Below(nodes, |chains|, i));
  }

  /** `k4c_hash_common_bucket_remove` */
  method RemoveMatch<K, V>(buckets: array<Entry?<K, V>>, b: nat, key: K, hash: nat, eq: Equality<K>,
                           ghost chains: seq<seq<Entry<K, V>>>, ghost nodes: set<Entry<K, V>>)
    returns (removed: Entry?<K, V>, ghost chains': seq<seq<Entry<K, V>>>)
    requires Table(buckets, chains, nodes) && b < |chains|
    modifies buckets, nodes`next
    ensures removed == null ==>
              Table(buckets, chains, nodes) && forall e :: e in chains[b] ==> !Matches(e, key, hash, eq)
    ensures removed != null ==> removed in nodes && Matches(removed, key, hash, eq) && removed.next == null
    ensures removed != null ==> |chains'| == |chains| && Table(buckets, chains', nodes - {removed})
  {
    OpenTable(buckets, chains, nodes);
    chains' := chains;
    ghost var j;
    var prev;
    prev, removed, j := FindWithPrev(buckets[b], key, hash, eq, chains[b]);
    if removed != null {
      Unlink(buckets, b, prev, removed, j, chains, nodes);
      chains' := chains[b := chains[b][..j] + chains[b][j + 1..]];
    }
  }

  // The walk of the removal: the first match and the entry before it.
  method FindWithPrev<K, V>(head: Entry?<K, V>, key: K, hash: nat, eq: Equality<K>, ghost chain: seq<Entry<K, V>>)
    returns (prev: Entry?<K, V>, node: Entry?<K, V>, ghost j: nat)
    requires Chain(head, chain)
    ensures node == null ==> forall e :: e in chain ==> !Matches(e, key, hash, eq)
    ensures node != null ==> j < |chain| && chain[j] == node && Matches(node, key, hash, eq)
    ensures node != null ==> prev == if j == 0 then null else chain[j - 1]
  {
    prev, node, j := null, head, 0;
    while node != null
      invariant j <= |chain| && node == if j < |chain| then chain[j] else null
      invariant prev == if j == 0 then null else chain[j - 1]
      invariant forall i :: 0 <= i < j ==> !Matches(chain[i], key, hash, eq)
      decreases |chain| - j
    {
      if Matches(node, key, hash, eq) {
        return;
      }
      prev := node;
      node := node.next;
      j := j + 1;
    }
  }

  /** Takes the entry at position `j` of bucket `b` out of its chain. */
  method Unlink<K, V>(buckets: array<Entry?<K, V>>, b: nat, prev: Entry?<K, V>, node: Entry<K, V>, ghost j: nat,
                      ghost chains: seq<seq<Entry<K, V>>>, ghost nodes: set<Entry<K, V>>)
    requires Table(buckets, chains, nodes) && b < |chains| && j < |chains[b]| && chains[b][j] == node
    requires prev == if j == 0 then null else chains[b][j - 1]
    modifies buckets, nodes`next
    ensures Table(buckets, chains[b := chains[b][..j] + chains[b][j + 1..]], nodes - {node}) && node.next == null
  {
    OpenTable(buckets, chains, nodes);
    FiledRemove(chains, nodes, b, j);
    ghost var chain, after := chains[b], chains[b := chains[b][..j] + chains[b][j + 1..]];
    if prev == null {
      buckets[b] := node.next;
    } else {
      prev.next := node.next;
    }
    node.next := null;
    forall c | 0 <= c < |after| ensures Chain(buckets[c], after[c]) {
      assert old(Chain(buckets[c], chains[c]));
      if c == b {
        assert forall i {:trigger after[b][i]} :: 0 <= i < |after[b]| ==>
            after[b][i] == if i < j then chain[i] else chain[i + 1];
      }
    }
    CloseTable(buckets, after, nodes - {node});
  }

  lemma FiledRemove<K, V>(chains: seq<seq<Entry<K, V>>>, nodes: set<Entry<K, V>>, b: nat, j: nat)
    requires Filed(chains, nodes) && b < |chains| && j < |chains[b]|
    ensures Filed(chains[b := chains[b][..j] + chains[b][j + 1..]], nodes - {chains[b][j]})
  {
    var chain, node := chains[b], chains[b][j];
    var cut := chain[..j] + chain[j + 1..];
    assert chain == chain[..j] + [node] + chain[j + 1..];
    assert node !in cut && Distinct(cut);
    var after := chains[b := cut];
    forall c, e | 0 <= c < |after| && e in after[c]
      ensures e in nodes - {node} && Home(e, |after|) == c
    {
      assert e in chains[c] && Home(node, |chains|) == b;
    }
    forall e | e in nodes - {node} ensures e in after[Home(e, |after|)] {
      assert e in chains[Home(e, |chains|)];
    }
  }
}
