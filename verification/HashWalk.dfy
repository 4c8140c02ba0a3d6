/** Walking a whole hash map: iteration, destruction, and runs of operations (lib/hash/hashmap.c). */
module HashWalks {
  import opened Sequences
  import opened Sizes
  import opened Allocators
  import opened HashLoad
  import opened HashModel
  import opened HashBuckets
  import opened HashMaps

  /** All chains, one after the other. */
  ghost function Flatten<K, V>(chains: seq<seq<Entry<K, V>>>): seq<Entry<K, V>>
  {
    if chains == [] then [] else chains[0] + Flatten(chains[1..])
  }

  lemma {:induction false} FlattenMembers<K, V>(chains: seq<seq<Entry<K, V>>>, e: Entry<K, V>)
    ensures e in Flatten(chains) <==> exists b :: 0 <= b < |chains| && e in chains[b]
  {
    if chains != [] {
      FlattenMembers(chains[1..], e);
      assert forall b :: 0 < b < |chains| ==> chains[b] == chains[1..][b - 1];
      if e in Flatten(chains[1..]) {
        var b :| 0 <= b < |chains[1..]| && e in chains[1..][b];
        assert chains[b + 1] == chains[1..][b];
      }
    }
  }

  // No entry is in two chains, or twice in one.
  ghost predicate Apart<K, V>(chains: seq<seq<Entry<K, V>>>)
  {
    && (forall b :: 0 <= b < |chains| ==> Distinct(chains[b]))
    && (forall b, c, e :: 0 <= b < c < |chains| && e in chains[b] ==> e !in chains[c])
  }

  lemma {:induction false} FlattenDistinct<K, V>(chains: seq<seq<Entry<K, V>>>)
    requires Apart(chains)
    ensures Distinct(Flatten(chains))
  {
    if chains != [] {
      var rest := chains[1..];
      assert forall b :: 0 <= b < |rest| ==> rest[b] == chains[b + 1];
      FlattenDistinct(rest);
      forall e | e in chains[0] ensures e !in Flatten(rest) {
        FlattenMembers(rest, e);
      }
      assert Distinct(chains[0]);
      DistinctConcat(chains[0], Flatten(rest));
    }
  }

  lemma DistinctConcat<T>(a: seq<T>, b: seq<T>)
    requires Distinct(a) && Distinct(b) && forall e :: e in a ==> e !in b
    ensures Distinct(a + b)
  {
    forall i, j | 0 <= i < j < |a + b| ensures (a + b)[i] != (a + b)[j] {
      if i < |a| <= j {
        assert a[i] in a && b[j - |a|] in b;
      }
    }
  }

  lemma {:induction false} DistinctSize<T>(s: seq<T>, m: set<T>)
    requires Distinct(s) && forall e :: e in s <==> e in m
    ensures |s| == |m|
  {
    if s == [] {
      assert m == {};
    } else {
      var rest := s[1..];
      forall e ensures e in rest <==> e in m - {s[0]} {
        assert e in s <==> e == s[0] || e in rest;
      }
      DistinctSize(rest, m - {s[0]});
    }
  }

  /** A table's chains list its entries, each once. */
  lemma FlattenTable<K, V>(chains: seq<seq<Entry<K, V>>>, nodes: set<Entry<K, V>>)
    requires Filed(chains, nodes)
    ensures Distinct(Flatten(chains)) && |Flatten(chains)| == |nodes|
    ensures Members(Flatten(chains)) == nodes
  {
    forall b, c, e | 0 <= b < c < |chains| && e in chains[b] ensures e !in chains[c] {
      assert Home(e, |chains|) == b;
    }
    FlattenDistinct(chains);
    var all := Flatten(chains);
    forall e | e in all ensures e in nodes {
      FlattenMembers(chains, e);
    }
    forall e | e in nodes ensures e in all {
      assert e in chains[Home(e, |chains|)];
      FlattenMembers(chains, e);
    }
    assert Members(all) == nodes;
    DistinctSize(all, nodes);
  }

  lemma {:induction false} KeyedSize<K, V>(at: map<K, Entry<K, V>>, nodes: set<Entry<K, V>>, hashOf: K -> SizeT)
    requires Keyed(at, nodes, hashOf)
    ensures |nodes| == |at|
    decreases |nodes|
  {
    if nodes == {} {
      forall k ensures k !in at {
        KeyedEmpty(at, nodes, hashOf, k);
      }
    } else {
      var e :| e in nodes;
      OpenKeyed(at, nodes, hashOf);
      KeyedRemove(at, nodes, hashOf, e);
      KeyedSize(at - {e.key}, nodes - {e}, hashOf);
      assert (at - {e.key}).Keys == at.Keys - {e.key};
      assert |at| == |at.Keys| && |at - {e.key}| == |(at - {e.key}).Keys|;
    }
  }

  lemma KeyedEmpty<K, V>(at: map<K, Entry<K, V>>, nodes: set<Entry<K, V>>, hashOf: K -> SizeT, k: K)
    requires Keyed(at, nodes, hashOf)
    ensures k in at ==> nodes != {}
  {
    OpenKeyed(at, nodes, hashOf);
  }

  lemma FlattenSnoc<K, V>(chains: seq<seq<Entry<K, V>>>, i: nat)
    requires i < |chains|
    ensures Flatten(chains[i..]) == chains[i] + Flatten(chains[i + 1..])
  {
  }

  // The buckets of the map head its chains, and its size counts their entries.
  ghost predicate Walkable<K(!new), V>(m: HashMap<K, V>)
    reads m, m.buckets, m.nodes`next
  {
    Table(m.buckets, m.chains, m.nodes) && m.buckets.Length == m.capacity && |Flatten(m.chains)| == m.size
  }

  /** A walk over the chains of a map visits each entry once. */
  lemma WalkAll<K(!new), V>(m: HashMap<K, V>)
    requires m.Indexed()
    ensures Walkable(m)
    ensures Distinct(Flatten(m.chains)) && |Flatten(m.chains)| == m.size
    ensures Members(Flatten(m.chains)) == m.nodes
  {
    OpenTable(m.buckets, m.chains, m.nodes);
    FlattenTable(m.chains, m.nodes);
    KeyedSize(m.at, m.nodes, m.hashOf);
    assert |m.at| == |m.at.Keys| && |m.model| == |m.model.Keys|;
  }

  /** `k4c_hashmap_iterator_state`, with the `size_hint` of the iterator that holds it. */
  class MapIterator<K(!new), V> {
    const map_: HashMap<K, V>
    var bucket: nat
    var node: Entry?<K, V>
    var sizeHint: nat
    ghost var chain: seq<Entry<K, V>>   // the rest of the current chain
    ghost var coming: seq<Entry<K, V>>  // every entry still to come

    ghost predicate Valid()
      reads this, map_, map_.buckets, map_.nodes`next
    {
      && Table(map_.buckets, map_.chains, map_.nodes) && map_.buckets.Length == map_.capacity
      && bucket <= |map_.chains|
      && Follows(node, chain, map_.nodes)
      && coming == chain + Flatten(map_.chains[bucket..])
    }

    /** `k4c_hashmap_get_iterator` */
    constructor (m: HashMap<K, V>)
      requires Walkable(m)
      ensures Valid() && map_ == m && coming == Flatten(m.chains) && sizeHint == |coming|
    {
      map_, bucket, node, sizeHint := m, 0, null, m.size;
      chain, coming := [], Flatten(m.chains[0..]);
      new;
      assert m.chains[0..] == m.chains;
    }

    /** Moves on to the next chain that has an entry. */
    method SkipEmpty()
      requires Valid()
      modifies this`bucket, this`node, this`chain
      ensures Valid() && (node == null ==> coming == [])
    {
      while node == null && bucket < map_.capacity
        invariant Valid()
        decreases map_.capacity - bucket
      {
        EnterBucket();
      }
      AtEnd();
    }

    method EnterBucket()
      requires Valid() && node == null && bucket < map_.capacity
      modifies this`bucket, this`node, this`chain
      ensures Valid() && bucket == old(bucket) + 1
    {
      RowAt(map_.buckets, map_.chains, map_.nodes, bucket);
      FlattenSnoc(map_.chains, bucket);
      node, chain := map_.buckets[bucket], map_.chains[bucket];
      bucket := bucket + 1;
    }

    lemma AtEnd()
      requires Valid() && (node != null || bucket >= map_.capacity)
      ensures node == null ==> coming == []
    {
    }

    /** `k4c_iterator_next` over `k4c_hashmap_iterator_next_entry` */
    method Next() returns (e: Entry?<K, V>)
      requires Valid() && sizeHint == |coming|
      modifies this
      ensures Valid() && sizeHint == |coming|
      ensures if old(coming) == [] then e == null && coming == [] else e == old(coming)[0] && coming == old(coming)[1..]
    {
      SkipEmpty();
      if node == null {
        return null;
      }
      e := node;
      node, chain := e.next, chain[1..];
      coming := coming[1..];
      if sizeHint > 0 {
        sizeHint := sizeHint - 1;
      }
    }
  }

  /** From `node` on, `next` leads through `chain`. */
  ghost predicate Follows<K, V>(node: Entry?<K, V>, chain: seq<Entry<K, V>>, nodes: set<Entry<K, V>>)
    reads nodes`next
    decreases |chain|
  {
    if chain == [] then node == null
    else node == chain[0] && node in nodes && Follows(node.next, chain[1..], nodes)
  }

  lemma {:induction false} ChainFollows<K, V>(node: Entry?<K, V>, chain: seq<Entry<K, V>>, nodes: set<Entry<K, V>>)
    requires Chain(node, chain) && forall e :: e in chain ==> e in nodes
    ensures Follows(node, chain, nodes)
    decreases |chain|
  {
    if chain != [] {
      ChainRest(node, chain);
      ChainFollows(node.next, chain[1..], nodes);
    }
  }

  lemma RowAt<K, V>(buckets: array<Entry?<K, V>>, chains: seq<seq<Entry<K, V>>>, nodes: set<Entry<K, V>>, b: nat)
    requires Table(buckets, chains, nodes) && b < |chains|
    ensures Follows(buckets[b], chains[b], nodes)
  {
    OpenTable(buckets, chains, nodes);
    ChainFollows(buckets[b], chains[b], nodes);
  }

  /** Iterating an unmodified map yields each of its entries exactly once. */
  method Entries<K(!new), V>(m: HashMap<K, V>) returns (seen: seq<Entry<K, V>>)
    requires m.Indexed()
    ensures Distinct(seen) && |seen| == m.size
    ensures Members(seen) == m.nodes
  {
    WalkAll(m);
    var it := new MapIterator(m);
    seen := Drain(it);
  }

  /** Calling `next` until it gives nothing yields what was still to come, in order. */
  method Drain<K(!new), V>(it: MapIterator<K, V>) returns (seen: seq<Entry<K, V>>)
    requires it.Valid() && it.sizeHint == |it.coming|
    modifies it
    ensures seen == old(it.coming) && it.coming == [] && it.sizeHint == 0
  {
    ghost var all := it.coming;
    var e := it.Next();
    seen := [];
    StepWalked(seen, e, all, it.coming);
    assert [] + all == all;
    while e != null
      invariant it.Valid() && it.sizeHint == |it.coming|
      invariant Walked(seen, e, it.coming, all)
      decreases |it.coming|, e != null
    {
      seen, e := Advance(it, seen, e, all);
    }
  }

  method Advance<K(!new), V>(it: MapIterator<K, V>, seen: seq<Entry<K, V>>, e: Entry<K, V>, ghost all: seq<Entry<K, V>>)
    returns (seen': seq<Entry<K, V>>, e': Entry?<K, V>)
    requires it.Valid() && it.sizeHint == |it.coming| && Walked(seen, e, it.coming, all)
    modifies it
    ensures it.Valid() && it.sizeHint == |it.coming| && Walked(seen', e', it.coming, all)
    ensures |it.coming| < old(|it.coming|) || (e' == null && it.coming == old(it.coming))
  {
    seen' := seen + [e];
    ghost var coming := it.coming;
    e' := it.Next();
    StepWalked(seen', e', coming, it.coming);
  }

  // `seen`, the entry `e` in hand and those still to come make up `all`.
  ghost predicate Walked<K, V>(seen: seq<Entry<K, V>>, e: Entry?<K, V>, coming: seq<Entry<K, V>>, all: seq<Entry<K, V>>)
  {
    if e == null then coming == [] && seen == all else seen + ([e] + coming) == all
  }

  lemma StepWalked<K, V>(seen: seq<Entry<K, V>>, e: Entry?<K, V>, before: seq<Entry<K, V>>, after: seq<Entry<K, V>>)
    requires if before == [] then e == null && after == [] else e == before[0] && after == before[1..]
    ensures Walked(seen, e, after, seen + before)
  {
  }

  /** `k4c_hashmap_destroy`: every entry, the bucket array and the handle go back to the allocator. */
  method Destroy<K(!new), V>(m: HashMap<K, V>)
    requires m.Valid()
    modifies m.a`deallocCount, m.a`outstanding, m.a`books
    ensures m.a.outstanding == old(m.a.outstanding) - m.size - 2
    ensures m.a.books.granted == old(m.Elsewhere())
  {
    ghost var granted := m.a.books.granted;
    WalkAll(m);
    OpenTable(m.buckets, m.chains, m.nodes);
    FreeEntries(m.buckets, m.a, m.chains);
    m.a.Dealloc(Ptr(m.table));
    m.a.Dealloc(Ptr(m.handle));
    AllReleased(granted, m.handle, m.table, Flatten(m.chains), m.nodes);
  }

  // What is held without the blocks of `s`.
  ghost function Without<K, V>(granted: map<nat, SizeT>, s: seq<Entry<K, V>>): map<nat, SizeT>
  {
    granted - Blocks(Members(s))
  }

  lemma AllReleased<K, V>(granted: map<nat, SizeT>, handle: nat, table: nat, s: seq<Entry<K, V>>, nodes: set<Entry<K,
                          V>>)
    requires Members(s) == nodes
    ensures Without(granted, s) - {table} - {handle} == Others(granted, handle, table, nodes)
  {
  }

  lemma ReleasedFirst<K, V>(granted: map<nat, SizeT>, e: Entry<K, V>, s: seq<Entry<K, V>>)
    ensures Without(granted - {e.block}, s) == Without(granted, [e] + s)
  {
    assert Members([e] + s) == {e} + Members(s);
    assert Blocks({e} + Members(s)) == {e.block} + Blocks(Members(s));
  }

  /** The loops of `k4c_hash_common_buckets_destroy`. */
  method FreeEntries<K, V>(buckets: array<Entry?<K, V>>, a: Allocator, ghost chains: seq<seq<Entry<K, V>>>)
    requires buckets.Length == |chains| && forall b :: 0 <= b < |chains| ==> Chain(buckets[b], chains[b])
    requires a.outstanding >= |Flatten(chains)|
    modifies a`deallocCount, a`outstanding, a`books
    ensures a.outstanding == old(a.outstanding) - |Flatten(chains)|
    ensures a.books.granted == Without(old(a.books.granted), Flatten(chains))
  {
    assert chains[0..] == chains;
    ghost var n, kept := a.outstanding - |Flatten(chains)|, Without(a.books.granted, Flatten(chains));
    for i := 0 to buckets.Length
      invariant a.outstanding == n + |Flatten(chains[i..])|
      invariant Without(a.books.granted, Flatten(chains[i..])) == kept
    {
      FlattenSnoc(chains, i);
      FreeChain(buckets[i], a, chains[i], Flatten(chains[i + 1..]));
    }
    assert chains[|chains|..] == [];
    assert Members(Flatten(chains[|chains|..])) == {};
  }

  method FreeChain<K, V>(head: Entry?<K, V>, a: Allocator, ghost chain: seq<Entry<K, V>>, ghost rest: seq<Entry<K, V>>)
    requires Chain(head, chain) && a.outstanding >= |chain|
    modifies a`deallocCount, a`outstanding, a`books
    ensures a.outstanding == old(a.outstanding) - |chain|
    ensures Without(a.books.granted, rest) == Without(old(a.books.granted), chain + rest)
  {
    var node := head;
    ghost var left := chain;
    while node != null
      invariant Chain(node, left)
      invariant a.outstanding == old(a.outstanding) - |chain| + |left|
      invariant Without(a.books.granted, left + rest) == Without(old(a.books.granted), chain + rest)
      decreases |left|
    {
      ChainRest(node, left);
      ReleasedFirst(a.books.granted, node, left[1..] + rest);
      assert left + rest == [node] + (left[1..] + rest);
      var next := node.next;
      a.Dealloc(Ptr(node.block));
      node, left := next, left[1..];
    }
    assert left + rest == rest;
  }

  // ---------- runs ----------

  datatype MapOp<K, V> = PutOp(key: K, value: V) | RemoveOp(key: K) | ReserveOp(n: SizeT)

  /** The mathematical map after one operation that returned `st`. */
  ghost function Effect<K, V>(m: map<K, V>, eq: Equality<K>, op: MapOp<K, V>, st: Status): map<K, V>
  {
    match op
    case PutOp(k, v) => if st == OK then Put(m, eq, k, v) else m
    case RemoveOp(k) => Remove(m, eq, k)
    case ReserveOp(_) => m
  }

  ghost function Replay<K, V>(m: map<K, V>, eq: Equality<K>, ops: seq<MapOp<K, V>>, sts: seq<Status>): map<K, V>
    requires |ops| == |sts|
    decreases |ops|
  {
    if ops == [] then m
    else Effect(Replay(m, eq, ops[..|ops| - 1], sts[..|ops| - 1]), eq, ops[|ops| - 1], sts[|ops| - 1])
  }

  /** What the last successful write to a key equal to `key` left there, or `start`. */
  ghost function LastWrite<K, V>(start: Option<V>, eq: Equality<K>, key: K, ops: seq<MapOp<K, V>>,
                                 sts: seq<Status>): Option<V>
    requires |ops| == |sts|
    decreases |ops|
  {
    if ops == [] then start
    else
      var n := |ops| - 1;
      match ops[n]
      case PutOp(k, v) =>
        if sts[n] == OK && eq(k, key) then Some(v) else LastWrite(start, eq, key, ops[..n], sts[..n])
      case RemoveOp(k) =>
        if eq(k, key) then None else LastWrite(start, eq, key, ops[..n], sts[..n])
      case ReserveOp(_) => LastWrite(start, eq, key, ops[..n], sts[..n])
  }

  /** After any run a key reads as its last successful write, also where others failed in between. */
  lemma {:induction false} ReplayReadsLastWrite<K(!new), V>(m: map<K, V>, eq: Equality<K>, key: K,
                                                           ops: seq<MapOp<K, V>>, sts: seq<Status>)
    requires Equivalence(eq) && Separated(m, eq) && |ops| == |sts|
    ensures Separated(Replay(m, eq, ops, sts), eq)
    ensures Lookup(Replay(m, eq, ops, sts), eq, key) == LastWrite(Lookup(m, eq, key), eq, key, ops, sts)
    decreases |ops|
  {
    if ops != [] {
      var n := |ops| - 1;
      ReplayReadsLastWrite(m, eq, key, ops[..n], sts[..n]);
      var before := Replay(m, eq, ops[..n], sts[..n]);
      match ops[n]
      case PutOp(k, v) =>
        PutSeparated(before, eq, k, v);
        LookupPut(before, eq, k, v, key);
      case RemoveOp(k) =>
        RemoveSeparated(before, eq, k);
        LookupRemove(before, eq, k, key);
      case ReserveOp(_) =>
    }
  }

  // A step that `n` reserved entries are enough for: no new key when there are `n` already.
  ghost predicate StepWithin<K, V>(m: map<K, V>, eq: Equality<K>, op: MapOp<K, V>, n: SizeT)
  {
    match op
    case PutOp(k, _) => |m| < n || Has(m, eq, k)
    case RemoveOp(_) => true
    case ReserveOp(r) => r <= n
  }

  ghost predicate RunWithin<K, V>(m: map<K, V>, eq: Equality<K>, ops: seq<MapOp<K, V>>, sts: seq<Status>, n: SizeT)
    requires |ops| == |sts|
    decreases |ops|
  {
    ops == [] ||
    var k := |ops| - 1;
    RunWithin(m, eq, ops[..k], sts[..k], n) && StepWithin(Replay(m, eq, ops[..k], sts[..k]), eq, ops[k], n)
  }

  // Only a bucket array that cannot be asked for makes a step overflow; a removal never fails.
  ghost predicate StepWarranted<K, V>(m: map<K, V>, eq: Equality<K>, op: MapOp<K, V>, st: Status)
  {
    match op
    case PutOp(k, _) => st in {OK, NO_MEMORY, OVERFLOW} && (Has(m, eq, k) ==>
        st == OK) && (st == OVERFLOW ==> 64 * (|m| + 1) > 3 * SIZE_MAX)
    case RemoveOp(_) => st == OK
    case ReserveOp(n) => st in {OK, NO_MEMORY, OVERFLOW} && (st == OVERFLOW ==> 64 * n > 3 * SIZE_MAX)
  }

  ghost predicate RunWarranted<K, V>(m: map<K, V>, eq: Equality<K>, ops: seq<MapOp<K, V>>, sts: seq<Status>)
    requires |ops| == |sts|
    decreases |ops|
  {
    ops == [] ||
    var k := |ops| - 1;
    RunWarranted(m, eq, ops[..k], sts[..k]) && StepWarranted(Replay(m, eq, ops[..k], sts[..k]), eq, ops[k], sts[k])
  }

  /** Without a refused request, and with fewer entries than the address space has room for, every step succeeds. */
  lemma {:induction false} AllSucceed<K(!new), V>(m: map<K, V>, eq: Equality<K>, ops: seq<MapOp<K, V>>,
                                        sts: seq<Status>)
    requires Equivalence(eq) && Separated(m, eq) && |ops| == |sts| && RunWarranted(m, eq, ops, sts)
    requires Refusals(sts) == 0 && 64 * (|m| + |ops|) <= 3 * SIZE_MAX
    requires forall op :: op in ops && op.ReserveOp? ==> 64 * op.n <= 3 * SIZE_MAX
    ensures forall st :: st in sts ==> st == OK
    ensures Separated(Replay(m, eq, ops, sts), eq) && |Replay(m, eq, ops, sts)| <= |m| + |ops|
    decreases |ops|
  {
    if ops != [] {
      var n := |ops| - 1;
      AllSucceed(m, eq, ops[..n], sts[..n]);
      var before := Replay(m, eq, ops[..n], sts[..n]);
      StepSucceeds(before, eq, ops[n], sts[n]);
      assert sts == sts[..n] + [sts[n]];
    }
  }

  lemma StepSucceeds<K(!new), V>(m: map<K, V>, eq: Equality<K>, op: MapOp<K, V>, st: Status)
    requires Equivalence(eq) && Separated(m, eq) && StepWarranted(m, eq, op, st) && st != NO_MEMORY
    requires 64 * (|m| + 1) <= 3 * SIZE_MAX && (op.ReserveOp? ==> 64 * op.n <= 3 * SIZE_MAX)
    ensures st == OK && Separated(Effect(m, eq, op, st), eq) && |Effect(m, eq, op, st)| <= |m| + 1
  {
    match op
    case PutOp(k, v) =>
      PutSeparated(m, eq, k, v);
    case RemoveOp(k) => RemoveSeparated(m, eq, k);
    case ReserveOp(_) =>
  }

  /**
   Any run of operations, whatever requests the allocator refuses, leaves the map that the
   operations reported as successful leave, and owns one block for each of its entries. Every
   failure has its cause: a request that the allocator refused, or a size that overflows. If room
   for `n` entries was reserved and they are enough, the bucket array is never touched.
   */
  method Execute<K(==, !new), V>(m: HashMap<K, V>, ops: seq<MapOp<K, V>>, ghost n: SizeT) returns (sts: seq<Status>)
    requires m.Valid() && Holds(m.capacity, n)
    modifies m, m.buckets, m.nodes, m.a
    ensures m.Valid() && |sts| == |ops| && m.model == Replay(old(m.model), m.eq, ops, sts)
    ensures RunWarranted(old(m.model), m.eq, ops, sts) && m.a.failed == old(m.a.failed) + Refusals(sts)
    ensures m.a.outstanding == old(m.a.outstanding) + m.size - old(m.size) && m.Elsewhere() == old(m.Elsewhere())
    ensures RunWithin(old(m.model), m.eq, ops, sts, n) ==> m.buckets == old(m.buckets) && m.capacity == old(m.capacity)
  {
    sts := [];
    ghost var start := m.model;
    for i := 0 to |ops|
      invariant m.Valid() && Holds(m.capacity, n)
      invariant |sts| == i && m.model == Replay(start, m.eq, ops[..i], sts)
      invariant RunWarranted(start, m.eq, ops[..i], sts) && m.a.failed == old(m.a.failed) + Refusals(sts)
      invariant m.a.outstanding == old(m.a.outstanding) + m.size - old(m.size) && m.Elsewhere() == old(m.Elsewhere())
      invariant RunWithin(start, m.eq, ops[..i], sts, n) ==>
                m.buckets == old(m.buckets) && m.capacity == old(m.capacity)
      invariant fresh(m.nodes - old(m.nodes)) && (m.buckets == old(m.buckets) || fresh(m.buckets))
    {
      sts := ApplyNext(m, ops, i, sts, start, n);
    }
    assert ops[..|ops|] == ops;
  }

  method ApplyNext<K(==, !new), V>(m: HashMap<K, V>, ops: seq<MapOp<K, V>>, i: nat, sts: seq<Status>,
                               ghost start: map<K, V>, ghost n: SizeT)
    returns (sts': seq<Status>)
    requires m.Valid() && Holds(m.capacity, n) && i < |ops| && |sts| == i
    requires m.model == Replay(start, m.eq, ops[..i], sts) && RunWarranted(start, m.eq, ops[..i], sts)
    modifies m, m.buckets, m.nodes, m.a
    ensures m.Valid() && Holds(m.capacity, n) && |sts'| == i + 1
    ensures m.model == Replay(start, m.eq, ops[..i + 1], sts') && RunWarranted(start, m.eq, ops[..i + 1], sts')
    ensures m.a.failed + Refusals(sts) == old(m.a.failed) + Refusals(sts')
    ensures m.a.outstanding == old(m.a.outstanding) + m.size - old(m.size) && m.Elsewhere() == old(m.Elsewhere())
    ensures RunWithin(start, m.eq, ops[..i + 1], sts', n) ==>
              RunWithin(start, m.eq, ops[..i], sts, n) && m.buckets == old(m.buckets) && m.capacity == old(m.capacity)
    ensures fresh(m.nodes - old(m.nodes)) && (m.buckets == old(m.buckets) || fresh(m.buckets))
  {
    var st := Apply(m, ops[i], n);
    RunSnoc(start, m.eq, ops, i, sts, st, n);
    sts' := sts + [st];
  }

  lemma RunSnoc<K, V>(m: map<K, V>, eq: Equality<K>, ops: seq<MapOp<K, V>>, i: nat, sts: seq<Status>, st: Status,
                      n: SizeT)
    requires i < |ops| && |sts| == i
    ensures Replay(m, eq, ops[..i + 1], sts + [st]) == Effect(Replay(m, eq, ops[..i], sts), eq, ops[i], st)
    ensures RunWithin(m, eq, ops[..i + 1], sts + [st], n) <==>
            RunWithin(m, eq, ops[..i], sts, n) && StepWithin(Replay(m, eq, ops[..i], sts), eq, ops[i], n)
    ensures RunWarranted(m, eq, ops[..i + 1], sts + [st]) <==>
            RunWarranted(m, eq, ops[..i], sts) && StepWarranted(Replay(m, eq, ops[..i], sts), eq, ops[i], st)
    ensures Refusals(sts + [st]) == Refusals(sts) + if st == NO_MEMORY then 1 else 0
  {
    RefusalsSnoc(sts, st);
    assert ops[..i + 1][..i] == ops[..i] && (sts + [st])[..i] == sts;
  }

  method Apply<K(!new), V>(m: HashMap<K, V>, op: MapOp<K, V>, ghost n: SizeT) returns (st: Status)
    requires m.Valid() && Holds(m.capacity, n)
    modifies m, m.buckets, m.nodes, m.a
    ensures m.Valid() && Holds(m.capacity, n) && m.model == Effect(old(m.model), m.eq, op, st)
    ensures StepWarranted(old(m.model), m.eq, op, st)
    ensures m.a.failed == old(m.a.failed) + if st == NO_MEMORY then 1 else 0
    ensures m.a.outstanding == old(m.a.outstanding) + m.size - old(m.size) && m.Elsewhere() == old(m.Elsewhere())
    ensures StepWithin(old(m.model), m.eq, op, n) ==> m.buckets == old(m.buckets) && m.capacity == old(m.capacity)
    ensures fresh(m.nodes - old(m.nodes)) && (m.buckets == old(m.buckets) || fresh(m.buckets))
  {
    match op
    case PutOp(k, v) =>
      if m.size < n {
        ReservedNeverGrows(n, m.size, m.capacity);
      }
      st := m.PutEntry(k, v);
    case RemoveOp(k) => m.RemoveEntry(k); st := OK;
    case ReserveOp(r) => st := ApplyReserve(m, r, n);
  }

  method ApplyReserve<K(!new), V>(m: HashMap<K, V>, r: SizeT, ghost n: SizeT) returns (st: Status)
    requires m.Valid() && Holds(m.capacity, n)
    modifies m`capacity, m`buckets, m`table, m`chains, m.nodes`next, m.a
    ensures m.Valid() && Holds(m.capacity, n)
    ensures st in {OK, NO_MEMORY, OVERFLOW} && (st == OVERFLOW ==> 64 * r > 3 * SIZE_MAX)
    ensures m.a.failed == old(m.a.failed) + if st == NO_MEMORY then 1 else 0
    ensures m.a.outstanding == old(m.a.outstanding) && m.Elsewhere() == old(m.Elsewhere())
    ensures r <= n ==> m.buckets == old(m.buckets) && m.capacity == old(m.capacity)
    ensures m.buckets == old(m.buckets) || fresh(m.buckets)
  {
    st := m.Reserve(r);
    if st == OVERFLOW {
      ReserveOverflowsBound(r, old(m.capacity));
    }
  }
}
