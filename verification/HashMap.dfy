/** The chained hash map (lib/hash/hashmap.c), proved against a mathematical map. */
module HashMaps {
  import opened Sequences
  import opened Sizes
  import opened Allocators
  import opened HashLoad
  import opened HashModel
  import opened HashBuckets

  // `sizeof(k4c_hashmap)` and `sizeof(k4c_hashmap_entry)` on LP64; the `max_align_t` in the latter takes 32 bytes.
  const HANDLE_SIZE: SizeT := 72
  const ENTRY_SIZE: SizeT := 48

  /** The size of the block that holds one entry: header, aligned key, value. */
  function BlockSize(keySize: SizeT, valueSize: SizeT): Checked
  {
    var offset := AlignUpOverflow(keySize);
    if offset.Overflow? then Overflow
    else
      var payload := AddOverflow(offset.value, valueSize);
      if payload.Overflow? then Overflow else AddOverflow(ENTRY_SIZE, payload.value)
  }

  /** Header, key rounded up to the alignment, and value. */
  ghost function EntryBytes(keySize: nat, valueSize: nat): nat
  {
    ENTRY_SIZE + (keySize + MEMORY_ALIGN - 1) / MEMORY_ALIGN * MEMORY_ALIGN + valueSize
  }

  /** The block is as large as header, rounded key and value together, or overflows exactly when their sum does. */
  lemma BlockSizeExactly(keySize: SizeT, valueSize: SizeT)
    ensures var n := EntryBytes(keySize, valueSize);
            BlockSize(keySize, valueSize) == if n <= SIZE_MAX then Value(n) else Overflow
  {
    if AlignUpOverflow(keySize).Value? {
      RoundedUp(keySize, AlignUpOverflow(keySize).value);
    }
  }

  lemma RoundedUp(n: nat, m: nat)
    requires m % MEMORY_ALIGN == 0 && n <= m < n + MEMORY_ALIGN
    ensures m == (n + MEMORY_ALIGN - 1) / MEMORY_ALIGN * MEMORY_ALIGN
  {
  }

  ghost predicate KeyOk<K, V>(at: map<K, Entry<K, V>>, nodes: set<Entry<K, V>>, k: K)
  {
    k in at ==> at[k] in nodes && at[k].key == k
  }

  ghost predicate NodeOk<K, V>(at: map<K, Entry<K, V>>, hashOf: K -> SizeT, e: Entry<K, V>)
  {
    e.key in at && at[e.key] == e && e.hash == hashOf(e.key)
  }

  /** Stored keys and entries correspond one to one, and each entry records the hash of its key. */
  ghost predicate Keyed<K, V>(at: map<K, Entry<K, V>>, nodes: set<Entry<K, V>>, hashOf: K -> SizeT)
  {
    && (forall k {:trigger KeyOk(at, nodes, k)} :: k in at ==> KeyOk(at, nodes, k))
    && (forall e {:trigger NodeOk(at, hashOf, e)} :: e in nodes ==> NodeOk(at, hashOf, e))
  }

  lemma OpenKeyed<K, V>(at: map<K, Entry<K, V>>, nodes: set<Entry<K, V>>, hashOf: K -> SizeT)
    requires Keyed(at, nodes, hashOf)
    ensures forall k :: k in at ==> at[k] in nodes && at[k].key == k
    ensures forall e :: e in nodes ==> e.key in at && at[e.key] == e && e.hash == hashOf(e.key)
  {
    forall k | k in at ensures at[k] in nodes && at[k].key == k {
      assert KeyOk(at, nodes, k);
    }
    forall e | e in nodes ensures e.key in at && at[e.key] == e && e.hash == hashOf(e.key) {
      assert NodeOk(at, hashOf, e);
    }
  }

  lemma KeyedAdd<K, V>(at: map<K, Entry<K, V>>, nodes: set<Entry<K, V>>, hashOf: K -> SizeT, e: Entry<K, V>)
    requires Keyed(at, nodes, hashOf) && e.key !in at && e.hash == hashOf(e.key)
    ensures Keyed(at[e.key := e], nodes + {e}, hashOf)
  {
    OpenKeyed(at, nodes, hashOf);
  }

  lemma KeyedRemove<K, V>(at: map<K, Entry<K, V>>, nodes: set<Entry<K, V>>, hashOf: K -> SizeT, e: Entry<K, V>)
    requires Keyed(at, nodes, hashOf) && e in nodes
    ensures Keyed(at - {e.key}, nodes - {e}, hashOf)
  {
    OpenKeyed(at, nodes, hashOf);
  }

  /** The bucket of an equal key is where a lookup goes, so a miss there is a miss everywhere. */
  lemma MissIsAbsence<K(!new), V>(m: map<K, V>, at: map<K, Entry<K, V>>, nodes: set<Entry<K, V>>,
                                  chains: seq<seq<Entry<K, V>>>, eq: Equality<K>, hashOf: K -> SizeT, key: K)
    requires Respects(eq, hashOf) && Filed(chains, nodes) && Keyed(at, nodes, hashOf) && at.Keys == m.Keys
    requires forall e :: e in chains[Slot(hashOf(key), |chains|)] ==> !Matches(e, key, hashOf(key), eq)
    ensures !Has(m, eq, key)
  {
    OpenKeyed(at, nodes, hashOf);
    forall k | k in m ensures !eq(k, key) {
      var e := at[k];
      assert e in chains[Home(e, |chains|)];
      if eq(k, key) {
        SameHash(eq, hashOf, k, key);
        assert Matches(e, key, hashOf(key), eq);
      }
    }
  }

  lemma HitIsPresence<K(!new), V>(m: map<K, V>, at: map<K, Entry<K, V>>, nodes: set<Entry<K, V>>,
                                  eq: Equality<K>, hashOf: K -> SizeT, key: K, e: Entry<K, V>)
    requires Equivalence(eq) && Separated(m, eq) && Keyed(at, nodes, hashOf) && at.Keys == m.Keys
    requires e in nodes && eq(e.key, key)
    ensures Has(m, eq, key) && Stored(m, eq, key) == e.key && at[e.key] == e
  {
    OpenKeyed(at, nodes, hashOf);
    StoredIs(m, eq, key, e.key);
  }

  lemma ForgetKey<K(!new), V>(m: map<K, V>, at: map<K, Entry<K, V>>, nodes: set<Entry<K, V>>,
                              eq: Equality<K>, hashOf: K -> SizeT, key: K, e: Entry<K, V>)
    returns (at': map<K, Entry<K, V>>, m': map<K, V>)
    requires Equivalence(eq) && Separated(m, eq) && Keyed(at, nodes, hashOf) && at.Keys == m.Keys && e in nodes
    requires Has(m, eq, key) && Stored(m, eq, key) == e.key
    ensures Keyed(at', nodes - {e}, hashOf) && at'.Keys == m'.Keys
    ensures forall k :: k in at' ==> k in at && at'[k] == at[k] && m'[k] == m[k]
    ensures m' == Remove(m, eq, key) && Separated(m', eq) && |m'| == |m| - 1
  {
    at', m' := at - {e.key}, m - {e.key};
    RemoveSeparated(m, eq, key);
    KeyedRemove(at, nodes, hashOf, e);
    assert at'.Keys == at.Keys - {e.key} && m'.Keys == m.Keys - {e.key};
  }

  // ---------- the blocks of a map ----------

  ghost function Blocks<K, V>(nodes: set<Entry<K, V>>): set<nat>
  {
    set e | e in nodes :: e.block
  }

  ghost predicate OwnsEntry<K, V>(granted: map<nat, SizeT>, handle: nat, table: nat, bytes: nat, e: Entry<K, V>)
  {
    e.block in granted && granted[e.block] == bytes && e.block != handle && e.block != table
  }

  ghost predicate BlocksApart<K, V>(e: Entry<K, V>, f: Entry<K, V>)
  {
    e.block == f.block ==> e == f
  }

  /** The handle, the table and each entry have a block of their own, and each entry's has `bytes` bytes. */
  ghost predicate Owns<K, V>(granted: map<nat, SizeT>, handle: nat, table: nat, bytes: nat, nodes: set<Entry<K, V>>)
  {
    && handle in granted && table in granted && handle != table
    && (forall e {:trigger OwnsEntry(granted, handle, table, bytes, e)} :: e in nodes ==>
        OwnsEntry(granted, handle, table, bytes, e))
    && (forall e, f {:trigger BlocksApart(e, f)} :: e in nodes && f in nodes ==> BlocksApart(e, f))
  }

  // What the client of the allocator holds besides.
  ghost function Others<K, V>(granted: map<nat, SizeT>, handle: nat, table: nat, nodes: set<Entry<K, V>>): map<nat,
                              SizeT>
  {
    granted - (Blocks(nodes) + {handle, table})
  }

  lemma NewBlocks<K, V>(granted: map<nat, SizeT>, handle: nat, table: nat, x: SizeT, y: SizeT, nodes: set<Entry<K, V>>)
    requires handle !in granted && table !in granted && handle != table && nodes == {}
    ensures Others(granted[handle := x][table := y], handle, table, nodes) == granted
  {
    assert Blocks(nodes) == {};
  }

  lemma AddBlock<K, V>(granted: map<nat, SizeT>, handle: nat, table: nat, bytes: SizeT, nodes: set<Entry<K, V>>,
                       e: Entry<K, V>)
    requires Owns(granted, handle, table, bytes, nodes) && e.block !in granted
    ensures Owns(granted[e.block := bytes], handle, table, bytes, nodes + {e})
    ensures Others(granted[e.block := bytes], handle, table, nodes + {e}) == Others(granted, handle, table, nodes)
  {
    forall f | f in nodes ensures OwnsEntry(granted[e.block := bytes], handle, table, bytes, f) && f.block != e.block {
      assert OwnsEntry(granted, handle, table, bytes, f);
    }
    forall f, g | f in nodes + {e} && g in nodes + {e} ensures BlocksApart(f, g) {
      assert f in nodes && g in nodes ==> BlocksApart(f, g);
    }
    assert Blocks(nodes + {e}) == Blocks(nodes) + {e.block};
  }

  lemma DropBlock<K, V>(granted: map<nat, SizeT>, handle: nat, table: nat, bytes: nat, nodes: set<Entry<K, V>>,
                        e: Entry<K, V>)
    requires Owns(granted, handle, table, bytes, nodes) && e in nodes
    ensures Owns(granted - {e.block}, handle, table, bytes, nodes - {e})
    ensures Others(granted - {e.block}, handle, table, nodes - {e}) == Others(granted, handle, table, nodes)
    ensures e.block != handle && e.block != table
  {
    assert OwnsEntry(granted, handle, table, bytes, e);
    forall f | f in nodes - {e} ensures OwnsEntry(granted - {e.block}, handle, table, bytes, f) {
      assert OwnsEntry(granted, handle, table, bytes, f) && BlocksApart(e, f);
    }
    forall f, g | f in nodes - {e} && g in nodes - {e} ensures BlocksApart(f, g) {
    }
    assert Blocks(nodes) == Blocks(nodes - {e}) + {e.block};
  }

  lemma SwapTable<K, V>(granted: map<nat, SizeT>, handle: nat, table: nat, bytes: nat, nodes: set<Entry<K, V>>,
                        table': nat, size: SizeT)
    requires Owns(granted, handle, table, bytes, nodes) && table' !in granted
    ensures Owns(granted[table' := size] - {table}, handle, table', bytes, nodes)
    ensures Others(granted[table' := size] - {table}, handle, table', nodes) == Others(granted, handle, table, nodes)
  {
    forall e | e in nodes ensures OwnsEntry(granted[table' := size] - {table}, handle, table', bytes, e) {
      assert OwnsEntry(granted, handle, table, bytes, e);
    }
  }

  function Max(x: SizeT, y: SizeT): SizeT
  {
    if x < y then y else x
  }

  // The bucket array for `n` entries is larger than the present one and cannot be asked for.
  predicate ReserveOverflows(n: nat, capacity: SizeT)
  {
    n > SIZE_MAX || LeastCapacity(DEFAULT_CAPACITY, n).Overflow?
    || (LeastCapacity(DEFAULT_CAPACITY, n).value > capacity &&
        BUCKET_SIZE * LeastCapacity(DEFAULT_CAPACITY, n).value > SIZE_MAX)
  }

  /** That takes entries for more than three times a 64th of the address space. */
  lemma ReserveOverflowsBound(n: nat, capacity: SizeT)
    requires ReserveOverflows(n, capacity)
    ensures 64 * n > 3 * SIZE_MAX
  {
    if n <= SIZE_MAX {
      LeastBound(DEFAULT_CAPACITY, n);
    }
  }

  /** A table due to grow asks for twice the buckets. */
  lemma DoubleOverflows(size: SizeT, capacity: SizeT)
    requires IsCapacity(capacity) && Holds(capacity, size) && ShouldGrow(size, capacity)
    ensures 4 * (size + 1) > 3 * capacity
    ensures ReserveOverflows(size + 1, capacity) <==> 2 * BUCKET_SIZE * capacity > SIZE_MAX
    ensures !ReserveOverflows(size + 1, capacity) ==>
              LeastCapacity(DEFAULT_CAPACITY, size + 1) == Value(2 * capacity)
  {
    ShouldGrowExact(size, capacity);
    GrowthDoubles(size, capacity);
  }

  /**
   What an insertion that returned `st` makes of the capacity: only a table that is over three
   quarters full with the new entry grows, and it doubles. Its overflow is that of the doubled array.
   */
  ghost predicate GrewForOne(size: nat, capacity: nat, capacity': nat, st: Status)
  {
    var due := 4 * (size + 1) > 3 * capacity;
    && (st == OVERFLOW <==> due && 2 * BUCKET_SIZE * capacity > SIZE_MAX)
    && (st == OK ==> capacity' == if due then 2 * capacity else capacity)
    && (st == NO_MEMORY ==> capacity' == capacity || (due && capacity' == 2 * capacity))
    && (st == OVERFLOW ==> capacity' == capacity)
  }

  class HashMap<K(!new), V> {
    const hashOf: K -> SizeT
    const eq: Equality<K>
    const a: Allocator
    const keySize: SizeT
    const valueSize: SizeT
    var size: SizeT
    var capacity: SizeT
    var buckets: array<Entry?<K, V>>
    const handle: nat
    var table: nat     // the address of the bucket array
    ghost var chains: seq<seq<Entry<K, V>>>
    ghost var nodes: set<Entry<K, V>>
    ghost var at: map<K, Entry<K, V>>  // the entry of each stored key
    ghost var model: map<K, V>

    constructor Assemble(hash: K -> SizeT, equal: Equality<K>, keyBytes: SizeT, valueBytes: SizeT,
                         array_: array<Entry?<K, V>>, allocator: Allocator, h: nat, t: nat)
      requires Equivalence(equal) && Respects(equal, hash) && EntryBytes(keyBytes, valueBytes) <= SIZE_MAX
      requires array_.Length == DEFAULT_CAPACITY && Table(array_, Empty<K, V>(DEFAULT_CAPACITY), {})
      requires allocator.outstanding >= 2
      requires h != t && Grants(allocator.books, h, HANDLE_SIZE)
      requires Grants(allocator.books, t, BUCKET_SIZE * DEFAULT_CAPACITY)
      ensures handle == h && table == t
      ensures Valid() && model == map[] && a == allocator && buckets == array_ && nodes == {}
      ensures keySize == keyBytes && valueSize == valueBytes && eq == equal && hashOf == hash
      ensures capacity == DEFAULT_CAPACITY
    {
      hashOf, eq, a, keySize, valueSize := hash, equal, allocator, keyBytes, valueBytes;
      size, capacity, buckets, handle, table := 0, DEFAULT_CAPACITY, array_, h, t;
      chains, nodes, at, model := Empty(DEFAULT_CAPACITY), {}, map[], map[];
      new;
      assert capacity == 16 * Pow2(0);
    }

    /** `k4c_hashmap_create`: the handle and the bucket array, or neither. */
    static method Create(keyBytes: SizeT, valueBytes: SizeT, hash: K -> SizeT, equal: Equality<K>, allocator: Allocator)
      returns (st: Status, m: HashMap?<K, V>)
      requires keyBytes > 0 && valueBytes > 0 && Equivalence(equal) && Respects(equal, hash)
      modifies allocator
      ensures st == OK <==> m != null
      ensures st == OVERFLOW <==> EntryBytes(keyBytes, valueBytes) > SIZE_MAX
      ensures st in {OK, OVERFLOW, NO_MEMORY}
      ensures m != null ==> fresh(m) && fresh(m.buckets) && m.Valid() && m.model == map[] && m.a == allocator
      ensures m != null ==> m.keySize == keyBytes && m.valueSize == valueBytes && m.capacity == DEFAULT_CAPACITY
      ensures m != null ==> m.Elsewhere() == old(allocator.books.granted)
      ensures m != null ==> m.handle !in old(allocator.books.granted) && m.table !in old(allocator.books.granted)
      ensures m == null ==> allocator.books.granted == old(allocator.books.granted)
      ensures allocator.outstanding == old(allocator.outstanding) + if m != null then 2 else 0
      ensures allocator.failed == old(allocator.failed) + if st == NO_MEMORY then 1 else 0
    {
      m := null;
      BlockSizeExactly(keyBytes, valueBytes);
      if BlockSize(keyBytes, valueBytes).Overflow? {
        return OVERFLOW, null;
      }
      var h := allocator.Alloc(HANDLE_SIZE);
      if h.Null? {
        return NO_MEMORY, null;
      }
      var array_: array?<Entry?<K, V>>;
      var t;
      st, array_, t := CreateBuckets(DEFAULT_CAPACITY, allocator);
      if st != OK {
        Undone(old(allocator.books.granted), h.at, HANDLE_SIZE);
        allocator.Dealloc(h);
        return;
      }
      NewBlocks<K, V>(old(allocator.books.granted), h.at, t.at, HANDLE_SIZE, BUCKET_SIZE * DEFAULT_CAPACITY, {});
      m := new HashMap.Assemble(hash, equal, keyBytes, valueBytes, array_, allocator, h.at, t.at);
    }

    // What a caller must guarantee of the keys.
    ghost predicate KeysOk()
    {
      Equivalence(eq) && Respects(eq, hashOf)
    }

    // `model` holds the entries' keys and values.
    ghost predicate Stores()
      reads this, nodes
    {
      && Keyed(at, nodes, hashOf)
      && at.Keys == model.Keys
      && forall k :: k in at ==> at[k] in nodes && model[k] == at[k].value
    }

    // The table represents `model`.
    ghost predicate Indexed()
      reads this, buckets, nodes
    {
      && KeysOk()
      && Table(buckets, chains, nodes) && buckets.Length == capacity
      && Stores() && Separated(model, eq) && size == |model|
    }

    ghost predicate Valid()
      reads this, buckets, nodes, a
    {
      && Indexed()
      && IsCapacity(capacity) && Holds(capacity, size)
      && a.outstanding >= size + 2 && Housed()
    }

    // Each block of the map has the bytes that its contents take.
    ghost predicate Housed()
      reads this, a
    {
      && EntryBytes(keySize, valueSize) <= SIZE_MAX
      && Owns(a.books.granted, handle, table, EntryBytes(keySize, valueSize), nodes)
      && Grants(a.books, handle, HANDLE_SIZE) && Grants(a.books, table, BUCKET_SIZE * capacity)
    }

    // What the client of the allocator holds besides the map.
    ghost function Elsewhere(): map<nat, SizeT>
      reads this, a
    {
      Others(a.books.granted, handle, table, nodes)
    }

    /** `k4c_hashmap_entry_get`, and `k4c_hashmap_get`: the entry whose value slot the caller may read and write. */
    method Get(key: K) returns (found: Entry?<K, V>)
      requires Indexed()
      ensures found == null <==> Lookup(model, eq, key) == None
      ensures found != null ==>
                found in nodes && found.key in model && Stored(model, eq, key) == found.key
                && Lookup(model, eq, key) == Some(found.value)
    {
      var hash := hashOf(key);
      var b := Slot(hash, capacity);
      OpenTable(buckets, chains, nodes);
      found := Find(buckets[b], key, hash, eq, chains[b]);
      if found == null {
        MissIsAbsence(model, at, nodes, chains, eq, hashOf, key);
      } else {
        HitIsPresence(model, at, nodes, eq, hashOf, key, found);
      }
    }

    /** `k4c_hashmap_reserve` */
    method Reserve(n: SizeT) returns (st: Status)
      requires Valid()
      modifies this`capacity, this`buckets, this`table, this`chains, nodes`next, a
      ensures Valid() && model == old(model) && nodes == old(nodes) && size == old(size)
      ensures st in {OK, OVERFLOW, NO_MEMORY}
      ensures st == OVERFLOW <==> ReserveOverflows(n, old(capacity))
      ensures st == OK ==> capacity == Max(old(capacity), LeastCapacity(DEFAULT_CAPACITY, n).value)
      ensures st != OK ==> capacity == old(capacity)
      ensures st == OK ==> Holds(capacity, n)
      ensures a.failed == old(a.failed) + (if st == NO_MEMORY then 1 else 0) && Elsewhere() == old(Elsewhere())
      ensures Holds(old(capacity), n) ==> st == OK && capacity == old(capacity)
      ensures capacity >= old(capacity) && a.outstanding == old(a.outstanding)
      ensures buckets == old(buckets) || fresh(buckets)
      ensures st != OK || capacity == old(capacity) ==> buckets == old(buckets)
    {
      var wanted := CapacityForSize(n);
      if wanted.Overflow? {
        return OVERFLOW;
      }
      if wanted.value <= capacity {
        return OK;
      }
      st := Grow(wanted.value);
    }

    method Grow(wanted: SizeT) returns (st: Status)
      requires Valid() && wanted > capacity && IsCapacity(wanted) && Holds(wanted, size)
      modifies this`capacity, this`buckets, this`table, this`chains, nodes`next, a
      ensures Valid()
      ensures st in {OK, OVERFLOW, NO_MEMORY} && capacity == if st == OK then wanted else old(capacity)
      ensures if st == OK then fresh(buckets) else buckets == old(buckets)
      ensures st == OVERFLOW <==> BUCKET_SIZE * wanted > SIZE_MAX
      ensures a.outstanding == old(a.outstanding)
      ensures a.failed == old(a.failed) + (if st == NO_MEMORY then 1 else 0) && Elsewhere() == old(Elsewhere())
    {
      var larger, t;
      ghost var chains';
      st, larger, t, chains' := Rehash(buckets, table, wanted, a, chains, nodes);
      if st == OK {
        ghost var bytes := EntryBytes(keySize, valueSize);
        SwapTable(old(a.books.granted), handle, table, bytes, nodes, t.at, BUCKET_SIZE * wanted);
        Retable(larger, t.at, wanted, chains');
      }
    }

    // A larger table of the same entries.
    method Retable(larger: array<Entry?<K, V>>, t: nat, wanted: SizeT, ghost chains': seq<seq<Entry<K, V>>>)
      requires KeysOk() && Stores() && Separated(model, eq) && size == |model|
      requires larger.Length == wanted && Table(larger, chains', nodes)
      modifies this`buckets, this`table, this`capacity, this`chains
      ensures Indexed() && buckets == larger && capacity == wanted && table == t
    {
      buckets, table, capacity, chains := larger, t, wanted, chains';
    }

    /** Overwrites the value of a stored entry. */
    method Overwrite(e: Entry<K, V>, key: K, value: V)
      requires Indexed() && e in nodes && Has(model, eq, key) && Stored(model, eq, key) == e.key
      modifies this`model, e`value
      ensures Indexed() && model == Put(old(model), eq, key, value)
    {
      PutSeparated(model, eq, key, value);
      OpenKeyed(at, nodes, hashOf);
      e.value := value;
      model := model[e.key := value];
    }

    /** Links an entry for a key that is not stored yet. */
    method Insert(entry: Entry<K, V>, b: nat)
      requires Indexed() && size < SIZE_MAX
      requires entry !in nodes && entry.hash == hashOf(entry.key) && b == Home(entry, capacity)
      requires !Has(model, eq, entry.key)
      modifies this`chains, this`nodes, this`at, this`model, this`size, buckets, entry`next
      ensures Indexed() && nodes == old(nodes) + {entry} && size == old(size) + 1
      ensures model == Put(old(model), eq, entry.key, entry.value)
    {
      PushFront(buckets, b, entry, chains, nodes);
      Adopt(entry, chains[b := [entry] + chains[b]]);
    }

    /** Brings the size and the model in line with a table that `entry` has joined. */
    method Adopt(entry: Entry<K, V>, ghost chains': seq<seq<Entry<K, V>>>)
      requires KeysOk() && Stores() && Separated(model, eq) && size == |model| && size < SIZE_MAX
      requires entry !in nodes && entry.hash == hashOf(entry.key) && !Has(model, eq, entry.key)
      requires Table(buckets, chains', nodes + {entry}) && buckets.Length == capacity
      modifies this`chains, this`nodes, this`at, this`model, this`size
      ensures Indexed() && nodes == old(nodes) + {entry} && size == old(size) + 1
      ensures model == Put(old(model), eq, entry.key, entry.value)
    {
      PutSeparated(model, eq, entry.key, entry.value);
      KeyedAdd(at, nodes, hashOf, entry);
      ghost var at', model' := at[entry.key := entry], model[entry.key := entry.value];
      assert forall k :: k in at' ==> model'[k] == at'[k].value;
      Restate(size + 1, chains', nodes + {entry}, at', model');
    }

    /** The end of `k4c_hashmap_put`: a new entry at the front of its bucket, if there is memory for it. */
    method AddEntry(key: K, value: V) returns (st: Status)
      requires Valid() && Holds(capacity, size + 1) && !Has(model, eq, key)
      modifies this`chains, this`nodes, this`at, this`model, this`size, buckets, a
      ensures Valid() && st in {OK, NO_MEMORY}
      ensures model == if st == OK then Put(old(model), eq, key, value) else old(model)
      ensures a.outstanding == old(a.outstanding) + size - old(size)
      ensures fresh(nodes - old(nodes))
      ensures a.failed == old(a.failed) + (if st == NO_MEMORY then 1 else 0) && Elsewhere() == old(Elsewhere())
    {
      // The sizes were checked when the map was created.
      BlockSizeExactly(keySize, valueSize);
      var bytes := BlockSize(keySize, valueSize).value;
      var block := a.Alloc(bytes);
      if block.Null? {
        return NO_MEMORY;
      }
      var entry := FillEntry(block.at, key, value);
      AddBlock(old(a.books.granted), handle, table, bytes, old(nodes), entry);
      st := OK;
    }

    /** Makes the block at `block` an entry of the map. */
    method FillEntry(block: nat, key: K, value: V) returns (entry: Entry<K, V>)
      requires Indexed() && size < SIZE_MAX && !Has(model, eq, key)
      modifies this`chains, this`nodes, this`at, this`model, this`size, buckets
      ensures Indexed() && size == old(size) + 1 && model == Put(old(model), eq, key, value)
      ensures fresh(entry) && entry.block == block && nodes == old(nodes) + {entry}
    {
      var hash := hashOf(key);
      entry := new Entry(hash, key, value, block);
      Insert(entry, Slot(hash, capacity));
    }

    /** `k4c_hashmap_put` */
    method PutEntry(key: K, value: V) returns (st: Status)
      requires Valid()
      modifies this, buckets, nodes, a
      ensures Valid() && st in {OK, OVERFLOW, NO_MEMORY}
      ensures model == if st == OK then Put(old(model), eq, key, value) else old(model)
      ensures Has(old(model), eq, key) ==> st == OK && buckets == old(buckets) && capacity == old(capacity)
      ensures !Has(old(model), eq, key) ==> GrewForOne(old(size), old(capacity), capacity, st)
      ensures a.outstanding == old(a.outstanding) + size - old(size)
      ensures a.failed == old(a.failed) + (if st == NO_MEMORY then 1 else 0) && Elsewhere() == old(Elsewhere())
      ensures fresh(nodes - old(nodes))
      ensures buckets == old(buckets) || fresh(buckets)
      ensures capacity == old(capacity) ==> buckets == old(buckets)
    {
      var node := Get(key);
      if node != null {
        Overwrite(node, key, value);
        st := OK;
      } else {
        st := PutNew(key, value);
      }
    }

    method PutNew(key: K, value: V) returns (st: Status)
      requires Valid() && !Has(model, eq, key)
      modifies this, buckets, nodes`next, a
      ensures Valid() && st in {OK, OVERFLOW, NO_MEMORY}
      ensures model == if st == OK then Put(old(model), eq, key, value) else old(model)
      ensures GrewForOne(old(size), old(capacity), capacity, st)
      ensures a.outstanding == old(a.outstanding) + size - old(size)
      ensures a.failed == old(a.failed) + (if st == NO_MEMORY then 1 else 0) && Elsewhere() == old(Elsewhere())
      ensures fresh(nodes - old(nodes))
      ensures buckets == old(buckets) || fresh(buckets)
      ensures capacity == old(capacity) ==> buckets == old(buckets)
    {
      st := MakeRoom();
      if st == OK {
        st := AddEntry(key, value);
      }
    }

    /** The growth step of `k4c_hashmap_put`. */
    method MakeRoom() returns (st: Status)
      requires Valid()
      modifies this`capacity, this`buckets, this`table, this`chains, nodes`next, a
      ensures Valid()
      ensures st in {OK, OVERFLOW, NO_MEMORY}
      ensures st == OK ==> Holds(capacity, size + 1)
      ensures GrewForOne(old(size), old(capacity), capacity, st)
      ensures a.outstanding == old(a.outstanding)
      ensures a.failed == old(a.failed) + (if st == NO_MEMORY then 1 else 0) && Elsewhere() == old(Elsewhere())
      ensures buckets == old(buckets) || fresh(buckets)
      ensures capacity == old(capacity) ==> buckets == old(buckets)
    {
      ShouldGrowExact(size, capacity);
      if ShouldGrow(size, capacity) {
        st := GrowForOne();
      } else {
        RoomForOne(size, capacity);
        st := OK;
      }
    }

    method GrowForOne() returns (st: Status)
      requires Valid() && ShouldGrow(size, capacity)
      modifies this`capacity, this`buckets, this`table, this`chains, nodes`next, a
      ensures Valid()
      ensures st in {OK, OVERFLOW, NO_MEMORY}
      ensures st == OK ==> Holds(capacity, size + 1)
      ensures st == OVERFLOW <==> 2 * BUCKET_SIZE * old(capacity) > SIZE_MAX
      ensures capacity == if st == OK then 2 * old(capacity) else old(capacity)
      ensures a.outstanding == old(a.outstanding)
      ensures a.failed == old(a.failed) + (if st == NO_MEMORY then 1 else 0) && Elsewhere() == old(Elsewhere())
      ensures if st == OK then fresh(buckets) else buckets == old(buckets)
    {
      DoubleOverflows(size, capacity);
      var wanted := AddOverflow(size, 1);
      if wanted.Overflow? {
        return OVERFLOW;
      }
      assert wanted.value == size + 1;
      st := Reserve(wanted.value);
    }

    /** Takes the entry with an equal key, if any, out of the table and the model. */
    method Detach(key: K) returns (node: Entry?<K, V>)
      requires Indexed()
      modifies this`chains, this`nodes, this`at, this`model, this`size, buckets, nodes`next
      ensures Indexed() && model == Remove(old(model), eq, key) && nodes <= old(nodes)
      ensures size == old(size) - if node == null then 0 else 1
      ensures if node == null then nodes == old(nodes) else node in old(nodes) && nodes == old(nodes) - {node}
      ensures node == null <==> !Has(old(model), eq, key)
    {
      var hash := hashOf(key);
      var b := Slot(hash, capacity);
      RemoveSeparated(model, eq, key);
      ghost var chains';
      node, chains' := RemoveMatch(buckets, b, key, hash, eq, chains, nodes);
      if node == null {
        OpenTable(buckets, chains, nodes);
        MissIsAbsence(model, at, nodes, chains, eq, hashOf, key);
        return;
      }
      HitIsPresence(model, at, nodes, eq, hashOf, key, node);
      Forget(node, key, chains');
    }

    // The fields that say what the table stands for.
    method Restate(n: SizeT, ghost chains': seq<seq<Entry<K, V>>>, ghost nodes': set<Entry<K, V>>,
                   ghost at': map<K, Entry<K, V>>, ghost model': map<K, V>)
      requires KeysOk() && Table(buckets, chains', nodes') && buckets.Length == capacity
      requires Keyed(at', nodes', hashOf) && at'.Keys == model'.Keys && forall k :: k in at' ==>
                model'[k] == at'[k].value
      requires Separated(model', eq) && n == |model'|
      modifies this`chains, this`nodes, this`at, this`model, this`size
      ensures Indexed() && nodes == nodes' && model == model' && size == n
    {
      OpenKeyed(at', nodes', hashOf);
      size, chains, nodes, at, model := n, chains', nodes', at', model';
    }

    /** Brings the size and the model in line with a table that `node` has left. */
    method Forget(node: Entry<K, V>, key: K, ghost chains': seq<seq<Entry<K, V>>>)
      requires KeysOk() && Stores() && Separated(model, eq) && size == |model| && node in nodes
      requires Table(buckets, chains', nodes - {node}) && buckets.Length == capacity
      requires Has(model, eq, key) && Stored(model, eq, key) == node.key
      modifies this`chains, this`nodes, this`at, this`model, this`size
      ensures Indexed() && model == Remove(old(model), eq, key) && nodes == old(nodes) - {node}
      ensures size == old(size) - 1
    {
      ghost var at', model' := ForgetKey(model, at, nodes, eq, hashOf, key, node);
      assert forall k :: k in at' ==> model'[k] == at'[k].value;
      Restate(size - 1, chains', nodes - {node}, at', model');
    }

    /** `k4c_hashmap_remove` */
    method RemoveEntry(key: K)
      requires Valid()
      modifies this, buckets, nodes`next, a
      ensures Valid() && model == Remove(old(model), eq, key)
      ensures a.outstanding == old(a.outstanding) + size - old(size)
      ensures buckets == old(buckets) && capacity == old(capacity) && nodes <= old(nodes)
      ensures a.failed == old(a.failed) && Elsewhere() == old(Elsewhere())
    {
      var node := Detach(key);
      if node != null {
        DropBlock(a.books.granted, handle, table, EntryBytes(keySize, valueSize), old(nodes), node);
        a.Dealloc(Ptr(node.block));
      }
    }
  }
}
