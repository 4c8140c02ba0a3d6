/** The growable array (lib/datastruct/vector.c). */
module Vectors {
  import opened Sequences
  import opened Sizes
  import opened Allocators
  import opened Iterators

  const DEFAULT_CAPACITY: SizeT := 16

  // `sizeof(k4c_vector)` on LP64.
  const HANDLE_SIZE: SizeT := 56

  /** The capacity that growing by halves reaches. */
  function Grown(capacity: SizeT, min: SizeT): SizeT
    decreases min - capacity
  {
    if capacity >= min then capacity
    else
      match AddOverflow(capacity, if capacity / 2 == 0 then 1 else capacity / 2)
      case Overflow => min
      case Value(next) => Grown(next, min)
  }

  // A capacity after `k` growths by half, one slot at least, in unbounded arithmetic.
  ghost function Halves(capacity: nat, k: nat): nat
    decreases k
  {
    if k == 0 then capacity
    else if capacity < 2 then Halves(capacity + 1, k - 1)
    else Halves(capacity + capacity / 2, k - 1)
  }

  // The first growth by halves to reach the minimum, or the minimum itself where that growth leaves `size_t`.
  ghost predicate GrownTo(capacity: nat, min: nat, k: nat, r: nat)
  {
    && Halves(capacity, k) >= min && (k > 0 ==> Halves(capacity, k - 1) < min)
    && r == if Halves(capacity, k) <= SIZE_MAX then Halves(capacity, k) else min
  }

  ghost predicate GrownByHalves(capacity: nat, min: nat, r: nat)
  {
    exists k: nat :: GrownTo(capacity, min, k, r)
  }

  /** Growth reaches the minimum and overshoots it by half at most, also at the top of `size_t`. */
  lemma {:induction false} GrownBounds(capacity: SizeT, min: SizeT)
    ensures capacity >= min ==> Grown(capacity, min) == capacity
    ensures capacity < min ==> min <= Grown(capacity, min) && 2 * Grown(capacity, min) <= 3 * min
    ensures capacity < min ==>
              var next := capacity + if capacity < 2 then 1 else capacity / 2;
              if next <= SIZE_MAX then Grown(capacity, min) >= next else Grown(capacity, min) == min
    decreases min - capacity
  {
    if capacity < min {
      var next := AddOverflow(capacity, if capacity / 2 == 0 then 1 else capacity / 2);
      if next.Value? {
        GrownBounds(next.value, min);
      }
    }
  }

  /** Growth is by halves, up to the first capacity that reaches the minimum. */
  lemma {:induction false} GrownFirst(capacity: SizeT, min: SizeT)
    ensures GrownByHalves(capacity, min, Grown(capacity, min))
    decreases min - capacity
  {
    if capacity >= min {
      assert GrownTo(capacity, min, 0, capacity);
      return;
    }
    var next := AddOverflow(capacity, if capacity / 2 == 0 then 1 else capacity / 2);
    assert Halves(capacity, 0) == capacity;
    assert Halves(capacity, 1) == capacity + if capacity < 2 then 1 else capacity / 2;
    if next.Overflow? {
      assert GrownTo(capacity, min, 1, min);
      return;
    }
    GrownFirst(next.value, min);
    var k: nat :| GrownTo(next.value, min, k, Grown(next.value, min));
    assert Halves(capacity, k + 1) == Halves(next.value, k);
    assert k > 0 ==> Halves(capacity, k) == Halves(next.value, k - 1);
    assert GrownTo(capacity, min, k + 1, Grown(capacity, min));
  }

  /** `k4c_vector_capacity_grow` and its twin in the string */
  method CapacityGrow(capacity: SizeT, min: SizeT) returns (r: SizeT)
    ensures r == Grown(capacity, min) && GrownByHalves(capacity, min, r)
    ensures capacity >= min ==> r == capacity
    ensures capacity < min ==> min <= r && 2 * r <= 3 * min
    ensures capacity < min ==>
              var next := capacity + if capacity < 2 then 1 else capacity / 2;
              if next <= SIZE_MAX then r >= next else r == min
  {
    GrownBounds(capacity, min);
    GrownFirst(capacity, min);
    if capacity >= min {
      return capacity;
    }
    r := capacity;
    while r < min
      invariant Grown(r, min) == Grown(capacity, min)
      decreases min - r
    {
      var increment := r / 2;
      if increment == 0 {
        increment := 1;
      }
      var next := AddOverflow(r, increment);
      if next.Overflow? {
        r := min;
        break;
      }
      r := next.value;
    }
  }

  // The vector is full, and half as many slots more take more bytes than a `size_t` can say.
  ghost predicate PushOverflows(size: nat, capacity: nat, elemSize: nat)
  {
    size == capacity && (capacity + (if capacity < 2 then 1 else capacity / 2)) * elemSize > SIZE_MAX
  }

  /** Growing a full vector for one more element is one growth by half. */
  lemma OneGrowth(capacity: SizeT)
    requires capacity <= MAX_OBJECT
    ensures Grown(capacity, capacity + 1) == capacity + if capacity < 2 then 1 else capacity / 2
  {
  }

  /** That takes more than two thirds of the address space. */
  lemma PushOverflowsBound(size: SizeT, capacity: SizeT, elemSize: SizeT)
    requires PushOverflows(size, capacity, elemSize) && elemSize > 0
    ensures 3 * (size + 1) * elemSize > 2 * SIZE_MAX
  {
    var next := capacity + if capacity < 2 then 1 else capacity / 2;
    Scaled(2 * next, 3 * (size + 1), elemSize);
    Twice(next, elemSize);
  }

  lemma Scaled(x: nat, y: nat, factor: nat)
    requires x <= y
    ensures x * factor <= y * factor
  {
  }

  lemma Twice(x: nat, factor: nat)
    ensures 2 * x * factor == 2 * (x * factor)
  {
  }

  // `n` elements take more than two thirds of the address space.
  predicate Crowded(n: nat, elemSize: nat)
  {
    3 * n * elemSize > 2 * SIZE_MAX
  }

  lemma ShortOfRoom(size: SizeT, capacity: SizeT, elemSize: SizeT, n: nat)
    requires PushOverflows(size, capacity, elemSize) && elemSize > 0 && size < n
    ensures Crowded(n, elemSize)
  {
    PushOverflowsBound(size, capacity, elemSize);
    Scaled(3 * (size + 1), 3 * n, elemSize);
  }

  class Vector<T(0)> {
    const elemSize: SizeT
    const a: Allocator
    var size: SizeT
    var capacity: SizeT
    const handle: nat
    var block: nat           // the address of the buffer
    var buffer: array<T>

    ghost predicate Valid()
      reads this, a
    {
      && size <= capacity == buffer.Length
      && 0 < capacity && 0 < elemSize && elemSize * capacity <= SIZE_MAX
      && a.outstanding >= 2
      && handle != block && Grants(a.books, handle, HANDLE_SIZE)
      && Grants(a.books, block, elemSize * capacity)
    }

    // Besides its own two blocks the client of the allocator holds `others`.
    ghost predicate Besides(others: map<nat, SizeT>)
      reads this, a
    {
      HoldsBesides(a.books.granted, handle, block, others)
    }

    ghost function Items(): seq<T>
      reads this, buffer
      requires size <= buffer.Length
    {
      buffer[..size]
    }

    /** The elements lie in one object, so there are at most `PTRDIFF_MAX` of them. */
    lemma SizeBound()
      requires Valid()
      ensures capacity <= MAX_OBJECT
    {
      GrantedBound(a.books, block);
      Scaled(1, elemSize, capacity);
    }

    constructor Assemble(bytes: SizeT, slots: SizeT, allocator: Allocator, h: nat, b: nat)
      requires 0 < bytes && 0 < slots && bytes * slots <= SIZE_MAX && allocator.outstanding >= 2
      requires h != b && Grants(allocator.books, h, HANDLE_SIZE) && Grants(allocator.books, b, bytes * slots)
      ensures Valid() && Items() == [] && elemSize == bytes && capacity == slots && a == allocator
      ensures handle == h && block == b && fresh(buffer)
    {
      elemSize, capacity, a, size := bytes, slots, allocator, 0;
      handle, block := h, b;
      buffer := new T[slots];
    }

    /** `k4c_vector_create_with_capacity` */
    static method Create(bytes: SizeT, slots: SizeT, allocator: Allocator) returns (st: Status, v: Vector?<T>)
      requires bytes > 0 && slots > 0
      modifies allocator
      ensures st == OK <==> v != null
      ensures st == OVERFLOW <==> bytes * slots > SIZE_MAX
      ensures st in {OK, OVERFLOW, NO_MEMORY}
      ensures v != null ==> fresh(v) && fresh(v.buffer) && v.Valid() && v.Items() == []
      ensures v != null ==> v.a == allocator && v.elemSize == bytes && v.capacity == slots
      ensures v != null ==> v.Besides(old(allocator.books.granted))
      ensures v == null ==> allocator.books.granted == old(allocator.books.granted)
      ensures allocator.outstanding == old(allocator.outstanding) + if v != null then 2 else 0
      ensures allocator.tripped == old(allocator.tripped)
      ensures allocator.failed == old(allocator.failed) + if st == NO_MEMORY then 1 else 0
      ensures SameBacking(old(allocator.books), allocator.books)
    {
      v := null;
      var total := MulOverflow(bytes, slots);
      if total.Overflow? {
        return OVERFLOW, null;
      }
      PositiveProduct(bytes, slots);
      var h := allocator.Alloc(HANDLE_SIZE);
      if h.Null? {
        return NO_MEMORY, null;
      }
      var b := allocator.Alloc(total.value);
      if b.Null? {
        allocator.Dealloc(h);
        return NO_MEMORY, null;
      }
      v := new Vector.Assemble(bytes, slots, allocator, h.at, b.at);
      st := OK;
    }

    /** `k4c_vector_reserve`, which never asks an arena to shrink the buffer. */
    method Reserve(slots: SizeT) returns (st: Status)
      requires Valid()
      modifies this`capacity, this`block, this`buffer, a
      ensures Valid() && Items() == old(Items()) && size == old(size)
      ensures st in {OK, OVERFLOW, NO_MEMORY}
      ensures st == OVERFLOW <==> slots > old(capacity) && slots * elemSize > SIZE_MAX
      ensures capacity == if st == OK && slots > old(capacity) then slots else old(capacity)
      ensures slots <= old(capacity) ==> st == OK
      ensures buffer == old(buffer) || fresh(buffer)
      ensures capacity == old(capacity) ==> buffer == old(buffer) && block == old(block)
      ensures a.outstanding == old(a.outstanding) && a.tripped == old(a.tripped)
      ensures a.failed == old(a.failed) + if st == NO_MEMORY then 1 else 0
      ensures OthersKept(old(a.books), old(block), a.books, block)
    {
      if slots <= capacity {
        return OK;
      }
      var bytes := MulOverflow(slots, elemSize);
      if bytes.Overflow? {
        return OVERFLOW;
      }
      MoreSlots(elemSize, capacity, slots);
      GrowthNeverTrips(a.books, block, bytes.value);
      var ok, moved := a.Resize(block, bytes.value);
      if !ok {
        return NO_MEMORY;
      }
      OtherKept(old(a.books), block, a.books, moved.at, handle);
      MoveTo(moved.at, slots);
      st := OK;
    }

    // The bytes that the allocator carried over to the larger block.
    method MoveTo(at: nat, slots: SizeT)
      requires size <= capacity == buffer.Length && capacity < slots
      modifies this`capacity, this`block, this`buffer
      ensures block == at && capacity == slots == buffer.Length && fresh(buffer)
      ensures Items() == old(Items())
    {
      var larger := new T[slots];
      forall i | 0 <= i < capacity {
        larger[i] := buffer[i];
      }
      buffer, block, capacity := larger, at, slots;
    }

    /** `k4c_vector_push` */
    method Push(x: T) returns (st: Status)
      requires Valid()
      modifies this`size, this`capacity, this`block, this`buffer, buffer, a
      ensures Valid() && st in {OK, OVERFLOW, NO_MEMORY}
      ensures Items() == if st == OK then old(Items()) + [x] else old(Items())
      ensures old(size) < old(capacity) ==> st == OK
      ensures st == OVERFLOW <==> PushOverflows(old(size), old(capacity), elemSize)
      // A full vector grows by half, one slot at least.
      ensures capacity == if st != OK || old(size) < old(capacity) then old(capacity)
                          else old(capacity) + if old(capacity) < 2 then 1 else old(capacity) / 2
      ensures buffer == old(buffer) || fresh(buffer)
      ensures a.outstanding == old(a.outstanding) && a.tripped == old(a.tripped)
      ensures a.failed == old(a.failed) + if st == NO_MEMORY then 1 else 0
      ensures OthersKept(old(a.books), old(block), a.books, block)
    {
      if size == capacity {
        st := GrowForOne();
        if st != OK {
          return;
        }
      }
      buffer[size] := x;
      size := size + 1;
      st := OK;
    }

    /** The growth step of `k4c_vector_push`. */
    method GrowForOne() returns (st: Status)
      requires Valid() && size == capacity
      modifies this`capacity, this`block, this`buffer, a
      ensures Valid() && Items() == old(Items()) && st in {OK, OVERFLOW, NO_MEMORY}
      ensures st == OVERFLOW <==> PushOverflows(size, old(capacity), elemSize)
      ensures capacity == if st != OK then old(capacity)
                          else old(capacity) + if old(capacity) < 2 then 1 else old(capacity) / 2
      ensures buffer == old(buffer) || fresh(buffer)
      ensures a.outstanding == old(a.outstanding) && a.tripped == old(a.tripped)
      ensures a.failed == old(a.failed) + if st == NO_MEMORY then 1 else 0
      ensures OthersKept(old(a.books), old(block), a.books, block)
    {
      SizeBound();
      OneGrowth(capacity);
      var min := AddOverflow(size, 1);
      if min.Overflow? {
        return OVERFLOW;
      }
      var slots := CapacityGrow(capacity, min.value);
      st := Reserve(slots);
    }

    /** `k4c_vector_pop`: the slot of the removed element, which still holds it. */
    method Pop() returns (found: bool, slot: nat)
      requires Valid()
      modifies this`size
      ensures Valid() && found == (old(size) > 0)
      ensures !found ==> Items() == old(Items())
      ensures found ==> slot == size < buffer.Length && old(Items()) == Items() + [buffer[slot]]
    {
      slot := 0;
      if size == 0 {
        return false, 0;
      }
      size := size - 1;
      return true, size;
    }

    /** `k4c_vector_destroy` */
    method Destroy()
      requires Valid()
      modifies a`deallocCount, a`outstanding, a`books
      ensures a.outstanding == old(a.outstanding) - 2
      ensures a.books.granted == old(a.books.granted) - {block, handle}
    {
      a.Dealloc(Ptr(block));
      a.Dealloc(Ptr(handle));
    }
  }

  lemma PositiveProduct(x: nat, y: nat)
    requires x > 0 && y > 0
    ensures x * y > 0
  {
  }

  lemma MoreSlots(elemSize: nat, less: nat, more: nat)
    requires elemSize > 0 && less < more
    ensures elemSize * less < elemSize * more && (less > 0 ==> elemSize * less > 0)
  {
  }

  // Too many bytes for the first capacity, for the announced one, or for growing up to `n` elements.
  predicate CollectOverflows(bytes: SizeT, hint: SizeT, n: nat)
  {
    bytes * DEFAULT_CAPACITY > SIZE_MAX || hint * bytes > SIZE_MAX || Crowded(n, bytes)
  }

  /** `k4c_vector_collect`: copies what is left of the iterator, or leaves no block behind. */
  method Collect<T(0)>(source: Iterator<T>, bytes: SizeT, a: Allocator) returns (st: Status, out: Vector?<T>)
    requires bytes > 0
    modifies source, a
    ensures (st == OK <==> out != null) && st in {OK, OVERFLOW, NO_MEMORY}
    ensures out != null ==> fresh(out) && fresh(out.buffer) && out.Valid() && out.Items() == old(source.items)
    ensures out != null ==> source.items == []
    ensures st == OVERFLOW ==> CollectOverflows(bytes, old(source.sizeHint), |old(source.items)|)
    ensures bytes * DEFAULT_CAPACITY > SIZE_MAX || old(source.sizeHint) * bytes > SIZE_MAX ==>
              st in {OVERFLOW, NO_MEMORY}
    ensures out != null ==> out.a == a && out.elemSize == bytes
    ensures out != null ==> out.Besides(old(a.books.granted))
    ensures out == null ==> a.books.granted == old(a.books.granted)
    ensures a.outstanding == old(a.outstanding) + if out != null then 2 else 0
    ensures a.tripped == old(a.tripped) && a.failed == old(a.failed) + if st == NO_MEMORY then 1 else 0
  {
    st, out := Prepare(source.sizeHint, bytes, a);
    if st != OK {
      return;
    }
    st := FillFrom(out, source, old(a.books.granted));
    if st != OK {
      out.Destroy();
      out := null;
    }
  }

  /** An empty vector with room for as many elements as the iterator announces. */
  method Prepare<T(0)>(hint: SizeT, bytes: SizeT, a: Allocator) returns (st: Status, out: Vector?<T>)
    requires bytes > 0
    modifies a
    ensures (st == OK <==> out != null) && st in {OK, OVERFLOW, NO_MEMORY}
    ensures out != null ==> fresh(out) && fresh(out.buffer) && out.Valid() && out.Items() == [] && out.a == a
    ensures out != null ==> out.elemSize == bytes
    ensures st == OVERFLOW ==> bytes * DEFAULT_CAPACITY > SIZE_MAX || hint * bytes > SIZE_MAX
    ensures bytes * DEFAULT_CAPACITY > SIZE_MAX || hint * bytes > SIZE_MAX ==> st != OK
    ensures out != null ==> out.Besides(old(a.books.granted))
    ensures out == null ==> a.books.granted == old(a.books.granted)
    ensures a.outstanding == old(a.outstanding) + if out != null then 2 else 0
    ensures a.tripped == old(a.tripped) && a.failed == old(a.failed) + if st == NO_MEMORY then 1 else 0
  {
    st, out := Vector.Create(bytes, DEFAULT_CAPACITY, a);
    if st == OK && hint > 0 {
      st := ReserveFirst(out, hint, old(a.books.granted));
      if st != OK {
        out.Destroy();
        out := null;
      }
    }
  }

  method ReserveFirst<T(0)>(v: Vector<T>, hint: SizeT, ghost others: map<nat, SizeT>) returns (st: Status)
    requires v.Valid() && v.Besides(others)
    modifies v`capacity, v`block, v`buffer, v.a
    ensures v.Valid() && v.Besides(others) && v.Items() == old(v.Items())
    ensures st in {OK, NO_MEMORY, OVERFLOW}
    ensures st == OVERFLOW ==> hint * v.elemSize > SIZE_MAX
    ensures hint * v.elemSize > SIZE_MAX ==> st != OK
    ensures v.buffer == old(v.buffer) || fresh(v.buffer)
    ensures v.a.outstanding == old(v.a.outstanding) && v.a.tripped == old(v.a.tripped)
    ensures v.a.failed == old(v.a.failed) + if st == NO_MEMORY then 1 else 0
  {
    ghost var books, block := v.a.books, v.block;
    MoreBytes(hint, v.capacity, v.elemSize);
    st := v.Reserve(hint);
    BesidesKept(books, v.handle, block, v.a.books, v.block, others);
  }

  lemma MoreBytes(hint: nat, capacity: nat, elemSize: nat)
    requires elemSize * capacity <= SIZE_MAX
    ensures hint * elemSize > SIZE_MAX ==> capacity < hint
  {
    if hint <= capacity {
      Scaled(hint, capacity, elemSize);
    }
  }

  method Add<T(0)>(v: Vector<T>, x: T, ghost others: map<nat, SizeT>, ghost n: nat) returns (st: Status)
    requires v.Valid() && v.Besides(others) && v.size < n
    modifies v`size, v`capacity, v`block, v`buffer, v.buffer, v.a
    ensures v.Valid() && (v.buffer == old(v.buffer) || fresh(v.buffer)) && st in {OK, OVERFLOW, NO_MEMORY}
    ensures v.Items() == if st == OK then old(v.Items()) + [x] else old(v.Items())
    ensures st == OVERFLOW ==> Crowded(n, v.elemSize)
    ensures v.size == old(v.size) + if st == OK then 1 else 0
    ensures v.a.outstanding == old(v.a.outstanding) && v.a.tripped == old(v.a.tripped)
    ensures v.a.failed == old(v.a.failed) + if st == NO_MEMORY then 1 else 0
    ensures v.Besides(others)
  {
    st := v.Push(x);
    if st == OVERFLOW {
      ShortOfRoom(old(v.size), old(v.capacity), v.elemSize, n);
    }
    BesidesKept(old(v.a.books), v.handle, old(v.block), v.a.books, v.block, others);
  }

  method FillFrom<T(0)>(v: Vector<T>, source: Iterator<T>, ghost others: map<nat, SizeT>) returns (st: Status)
    requires v.Valid() && v.Besides(others)
    modifies v`size, v`capacity, v`block, v`buffer, v.buffer, source, v.a
    ensures v.Valid() && (v.buffer == old(v.buffer) || fresh(v.buffer)) && st in {OK, OVERFLOW, NO_MEMORY}
    ensures st == OK ==> v.Items() == old(v.Items()) + old(source.items) && source.items == []
    ensures v.a.outstanding == old(v.a.outstanding) && v.a.tripped == old(v.a.tripped)
    ensures v.a.failed == old(v.a.failed) + if st == NO_MEMORY then 1 else 0
    ensures st == OVERFLOW ==> Crowded(old(v.size) + |old(source.items)|, v.elemSize)
    ensures v.Besides(others)
  {
    st := OK;
    ghost var was, n := source.items, v.size + |source.items|;
    var item := source.Next();
    TakeFirst([], was, item, source.items);
    while item.Some?
      invariant v.Valid() && (v.buffer == old(v.buffer) || fresh(v.buffer))
      invariant item.None? ==> source.items == []
      invariant v.Items() + Ahead(item, source.items) == old(v.Items()) + was
      invariant v.a.outstanding == old(v.a.outstanding) && v.a.tripped == old(v.a.tripped)
      invariant v.a.failed == old(v.a.failed) && v.size + |Ahead(item, source.items)| == n
      invariant v.Besides(others)
      decreases |source.items|, item.Some?
    {
      Associate(v.Items(), [item.value], source.items);
      st := Add(v, item.value, others, n);
      if st != OK {
        return;
      }
      ghost var rest := source.items;
      item := source.Next();
      TakeFirst(v.Items(), rest, item, source.items);
    }
    st := OK;
  }

  // The element in hand, if any, and those behind it.
  function Ahead<T>(item: Option<T>, rest: seq<T>): seq<T>
  {
    (if item.Some? then [item.value] else []) + rest
  }

  lemma TakeFirst<T>(done: seq<T>, before: seq<T>, item: Option<T>, after: seq<T>)
    requires if before == [] then item == None && after == [] else item == Some(before[0]) && after == before[1..]
    ensures |Ahead(item, after)| == |before|
    ensures Ahead(item, after) == before && done + Ahead(item, after) == done + before
  {
  }

  /** `k4c_vector_collect_map`, with its extra block for one mapped element. */
  method CollectMap<S, T(0)>(source: Iterator<S>, bytes: SizeT, f: S -> T, a: Allocator)
    returns (st: Status, out: Vector?<T>)
    requires bytes > 0
    modifies source, a
    ensures (st == OK <==> out != null) && st in {OK, OVERFLOW, NO_MEMORY}
    ensures out != null ==> fresh(out) && fresh(out.buffer) && out.Valid() && out.Items() == Map(f, old(source.items))
    ensures out != null ==> source.items == []
    ensures st == OVERFLOW ==> CollectOverflows(bytes, old(source.sizeHint), |old(source.items)|)
    ensures bytes * DEFAULT_CAPACITY > SIZE_MAX || old(source.sizeHint) * bytes > SIZE_MAX ==>
              st in {OVERFLOW, NO_MEMORY}
    ensures out != null ==> out.a == a && out.elemSize == bytes
    ensures out != null ==> out.Besides(old(a.books.granted))
    ensures out == null ==> a.books.granted == old(a.books.granted)
    ensures a.outstanding == old(a.outstanding) + if out != null then 2 else 0
    ensures a.tripped == old(a.tripped) && a.failed == old(a.failed) + if st == NO_MEMORY then 1 else 0
  {
    st, out := Prepare(source.sizeHint, bytes, a);
    if st != OK {
      return;
    }
    ghost var granted := a.books.granted;
    var dst := a.Alloc(bytes);
    if dst.Null? {
      out.Destroy();
      return NO_MEMORY, null;
    }
    ghost var others := old(a.books.granted);
    ScratchBesides(granted, out.handle, out.block, others, dst.at, bytes);
    st := FillMapped(out, source, f, dst.at, others[dst.at := bytes]);
    ScratchReturned(a.books.granted, out.handle, out.block, others[dst.at := bytes], dst.at);
    a.Dealloc(dst);
    if st != OK {
      out.Destroy();
      out := null;
    }
  }

  /** The loop of `k4c_vector_collect_map`, with room at `scratch` for one mapped element. */
  method FillMapped<S, T(0)>(v: Vector<T>, source: Iterator<S>, f: S -> T, ghost scratch: nat,
                             ghost others: map<nat, SizeT>)
    returns (st: Status)
    requires v.Valid() && v.Besides(others) && scratch in others && others[scratch] == v.elemSize
    modifies v`size, v`capacity, v`block, v`buffer, v.buffer, source, v.a
    ensures v.Valid() && (v.buffer == old(v.buffer) || fresh(v.buffer)) && st in {OK, OVERFLOW, NO_MEMORY}
    ensures st == OK ==> v.Items() == old(v.Items()) + Map(f, old(source.items)) && source.items == []
    ensures v.a.outstanding == old(v.a.outstanding) && v.a.tripped == old(v.a.tripped)
    ensures v.a.failed == old(v.a.failed) + if st == NO_MEMORY then 1 else 0
    ensures st == OVERFLOW ==> Crowded(old(v.size) + |old(source.items)|, v.elemSize)
    ensures v.Besides(others)
  {
    st := OK;
    ghost var was, n := source.items, v.size + |source.items|;
    var item := source.Next();
    TakeFirst([], was, item, source.items);
    while item.Some?
      invariant v.Valid() && (v.buffer == old(v.buffer) || fresh(v.buffer))
      invariant item.None? ==> source.items == []
      invariant v.Items() + Map(f, Ahead(item, source.items)) == old(v.Items()) + Map(f, was)
      invariant v.a.outstanding == old(v.a.outstanding) && v.a.tripped == old(v.a.tripped)
      invariant v.a.failed == old(v.a.failed) && v.size + |Ahead(item, source.items)| == n
      invariant v.Besides(others)
      decreases |source.items|, item.Some?
    {
      var dst := f(item.value);
      MapFirst(f, v.Items(), item.value, source.items);
      st := Add(v, dst, others, n);
      if st != OK {
        return;
      }
      ghost var rest := source.items;
      item := source.Next();
      TakeFirst([], rest, item, source.items);
    }
    st := OK;
  }

  lemma MapFirst<S, T>(f: S -> T, done: seq<T>, x: S, rest: seq<S>)
    ensures done + Map(f, [x] + rest) == done + [f(x)] + Map(f, rest)
  {
  }

  function Map<S, T>(f: S -> T, s: seq<S>): seq<T>
  {
    seq(|s|, i requires 0 <= i < |s| => f(s[i]))
  }
}
