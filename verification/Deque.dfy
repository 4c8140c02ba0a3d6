/** The ring-buffer deque (lib/datastruct/deque.c). */
module Deques {
  import opened Sequences
  import opened Sizes
  import opened Allocators

  const DEFAULT_CAPACITY: SizeT := 16

  ghost predicate PowerOfTwo(c: nat)
  {
    exists k: nat :: c == Pow2(k)
  }

  /** The slot that position `p` means in a ring of `n` slots. */
  function Wrap(p: nat, n: nat): (q: nat)
    requires p < 2 * n
    ensures q < n
  {
    if p < n then p else p - n
  }

  lemma WrapIsModulo(p: nat, n: nat)
    requires p < 2 * n
    ensures p % n == Wrap(p, n)
  {
  }

  /** A power of two that fits a `size_t` is at most half its range, so an index sum cannot wrap around. */
  lemma IndexSumFits(c: nat)
    requires PowerOfTwo(c) && c <= SIZE_MAX
    ensures 2 * c <= SIZE_MAX + 1
  {
    var k: nat :| c == Pow2(k);
    MaxIsPow2();
    if k >= SIZE_BITS {
      Pow2Monotone(SIZE_BITS, k);
    } else {
      Pow2Monotone(k + 1, SIZE_BITS);
    }
  }

  lemma Doubled(c: nat)
    requires PowerOfTwo(c)
    ensures PowerOfTwo(2 * c)
  {
    var k: nat :| c == Pow2(k);
    assert 2 * c == Pow2(k + 1);
  }

  /** `k4c_deque_capacity_grow`: doubles up to the first capacity that suffices. */
  method CapacityGrow(capacity: SizeT, min: SizeT) returns (r: Checked)
    requires capacity > 0 && PowerOfTwo(capacity)
    ensures capacity >= min ==> r == Value(capacity)
    ensures r.Value? ==> PowerOfTwo(r.value) && r.value >= min && r.value >= capacity
    ensures r.Value? && r.value > capacity ==> r.value < 2 * min
    ensures r.Value? && min == capacity + 1 ==> r.value == 2 * capacity
    ensures r.Overflow? <==> capacity < min && min > SIZE_MAX / 2 + 1
  {
    if capacity >= min {
      return Value(capacity);
    }
    var c: SizeT := capacity;
    IndexSumFits(c);
    while c < min
      invariant PowerOfTwo(c) && c >= capacity && (c > capacity ==> c < 2 * min) && 2 * c <= SIZE_MAX + 1
      invariant c == capacity || c >= 2 * capacity
      decreases min - c
    {
      if c > SIZE_MAX / 2 {
        return Overflow;
      }
      Doubled(c);
      c := 2 * c;
      IndexSumFits(c);
    }
    r := Value(c);
  }

  // `sizeof(k4c_deque)` on LP64.
  const HANDLE_SIZE: SizeT := 72

  class Deque<T(0)> {
    const elemSize: SizeT
    const a: Allocator
    var size: SizeT
    var capacity: SizeT
    var head: SizeT
    var tail: SizeT
    const handle: nat
    var block: nat          // the address of the buffer
    var buffer: array<T>

    ghost predicate Valid()
      reads this, a
    {
      && size <= capacity == buffer.Length
      && PowerOfTwo(capacity) && 0 < elemSize && elemSize * capacity <= SIZE_MAX
      && head < capacity && tail == Wrap(head + size, capacity)
      && a.outstanding >= 2
      && handle != block && Grants(a.books, handle, HANDLE_SIZE) && Grants(a.books, block, elemSize * capacity)
    }

    ghost function Items(): (s: seq<T>)
      reads this, buffer
      requires size <= capacity == buffer.Length && head < capacity
      ensures |s| == size
    {
      Ring(buffer[..], head, size)
    }

    constructor Assemble(bytes: SizeT, allocator: Allocator, h: nat, b: nat)
      requires 0 < bytes && bytes * DEFAULT_CAPACITY <= SIZE_MAX && allocator.outstanding >= 2
      requires h != b && Grants(allocator.books, h, HANDLE_SIZE)
      requires Grants(allocator.books, b, bytes * DEFAULT_CAPACITY)
      ensures Valid() && Items() == [] && a == allocator && elemSize == bytes && fresh(buffer)
      ensures handle == h && block == b && capacity == DEFAULT_CAPACITY
    {
      elemSize, capacity, a, handle, block := bytes, DEFAULT_CAPACITY, allocator, h, b;
      size, head, tail := 0, 0, 0;
      buffer := new T[DEFAULT_CAPACITY];
      new;
      assert capacity == Pow2(4);
    }

    /** `k4c_deque_create` */
    static method Create(bytes: SizeT, allocator: Allocator) returns (st: Status, d: Deque?<T>)
      requires bytes > 0
      modifies allocator
      ensures (st == OK <==> d != null) && st in {OK, OVERFLOW, NO_MEMORY}
      ensures st == OVERFLOW <==> bytes * DEFAULT_CAPACITY > SIZE_MAX
      ensures d != null ==> fresh(d) && fresh(d.buffer) && d.Valid() && d.Items() == [] && d.a == allocator
      ensures d != null ==> d.elemSize == bytes && d.capacity == DEFAULT_CAPACITY
      ensures d != null ==> HoldsBesides(allocator.books.granted, d.handle, d.block, old(allocator.books.granted))
      ensures d == null ==> allocator.books.granted == old(allocator.books.granted)
      ensures allocator.outstanding == old(allocator.outstanding) + if d != null then 2 else 0
      ensures allocator.failed == old(allocator.failed) + if st == NO_MEMORY then 1 else 0
    {
      d := null;
      var total := MulOverflow(bytes, DEFAULT_CAPACITY);
      if total.Overflow? {
        return OVERFLOW, null;
      }
      var h := allocator.Alloc(HANDLE_SIZE);
      if h.Null? {
        return NO_MEMORY, null;
      }
      var b := allocator.Alloc(total.value);
      if b.Null? {
        allocator.Dealloc(h);
        return NO_MEMORY, null;
      }
      d := new Deque.Assemble(bytes, allocator, h.at, b.at);
      st := OK;
    }

    /** `k4c_deque_grow`: a larger ring with the elements from slot 0 on. */
    method Grow() returns (st: Status)
      requires Valid()
      modifies this`capacity, this`head, this`tail, this`block, this`buffer, a
      ensures Valid() && Items() == old(Items()) && size == old(size)
      ensures st in {OK, OVERFLOW, NO_MEMORY}
      ensures st == OK ==> size < capacity && fresh(buffer) && head == 0
      ensures st == OK && size == old(capacity) ==> capacity == 2 * old(capacity)
      ensures st != OK ==> buffer == old(buffer) && head == old(head) && capacity == old(capacity)
      ensures st == OVERFLOW <==> size == old(capacity) && 2 * old(capacity) * elemSize > SIZE_MAX
      ensures a.outstanding == old(a.outstanding)
      ensures OthersKept(old(a.books), old(block), a.books, block)
      ensures a.failed == old(a.failed) + if st == NO_MEMORY then 1 else 0
    {
      var wanted, bytes;
      st, wanted, bytes := NextCapacity();
      if st != OK {
        return;
      }
      var at := a.Alloc(bytes);
      if at.Null? {
        return NO_MEMORY;
      }
      var was := block;
      MoveTo(at.at, wanted);
      a.Dealloc(Ptr(was));
      ReplacedKept(old(a.books), was, a.books, block, bytes);
      OtherKept(old(a.books), was, a.books, block, handle);
      st := OK;
    }

    method MoveTo(at: nat, wanted: SizeT)
      requires size < wanted && size <= capacity == buffer.Length && head < capacity && 0 < capacity
      requires tail == Wrap(head + size, capacity)
      modifies this`capacity, this`head, this`tail, this`block, this`buffer
      ensures capacity == wanted == buffer.Length && head == 0 && tail == size && block == at && fresh(buffer)
      ensures Items() == old(Items())
    {
      var larger := new T[wanted];
      CopyInto(larger);
      buffer, capacity, head, tail, block := larger, wanted, 0, size, at;
      RingAtFront(larger[..], size);
    }

    /** The capacity to grow to, if it and the bytes it takes fit a `size_t`. */
    method NextCapacity() returns (st: Status, wanted: SizeT, bytes: SizeT)
      requires Valid()
      ensures st in {OK, OVERFLOW}
      ensures st == OK ==> PowerOfTwo(wanted) && size < wanted && capacity <= wanted && elemSize * wanted == bytes
      ensures size == capacity && st == OK ==> wanted == 2 * capacity
      ensures st == OVERFLOW <==> size == capacity && 2 * capacity * elemSize > SIZE_MAX
    {
      wanted, bytes := 0, 0;
      var min := AddOverflow(size, 1);
      if min.Overflow? {
        PositiveFactor(2 * capacity, elemSize);
        return OVERFLOW, 0, 0;
      }
      IndexSumFits(capacity);
      var c := CapacityGrow(capacity, min.value);
      PositiveFactor(2 * capacity, elemSize);
      if c.Overflow? {
        return OVERFLOW, 0, 0;
      }
      var total := MulOverflow(c.value, elemSize);
      if total.Overflow? {
        return OVERFLOW, 0, 0;
      }
      return OK, c.value, total.value;
    }

    /** Copies the elements to the front of another buffer, in one piece or in two. */
    method CopyInto(larger: array<T>)
      requires size <= capacity == buffer.Length && head < capacity && tail == Wrap(head + size, capacity)
      requires larger != buffer && size <= larger.Length
      modifies larger
      ensures larger[..size] == Items()
    {
      if size == 0 {
        return;
      }
      if head < tail {
        forall i | 0 <= i < size {
          larger[i] := buffer[head + i];
        }
      } else {
        var first := capacity - head;
        forall i | 0 <= i < first {
          larger[i] := buffer[head + i];
        }
        forall i | 0 <= i < tail {
          larger[first + i] := buffer[i];
        }
      }
      forall i | 0 <= i < size ensures larger[i] == Items()[i] {
        assert Items()[i] == buffer[..][Wrap(head + i, capacity)];
      }
    }

    /** `k4c_deque_push` */
    method Push(x: T) returns (st: Status)
      requires Valid()
      modifies this, buffer, a
      ensures Valid() && st in {OK, OVERFLOW, NO_MEMORY}
      ensures Items() == if st == OK then old(Items()) + [x] else old(Items())
      ensures old(size) < old(capacity) ==> st == OK
      ensures st == OVERFLOW <==> old(size) == old(capacity) && 2 * old(capacity) * elemSize > SIZE_MAX
      // Only a full ring grows, and it doubles.
      ensures capacity == if st == OK && old(size) == old(capacity) then 2 * old(capacity) else old(capacity)
      ensures (buffer == old(buffer) || fresh(buffer)) && a.outstanding == old(a.outstanding)
      ensures OthersKept(old(a.books), old(block), a.books, block)
      ensures a.failed == old(a.failed) + if st == NO_MEMORY then 1 else 0
    {
      if size == capacity {
        st := Grow();
        if st != OK {
          return;
        }
      }
      StoreBehind(x);
      st := OK;
    }

    method StoreBehind(x: T)
      requires Valid() && size < capacity
      modifies this`tail, this`size, buffer
      ensures Valid() && Items() == old(Items()) + [x]
    {
      RingPush(buffer[..], head, size, x);
      IndexSumFits(capacity);
      buffer[tail] := x;
      size := size + 1;
      tail := Successor(tail);
    }

    method Successor(p: SizeT) returns (q: SizeT)
      requires p < capacity && PowerOfTwo(capacity)
      ensures q == Wrap(p + 1, capacity)
    {
      IndexSumFits(capacity);
      WrapIsModulo(p + 1, capacity);
      var sum: SizeT := p + 1;
      q := sum % capacity;
    }

    /** One slot back in the ring; the sum that is reduced fits a `size_t`. */
    method Predecessor(p: SizeT) returns (q: SizeT)
      requires p < capacity && PowerOfTwo(capacity)
      ensures q == if p == 0 then capacity - 1 else p - 1
    {
      IndexSumFits(capacity);
      var sum: SizeT := p + capacity;
      sum := sum - 1;
      WrapIsModulo(sum, capacity);
      q := sum % capacity;
    }

    /** `k4c_deque_pushfront` */
    method PushFront(x: T) returns (st: Status)
      requires Valid()
      modifies this, buffer, a
      ensures Valid() && st in {OK, OVERFLOW, NO_MEMORY}
      ensures Items() == if st == OK then [x] + old(Items()) else old(Items())
      ensures old(size) < old(capacity) ==> st == OK
      ensures st == OVERFLOW <==> old(size) == old(capacity) && 2 * old(capacity) * elemSize > SIZE_MAX
      // Only a full ring grows, and it doubles.
      ensures capacity == if st == OK && old(size) == old(capacity) then 2 * old(capacity) else old(capacity)
      ensures (buffer == old(buffer) || fresh(buffer)) && a.outstanding == old(a.outstanding)
      ensures OthersKept(old(a.books), old(block), a.books, block)
      ensures a.failed == old(a.failed) + if st == NO_MEMORY then 1 else 0
    {
      if size == capacity {
        st := Grow();
        if st != OK {
          return;
        }
      }
      StoreInFront(x);
      st := OK;
    }

    method StoreInFront(x: T)
      requires Valid() && size < capacity
      modifies this`head, this`size, buffer
      ensures Valid() && Items() == [x] + old(Items())
    {
      RingPushFront(buffer[..], head, size, x);
      head := Predecessor(head);
      buffer[head] := x;
      size := size + 1;
    }

    /** `k4c_deque_popleft`: the slot of the removed element, which still holds it. */
    method PopLeft() returns (found: bool, slot: nat)
      requires Valid()
      modifies this`head, this`size
      ensures Valid() && found == (old(size) > 0)
      ensures !found ==> Items() == old(Items())
      ensures found ==> slot < buffer.Length && old(Items()) == [buffer[slot]] + Items()
    {
      if size == 0 {
        return false, 0;
      }
      RingPopFront(buffer[..], head, size);
      slot := head;
      head := Successor(head);
      size := size - 1;
      found := true;
    }

    /** `k4c_deque_popback` */
    method PopBack() returns (found: bool, slot: nat)
      requires Valid()
      modifies this`tail, this`size
      ensures Valid() && found == (old(size) > 0)
      ensures !found ==> Items() == old(Items())
      ensures found ==> slot < buffer.Length && old(Items()) == Items() + [buffer[slot]]
    {
      if size == 0 {
        return false, 0;
      }
      RingPopBack(buffer[..], head, size);
      tail := Predecessor(tail);
      slot := tail;
      size := size - 1;
      found := true;
    }

    /** `k4c_deque_destroy` */
    method Destroy()
      requires Valid()
      modifies a`deallocCount, a`outstanding, a`books
      ensures a.outstanding == old(a.outstanding) - 2
      ensures a.books.granted == old(a.books.granted) - {block, handle}
    {
      a.Dealloc(Ptr(block));
      a.Dealloc(Ptr(handle));
    }

    /** `k4c_deque_peekleft` */
    method PeekLeft() returns (found: bool, slot: nat)
      requires Valid()
      ensures found == (size > 0) && (found ==> slot < buffer.Length && buffer[slot] == Items()[0])
    {
      found, slot := size > 0, head;
      if found {
        assert Items()[0] == buffer[..][Wrap(head + 0, capacity)];
      }
    }

    /** `k4c_deque_peekback` */
    method PeekBack() returns (found: bool, slot: nat)
      requires Valid()
      ensures found == (size > 0) && (found ==> slot < buffer.Length && buffer[slot] == Items()[size - 1])
    {
      if size == 0 {
        return false, 0;
      }
      slot := Predecessor(tail);
      assert Items()[size - 1] == buffer[..][Wrap(head + (size - 1), capacity)];
      found := true;
    }
  }

  /** `k4c_deque_iterator_state`: an index that only grows, reduced by a mask. */
  class DequeIterator<T(0)> {
    const base: array<T>
    const mask: SizeT
    var index: SizeT
    var remaining: SizeT

    ghost predicate Over(d: Deque<T>)
      reads this, d, d.a
    {
      && d.Valid() && base == d.buffer && mask == d.capacity - 1
      && remaining <= d.size && index == d.head + (d.size - remaining)
    }

    // The elements still to come.
    ghost function Left(d: Deque<T>): (s: seq<T>)
      requires Over(d)
      reads this, d, d.a, d.buffer
      ensures |s| == remaining
    {
      d.Items()[d.size - remaining..]
    }

    /** `k4c_deque_get_iterator` */
    constructor (d: Deque<T>)
      requires d.Valid()
      ensures Over(d) && remaining == d.size
    {
      base, mask, index, remaining := d.buffer, d.capacity - 1, d.head, d.size;
    }

    /** `k4c_deque_iterator_next` */
    method Next(ghost d: Deque<T>) returns (found: bool, slot: nat)
      requires Over(d)
      modifies this
      ensures Over(d) && found == (old(remaining) > 0)
      ensures remaining == if found then old(remaining) - 1 else old(remaining)
      ensures found ==> slot < base.Length
      ensures if found then old(Left(d)) == [base[slot]] + Left(d) else Left(d) == []
    {
      if remaining == 0 {
        return false, 0;
      }
      IndexSumFits(d.capacity);
      MaskIsWrap(index, d.capacity);
      slot := BitAnd(index, mask);
      index := index + 1;
      remaining := remaining - 1;
      found := true;
    }
  }

  /** In a ring of a power of two slots, masking an index is wrapping it. */
  lemma MaskIsWrap(p: nat, n: nat)
    requires PowerOfTwo(n) && p < 2 * n
    ensures BitAnd(p, n - 1) == Wrap(p, n)
  {
    var k: nat :| n == Pow2(k);
    LowMaskIsModulo(p, k);
    WrapIsModulo(p, n);
  }

  lemma RingAtFront<T>(slots: seq<T>, n: nat)
    requires 0 < |slots| && n <= |slots|
    ensures Ring(slots, 0, n) == slots[..n]
  {
  }

  lemma RingPush<T>(slots: seq<T>, head: nat, n: nat, x: T)
    requires head < |slots| && n < |slots|
    ensures Ring(slots[Wrap(head + n, |slots|) := x], head, n + 1) == Ring(slots, head, n) + [x]
  {
  }

  lemma RingPushFront<T>(slots: seq<T>, head: nat, n: nat, x: T)
    requires head < |slots| && n < |slots|
    ensures var h := if head == 0 then |slots| - 1 else head - 1;
            && Ring(slots[h := x], h, n + 1) == [x] + Ring(slots, head, n)
            && Wrap(h + n + 1, |slots|) == Wrap(head + n, |slots|)
  {
  }

  lemma RingPopFront<T>(slots: seq<T>, head: nat, n: nat)
    requires head < |slots| && 0 < n <= |slots|
    ensures Ring(slots, head, n) == [slots[head]] + Ring(slots, Wrap(head + 1, |slots|), n - 1)
    ensures Wrap(Wrap(head + 1, |slots|) + n - 1, |slots|) == Wrap(head + n, |slots|)
  {
  }

  lemma RingPopBack<T>(slots: seq<T>, head: nat, n: nat)
    requires head < |slots| && 0 < n <= |slots|
    ensures Ring(slots, head, n) == Ring(slots, head, n - 1) + [slots[Wrap(head + n - 1, |slots|)]]
  {
  }

  /** `n` elements of a ring, from slot `head` on. */
  function Ring<T>(slots: seq<T>, head: nat, n: nat): (s: seq<T>)
    requires head < |slots| && n <= |slots|
    ensures |s| == n
    ensures forall i :: 0 <= i < n ==> s[i] == slots[Wrap(head + i, |slots|)]
  {
    seq(n, i requires 0 <= i < n => slots[Wrap(head + i, |slots|)])
  }

  lemma PositiveFactor(x: nat, factor: nat)
    requires factor > 0
    ensures x * factor >= x
  {
  }

  /** Calling `next` until it gives nothing yields the elements that remain, in order. */
  method Drain<T(0)>(it: DequeIterator<T>, d: Deque<T>) returns (seen: seq<T>)
    requires it.Over(d)
    modifies it
    ensures seen == old(it.Left(d)) && it.Over(d) && it.remaining == 0
  {
    seen := [];
    ghost var all := it.Left(d);
    assert [] + all == all;
    while true
      invariant it.Over(d) && seen + it.Left(d) == all
      decreases it.remaining
    {
      var found, slot := it.Next(d);
      if !found {
        break;
      }
      Associate(seen, [it.base[slot]], it.Left(d));
      seen := seen + [it.base[slot]];
    }
  }

  /** Iterating an unmodified deque yields its sequence. */
  method Elements<T(0)>(d: Deque<T>) returns (seen: seq<T>)
    requires d.Valid()
    ensures seen == d.Items()
  {
    var it := new DequeIterator(d);
    seen := Drain(it, d);
  }

  // ---------- runs ----------

  datatype DequeOp<T> = AddBack(x: T) | AddFront(x: T) | TakeLeft | TakeBack

  /** The sequence after one operation that returned `st`, and what it took out. */
  function Effect<T>(items: seq<T>, op: DequeOp<T>, st: Status): (seq<T>, seq<T>)
  {
    match op
    case AddBack(x) => (if st == OK then items + [x] else items, [])
    case AddFront(x) => (if st == OK then [x] + items else items, [])
    case TakeLeft => if items == [] then ([], []) else (items[1..], items[..1])
    case TakeBack => if items == [] then ([], []) else (items[..|items| - 1], items[|items| - 1..])
  }

  function Replay<T>(items: seq<T>, ops: seq<DequeOp<T>>, sts: seq<Status>): (seq<T>, seq<T>)
    requires |ops| == |sts|
    decreases |ops|
  {
    if ops == [] then (items, [])
    else
      var before := Replay(items, ops[..|ops| - 1], sts[..|ops| - 1]);
      var after := Effect(before.0, ops[|ops| - 1], sts[|ops| - 1]);
      (after.0, before.1 + after.1)
  }

  // An addition overflows only when twice the elements do not fit; nothing else fails but for memory.
  predicate Warranted<T>(items: seq<T>, elemSize: SizeT, op: DequeOp<T>, st: Status)
  {
    if op.AddBack? || op.AddFront? then
      st in {OK, NO_MEMORY, OVERFLOW} && (st == OVERFLOW ==> 2 * |items| * elemSize > SIZE_MAX)
    else st == OK
  }

  predicate RunWarranted<T>(items: seq<T>, elemSize: SizeT, ops: seq<DequeOp<T>>, sts: seq<Status>)
    requires |ops| == |sts|
    decreases |ops|
  {
    ops == [] ||
    var n := |ops| - 1;
    RunWarranted(items, elemSize, ops[..n], sts[..n])
    && Warranted(Replay(items, ops[..n], sts[..n]).0, elemSize, ops[n], sts[n])
  }

  lemma ReplaySnoc<T>(items: seq<T>, elemSize: SizeT, ops: seq<DequeOp<T>>, i: nat, sts: seq<Status>, st: Status)
    requires i < |ops| && |sts| == i
    ensures var before := Replay(items, ops[..i], sts);
            var after := Effect(before.0, ops[i], st);
            && Replay(items, ops[..i + 1], sts + [st]) == (after.0, before.1 + after.1)
            && (RunWarranted(items, elemSize, ops[..i + 1], sts + [st]) <==>
                RunWarranted(items, elemSize, ops[..i], sts) && Warranted(before.0, elemSize, ops[i], st))
    ensures Refusals(sts + [st]) == Refusals(sts) + if st == NO_MEMORY then 1 else 0
  {
    RefusalsSnoc(sts, st);
    assert ops[..i + 1][..i] == ops[..i] && (sts + [st])[..i] == sts;
  }

  method Apply<T(0)>(d: Deque<T>, op: DequeOp<T>) returns (st: Status, out: seq<T>)
    requires d.Valid()
    modifies d, d.buffer, d.a
    ensures d.Valid() && (d.Items(), out) == Effect(old(d.Items()), op, st)
    ensures Warranted(old(d.Items()), d.elemSize, op, st)
    ensures d.buffer == old(d.buffer) || fresh(d.buffer)
    ensures d.a.outstanding == old(d.a.outstanding)
    ensures d.a.failed == old(d.a.failed) + if st == NO_MEMORY then 1 else 0
  {
    st, out := OK, [];
    match op
    case AddBack(x) => st := d.Push(x);
    case AddFront(x) => st := d.PushFront(x);
    case TakeLeft =>
      var found, slot := d.PopLeft();
      out := if found then [d.buffer[slot]] else [];
    case TakeBack =>
      var found, slot := d.PopBack();
      out := if found then [d.buffer[slot]] else [];
  }

  /**
   Over any mix of operations the ring stands for the sequence and gives out its elements, and
   every failure has its cause.
   */
  method Execute<T(0)>(d: Deque<T>, ops: seq<DequeOp<T>>) returns (sts: seq<Status>, out: seq<T>)
    requires d.Valid()
    modifies d, d.buffer, d.a
    ensures d.Valid() && |sts| == |ops| && (d.Items(), out) == Replay(old(d.Items()), ops, sts)
    ensures RunWarranted(old(d.Items()), d.elemSize, ops, sts) && d.a.failed == old(d.a.failed) + Refusals(sts)
    ensures d.a.outstanding == old(d.a.outstanding)
  {
    sts, out := [], [];
    ghost var start := d.Items();
    for i := 0 to |ops|
      invariant d.Valid() && |sts| == i && (d.Items(), out) == Replay(start, ops[..i], sts)
      invariant RunWarranted(start, d.elemSize, ops[..i], sts) && d.a.failed == old(d.a.failed) + Refusals(sts)
      invariant d.buffer == old(d.buffer) || fresh(d.buffer)
      invariant d.a.outstanding == old(d.a.outstanding)
    {
      var st, more := Apply(d, ops[i]);
      ReplaySnoc(start, d.elemSize, ops, i, sts, st);
      sts, out := sts + [st], out + more;
    }
    assert ops[..|ops|] == ops;
  }

  /** What a run of successful additions at the back has added. */
  function Added<T>(ops: seq<DequeOp<T>>, sts: seq<Status>): seq<T>
    requires |ops| == |sts|
    decreases |ops|
  {
    if ops == [] then []
    else
      var n := |ops| - 1;
      Added(ops[..n], sts[..n]) + if ops[n].AddBack? && sts[n] == OK then [ops[n].x] else []
  }

  /** Used at opposite ends a deque is a queue: what comes out, then what is left, is what went in. */
  lemma {:induction false} FirstInFirstOut<T>(items: seq<T>, ops: seq<DequeOp<T>>, sts: seq<Status>)
    requires |ops| == |sts| && forall op :: op in ops ==> op.AddBack? || op.TakeLeft?
    ensures Replay(items, ops, sts).1 + Replay(items, ops, sts).0 == items + Added(ops, sts)
    decreases |ops|
  {
    if ops != [] {
      var n := |ops| - 1;
      assert ops[n] in ops;
      FirstInFirstOut(items, ops[..n], sts[..n]);
      var before := Replay(items, ops[..n], sts[..n]);
      var after := Effect(before.0, ops[n], sts[n]);
      var added := if ops[n].AddBack? && sts[n] == OK then [ops[n].x] else [];
      EffectFirst(before.0, ops[n], sts[n], added);
      Associate(before.1, after.1, after.0);
      Associate(before.1, before.0, added);
      Associate(items, Added(ops[..n], sts[..n]), added);
    }
  }

  lemma EffectFirst<T>(items: seq<T>, op: DequeOp<T>, st: Status, added: seq<T>)
    requires op.AddBack? || op.TakeLeft?
    requires added == if op.AddBack? && st == OK then [op.x] else []
    ensures Effect(items, op, st).1 + Effect(items, op, st).0 == items + added
  {
  }
}
