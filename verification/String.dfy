/** The growable NUL-terminated string (lib/datastruct/string.c). */
module Strings {
  import opened Sizes
  import opened Allocators
  import opened Vectors

  const HEADER: nat := 40
  const MIN_CAPACITY: SizeT := 16

  // A C string without its terminator; `strlen` can count it.
  type Text = s: seq<bv8> | |s| <= SIZE_MAX && forall k :: 0 <= k < |s| ==> s[k] != 0 witness []

  /** Where `strlen` stops. */
  function StrLen(s: seq<bv8>): (n: nat)
    ensures n <= |s| && (forall k :: 0 <= k < n ==> s[k] != 0) && (n < |s| ==> s[n] == 0)
  {
    if s == [] || s[0] == 0 then 0 else
      var n := 1 + StrLen(s[1..]);
      assert forall k :: 1 <= k < |s| ==> s[k] == s[1..][k - 1];
      n
  }

  // The text, and behind it a NUL.
  ghost predicate Terminated(bytes: seq<bv8>, text: seq<bv8>)
  {
    |text| < |bytes| && bytes[..|text|] == text && bytes[|text|] == 0
  }

  /** A terminated buffer reads back as exactly its text. */
  lemma TerminatedReadsBack(bytes: seq<bv8>, text: Text)
    requires Terminated(bytes, text)
    ensures StrLen(bytes) == |text| && bytes[..StrLen(bytes)] == text
  {
  }

  /** The capacity for `len` characters and the terminator. */
  function WantedCapacity(len: SizeT): Checked
  {
    if len == SIZE_MAX then Overflow else Value(Grown(MIN_CAPACITY, len + 1))
  }

  // The block for them does not fit a `size_t`.
  predicate TooLong(len: SizeT)
  {
    WantedCapacity(len).Overflow? || HEADER + WantedCapacity(len).value > SIZE_MAX
  }

  /** Overflow needs a text near two thirds of the address space, and any text beyond it overflows. */
  lemma TooLongBounds(len: SizeT)
    ensures TooLong(len) ==> 3 * (len + 1) > 2 * (SIZE_MAX - HEADER)
    ensures len + 1 > SIZE_MAX - HEADER ==> TooLong(len)
  {
    if len < SIZE_MAX {
      GrownBounds(MIN_CAPACITY, len + 1);
    }
  }

  // Adding `more` characters to `len` needs a larger block, and none can be asked for.
  predicate Overflows(len: SizeT, more: SizeT, capacity: SizeT)
  {
    more > 0 && len + more >= capacity && (len + more > SIZE_MAX || TooLong(len + more))
  }

  /** `k4c_string_capacity_for` */
  method CapacityFor(len: SizeT) returns (r: Checked)
    ensures r == WantedCapacity(len)
    ensures r.Overflow? <==> len == SIZE_MAX
    ensures r.Value? ==> len < r.value && MIN_CAPACITY <= r.value
    ensures r.Value? && len < MIN_CAPACITY ==> r.value == MIN_CAPACITY
    ensures r.Value? && len >= MIN_CAPACITY ==> 2 * r.value <= 3 * (len + 1)
    ensures r.Value? ==> GrownByHalves(MIN_CAPACITY, len + 1, r.value)
  {
    r := AddOverflow(len, 1);
    if r.Overflow? {
      return;
    }
    var capacity := CapacityGrow(MIN_CAPACITY, r.value);
    r := Value(capacity);
  }

  /** `memmove` inside one buffer. */
  method MoveWithin(b: array<bv8>, dst: nat, src: nat, n: nat)
    requires dst + n <= b.Length && src + n <= b.Length
    modifies b
    ensures b[..] == old(b[..dst]) + old(b[src..src + n]) + old(b[dst + n..])
  {
    forall k | dst <= k < dst + n {
      b[k] := b[k - dst + src];
    }
  }

  /** `memcpy` from elsewhere. */
  method CopyInto(b: array<bv8>, dst: nat, s: seq<bv8>)
    requires dst + |s| <= b.Length
    modifies b
    ensures b[..] == old(b[..dst]) + s + old(b[dst + |s|..])
  {
    forall k | dst <= k < dst + |s| {
      b[k] := s[k - dst];
    }
  }

  // Overwriting the cell behind the prefix and putting it back leaves prefix, text and NUL in a row.
  lemma PutBack(start: seq<bv8>, text: seq<bv8>, prefix: seq<bv8>, moved: seq<bv8>, copied: seq<bv8>)
    requires Terminated(start, text) && |prefix| + |text| < |start|
    requires moved == start[..|prefix|] + start[0..|text| + 1] + start[|prefix| + |text| + 1..]
    requires copied == moved[..0] + (prefix + [0]) + moved[|prefix| + 1..]
    ensures Terminated(copied[|prefix| := moved[|prefix|]], prefix + text)
  {
  }

  class String {
    const a: Allocator
    var len: SizeT
    var capacity: SizeT
    var block: nat        // the address of header and characters
    var buf: array<bv8>

    ghost predicate Sound()
      reads this
    {
      len < capacity == buf.Length && HEADER + capacity <= SIZE_MAX
    }

    ghost predicate Valid()
      reads this, buf, a
    {
      && Sound() && a.outstanding >= 1 && Grants(a.books, block, HEADER + capacity)
      && buf[len] == 0 && forall k :: 0 <= k < len ==> buf[k] != 0
    }

    ghost function Contents(): Text
      reads this, buf, a
      requires Valid()
    {
      buf[..len]
    }

    /** The stored length is what `strlen` finds, also with leftovers of longer texts behind it. */
    lemma LengthIsStrLen()
      requires Valid()
      ensures StrLen(buf[..]) == len && buf[..StrLen(buf[..])] == Contents()
    {
      TerminatedReadsBack(buf[..], Contents());
    }

    constructor Assemble(text: Text, slots: SizeT, allocator: Allocator, b: nat)
      requires |text| < slots && HEADER + slots <= SIZE_MAX && allocator.outstanding >= 1
      requires Grants(allocator.books, b, HEADER + slots)
      ensures Valid() && Contents() == text && capacity == slots && a == allocator && block == b && fresh(buf)
    {
      len, capacity, a, block := |text|, slots, allocator, b;
      buf := new bv8[slots](k => if 0 <= k < |text| then text[k] else 0);
    }

    /** `k4c_string_create`; a missing initial text is the empty one. */
    static method Create(initial: Text, allocator: Allocator) returns (st: Status, s: String?)
      modifies allocator
      ensures st == OK <==> s != null
      ensures st in {OK, OVERFLOW, NO_MEMORY} && (st == OVERFLOW <==> TooLong(|initial|))
      ensures s != null ==> fresh(s) && fresh(s.buf) && s.Valid() && s.Contents() == initial && s.a == allocator
      ensures allocator.outstanding == old(allocator.outstanding) + if s != null then 1 else 0
      ensures s == null ==> allocator.books.granted == old(allocator.books.granted)
      ensures s != null ==> Value(s.capacity) == WantedCapacity(|initial|)
      ensures s != null ==> allocator.books.granted - {s.block} == old(allocator.books.granted)
      ensures s != null ==> s.block !in old(allocator.books.granted)
      ensures allocator.tripped == old(allocator.tripped)
      ensures allocator.failed == old(allocator.failed) + if st == NO_MEMORY then 1 else 0
      ensures SameBacking(old(allocator.books), allocator.books)
    {
      var slots := CapacityFor(|initial|);
      if slots.Overflow? {
        return OVERFLOW, null;
      }
      var bytes := AddOverflow(HEADER, slots.value);
      if bytes.Overflow? {
        return OVERFLOW, null;
      }
      var b := allocator.Alloc(bytes.value);
      if b.Null? {
        return NO_MEMORY, null;
      }
      s := new String.Assemble(initial, slots.value, allocator, b.at);
      st := OK;
    }

    /** `k4c_string_ensure_capacity`: room for `n` characters and the terminator. */
    method EnsureCapacity(n: SizeT) returns (st: Status)
      requires Valid()
      modifies this`capacity, this`block, this`buf, a
      ensures Valid() && Contents() == old(Contents()) && st in {OK, OVERFLOW, NO_MEMORY}
      ensures st == OK ==> n < capacity && capacity >= old(capacity)
      ensures st != OK || n < old(capacity) ==> capacity == old(capacity) && buf == old(buf)
      ensures st == OK && n >= old(capacity) ==> Value(capacity) == WantedCapacity(n)
      ensures n < old(capacity) ==> st == OK
      ensures st == OVERFLOW <==> n >= old(capacity) && TooLong(n)
      ensures buf == old(buf) || fresh(buf)
      ensures a.outstanding == old(a.outstanding) && a.tripped == old(a.tripped)
      ensures a.failed == old(a.failed) + if st == NO_MEMORY then 1 else 0
      ensures OthersKept(old(a.books), old(block), a.books, block)
    {
      if n < capacity {
        return OK;
      }
      var slots := CapacityFor(n);
      if slots.Overflow? {
        return OVERFLOW;
      }
      var bytes := AddOverflow(HEADER, slots.value);
      if bytes.Overflow? {
        return OVERFLOW;
      }
      GrowthNeverTrips(a.books, block, bytes.value);
      var ok, moved := a.Resize(block, bytes.value);
      if !ok {
        return NO_MEMORY;
      }
      var larger := new bv8[slots.value];
      forall i | 0 <= i < capacity {
        larger[i] := buf[i];
      }
      assert larger[..len] == buf[..len];
      buf, block, capacity := larger, moved.at, slots.value;
      st := OK;
    }

    /** `k4c_string_append` */
    method Append(suffix: Text) returns (st: Status)
      requires Valid()
      modifies this`len, this`capacity, this`block, this`buf, buf, a
      ensures Valid() && st in {OK, OVERFLOW, NO_MEMORY}
      ensures Contents() == if st == OK then old(Contents()) + suffix else old(Contents())
      ensures old(len) + |suffix| < old(capacity) || suffix == [] ==> st == OK && buf == old(buf)
      ensures st == OVERFLOW <==> Overflows(old(len), |suffix|, old(capacity))
      ensures buf == old(buf) || fresh(buf)
      ensures a.outstanding == old(a.outstanding) && a.tripped == old(a.tripped)
      ensures a.failed == old(a.failed) + if st == NO_MEMORY then 1 else 0
      ensures OthersKept(old(a.books), old(block), a.books, block)
    {
      if |suffix| == 0 {
        return OK;
      }
      var total := AddOverflow(len, |suffix|);
      if total.Overflow? {
        return OVERFLOW;
      }
      st := EnsureCapacity(total.value);
      if st != OK {
        return;
      }
      CopyInto(buf, len, suffix);
      len := total.value;
      buf[len] := 0;
    }

    /** `k4c_string_prepend`: the terminator of the prefix lands on the first old character, which is put back. */
    method Prepend(prefix: Text) returns (st: Status)
      requires Valid()
      modifies this`len, this`capacity, this`block, this`buf, buf, a
      ensures Valid() && st in {OK, OVERFLOW, NO_MEMORY}
      ensures Contents() == if st == OK then prefix + old(Contents()) else old(Contents())
      ensures old(len) + |prefix| < old(capacity) || prefix == [] ==> st == OK && buf == old(buf)
      ensures st == OVERFLOW <==> Overflows(old(len), |prefix|, old(capacity))
      ensures buf == old(buf) || fresh(buf)
      ensures a.outstanding == old(a.outstanding) && a.tripped == old(a.tripped)
      ensures a.failed == old(a.failed) + if st == NO_MEMORY then 1 else 0
      ensures OthersKept(old(a.books), old(block), a.books, block)
    {
      if |prefix| == 0 {
        return OK;
      }
      var total := AddOverflow(len, |prefix|);
      if total.Overflow? {
        return OVERFLOW;
      }
      st := EnsureCapacity(total.value);
      if st != OK {
        return;
      }
      Insert(prefix);
      len := total.value;
    }

    method Insert(prefix: Text)
      requires Valid() && len + |prefix| < capacity && |prefix| > 0
      modifies buf
      ensures Terminated(buf[..], prefix + old(buf[..len]))
    {
      var n := |prefix|;
      ghost var text := buf[..len];
      ghost var start := buf[..];
      MoveWithin(buf, n, 0, len + 1);
      ghost var moved := buf[..];
      var first := buf[n];
      CopyInto(buf, 0, prefix + [0]);
      ghost var copied := buf[..];
      buf[n] := first;
      PutBack(start, text, prefix, moved, copied);
    }

    /** `k4c_string_clear` */
    method Clear()
      requires Valid()
      modifies this`len, buf
      ensures Valid() && Contents() == [] && capacity == old(capacity)
    {
      len := 0;
      buf[0] := 0;
    }

    /** `k4c_string_destroy` */
    method Destroy()
      requires Valid()
      modifies a`deallocCount, a`outstanding, a`books
      ensures a.outstanding == old(a.outstanding) - 1 && a.books.granted == old(a.books.granted) - {block}
    {
      a.Dealloc(Ptr(block));
    }
  }
}
