/** Load arithmetic of the hash containers (lib/hash/common.h). */
module HashLoad {
  import opened Sizes

  const DEFAULT_CAPACITY: SizeT := 16
  const MAX_LOAD_NUMERATOR: SizeT := 3
  const MAX_LOAD_DENOMINATOR: SizeT := 4

  predicate ShouldGrow(size: SizeT, capacity: SizeT)
  {
    var next := AddOverflow(size, 1);
    if next.Overflow? then true
    else
      var scaledSize := MulOverflow(next.value, MAX_LOAD_DENOMINATOR);
      if scaledSize.Overflow? then true
      else
        var scaledCapacity := MulOverflow(capacity, MAX_LOAD_NUMERATOR);
        if scaledCapacity.Overflow? then false else scaledSize.value > scaledCapacity.value
  }

  /** Despite its overflow branches the test is exact, up to the point where `4 * (size + 1)` no longer fits. */
  lemma ShouldGrowExact(size: SizeT, capacity: SizeT)
    ensures ShouldGrow(size, capacity) <==> 4 * (size + 1) > 3 * capacity || 4 * (size + 1) > SIZE_MAX
  {
  }

  ghost predicate IsCapacity(c: nat)
  {
    exists k: nat :: c == 16 * Pow2(k)
  }

  // Capacities that the load test can scale, and that hold `size` entries.
  ghost predicate Holds(c: nat, size: nat)
  {
    4 * size <= 3 * c <= SIZE_MAX
  }

  /** Doubling from `c` on until the capacity holds `size` entries. */
  function LeastCapacity(c: SizeT, size: SizeT): Checked
    requires c > 0
    decreases SIZE_MAX - c
  {
    if 3 * c > SIZE_MAX then Overflow
    else if 4 * size <= 3 * c then Value(c)
    else LeastCapacity(2 * c, size)
  }

  lemma {:induction false} NeverEnough(c: SizeT, size: SizeT)
    requires c > 0 && 4 * size > SIZE_MAX
    ensures LeastCapacity(c, size).Overflow?
    decreases SIZE_MAX - c
  {
    if 3 * c <= SIZE_MAX {
      NeverEnough(2 * c, size);
    }
  }

  /** The least capacity is at most twice what the load needs. */
  lemma {:induction false} LeastBound(c: SizeT, size: SizeT)
    requires c > 0
    ensures LeastCapacity(c, size).Value? ==>
              LeastCapacity(c, size).value == c || 3 * LeastCapacity(c, size).value < 8 * size
    ensures LeastCapacity(c, size).Overflow? ==> 3 * c > SIZE_MAX || 8 * size > SIZE_MAX
    decreases SIZE_MAX - c
  {
    if 3 * c <= SIZE_MAX && 4 * size > 3 * c {
      LeastBound(2 * c, size);
    }
  }

  /**
   `k4c_hash_common_capacity_for_size`: the least capacity that holds `size` entries, or an
   overflow exactly when there is none.
   */
  method CapacityForSize(size: SizeT) returns (r: Checked)
    ensures r == LeastCapacity(DEFAULT_CAPACITY, size)
    ensures r.Value? ==> IsCapacity(r.value) && Holds(r.value, size)
    ensures r.Value? ==> forall k: nat :: Holds(16 * Pow2(k), size) ==> r.value <= 16 * Pow2(k)
    ensures r.Overflow? ==> forall k: nat :: !Holds(16 * Pow2(k), size)
  {
    var scaledSize := MulOverflow(size, MAX_LOAD_DENOMINATOR);
    if scaledSize.Overflow? {
      NeverEnough(DEFAULT_CAPACITY, size);
      return Overflow;
    }
    var capacity: SizeT := DEFAULT_CAPACITY;
    ghost var i := 0;
    while true
      invariant capacity == 16 * Pow2(i) && LeastCapacity(capacity, size) == LeastCapacity(DEFAULT_CAPACITY, size)
      invariant forall k: nat :: k < i ==> !Holds(16 * Pow2(k), size)
      decreases SIZE_MAX - capacity
    {
      var scaledCapacity := MulOverflow(capacity, MAX_LOAD_NUMERATOR);
      if scaledCapacity.Overflow? {
        NoneFrom(i, size);
        return Overflow;
      }
      if scaledSize.value <= scaledCapacity.value {
        break;
      }
      var doubled := MulOverflow(capacity, 2);
      if doubled.Overflow? {
        assert false;  // three times the capacity fits, so twice does
        return Overflow;
      }
      capacity := doubled.value;
      i := i + 1;
    }
    LeastFrom(i, size);
    r := Value(capacity);
  }

  lemma NoneFrom(i: nat, size: nat)
    requires 3 * (16 * Pow2(i)) > SIZE_MAX
    ensures forall k: nat :: k >= i ==> !Holds(16 * Pow2(k), size)
  {
    forall k: nat | k >= i ensures !Holds(16 * Pow2(k), size) {
      Pow2Monotone(i, k);
    }
  }

  lemma LeastFrom(i: nat, size: nat)
    requires forall k: nat :: k < i ==> !Holds(16 * Pow2(k), size)
    ensures forall k: nat :: Holds(16 * Pow2(k), size) ==> 16 * Pow2(i) <= 16 * Pow2(k)
  {
    forall k: nat | Holds(16 * Pow2(k), size) ensures 16 * Pow2(i) <= 16 * Pow2(k) {
      Pow2Monotone(i, k);
    }
  }

  /** A table that holds `n` entries has room for every insertion that keeps the size at most `n`. */
  lemma ReservedNeverGrows(n: SizeT, size: SizeT, capacity: SizeT)
    requires Holds(capacity, n) && size < n
    ensures !ShouldGrow(size, capacity)
  {
  }

  /** A table that need not grow has room for one more entry. */
  lemma RoomForOne(size: SizeT, capacity: SizeT)
    requires !ShouldGrow(size, capacity) && 3 * capacity <= SIZE_MAX
    ensures Holds(capacity, size + 1)
  {
    ShouldGrowExact(size, capacity);
  }

  /** A table due to grow for one more entry doubles, unless three times the doubled capacity does not fit. */
  lemma GrowthDoubles(size: SizeT, capacity: SizeT)
    requires IsCapacity(capacity) && Holds(capacity, size) && 4 * (size + 1) > 3 * capacity
    ensures LeastCapacity(DEFAULT_CAPACITY, size + 1) ==
            if 6 * capacity <= SIZE_MAX then Value(2 * capacity) else Overflow
  {
    var k: nat :| capacity == 16 * Pow2(k);
    DoublesPast(0, k, size + 1);
  }

  lemma {:induction false} DoublesPast(i: nat, k: nat, size: SizeT)
    requires i <= k && 4 * size > 3 * (16 * Pow2(k)) && 3 * (16 * Pow2(k)) <= SIZE_MAX && 16 * Pow2(i) <= SIZE_MAX
    ensures LeastCapacity(16 * Pow2(i), size) == LeastCapacity(2 * (16 * Pow2(k)), size)
    decreases k - i
  {
    Pow2Monotone(i, k);
    assert 16 * Pow2(i + 1) == 2 * (16 * Pow2(i));
    if i < k {
      DoublesPast(i + 1, k, size);
    }
  }

  /** A table due to grow does so: the capacity for one more entry is beyond the current one. */
  lemma GrowthGrows(size: SizeT, capacity: SizeT, next: SizeT)
    requires ShouldGrow(size, capacity) && 3 * capacity <= SIZE_MAX && size < SIZE_MAX && Holds(next, size + 1)
    ensures next > capacity
  {
  }
}
