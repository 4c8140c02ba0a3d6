/** Binary search in a sorted vector (lib/datastruct/vector.c). */
module VectorSearch {
  import opened Ordering
  import opened Vectors

  /** `k4c_vector_lower_bound`: how many items are below the key. */
  method LowerBound<T(0, !new)>(v: Vector<T>, key: T, cmp: Comparison<T>) returns (first: nat)
    requires v.Valid() && TotalPreorder(cmp) && Sorted(v.Items(), cmp)
    ensures first == CountBelow(v.Items(), key, cmp) && first <= v.size
    ensures forall i :: 0 <= i < v.size ==> (cmp(v.Items()[i], key) < 0 <==> i < first)
  {
    first := 0;
    var count: nat := v.size;
    ghost var s := v.Items();
    while count > 0
      invariant first + count <= v.size
      invariant forall i :: 0 <= i < first ==> cmp(s[i], key) < 0
      invariant forall i :: first + count <= i < v.size ==> cmp(s[i], key) >= 0
    {
      var step := count / 2;
      var mid := first + step;
      var item := v.buffer[mid];
      Neighbours(s, key, cmp, mid);
      if cmp(item, key) < 0 {
        first := mid + 1;
        count := count - (step + 1);
      } else {
        count := step;
      }
    }
    CountBelowIs(s, key, cmp, first);
  }

  /** In a sorted sequence an item bounds its neighbours on either side. */
  lemma Neighbours<T(!new)>(s: seq<T>, key: T, cmp: Comparison<T>, mid: nat)
    requires TotalPreorder(cmp) && Sorted(s, cmp) && mid < |s|
    ensures cmp(s[mid], key) < 0 ==> forall i :: 0 <= i <= mid ==> cmp(s[i], key) < 0
    ensures cmp(s[mid], key) >= 0 ==> forall i :: mid <= i < |s| ==> cmp(s[i], key) >= 0
    ensures cmp(s[mid], key) <= 0 ==> forall i :: 0 <= i <= mid ==> cmp(s[i], key) <= 0
    ensures cmp(s[mid], key) > 0 ==> forall i :: mid <= i < |s| ==> cmp(s[i], key) > 0
  {
    forall i | 0 <= i < |s|
      ensures i <= mid && cmp(s[mid], key) < 0 ==> cmp(s[i], key) < 0
      ensures i >= mid && cmp(s[mid], key) >= 0 ==> cmp(s[i], key) >= 0
      ensures i <= mid && cmp(s[mid], key) <= 0 ==> cmp(s[i], key) <= 0
      ensures i >= mid && cmp(s[mid], key) > 0 ==> cmp(s[i], key) > 0
    {
      var a, b := s[i], s[mid];
      assert Laws(cmp, a, b, key) && Laws(cmp, b, a, key) && Laws(cmp, key, a, b) && Laws(cmp, key, b, a);
      assert Laws(cmp, a, key, b) && Laws(cmp, b, key, a);
    }
  }

  /** `k4c_vector_upper_bound`: how many items are not above the key. */
  method UpperBound<T(0, !new)>(v: Vector<T>, key: T, cmp: Comparison<T>) returns (first: nat)
    requires v.Valid() && TotalPreorder(cmp) && Sorted(v.Items(), cmp)
    ensures first == CountNotAbove(v.Items(), key, cmp) && first <= v.size
    ensures forall i :: 0 <= i < v.size ==> (cmp(v.Items()[i], key) <= 0 <==> i < first)
  {
    first := 0;
    var count: nat := v.size;
    ghost var s := v.Items();
    while count > 0
      invariant first + count <= v.size
      invariant forall i :: 0 <= i < first ==> cmp(s[i], key) <= 0
      invariant forall i :: first + count <= i < v.size ==> cmp(s[i], key) > 0
    {
      var step := count / 2;
      var mid := first + step;
      var item := v.buffer[mid];
      Neighbours(s, key, cmp, mid);
      assert Laws(cmp, item, key, item) && Laws(cmp, key, item, key);
      if cmp(key, item) >= 0 {
        first := mid + 1;
        count := count - (step + 1);
      } else {
        count := step;
      }
    }
    CountNotAboveIs(s, key, cmp, first);
  }

  /** `k4c_vector_binary_search`: the first item equal to the key, or the size when there is none. */
  method BinarySearch<T(0, !new)>(v: Vector<T>, key: T, cmp: Comparison<T>) returns (index: nat)
    requires v.Valid() && TotalPreorder(cmp) && Sorted(v.Items(), cmp)
    ensures index <= v.size
    ensures index < v.size ==>
              cmp(v.Items()[index], key) == 0 && forall i :: 0 <= i < index ==> cmp(v.Items()[i], key) != 0
    ensures index == v.size ==> forall i :: 0 <= i < v.size ==> cmp(v.Items()[i], key) != 0
  {
    index := LowerBound(v, key, cmp);
    if index < v.size && cmp(v.buffer[index], key) == 0 {
      return;
    }
    ghost var s := v.Items();
    if index < v.size {
      Neighbours(s, key, cmp, index);
    }
    index := v.size;
  }
}
