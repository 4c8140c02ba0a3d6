/** The binary heap on a growable array (lib/datastruct/binary_heap.c). */
module BinaryHeaps {
  import opened Sizes
  import opened Ordering
  import opened Vectors

  function Parent(i: nat): nat
    requires i > 0
  {
    (i - 1) / 2
  }

  /** Heap order: no element is below its parent. */
  ghost predicate Ordered<T>(s: seq<T>, cmp: Comparison<T>)
  {
    forall i :: 0 < i < |s| ==> cmp(s[Parent(i)], s[i]) <= 0
  }

  // Order everywhere but between `k` and its parent; the children of `k` fit its parent.
  ghost predicate OrderedUpTo<T>(s: seq<T>, cmp: Comparison<T>, k: nat)
  {
    && (forall i :: 0 < i < |s| && i != k ==> cmp(s[Parent(i)], s[i]) <= 0)
    && (forall i :: 0 < i < |s| && Parent(i) == k && k > 0 ==> cmp(s[Parent(k)], s[i]) <= 0)
  }

  // Order everywhere but between `k` and its children; those fit the parent of `k`.
  ghost predicate OrderedDownTo<T>(s: seq<T>, cmp: Comparison<T>, k: nat)
  {
    && (forall i :: 0 < i < |s| && Parent(i) != k ==> cmp(s[Parent(i)], s[i]) <= 0)
    && (forall i :: 0 < i < |s| && Parent(i) == k && k > 0 ==> cmp(s[Parent(k)], s[i]) <= 0)
  }

  function Swapped<T>(s: seq<T>, i: nat, j: nat): seq<T>
    requires i < |s| && j < |s|
  {
    s[i := s[j]][j := s[i]]
  }

  lemma SwapPermutes<T>(s: seq<T>, i: nat, j: nat)
    requires i < |s| && j < |s|
    ensures multiset(Swapped(s, i, j)) == multiset(s)
  {
  }

  lemma SiftUpStep<T(!new)>(s: seq<T>, cmp: Comparison<T>, k: nat)
    requires TotalPreorder(cmp) && 0 < k < |s| && OrderedUpTo(s, cmp, k) && cmp(s[k], s[Parent(k)]) < 0
    ensures OrderedUpTo(Swapped(s, k, Parent(k)), cmp, Parent(k))
  {
    var p := Parent(k);
    var t := Swapped(s, k, p);
    assert Laws(cmp, s[k], s[p], s[k]) && Laws(cmp, s[p], s[k], s[p]);
    forall i | 0 < i < |t| && i != p
      ensures cmp(t[Parent(i)], t[i]) <= 0
    {
      assert Laws(cmp, s[k], s[p], s[i]);
    }
    forall i | 0 < i < |t| && Parent(i) == p && p > 0
      ensures cmp(t[Parent(p)], t[i]) <= 0
    {
      assert Laws(cmp, s[Parent(p)], s[p], s[i]) && cmp(s[Parent(p)], s[p]) <= 0;
    }
  }

  lemma SiftUpDone<T(!new)>(s: seq<T>, cmp: Comparison<T>, k: nat)
    requires TotalPreorder(cmp) && k < |s| && OrderedUpTo(s, cmp, k)
    requires k == 0 || cmp(s[k], s[Parent(k)]) >= 0
    ensures Ordered(s, cmp)
  {
    if k > 0 {
      assert Laws(cmp, s[k], s[Parent(k)], s[k]) && Laws(cmp, s[Parent(k)], s[k], s[k]);
    }
  }

  lemma SiftDownStep<T(!new)>(s: seq<T>, cmp: Comparison<T>, k: nat, best: nat)
    requires TotalPreorder(cmp) && k < |s| && OrderedDownTo(s, cmp, k)
    requires 0 < best < |s| && Parent(best) == k && cmp(s[best], s[k]) <= 0
    requires forall i :: 0 < i < |s| && Parent(i) == k ==> cmp(s[best], s[i]) <= 0
    ensures OrderedDownTo(Swapped(s, k, best), cmp, best)
  {
  }

  /** The root of an ordered heap is a minimum. */
  lemma {:induction false} RootIsLeast<T(!new)>(s: seq<T>, cmp: Comparison<T>, i: nat)
    requires TotalPreorder(cmp) && Ordered(s, cmp) && i < |s|
    ensures cmp(s[0], s[i]) <= 0
  {
    if i == 0 {
      assert Laws(cmp, s[0], s[0], s[0]);
    } else {
      RootIsLeast(s, cmp, Parent(i));
      assert Laws(cmp, s[0], s[Parent(i)], s[i]);
    }
  }

  ghost predicate Least<T>(x: T, m: multiset<T>, cmp: Comparison<T>)
  {
    x in m && forall y :: y in m ==> cmp(x, y) <= 0
  }

  class BinaryHeap<T(0, !new)> {
    const root: Vector<T>
    const cmp: Comparison<T>

    ghost predicate Valid()
      reads this, root, root.buffer, root.a
    {
      root.Valid() && TotalPreorder(cmp) && Ordered(root.Items(), cmp)
    }

    constructor (v: Vector<T>, compare: Comparison<T>)
      requires v.Valid() && v.Items() == [] && TotalPreorder(compare)
      ensures Valid() && root == v && cmp == compare
    {
      root, cmp := v, compare;
    }

    method SwapAt(i: nat, j: nat)
      requires root.Valid() && i < root.size && j < root.size
      modifies root.buffer
      ensures root.Items() == Swapped(old(root.Items()), i, j)
      ensures root.buffer[root.size..] == old(root.buffer[root.size..])
    {
      root.buffer[i], root.buffer[j] := root.buffer[j], root.buffer[i];
    }

    /** `k4c_binary_heap_sift_up` */
    method SiftUp(start: nat)
      requires root.Valid() && TotalPreorder(cmp) && start < root.size && OrderedUpTo(root.Items(), cmp, start)
      modifies root.buffer
      ensures Ordered(root.Items(), cmp) && multiset(root.Items()) == multiset(old(root.Items()))
    {
      var idx: nat := start;
      while idx > 0
        invariant idx < root.size && OrderedUpTo(root.Items(), cmp, idx)
        invariant multiset(root.Items()) == multiset(old(root.Items()))
      {
        var parent := Parent(idx);
        if cmp(root.buffer[idx], root.buffer[parent]) >= 0 {
          break;
        }
        SiftUpStep(root.Items(), cmp, idx);
        SwapPermutes(root.Items(), idx, parent);
        SwapAt(idx, parent);
        idx := parent;
      }
      SiftUpDone(root.Items(), cmp, idx);
    }

    /** The smallest of a node and its two children, the node on a tie. */
    method Best(idx: nat) returns (best: nat)
      requires root.Valid() && TotalPreorder(cmp) && idx < root.size
      ensures best < root.size && (best == idx || (best > 0 && Parent(best) == idx))
      ensures cmp(root.buffer[best], root.buffer[idx]) <= 0
      ensures forall i :: 0 < i < root.size && Parent(i) == idx ==> cmp(root.buffer[best], root.buffer[i]) <= 0
    {
      root.SizeBound();
      var left: SizeT := 2 * idx + 1;
      var right: SizeT := left + 1;
      best := idx;
      ghost var s := root.Items();
      assert Laws(cmp, s[idx], s[idx], s[idx]);
      if left < root.size && cmp(root.buffer[left], root.buffer[best]) < 0 {
        best := left;
      }
      ghost var first := best;
      if right < root.size && cmp(root.buffer[right], root.buffer[best]) < 0 {
        best := right;
      }
      assert forall i :: 0 < i < root.size && Parent(i) == idx ==> i == left || i == right;
      if left < root.size {
        BestOfTwo(s[idx], s[left], s[first], cmp);
        BestOfThree(s[first], s[left], s[best], cmp);
      }
      BestOfThree(s[first], s[idx], s[best], cmp);
      if right < root.size {
        BestOfTwo(s[first], s[right], s[best], cmp);
      }
    }

    /** `k4c_binary_heap_sift_down` */
    method SiftDown(start: nat)
      requires root.Valid() && TotalPreorder(cmp) && start < root.size && OrderedDownTo(root.Items(), cmp, start)
      modifies root.buffer
      ensures Ordered(root.Items(), cmp) && multiset(root.Items()) == multiset(old(root.Items()))
      ensures root.buffer[root.size..] == old(root.buffer[root.size..])
    {
      var idx: nat := start;
      while true
        invariant idx < root.size && OrderedDownTo(root.Items(), cmp, idx)
        invariant multiset(root.Items()) == multiset(old(root.Items()))
        invariant root.buffer[root.size..] == old(root.buffer[root.size..])
        decreases root.size - idx
      {
        var best := Best(idx);
        if best == idx {
          break;
        }
        SiftDownStep(root.Items(), cmp, idx, best);
        SwapPermutes(root.Items(), idx, best);
        SwapAt(idx, best);
        idx := best;
      }
    }

    /** `k4c_binary_heap_push` */
    method Push(x: T) returns (st: Status)
      requires Valid()
      modifies root, root.buffer, root.a
      ensures Valid() && st in {OK, OVERFLOW, NO_MEMORY}
      ensures multiset(root.Items()) == multiset(old(root.Items())) + if st == OK then multiset{x} else multiset{}
      ensures st != OK ==> root.Items() == old(root.Items())
      ensures old(root.size) < old(root.capacity) ==> st == OK
      ensures st == OVERFLOW <==> PushOverflows(old(root.size), old(root.capacity), root.elemSize)
      ensures root.a.failed == old(root.a.failed) + if st == NO_MEMORY then 1 else 0
      ensures root.buffer == old(root.buffer) || fresh(root.buffer)
    {
      st := root.Push(x);
      if st != OK {
        return;
      }
      ghost var was := old(root.Items());
      assert root.Items()[..|was|] == was;
      SiftUp(root.size - 1);
    }

    /**
     `k4c_binary_heap_pop`: the slot behind the remaining elements, which still holds a minimum
     of the old ones after the rest has been reordered.
     */
    method Pop() returns (found: bool, slot: nat)
      requires Valid()
      modifies root`size, root.buffer
      ensures Valid() && found == (old(root.size) > 0)
      ensures !found ==> root.Items() == old(root.Items())
      ensures found ==> slot == root.size < root.buffer.Length
      ensures found ==> multiset(old(root.Items())) == multiset(root.Items()) + multiset{root.buffer[slot]}
      ensures found ==> Least(root.buffer[slot], multiset(old(root.Items())), cmp)
    {
      if root.size == 0 {
        return false, 0;
      }
      ghost var was := root.Items();
      RootOfMultiset(was, cmp);
      if root.size == 1 {
        found, slot := root.Pop();
        return;
      }
      slot := PopLast();
      found := true;
    }

    method PopLast() returns (slot: nat)
      requires Valid() && root.size >= 2
      modifies root`size, root.buffer
      ensures Valid() && slot == root.size == old(root.size) - 1
      ensures root.buffer[slot] == old(root.Items()[0])
      ensures multiset(old(root.Items())) == multiset(root.Items()) + multiset{root.buffer[slot]}
    {
      ghost var was := root.Items();
      SwapAt(0, root.size - 1);
      var found;
      found, slot := root.Pop();
      SwapOut(was, root.Items(), cmp);
      ghost var rest := root.buffer[slot..];
      SiftDown(0);
      assert rest[0] == root.buffer[slot..][0];
    }
  }

  /** Moving the root to the end and dropping it leaves a heap that is out of order at the root only. */
  lemma SwapOut<T(!new)>(was: seq<T>, rest: seq<T>, cmp: Comparison<T>)
    requires |was| >= 2 && Ordered(was, cmp) && rest == Swapped(was, 0, |was| - 1)[..|was| - 1]
    ensures OrderedDownTo(rest, cmp, 0)
    ensures multiset(was) == multiset(rest) + multiset{was[0]}
  {
    var n := |was|;
    var t := Swapped(was, 0, n - 1);
    SwapPermutes(was, 0, n - 1);
    assert t == rest + [was[0]];
  }

  lemma RootOfMultiset<T(!new)>(s: seq<T>, cmp: Comparison<T>)
    requires TotalPreorder(cmp) && Ordered(s, cmp) && s != []
    ensures Least(s[0], multiset(s), cmp)
  {
    forall y | y in multiset(s) ensures cmp(s[0], y) <= 0 {
      var i :| 0 <= i < |s| && s[i] == y;
      RootIsLeast(s, cmp, i);
    }
  }

  lemma BestOfTwo<T(!new)>(a: T, b: T, best: T, cmp: Comparison<T>)
    requires TotalPreorder(cmp) && best == if cmp(b, a) < 0 then b else a
    ensures cmp(best, a) <= 0 && cmp(best, b) <= 0
  {
    assert Laws(cmp, a, a, a) && Laws(cmp, b, b, b) && Laws(cmp, a, b, a) && Laws(cmp, b, a, b);
  }

  lemma BestOfThree<T(!new)>(first: T, a: T, best: T, cmp: Comparison<T>)
    requires TotalPreorder(cmp) && cmp(first, a) <= 0 && (best == first || cmp(best, first) < 0)
    ensures cmp(best, a) <= 0
  {
    assert Laws(cmp, best, first, a);
  }

  /**
   Pushing all of `items` and popping until empty returns them in order: heap sort, unless a
   request is refused or the elements would take more than two thirds of the address space.
   */
  method PushAllPopAll<T(0, !new)>(h: BinaryHeap<T>, items: seq<T>) returns (st: Status, out: seq<T>)
    requires h.Valid() && h.root.Items() == []
    modifies h.root, h.root.buffer, h.root.a
    ensures h.Valid() && st in {OK, OVERFLOW, NO_MEMORY}
    ensures st == OK ==> h.root.Items() == [] && multiset(out) == multiset(items) && Sorted(out, h.cmp)
    ensures h.root.a.failed == old(h.root.a.failed) + if st == NO_MEMORY then 1 else 0
    ensures st == OVERFLOW ==> Crowded(|items|, h.root.elemSize)
  {
    out := [];
    st := PushAll(h, items);
    if st == OK {
      out := PopAll(h);
    }
  }

  method PushAll<T(0, !new)>(h: BinaryHeap<T>, items: seq<T>) returns (st: Status)
    requires h.Valid() && h.root.Items() == []
    modifies h.root, h.root.buffer, h.root.a
    ensures h.Valid() && st in {OK, OVERFLOW, NO_MEMORY}
    ensures h.root.buffer == old(h.root.buffer) || fresh(h.root.buffer)
    ensures st == OK ==> multiset(h.root.Items()) == multiset(items)
    ensures h.root.a.failed == old(h.root.a.failed) + if st == NO_MEMORY then 1 else 0
    ensures st == OVERFLOW ==> Crowded(|items|, h.root.elemSize)
  {
    for i := 0 to |items|
      invariant h.Valid() && multiset(h.root.Items()) == multiset(items[..i])
      invariant h.root.a.failed == old(h.root.a.failed)
      invariant h.root.buffer == old(h.root.buffer) || fresh(h.root.buffer)
    {
      st := PushNext(h, items, i);
      if st != OK {
        return;
      }
    }
    assert items[..|items|] == items;
    st := OK;
  }

  method PushNext<T(0, !new)>(h: BinaryHeap<T>, items: seq<T>, i: nat) returns (st: Status)
    requires h.Valid() && i < |items| && multiset(h.root.Items()) == multiset(items[..i])
    modifies h.root, h.root.buffer, h.root.a
    ensures h.Valid() && st in {OK, OVERFLOW, NO_MEMORY}
    ensures h.root.buffer == old(h.root.buffer) || fresh(h.root.buffer)
    ensures st == OK ==> multiset(h.root.Items()) == multiset(items[..i + 1])
    ensures h.root.a.failed == old(h.root.a.failed) + if st == NO_MEMORY then 1 else 0
    ensures st == OVERFLOW ==> Crowded(|items|, h.root.elemSize)
  {
    SameSize(h.root.Items(), items[..i]);
    st := h.Push(items[i]);
    assert items[..i + 1] == items[..i] + [items[i]];
    if st == OVERFLOW {
      ShortOfRoom(old(h.root.size), old(h.root.capacity), h.root.elemSize, |items|);
    }
  }

  lemma SameSize<T>(s: seq<T>, t: seq<T>)
    requires multiset(s) == multiset(t)
    ensures |s| == |t|
  {
    assert |multiset(s)| == |s| && |multiset(t)| == |t|;
  }

  method PopAll<T(0, !new)>(h: BinaryHeap<T>) returns (out: seq<T>)
    requires h.Valid()
    modifies h.root`size, h.root.buffer
    ensures h.Valid() && h.root.Items() == []
    ensures multiset(out) == multiset(old(h.root.Items())) && Sorted(out, h.cmp)
  {
    out := [];
    while h.root.size > 0
      invariant h.Valid() && Sorted(out, h.cmp) && Before(out, multiset(h.root.Items()), h.cmp)
      invariant multiset(out) + multiset(h.root.Items()) == multiset(old(h.root.Items()))
      decreases h.root.size
    {
      ghost var was := multiset(h.root.Items());
      var _, slot := h.Pop();
      PopStep(out, h.root.buffer[slot], was, multiset(h.root.Items()), h.cmp);
      out := out + [h.root.buffer[slot]];
    }
  }

  ghost predicate Before<T(!new)>(out: seq<T>, rest: multiset<T>, cmp: Comparison<T>)
  {
    forall i, y :: 0 <= i < |out| && y in rest ==> cmp(out[i], y) <= 0
  }

  lemma PopStep<T(!new)>(out: seq<T>, x: T, was: multiset<T>, rest: multiset<T>, cmp: Comparison<T>)
    requires Sorted(out, cmp) && Before(out, was, cmp) && was == rest + multiset{x} && Least(x, was, cmp)
    ensures Sorted(out + [x], cmp) && Before(out + [x], rest, cmp)
    ensures multiset(out + [x]) + rest == multiset(out) + was
  {
    assert multiset(out + [x]) == multiset(out) + multiset{x};
    assert x in was;
    forall i, y | 0 <= i < |out| + 1 && y in rest
      ensures cmp((out + [x])[i], y) <= 0
    {
      assert y in was;
    }
  }
}
