/** Comparison callbacks in the style of `qsort`: a negative, zero or positive result. */
module Ordering {

  type Comparison<!T> = (T, T) -> int

  // Stated through a predicate so that a proof names the instance it uses.
  ghost predicate Laws<T>(cmp: Comparison<T>, a: T, b: T, c: T)
  {
    && (cmp(a, b) < 0 <==> cmp(b, a) > 0)
    && (cmp(a, b) <= 0 && cmp(b, c) <= 0 ==> cmp(a, c) <= 0)
  }

  /** A sign-antisymmetric, transitive comparison: a total preorder. */
  ghost predicate TotalPreorder<T(!new)>(cmp: Comparison<T>)
  {
    forall a, b, c :: Laws(cmp, a, b, c)
  }

  ghost predicate Sorted<T>(s: seq<T>, cmp: Comparison<T>)
  {
    forall i, j :: 0 <= i < j < |s| ==> cmp(s[i], s[j]) <= 0
  }

  /** How many items are below the key. */
  function CountBelow<T>(s: seq<T>, key: T, cmp: Comparison<T>): nat
  {
    if s == [] then 0 else (if cmp(s[0], key) < 0 then 1 else 0) + CountBelow(s[1..], key, cmp)
  }

  /** How many items are below the key or equal to it. */
  function CountNotAbove<T>(s: seq<T>, key: T, cmp: Comparison<T>): nat
  {
    if s == [] then 0 else (if cmp(s[0], key) <= 0 then 1 else 0) + CountNotAbove(s[1..], key, cmp)
  }

  /** How many items are equal to the key. */
  function Multiplicity<T>(s: seq<T>, key: T, cmp: Comparison<T>): nat
  {
    if s == [] then 0 else (if cmp(s[0], key) == 0 then 1 else 0) + Multiplicity(s[1..], key, cmp)
  }

  lemma {:induction false} CountsAdd<T>(s: seq<T>, key: T, cmp: Comparison<T>)
    ensures CountNotAbove(s, key, cmp) == CountBelow(s, key, cmp) + Multiplicity(s, key, cmp)
  {
    if s != [] {
      CountsAdd(s[1..], key, cmp);
    }
  }

  /** If exactly the first `n` items are below the key, `n` is their count. */
  lemma {:induction false} CountBelowIs<T>(s: seq<T>, key: T, cmp: Comparison<T>, n: nat)
    requires n <= |s| && forall i :: 0 <= i < |s| ==> (cmp(s[i], key) < 0 <==> i < n)
    ensures CountBelow(s, key, cmp) == n
  {
    if s != [] {
      CountBelowIs(s[1..], key, cmp, if n > 0 then n - 1 else 0);
    }
  }

  lemma {:induction false} CountNotAboveIs<T>(s: seq<T>, key: T, cmp: Comparison<T>, n: nat)
    requires n <= |s| && forall i :: 0 <= i < |s| ==> (cmp(s[i], key) <= 0 <==> i < n)
    ensures CountNotAbove(s, key, cmp) == n
  {
    if s != [] {
      CountNotAboveIs(s[1..], key, cmp, if n > 0 then n - 1 else 0);
    }
  }
}
