/**
 The mathematical map that the hash map stands for. Keys are compared by a caller's equality,
 so the map holds one stored key for each class of equal keys.
 */
module HashModel {
  import opened Sequences
  import opened Sizes

  type Equality<!K> = (K, K) -> bool

  // The laws are stated through these predicates so that a proof names the instance it uses.
  ghost predicate EqLaws<K>(eq: Equality<K>, a: K, b: K, c: K)
  {
    eq(a, a) && (eq(a, b) ==> eq(b, a)) && (eq(a, b) && eq(b, c) ==> eq(a, c))
  }

  ghost predicate Equivalence<K(!new)>(eq: Equality<K>)
  {
    forall a, b, c :: EqLaws(eq, a, b, c)
  }

  ghost predicate HashLaw<K>(eq: Equality<K>, hash: K -> SizeT, a: K, b: K)
  {
    eq(a, b) ==> hash(a) == hash(b)
  }

  // Equal keys hash alike, as docs/docs/hash/hashmap.md asks of a custom equality.
  ghost predicate Respects<K(!new)>(eq: Equality<K>, hash: K -> SizeT)
  {
    forall a, b :: HashLaw(eq, hash, a, b)
  }

  lemma SameHash<K(!new)>(eq: Equality<K>, hash: K -> SizeT, a: K, b: K)
    requires Respects(eq, hash) && eq(a, b)
    ensures hash(a) == hash(b)
  {
    assert HashLaw(eq, hash, a, b);
  }

  ghost predicate ApartLaw<K, V>(m: map<K, V>, eq: Equality<K>, a: K, b: K)
  {
    a in m && b in m && eq(a, b) ==> a == b
  }

  // No two stored keys are equal.
  ghost predicate Separated<K(!new), V>(m: map<K, V>, eq: Equality<K>)
  {
    forall a, b :: ApartLaw(m, eq, a, b)
  }

  ghost predicate Has<K, V>(m: map<K, V>, eq: Equality<K>, key: K)
  {
    exists k :: k in m && eq(k, key)
  }

  /** The stored key that stands for `key`. */
  ghost function Stored<K, V>(m: map<K, V>, eq: Equality<K>, key: K): (k: K)
    requires Has(m, eq, key)
    ensures k in m && eq(k, key)
  {
    var k :| k in m && eq(k, key);
    k
  }

  ghost function Lookup<K, V>(m: map<K, V>, eq: Equality<K>, key: K): Option<V>
  {
    if Has(m, eq, key) then Some(m[Stored(m, eq, key)]) else None
  }

  ghost function Put<K, V>(m: map<K, V>, eq: Equality<K>, key: K, value: V): map<K, V>
  {
    if Has(m, eq, key) then m[Stored(m, eq, key) := value] else m[key := value]
  }

  ghost function Remove<K, V>(m: map<K, V>, eq: Equality<K>, key: K): map<K, V>
  {
    map k | k in m && !eq(k, key) :: m[k]
  }

  lemma StoredIs<K(!new), V>(m: map<K, V>, eq: Equality<K>, key: K, k: K)
    requires Equivalence(eq) && Separated(m, eq) && k in m && eq(k, key)
    ensures Has(m, eq, key) && Stored(m, eq, key) == k
  {
    var s := Stored(m, eq, key);
    assert EqLaws(eq, k, key, s) && EqLaws(eq, s, key, k);
    assert ApartLaw(m, eq, s, k);
  }

  lemma PutSeparated<K(!new), V>(m: map<K, V>, eq: Equality<K>, key: K, value: V)
    requires Equivalence(eq) && Separated(m, eq)
    ensures Separated(Put(m, eq, key, value), eq)
    ensures |Put(m, eq, key, value)| == |m| + if Has(m, eq, key) then 0 else 1
    // Overwriting keeps the stored key.
    ensures Put(m, eq, key, value).Keys == if Has(m, eq, key) then m.Keys else m.Keys + {key}
    ensures !Has(m, eq, key) ==> key !in m
  {
    var p := Put(m, eq, key, value);
    assert EqLaws(eq, key, key, key);
    forall a, b ensures ApartLaw(p, eq, a, b) {
      assert ApartLaw(m, eq, a, b) && EqLaws(eq, a, b, a);
    }
  }

  /** Reading after a write: the new value under every equal key, the old one under any other. */
  lemma LookupPut<K(!new), V>(m: map<K, V>, eq: Equality<K>, key: K, value: V, other: K)
    requires Equivalence(eq) && Separated(m, eq)
    ensures Lookup(Put(m, eq, key, value), eq, other) == if eq(key, other) then Some(value) else Lookup(m, eq, other)
  {
    var p := Put(m, eq, key, value);
    PutSeparated(m, eq, key, value);
    var k := if Has(m, eq, key) then Stored(m, eq, key) else key;
    assert EqLaws(eq, key, key, key) && EqLaws(eq, k, key, other);
    if eq(key, other) {
      StoredIs(p, eq, other, k);
    } else {
      assert EqLaws(eq, k, key, k) && EqLaws(eq, key, k, other);
      if Has(m, eq, other) {
        StoredIs(p, eq, other, Stored(m, eq, other));
      } else {
        assert forall j :: j in p ==> j in m || j == key;
      }
    }
  }

  lemma RemoveSeparated<K(!new), V>(m: map<K, V>, eq: Equality<K>, key: K)
    requires Equivalence(eq) && Separated(m, eq)
    ensures Separated(Remove(m, eq, key), eq)
    ensures |Remove(m, eq, key)| == |m| - if Has(m, eq, key) then 1 else 0
    ensures Remove(m, eq, key) == if Has(m, eq, key) then m - {Stored(m, eq, key)} else m
  {
    var r := Remove(m, eq, key);
    forall a, b ensures ApartLaw(r, eq, a, b) {
      assert ApartLaw(m, eq, a, b);
    }
    if Has(m, eq, key) {
      var k := Stored(m, eq, key);
      forall j | j in m ensures j in r <==> j != k {
        if eq(j, key) {
          StoredIs(m, eq, key, j);
        }
      }
      assert r.Keys == m.Keys - {k};
    } else {
      assert r.Keys == m.Keys;
    }
    assert |r| == |r.Keys| && |m| == |m.Keys|;
  }

  /** Reading after a removal. */
  lemma LookupRemove<K(!new), V>(m: map<K, V>, eq: Equality<K>, key: K, other: K)
    requires Equivalence(eq) && Separated(m, eq)
    ensures Lookup(Remove(m, eq, key), eq, other) == if eq(key, other) then None else Lookup(m, eq, other)
  {
    var r := Remove(m, eq, key);
    RemoveSeparated(m, eq, key);
    if eq(key, other) {
      forall k | k in r ensures !eq(k, other) {
        assert EqLaws(eq, key, other, k) && EqLaws(eq, k, other, key);
      }
    } else if Has(m, eq, other) {
      var k := Stored(m, eq, other);
      assert EqLaws(eq, k, key, other) && EqLaws(eq, key, k, other);
      StoredIs(r, eq, other, k);
    }
  }
}
