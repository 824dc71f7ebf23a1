/** Inverted maps: buckets of values by key, no bucket empty, kept up to date one contribution at a time. */
module Buckets {

  /** The inverted map of a set of contributions. */
  ghost function Group<K, V>(pairs: set<(K, V)>): map<K, set<V>> {
    map k | k in Keys(pairs) :: Values(pairs, k)
  }

  ghost function Keys<K, V>(pairs: set<(K, V)>): set<K> {
    set p | p in pairs :: p.0
  }

  ghost function Values<K, V>(pairs: set<(K, V)>, k: K): set<V> {
    set p | p in pairs && p.0 == k :: p.1
  }

  ghost function Bucket<K, V>(m: map<K, set<V>>, k: K): set<V> {
    if k in m then m[k] else {}
  }

  /** The contributions of values `vs` under key `k`. */
  ghost function Keyed<K, V>(k: K, vs: set<V>): set<(K, V)> {
    set v | v in vs :: (k, v)
  }

  lemma GroupHas<K, V>(pairs: set<(K, V)>, k: K)
    ensures k in Group(pairs) <==> Bucket(Group(pairs), k) != {}
    ensures forall v :: v in Bucket(Group(pairs), k) <==> (k, v) in pairs
  {
    forall v
      ensures v in Bucket(Group(pairs), k) <==> (k, v) in pairs
    {
      if (k, v) in pairs {
        assert (k, v).0 in Keys(pairs);
      }
    }
    if k in Group(pairs) {
      var p :| p in pairs && p.0 == k;
      assert p.1 in Group(pairs)[k];
    }
  }

  /** Two inverted maps without empty buckets are equal when they have the same members. */
  lemma SameBuckets<K, V>(m: map<K, set<V>>, n: map<K, set<V>>)
    requires forall k :: k in m ==> m[k] != {}
    requires forall k :: k in n ==> n[k] != {}
    requires forall k :: Bucket(m, k) == Bucket(n, k)
    ensures m == n
  {
    forall k
      ensures k in m <==> k in n
    {
      assert Bucket(m, k) == Bucket(n, k);
    }
    assert forall k :: k in m ==> m[k] == Bucket(m, k) == Bucket(n, k) == n[k];
  }

  lemma GroupIs<K, V>(pairs: set<(K, V)>, m: map<K, set<V>>)
    requires forall k :: k in m ==> m[k] != {}
    requires forall k, v :: v in Bucket(m, k) <==> (k, v) in pairs
    ensures m == Group(pairs)
  {
    forall k
      ensures Bucket(m, k) == Bucket(Group(pairs), k) && (k in Group(pairs) ==> Group(pairs)[k] != {})
    {
      GroupHas(pairs, k);
    }
    SameBuckets(m, Group(pairs));
  }

  lemma GroupAdd<K, V>(pairs: set<(K, V)>, k: K, vs: set<V>)
    requires vs != {}
    ensures Group(pairs + Keyed(k, vs)) == Group(pairs)[k := Bucket(Group(pairs), k) + vs]
  {
    var m := Group(pairs)[k := Bucket(Group(pairs), k) + vs];
    forall j
      ensures j in m ==> m[j] != {}
      ensures forall v :: v in Bucket(m, j) <==> (j, v) in pairs + Keyed(k, vs)
    {
      GroupHas(pairs, j);
    }
    GroupIs(pairs + Keyed(k, vs), m);
  }

  lemma GroupDrop<K, V>(pairs: set<(K, V)>, k: K, vs: set<V>)
    ensures Group(pairs - Keyed(k, vs)) == Dropped(Group(pairs), k, vs)
  {
    var m := Dropped(Group(pairs), k, vs);
    if k in Group(pairs) && Group(pairs)[k] - vs != {} {
      var v :| v in Group(pairs)[k] - vs;
      assert v in m[k];
    }
    forall j
      ensures j in m ==> m[j] != {}
      ensures forall v :: v in Bucket(m, j) <==> (j, v) in pairs - Keyed(k, vs)
    {
      GroupHas(pairs, j);
    }
    GroupIs(pairs - Keyed(k, vs), m);
  }

  /** A map less some values of one bucket, and less that bucket when it would be empty. */
  ghost function Dropped<K, V>(m: map<K, set<V>>, k: K, vs: set<V>): map<K, set<V>> {
    if k !in m then m else if m[k] - vs == {} then m - {k} else m[k := m[k] - vs]
  }

  /** `remove_from_bucket` */
  method RemoveFromBucket<K(==), V(==)>(m: map<K, set<V>>, key: K, value: V, ghost pairs: set<(K, V)>)
    returns (r: map<K, set<V>>)
    requires m == Group(pairs)
    ensures r == Group(pairs - {(key, value)})
  {
    r := m;
    GroupHas(pairs, key);
    GroupDrop(pairs, key, {value});
    assert Keyed(key, {value}) == {(key, value)};
    if key in r {
      var bucket := r[key] - {value};
      if bucket == {} {
        r := r - {key};
      } else {
        r := r[key := bucket];
      }
    }
  }

  /** `entry(key).or_default().insert(value)` */
  method InsertIntoBucket<K(==), V(==)>(m: map<K, set<V>>, key: K, value: V, ghost pairs: set<(K, V)>)
    returns (r: map<K, set<V>>)
    requires m == Group(pairs)
    ensures r == Group(pairs + {(key, value)})
  {
    GroupAdd(pairs, key, {value});
    assert Keyed(key, {value}) == {(key, value)};
    r := m[key := (if key in m then m[key] else {}) + {value}];
  }
}
