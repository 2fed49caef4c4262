/** PHP's array as the entry query uses it: an insertion-ordered map.
    Assigning to a new key appends it, assigning to an existing key keeps its
    position, and `unset` removes the key wherever it is. */
module PhpArray {
  import Seqs

  datatype OrderedMap<K(==,!new), V> = OrderedMap(keys: seq<K>, vals: map<K, V>) {

    /** Every key once, and the order covers exactly the stored keys. */
    ghost predicate Valid() {
      Seqs.Distinct(keys) && forall k :: k in vals <==> k in keys
    }

    /** `$a[$k] = $v`. */
    function Set(k: K, v: V): (r: OrderedMap<K, V>)
      requires Valid()
      ensures r.Valid()
      ensures r.vals == vals[k := v]
      ensures k in vals ==> r.keys == keys
      ensures k !in vals ==> r.keys == keys + [k]
    {
      if k in vals then OrderedMap(keys, vals[k := v])
      else OrderedMap(keys + [k], vals[k := v])
    }

    /** `unset($a[$k])`; a missing key is ignored. */
    function Unset(k: K): (r: OrderedMap<K, V>)
      requires Valid()
      ensures r.Valid()
      ensures r.vals == vals - {k}
      ensures r.keys == Seqs.Filter(NotKey(k), keys)
    {
      Seqs.FilterDistinct(NotKey(k), keys);
      Seqs.FilterMembers(NotKey(k), keys);
      OrderedMap(Seqs.Filter(NotKey(k), keys), vals - {k})
    }

    /** The stored values in key order (what `foreach` visits). */
    function Values(): (r: seq<V>)
      requires Valid()
      ensures |r| == |keys|
      ensures forall i :: 0 <= i < |keys| ==> r[i] == vals[keys[i]]
    {
      seq(|keys|, i requires 0 <= i < |keys| => vals[keys[i]])
    }
  }

  /** `foreach` visits exactly the stored values. */
  lemma ValuesMembers<K(!new), V>(m: OrderedMap<K, V>)
    requires m.Valid()
    ensures forall v :: v in m.Values() <==> v in m.vals.Values
  {
    var vs := m.Values();
    forall v | v in m.vals.Values ensures v in vs {
      var k :| k in m.vals && m.vals[k] == v;
      var i :| 0 <= i < |m.keys| && m.keys[i] == k;
      assert vs[i] == v;
    }
  }

  /** `unset` of a key that is not there changes nothing. */
  lemma UnsetMissing<K(!new), V>(m: OrderedMap<K, V>, k: K)
    requires m.Valid() && k !in m.vals
    ensures m.Unset(k) == m
  {
    Seqs.FilterAll(NotKey(k), m.keys);
  }

  /** `array()`. */
  function Empty<K(==,!new), V>(): (r: OrderedMap<K, V>)
    ensures r.Valid() && r.keys == [] && r.vals == map[]
  {
    OrderedMap([], map[])
  }

  function NotKey<K(==)>(k: K): K -> bool {
    x => x != k
  }
}
