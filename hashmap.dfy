/** The baseline `HashMap` of the hashmap package: a thin wrapper around a Go map, with the
    basic operations (core.go), the bulk operations (operations.go), `Filter` and `Map`
    (functional.go) and the conversions to and from a plain map (conversion.go). Loops
    over a Go map visit its keys in an unspecified order; here each step picks any key not
    yet visited. */
module HashMaps {
  import opened Options
  import opened Lists
  import opened Sets

  /** Removing a present key leaves one entry fewer. */
  lemma RemoveSize<K, V>(m: map<K, V>, k: K)
    requires k in m
    ensures |m - {k}| == |m| - 1
  {
    assert (m - {k}).Keys == m.Keys - {k};
  }

  /** Some key of a non-empty map. */
  ghost function Pick<K, V>(m: map<K, V>): (k: K)
    requires m != map[]
    ensures k in m
  {
    var k :| k in m; k
  }

  /** The values of a map, with their multiplicities. */
  ghost function Bag<K, V>(m: map<K, V>): multiset<V>
    decreases |m|
  {
    if m == map[] then multiset{}
    else
      var k := Pick(m);
      RemoveSize(m, k);
      Bag(m - {k}) + multiset{m[k]}
  }

  /** Taking any one entry out of the bag first gives the same bag. */
  lemma {:induction false} BagRemove<K, V>(m: map<K, V>, k: K)
    requires k in m
    ensures Bag(m) == Bag(m - {k}) + multiset{m[k]}
    decreases |m|
  {
    var j := Pick(m);
    if j != k {
      var mj, mk := m - {j}, m - {k};
      var rest := mj - {k};
      assert mk - {j} == rest;
      RemoveSize(m, j);
      RemoveSize(m, k);
      assert Bag(m) == Bag(mj) + multiset{m[j]};
      assert Bag(mj) == Bag(rest) + multiset{m[k]} by {
        BagRemove(mj, k);
      }
      assert Bag(mk) == Bag(rest) + multiset{m[j]} by {
        BagRemove(mk, j);
      }
    }
  }

  /** The bag holds one value per key, and exactly the values stored under some key. */
  lemma {:induction false} BagContents<K, V>(m: map<K, V>)
    ensures |Bag(m)| == |m|
    ensures forall v :: v in Bag(m) <==> exists k | k in m :: m[k] == v
    decreases |m|
  {
    if m != map[] {
      var k := Pick(m);
      var r := m - {k};
      RemoveSize(m, k);
      BagContents(r);
      assert Bag(m) == Bag(r) + multiset{m[k]};
      forall v
        ensures v in Bag(m) <==> exists k' | k' in m :: m[k'] == v
      {
        if v in Bag(m) && v != m[k] {
          assert v in Bag(r);
          var k' :| k' in r && r[k'] == v;
          assert k' in m && m[k'] == v;
        }
        if exists k' | k' in m :: m[k'] == v {
          var k' :| k' in m && m[k'] == v;
          if k' != k {
            assert k' in r && r[k'] == v;
          }
        }
      }
    }
  }

  /** The entries of m for which `keep` holds: the result of `Filter`. */
  function Filtered<K, V>(m: map<K, V>, keep: (K, V) -> bool): (r: map<K, V>)
    ensures r.Keys <= m.Keys
    ensures forall k | k in m :: k in r <==> keep(k, m[k])
    ensures forall k | k in r :: r[k] == m[k]
  {
    map k | k in m && keep(k, m[k]) :: m[k]
  }

  /** The keys of m with their values transformed: the result of `Map`. */
  function Transformed<K, V>(m: map<K, V>, transform: (K, V) -> V): (r: map<K, V>)
    ensures r.Keys == m.Keys
    ensures forall k | k in r :: r[k] == transform(k, m[k])
  {
    map k | k in m :: transform(k, m[k])
  }

  /** A filter that accepts everything keeps every entry; an empty map stays empty. */
  lemma FilterAllOrNothing<K, V>(m: map<K, V>, keep: (K, V) -> bool)
    ensures (forall k | k in m :: keep(k, m[k])) ==> Filtered(m, keep) == m
    ensures m == map[] ==> Filtered(m, keep) == map[]
    ensures |Filtered(m, keep)| <= |m|
  {
    assert Filtered(m, keep).Keys <= m.Keys;
    SubsetCard(Filtered(m, keep).Keys, m.Keys);
  }

  /** A `Filter` chained with a `Map` has as many entries as the filter kept. */
  lemma FilterThenMapSize<K, V>(m: map<K, V>, keep: (K, V) -> bool, transform: (K, V) -> V)
    ensures |Transformed(Filtered(m, keep), transform)| == |Filtered(m, keep)|
  {
    assert Transformed(Filtered(m, keep), transform).Keys == Filtered(m, keep).Keys;
  }

  /** `HashMap`: a struct holding the Go map `data`. */
  class HashMap<K(==), V> {
    var data: map<K, V>

    /** `NewHashMap`: an empty map. */
    constructor ()
      ensures data == map[] && Size() == 0
    {
      data := map[];
    }

    /** `Put`: adds the key or overwrites its value. */
    method Put(key: K, value: V)
      modifies this
      ensures data == old(data)[key := value]
      ensures Get(key) == Some(value)
      ensures Size() == if key in old(data) then old(Size()) else old(Size()) + 1
    {
      data := data[key := value];
    }

    /** `Get`: the value and whether the key is present. */
    function Get(key: K): (r: Option<V>)
      reads this
      ensures r.Some? <==> key in data
      ensures r.Some? ==> r.value == data[key]
    {
      if key in data then Some(data[key]) else None
    }

    /** `Remove`: deleting an absent key changes nothing. */
    method Remove(key: K)
      modifies this
      ensures data == old(data) - {key}
      ensures Get(key) == None
      ensures key !in old(data) ==> data == old(data)
    {
      data := data - {key};
    }

    /** `Size`: the number of distinct keys. */
    function Size(): (r: nat)
      reads this
      ensures r == |data.Keys|
      ensures r == 0 <==> data == map[]
    {
      |data|
    }

    /** `Clear`: a fresh empty Go map. */
    method Clear()
      modifies this
      ensures data == map[] && Size() == 0
    {
      data := map[];
    }

    /** `Contains`: the found flag of `Get`. */
    function Contains(key: K): (r: bool)
      reads this
      ensures r <==> Get(key).Some?
    {
      key in data
    }

    /** `IsEmpty`: whether `Size` is zero. */
    function IsEmpty(): (r: bool)
      reads this
      ensures r <==> Size() == 0
    {
      |data| == 0
    }

    /** `Keys`: every key once, in whatever order the map is visited. */
    method Keys() returns (keys: seq<K>)
      ensures |keys| == Size()
      ensures forall k :: k in keys <==> k in data
      ensures NoDuplicates(keys)
    {
      keys := [];
      var rest := data.Keys;
      while rest != {}
        invariant rest <= data.Keys
        invariant forall k :: k in keys <==> k in data && k !in rest
        invariant NoDuplicates(keys)
        invariant |keys| + |rest| == |data|
        decreases rest
      {
        var k :| k in rest;
        keys := keys + [k];
        rest := rest - {k};
      }
    }

    /** `Values`: one value per key, in whatever order the map is visited. */
    method Values() returns (values: seq<V>)
      ensures |values| == Size()
      ensures multiset(values) == Bag(data)
      ensures forall v :: v in values <==> exists k | k in data :: data[k] == v
    {
      values := [];
      var rest := data;
      while rest != map[]
        invariant multiset(values) + Bag(rest) == Bag(data)
        decreases |rest|
      {
        var k :| k in rest;
        BagRemove(rest, k);
        RemoveSize(rest, k);
        values := values + [rest[k]];
        rest := rest - {k};
      }
      assert multiset(values) == Bag(data);
      BagContents(data);
      assert |values| == |multiset(values)|;
      forall v
        ensures v in values <==> exists k | k in data :: data[k] == v
      {
        assert v in values <==> v in multiset(values);
      }
    }

    /** `UpdateValue`: overwrites only a key that is already present. */
    method UpdateValue(id: K, newValue: V) returns (updated: bool)
      modifies this
      ensures updated == (id in old(data))
      ensures data == if updated then old(data)[id := newValue] else old(data)
    {
      if id in data {
        data := data[id := newValue];
        return true;
      }
      return false;
    }

    /** `PutAll`: every entry of `other` is put, overriding the receiver's. */
    method PutAll(other: HashMap<K, V>)
      modifies this
      ensures data == old(data) + old(other.data)
      ensures other.data == old(other.data)
    {
      var source := other.data;
      var rest := source.Keys;
      while rest != {}
        invariant rest <= source.Keys
        invariant data == old(data) + map k | k in source && k !in rest :: source[k]
        decreases rest
      {
        var k :| k in rest;
        data := data[k := source[k]];
        rest := rest - {k};
      }
      assert (map k | k in source && k !in rest :: source[k]) == source;
    }

    /** `Filter`: a new map with the entries the predicate accepts; the receiver is untouched. */
    method Filter(keep: (K, V) -> bool) returns (result: HashMap<K, V>)
      ensures fresh(result)
      ensures result.data == Filtered(data, keep)
    {
      result := new HashMap();
      var rest := data.Keys;
      while rest != {}
        invariant rest <= data.Keys
        invariant result.data.Keys <= data.Keys
        invariant forall k | k in data :: k in result.data <==> k !in rest && keep(k, data[k])
        invariant forall k | k in result.data :: result.data[k] == data[k]
        decreases rest
      {
        var k :| k in rest;
        if keep(k, data[k]) {
          result.Put(k, data[k]);
        }
        rest := rest - {k};
      }
    }

    /** `Map`: a new map with every value transformed; the receiver is untouched. */
    method Map(transform: (K, V) -> V) returns (result: HashMap<K, V>)
      ensures fresh(result)
      ensures result.data == Transformed(data, transform)
    {
      result := new HashMap();
      var rest := data.Keys;
      while rest != {}
        invariant rest <= data.Keys
        invariant result.data == Transformed(map k | k in data && k !in rest :: data[k], transform)
        decreases rest
      {
        var k :| k in rest;
        result.Put(k, transform(k, data[k]));
        rest := rest - {k};
      }
      assert (map k | k in data && k !in rest :: data[k]) == data;
    }

    /** `ToMap`: a copy of the underlying map. */
    method ToMap() returns (result: map<K, V>)
      ensures result == data
    {
      result := map[];
      var rest := data.Keys;
      while rest != {}
        invariant rest <= data.Keys
        invariant result == map k | k in data && k !in rest :: data[k]
        decreases rest
      {
        var k :| k in rest;
        result := result[k := data[k]];
        rest := rest - {k};
      }
    }
  }

  /** `FromMap`: a new HashMap holding exactly the entries of m. */
  method FromMap<K(==), V>(m: map<K, V>) returns (h: HashMap<K, V>)
    ensures fresh(h)
    ensures h.data == m && h.Size() == |m|
  {
    h := new HashMap();
    var rest := m.Keys;
    while rest != {}
      invariant rest <= m.Keys
      invariant h.data == map k | k in m && k !in rest :: m[k]
      decreases rest
    {
      var k :| k in rest;
      h.Put(k, m[k]);
      rest := rest - {k};
    }
  }

  /** Converting a plain map to a HashMap and back gives the map again. */
  method FromMapThenToMap<K(==), V>(m: map<K, V>) returns (r: map<K, V>)
    ensures r == m
  {
    var h := FromMap(m);
    r := h.ToMap();
  }

  /** Converting a HashMap to a plain map and back gives a HashMap with the same entries. */
  method ToMapThenFromMap<K(==), V>(h: HashMap<K, V>) returns (r: HashMap<K, V>)
    ensures r.data == h.data
  {
    var m := h.ToMap();
    r := FromMap(m);
  }
}
