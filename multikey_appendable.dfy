/** `AppendableMultiKeyHashMap` (hashmap/multiple_appendable.go): a MultiKeyHashMap whose
    values are slices, with operations that append to or replace the slice a whole group
    of keys shares. */
module MultiKeyAppendable {
  import opened Options
  import opened MultiKey

  /** Every key belongs to the group of each of its candidate primaries. */
  lemma KeyInGroup<K>(aliases: map<K, seq<K>>, key: K, p: K)
    requires p in Primaries(aliases, key)
    ensures key in GroupOf(aliases, p)
  {
    if key != p {
      assert key in aliases[p];
    }
  }

  /** The embedded `*MultiKeyHashMap[K, []V]` of the Go struct is the field `inner`. */
  class AppendableMultiKeyHashMap<K(==), V> {
    const inner: MultiKeyHashMap<K, seq<V>>

    /** `NewAppendableMultiKeyHashMap`: an empty map. */
    constructor ()
      ensures fresh(inner) && inner.data == map[] && inner.aliases == map[]
    {
      inner := new MultiKeyHashMap();
    }

    /** `AppendValues`: for a present key with primary p, the whole group of p gets p's
        slice followed by `values`, and so does the key itself; when p itself holds no
        value, `values` is put under p alone. An absent key changes nothing. */
    method AppendValues(key: K, values: seq<V>) returns (r: bool)
      modifies inner
      ensures r == (key in old(inner.data))
      ensures !r ==> inner.data == old(inner.data) && inner.aliases == old(inner.aliases)
      ensures r ==>
                exists p | p in Primaries(old(inner.aliases), key) ::
                  if p in old(inner.data) then
                    && PutResult(old(inner.data), old(inner.aliases), GroupOf(old(inner.aliases), p),
                                 old(inner.data)[p] + values, inner.data, inner.aliases)
                    && key in inner.data && inner.data[key] == old(inner.data)[p] + values
                  else
                    PutResult(old(inner.data), old(inner.aliases), [p], values, inner.data, inner.aliases)
    {
      var primary := inner.GetPrimaryKey(key);
      if primary.None? {
        return false;
      }
      var p := primary.value;
      ghost var d, al := inner.data, inner.aliases;
      var current := inner.Get(p);
      if current.Some? {
        var group := inner.GetAllKeys(p);
        PrimaryOfPrimary(al, key, p);
        assert group == GroupOf(al, p);
        inner.Put(group, current.value + values);
        KeyInGroup(al, key, p);
      } else {
        inner.Put([p], values);
      }
      return true;
    }

    /** `AppendValuesWithKeys`: puts under all the keys the slice of the first key followed
        by `values`, or `values` alone when the first key holds nothing; with no keys it
        reports false and changes nothing. */
    method AppendValuesWithKeys(keys: seq<K>, values: seq<V>) returns (r: bool)
      modifies inner
      ensures r == (|keys| > 0)
      ensures !r ==> inner.data == old(inner.data) && inner.aliases == old(inner.aliases)
      ensures r ==>
                var slice := if keys[0] in old(inner.data) then old(inner.data)[keys[0]] + values else values;
                && PutResult(old(inner.data), old(inner.aliases), keys, slice, inner.data, inner.aliases)
                && forall k | k in keys :: k in inner.data && inner.data[k] == slice
    {
      if |keys| == 0 {
        return false;
      }
      var current := inner.Get(keys[0]);
      if current.Some? {
        inner.Put(keys, current.value + values);
      } else {
        inner.Put(keys, values);
      }
      return true;
    }

    /** `GetSlice`: the slice under a primary key or an alias, if any. */
    function GetSlice(key: K): (r: Option<seq<V>>)
      reads this, inner
      ensures r.Some? <==> key in inner.data
      ensures r.Some? ==> r.value == inner.data[key]
    {
      inner.Get(key)
    }

    /** `UpdateSlice`: for a present key with primary p, the whole group of p gets
        `newValues`, and so does the key itself; when p itself holds no value nothing
        changes, although the call still reports true. An absent key reports false. */
    method UpdateSlice(key: K, newValues: seq<V>) returns (r: bool)
      modifies inner
      ensures r == (key in old(inner.data))
      ensures !r ==> inner.data == old(inner.data) && inner.aliases == old(inner.aliases)
      ensures r ==>
                exists p | p in Primaries(old(inner.aliases), key) ::
                  if p in old(inner.data) then
                    && PutResult(old(inner.data), old(inner.aliases), GroupOf(old(inner.aliases), p),
                                 newValues, inner.data, inner.aliases)
                    && key in inner.data && inner.data[key] == newValues
                  else
                    inner.data == old(inner.data) && inner.aliases == old(inner.aliases)
    {
      var primary := inner.GetPrimaryKey(key);
      if primary.None? {
        return false;
      }
      var p := primary.value;
      ghost var d, al := inner.data, inner.aliases;
      var group := inner.GetAllKeys(p);
      if p in d {
        PrimaryOfPrimary(al, key, p);
        assert group == GroupOf(al, p);
        KeyInGroup(al, key, p);
      }
      inner.Put(group, newValues);
      return true;
    }
  }
}
