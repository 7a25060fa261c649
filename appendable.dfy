/** `AppendableHashMap` (hashmap/appendable.go): a HashMap whose values are slices, with an
    operation that appends to the slice stored under a key. */
module Appendable {
  import opened Options
  import opened HashMaps

  /** The slice `AppendValues` stores: the old slice extended, or the new values alone. */
  function Appended<V>(existing: Option<seq<V>>, values: seq<V>): (r: seq<V>)
    ensures |r| == (if existing.Some? then |existing.value| else 0) + |values|
    ensures existing.Some? ==> r[..|existing.value|] == existing.value && r[|existing.value|..] == values
    ensures existing.None? ==> r == values
  {
    if existing.Some? then existing.value + values else values
  }

  /** Appending in two calls is appending once the two value lists joined. */
  lemma AppendedTwice<V>(existing: Option<seq<V>>, first: seq<V>, second: seq<V>)
    ensures Appended(Some(Appended(existing, first)), second) == Appended(existing, first + second)
  {
    if existing.Some? {
      assert existing.value + first + second == existing.value + (first + second);
    }
  }

  /** The embedded `*HashMap[K, []V]` of the Go struct is the field `base`. */
  class AppendableHashMap<K(==), V> {
    const base: HashMap<K, seq<V>>

    /** `NewAppendableHashMap`: an empty map. */
    constructor ()
      ensures fresh(base) && base.data == map[]
    {
      base := new HashMap();
    }

    /** `AppendValues`: the key ends up with its old slice followed by `values`, or with
        `values` alone when it was absent; no other key changes. */
    method AppendValues(key: K, values: seq<V>)
      modifies base
      ensures key in base.data
      ensures base.data[key] == Appended(old(base.Get(key)), values)
      ensures base.data - {key} == old(base.data) - {key}
      ensures |base.data[key]| == (if key in old(base.data) then |old(base.data)[key]| else 0) + |values|
    {
      var existing := base.Get(key);
      if existing.Some? {
        base.Put(key, existing.value + values);
      } else {
        base.Put(key, values);
      }
    }
  }
}
