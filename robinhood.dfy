/** The Robin Hood hash map of robinhood/robinhood.go: open addressing with linear
    probing over a power-of-two slot array, where an insertion takes the slot of any
    entry that sits closer to its home bucket than the entry being inserted, lookups stop
    as soon as they meet such an entry, and deletion shifts the following run back. */
module RobinHood {
  import opened Options
  import opened RobinHoodSlots
  import opened Sets

  /** The index `(i + 1) & mask` of the source, with `mask + 1 == n`. */
  lemma NextMod(i: nat, n: nat)
    requires i < n
    ensures (i + 1) % n == Next(i, n)
  {
  }

  lemma DoubledPowerOfTwo(n: nat)
    requires IsPowerOfTwo(n)
    ensures IsPowerOfTwo(2 * n)
  {
    assert (2 * n) / 2 == n;
  }

  /** The entries of a table whose slot is before `i`. */
  ghost function Prefix<K, V>(contents: map<K, V>, pos: map<K, nat>, i: int): map<K, V>
    requires pos.Keys == contents.Keys
  {
    map k | k in contents && pos[k] < i :: contents[k]
  }

  class RobinHoodMap<K(==), V> {
    var entries: array<Slot<K, V>>
    var size: nat
    var mask: nat
    /** The map's hash function. In the source it is a `maphash.Hash` with a seed fixed on
        first use, applied to the key's printed form; here it is any function. */
    const hash: K -> Uint64

    /** The key/value pairs the map holds, and the slot of each key. */
    ghost var Contents: map<K, V>
    ghost var Pos: map<K, nat>

    ghost predicate Valid()
      reads this, entries
    {
      && IsPowerOfTwo(entries.Length) && 8 <= entries.Length
      && mask == entries.Length - 1
      && size == |Contents| && size <= 255
      && 4 * size <= 3 * entries.Length
      && Table(entries[..], hash, Contents, Pos)
    }

    /** `NewRobinHoodMap`: eight empty slots. */
    constructor (hash: K -> Uint64)
      ensures Valid() && fresh(entries)
      ensures entries.Length == 8 && mask == 7 && size == 0 && Contents == map[]
      ensures this.hash == hash
    {
      entries := new Slot<K, V>[8](_ => Empty);
      mask := 7;
      size := 0;
      this.hash := hash;
      Contents := map[];
      Pos := map[];
      new;
      assert Occupied(entries[..]) == {};
    }

    /** `Size`: the number of stored keys. */
    function Size(): (r: nat)
      reads this, entries
      requires Valid()
      ensures r == |Contents|
    {
      size
    }

    /** `Put`: grow first when one more entry would pass the 3/4 load factor, then insert. */
    method Put(key: K, value: V)
      requires Valid() && size < 255
      modifies this, entries
      ensures Valid()
      ensures Contents == old(Contents)[key := value]
      ensures size == if key in old(Contents) then old(size) else old(size) + 1
      ensures if 4 * (old(size) + 1) > 3 * old(entries.Length)
              then fresh(entries) && entries.Length == 2 * old(entries.Length)
              else entries == old(entries)
    {
      if 4 * (size + 1) > 3 * entries.Length {
        Resize();
      }
      var added;
      added, Contents, Pos := InsertEntry(entries, mask, hash, key, value, Contents, Pos);
      if added {
        size := size + 1;
      }
    }

    /** `resize`: a fresh array of twice the length, into which every occupied old slot is
        re-inserted in slot order. */
    method Resize()
      requires Valid()
      modifies this
      ensures Valid() && fresh(entries)
      ensures entries.Length == 2 * old(entries.Length)
      ensures Contents == old(Contents) && size == old(size)
    {
      DoubledPowerOfTwo(entries.Length);
      entries, Pos := Rehash(entries, hash, Contents, Pos);
      mask := entries.Length - 1;
    }

    /** `Get`: probe until the key, an empty slot or an entry closer to home. */
    method Get(key: K) returns (r: Option<V>)
      requires Valid()
      ensures r == if key in Contents then Some(Contents[key]) else None
    {
      var index: nat := hash(key) % (mask + 1);
      var dist: Uint8 := 0;
      ProbeStart(entries[..], hash, Contents, Pos, key);
      while true
        invariant Probing(entries[..], hash, Contents, Pos, key, dist, index)
        decreases entries.Length - dist
      {
        var e := entries[index];
        ProbeMiss(entries[..], hash, Contents, Pos, key, dist, index);
        if e.Empty? || dist > e.distance {
          return None;
        }
        if e.key == key {
          ProbeHit(entries[..], hash, Contents, Pos, key, dist, index);
          return Some(e.value);
        }
        ProbeAdvance(entries[..], hash, Contents, Pos, key, dist, index);
        NextMod(index, entries.Length);
        dist := dist + 1;
        index := (index + 1) % (mask + 1);
      }
    }

    /** `Remove`: the key is gone afterwards, and the result tells whether it was there. */
    method Remove(key: K) returns (removed: bool)
      requires Valid()
      modifies this, entries
      ensures Valid() && entries == old(entries)
      ensures removed == (key in old(Contents))
      ensures Contents == old(Contents) - {key}
      ensures size == if removed then old(size) - 1 else old(size)
    {
      removed, Contents, Pos := RemoveEntry(entries, mask, hash, key, Contents, Pos);
      if removed {
        size := size - 1;
      }
    }

    /** `Clear`: back to eight empty slots. */
    method Clear()
      modifies this
      ensures Valid() && fresh(entries)
      ensures entries.Length == 8 && mask == 7 && size == 0 && Contents == map[]
    {
      entries := new Slot<K, V>[8](_ => Empty);
      mask := 7;
      size := 0;
      Contents, Pos := map[], map[];
      assert Occupied(entries[..]) == {};
    }
  }

  /** The probing loop of `Put` on a slot array: carry the new entry along its probe
      sequence, trading places with every entry closer to home, until a free slot or the
      key itself is met. */
  method InsertEntry<K(==), V>(a: array<Slot<K, V>>, mask: nat, hash: K -> Uint64, key: K, value: V,
                               ghost contents: map<K, V>, ghost pos: map<K, nat>)
    returns (added: bool, ghost contents': map<K, V>, ghost pos': map<K, nat>)
    requires mask + 1 == a.Length && Table(a[..], hash, contents, pos)
    requires |contents| < 255 && 4 * (|contents| + 1) <= 3 * a.Length
    modifies a
    ensures Table(a[..], hash, contents', pos')
    ensures contents' == contents[key := value]
    ensures added == (key !in contents)
  {
    var n := a.Length;
    var index: nat := hash(key) % (mask + 1);
    var dist: Uint8 := 0;
    var k, v := key, value;
    ghost var s, c, p := a[..], contents, pos;
    ghost var steps: nat := 0;
    ghost var swapped := false;
    InsertStart(s, hash, c, p, key, value);
    while true
      invariant a[..] == s && n == |s| == mask + 1
      invariant |c| == |contents|
      invariant Inserting(s, hash, c, p, contents, key, value, k, v, dist, index, steps, swapped)
      decreases n - steps
    {
      if a[index].Empty? {
        InsertPlace(s, hash, c, p, contents, key, value, k, v, dist, index, steps, swapped);
        a[index] := Full(k, v, dist);
        assert a[..] == s[index := Full(k, v, dist)];
        return true, c[k := v], p[k := index];
      }
      if a[index].key == k {
        InsertUpdate(s, hash, c, p, contents, key, value, k, v, dist, index, steps, swapped);
        var x := Full(k, v, a[index].distance);
        a[index] := x;
        assert a[..] == s[index := x];
        return false, c[k := v], p;
      }
      ghost var swapped' := swapped || dist > a[index].distance;
      k, v, dist, c, p := CarryStep(a, hash, c, p, contents, key, value, k, v, dist, index, steps, swapped);
      s, swapped := a[..], swapped';
      NextMod(index, n);
      index := (index + 1) % (mask + 1);
      steps := steps + 1;
    }
  }

  /** One step of the probing loop of `Put` past an occupied slot holding another key: the
      carried entry trades places with a resident closer to home, then the probe moves on
      with a distance one larger. */
  method CarryStep<K(==), V>(a: array<Slot<K, V>>, hash: K -> Uint64,
                             ghost contents: map<K, V>, ghost pos: map<K, nat>, ghost start: map<K, V>,
                             key: K, value: V, k: K, v: V, dist: Uint8, index: nat,
                             ghost steps: nat, ghost swapped: bool)
    returns (k': K, v': V, dist': Uint8, ghost contents': map<K, V>, ghost pos': map<K, nat>)
    requires Inserting(a[..], hash, contents, pos, start, key, value, k, v, dist, index, steps, swapped)
    requires a[index].Full? && a[index].key != k && |contents| < 255
    modifies a
    ensures |contents'| == |contents|
    ensures Inserting(a[..], hash, contents', pos', start, key, value, k', v', dist', Next(index, a.Length),
                      steps + 1, swapped || dist > old(a[index]).distance)
  {
    ghost var s := a[..];
    var e := a[index];
    if dist > e.distance {
      SwapFacts(s, hash, contents, pos, start, key, value, k, v, dist, index, steps, swapped);
      InsertSwap(s, hash, contents, pos, start, key, value, k, v, dist, index, steps);
      a[index] := Full(k, v, dist);
      assert a[..] == s[index := Full(k, v, dist)];
      k', v', dist' := e.key, e.value, e.distance + 1;
      contents', pos' := (contents - {e.key})[k := v], (pos - {e.key})[k := index];
    } else {
      InsertAdvance(s, hash, contents, pos, start, key, value, k, v, dist, index, steps, swapped);
      k', v', dist' := k, v, dist + 1;
      contents', pos' := contents, pos;
    }
  }

  /** The search loop of `Remove`, followed by the backward shift. */
  method RemoveEntry<K(==), V>(a: array<Slot<K, V>>, mask: nat, hash: K -> Uint64, key: K,
                               ghost contents: map<K, V>, ghost pos: map<K, nat>)
    returns (removed: bool, ghost contents': map<K, V>, ghost pos': map<K, nat>)
    requires mask + 1 == a.Length && 3 <= a.Length && Table(a[..], hash, contents, pos)
    requires |contents| <= 255
    modifies a
    ensures Table(a[..], hash, contents', pos')
    ensures contents' == contents - {key}
    ensures removed == (key in contents)
    ensures |contents'| == if removed then |contents| - 1 else |contents|
  {
    var index: nat := hash(key) % (mask + 1);
    var dist: Uint8 := 0;
    ProbeStart(a[..], hash, contents, pos, key);
    while true
      invariant Probing(a[..], hash, contents, pos, key, dist, index)
      decreases a.Length - dist
    {
      var e := a[index];
      ProbeMiss(a[..], hash, contents, pos, key, dist, index);
      if e.Empty? || dist > e.distance {
        assert contents - {key} == contents;
        return false, contents, pos;
      }
      if e.key == key {
        ProbeHit(a[..], hash, contents, pos, key, dist, index);
        ShiftStart(a[..], hash, contents, pos, key);
        pos' := ShiftBack(a, mask, hash, index, contents - {key}, pos - {key});
        return true, contents - {key}, pos';
      }
      ProbeAdvance(a[..], hash, contents, pos, key, dist, index);
      NextMod(index, a.Length);
      dist := dist + 1;
      index := (index + 1) % (mask + 1);
    }
  }

  /** The backward shift of `Remove`: starting from the slot of the removed entry, pull
      each following entry back one slot until an empty slot or an entry at its home
      bucket, then empty the last slot pulled from. */
  method ShiftBack<K, V>(a: array<Slot<K, V>>, mask: nat, hash: K -> Uint64, hole: nat,
                         ghost contents: map<K, V>, ghost pos: map<K, nat>)
    returns (ghost pos': map<K, nat>)
    requires mask + 1 == a.Length && Shifting(a[..], hash, contents, pos, hole, hole, 0)
    modifies a
    ensures Table(a[..], hash, contents, pos')
  {
    var index: nat := hole;
    NextMod(index, a.Length);
    var next: nat := (index + 1) % (mask + 1);
    ghost var shifted: nat := 0;
    pos' := pos;
    while true
      invariant Shifting(a[..], hash, contents, pos', index, hole, shifted)
      invariant next == Next(index, a.Length)
      decreases a.Length - shifted
    {
      var ne := a[next];
      if ne.Empty? || ne.distance == 0 {
        ShiftEnd(a[..], hash, contents, pos', index, hole, shifted);
        a[index] := Empty;
        return;
      }
      ShiftStep(a[..], hash, contents, pos', index, hole, shifted);
      a[index] := Full(ne.key, ne.value, ne.distance - 1);
      pos' := pos'[ne.key := index];
      NextMod(next, a.Length);
      index, next := next, (next + 1) % (mask + 1);
      shifted := shifted + 1;
    }
  }

  /** The body of `resize`: a fresh array of twice the length, and every occupied slot of
      the old one put into it, in slot order, as `Put` would. */
  method Rehash<K(==), V>(from: array<Slot<K, V>>, hash: K -> Uint64,
                          ghost contents: map<K, V>, ghost pos: map<K, nat>)
    returns (a: array<Slot<K, V>>, ghost pos': map<K, nat>)
    requires Table(from[..], hash, contents, pos)
    requires |contents| <= 255 && 4 * |contents| <= 3 * from.Length
    ensures fresh(a) && a.Length == 2 * from.Length
    ensures Table(a[..], hash, contents, pos')
  {
    var n := 2 * from.Length;
    a := new Slot<K, V>[n](_ => Empty);
    ghost var c: map<K, V> := map[];
    pos' := map[];
    var size := 0;
    assert Occupied(a[..]) == {};
    for i := 0 to from.Length
      invariant fresh(a) && a.Length == n
      invariant Table(a[..], hash, c, pos') && size == |c|
      invariant c == Prefix(contents, pos, i)
    {
      var slot := from[i];
      if slot.Full? {
        PrefixStep(from[..], contents, pos, i);
        // The load test of the nested `Put` cannot fire: there are fewer entries than before.
        assert 4 * (size + 1) <= 3 * n;
        var added;
        added, c, pos' := InsertEntry(a, n - 1, hash, slot.key, slot.value, c, pos');
        if added {
          size := size + 1;
        }
      } else {
        PrefixSkip(from[..], contents, pos, i);
      }
    }
    assert c == contents by {
      PrefixAll(from[..], contents, pos);
    }
  }

  /** Re-inserting the entry of old slot i extends the prefix by that entry, and there is
      room for it (the prefix leaves it out, so it is smaller than the whole table). */
  lemma PrefixStep<K, V>(s: seq<Slot<K, V>>, contents: map<K, V>, pos: map<K, nat>, i: int)
    requires Indexed(s, contents, pos) && 0 <= i < |s| && s[i].Full?
    ensures Prefix(contents, pos, i + 1) == Prefix(contents, pos, i)[s[i].key := s[i].value]
    ensures s[i].key !in Prefix(contents, pos, i)
    ensures |Prefix(contents, pos, i)| < |contents|
  {
    var p := Prefix(contents, pos, i);
    assert SlotIndexed(s, pos, i);
    assert forall x | x in pos :: StoredAt(s, contents, pos, x);
    assert p.Keys <= contents.Keys - {s[i].key};
    SubsetCard(p.Keys, contents.Keys - {s[i].key});
  }

  lemma PrefixSkip<K, V>(s: seq<Slot<K, V>>, contents: map<K, V>, pos: map<K, nat>, i: int)
    requires Indexed(s, contents, pos) && 0 <= i < |s| && s[i].Empty?
    ensures Prefix(contents, pos, i + 1) == Prefix(contents, pos, i)
  {
    assert forall x | x in pos :: StoredAt(s, contents, pos, x);
  }

  lemma PrefixAll<K, V>(s: seq<Slot<K, V>>, contents: map<K, V>, pos: map<K, nat>)
    requires Indexed(s, contents, pos)
    ensures Prefix(contents, pos, |s|) == contents
  {
    assert forall x | x in pos :: StoredAt(s, contents, pos, x);
  }
}
