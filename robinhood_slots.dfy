/** The slot array of the Robin Hood table in robinhood/robinhood.go, as a sequence of
    slots: what a well-formed table is, and the facts the probing loops of `Put`, `Get`
    and `Remove` rely on. Everything here is about values; the class that owns the
    array is in module RobinHood. */
module RobinHoodSlots {
  import opened Sets

  /** Go's `uint8`, the width of an entry's probe distance. */
  type Uint8 = d: int | 0 <= d < 256

  /** Go's `uint64`, the width of a hash value. */
  type Uint64 = h: int | 0 <= h < 0x1_0000_0000_0000_0000

  /** One bucket. `Empty` is an entry whose `occupied` flag is false: the source never
      reads the key, value or distance of such an entry, so they are not kept. */
  datatype Slot<K, V> = Empty | Full(key: K, value: V, distance: Uint8)

  predicate IsPowerOfTwo(n: nat)
  {
    if n <= 1 then n == 1 else n % 2 == 0 && IsPowerOfTwo(n / 2)
  }

  /** The home bucket of a key, `hash & mask`, which is `hash % n` since n is a power of two. */
  function Home<K>(hash: K -> Uint64, key: K, n: nat): nat
    requires 0 < n
  {
    hash(key) % n
  }

  /** The slot after slot i, wrapping around: `(i + 1) & mask`. */
  function Next(i: nat, n: nat): nat
    requires i < n
  {
    if i + 1 == n then 0 else i + 1
  }

  /** The slot before slot i, wrapping around. */
  function Prev(i: nat, n: nat): nat
    requires i < n
  {
    if i == 0 then n - 1 else i - 1
  }

  /** The slot reached after t steps of linear probing from bucket h. */
  function ProbeIndex(h: nat, t: nat, n: nat): nat
    requires h < n && t < n
  {
    if h + t < n then h + t else h + t - n
  }

  /** An occupied slot i records how many steps its entry sits from its home bucket. */
  ghost predicate PlacedAt<K, V>(s: seq<Slot<K, V>>, hash: K -> Uint64, i: int)
    requires 0 <= i < |s|
  {
    s[i].Full? ==>
      s[i].distance < |s| && ProbeIndex(Home(hash, s[i].key, |s|), s[i].distance, |s|) == i
  }

  ghost predicate Placed<K, V>(s: seq<Slot<K, V>>, hash: K -> Uint64)
  {
    forall i | 0 <= i < |s| :: PlacedAt(s, hash, i)
  }

  /** The Robin Hood order between neighbours: an entry that is away from its home bucket
      follows an occupied slot whose entry is displaced at most one step less. */
  ghost predicate OrderedAt<K, V>(s: seq<Slot<K, V>>, i: int)
    requires 0 <= i < |s|
  {
    var j := Next(i, |s|);
    s[j].Full? && s[j].distance > 0 ==> s[i].Full? && s[j].distance <= s[i].distance + 1
  }

  ghost predicate Ordered<K, V>(s: seq<Slot<K, V>>)
  {
    forall i | 0 <= i < |s| :: OrderedAt(s, i)
  }

  /** `pos` tells where each key of `contents` is stored; every occupied slot is one of
      those places, so keys are stored once. */
  ghost predicate Indexed<K, V>(s: seq<Slot<K, V>>, contents: map<K, V>, pos: map<K, nat>)
  {
    && pos.Keys == contents.Keys
    && (forall k {:trigger StoredAt(s, contents, pos, k)} | k in pos :: StoredAt(s, contents, pos, k))
    && (forall i {:trigger SlotIndexed(s, pos, i)} | 0 <= i < |s| :: SlotIndexed(s, pos, i))
  }

  /** Key k is stored, with its value, in slot `pos[k]`. */
  ghost predicate StoredAt<K, V>(s: seq<Slot<K, V>>, contents: map<K, V>, pos: map<K, nat>, k: K)
  {
    && k in pos && k in contents && pos[k] < |s|
    && s[pos[k]].Full? && s[pos[k]].key == k && s[pos[k]].value == contents[k]
  }

  /** Slot i, if occupied, is the recorded place of its key. */
  ghost predicate SlotIndexed<K, V>(s: seq<Slot<K, V>>, pos: map<K, nat>, i: int)
    requires 0 <= i < |s|
  {
    s[i].Full? ==> s[i].key in pos && pos[s[i].key] == i
  }

  /** A probe for key at step `dist` has not gone past the key's slot. */
  ghost predicate NotBeyond<K, V>(s: seq<Slot<K, V>>, pos: map<K, nat>, key: K, dist: nat)
  {
    key in pos && pos[key] < |s| && s[pos[key]].Full? && dist <= s[pos[key]].distance
  }

  ghost function Occupied<K, V>(s: seq<Slot<K, V>>): set<int>
  {
    set i | 0 <= i < |s| && s[i].Full?
  }

  /** A well-formed slot array holding `contents`, with at least one empty slot. */
  ghost predicate Table<K, V>(s: seq<Slot<K, V>>, hash: K -> Uint64, contents: map<K, V>, pos: map<K, nat>)
  {
    && 0 < |s|
    && Placed(s, hash)
    && Ordered(s)
    && Indexed(s, contents, pos)
    && |Occupied(s)| == |contents| < |s|
  }

  /** Step t of a probe from bucket h meets an occupied slot displaced at least t steps. */
  ghost predicate PathSlot<K, V>(s: seq<Slot<K, V>>, h: nat, t: nat)
    requires h < |s| && t < |s|
  {
    var i := ProbeIndex(h, t, |s|);
    s[i].Full? && s[i].distance >= t
  }

  ghost function Run(h: nat, m: nat, n: nat): set<int>
    requires h < n && m <= n
  {
    set t | 0 <= t < m :: ProbeIndex(h, t, n)
  }

  // ---------------------------------------------------------------------------
  // Small facts about indices and counting

  lemma ProbeStep(h: nat, t: nat, n: nat)
    requires h < n && t + 1 < n
    ensures ProbeIndex(h, t + 1, n) == Next(ProbeIndex(h, t, n), n)
  {
  }

  /** Trading a stored entry for a new one and then putting the old one back gives the
      original map with the new entry added. */
  lemma MapTrade<K, V>(m: map<K, V>, a: K, b: V, k: K, v: V)
    requires a in m && m[a] == b && k !in m
    ensures ((m - {a})[k := v])[a := b] == m[k := v]
  {
  }

  lemma TradeSize<K, V>(m: map<K, V>, a: K, k: K, v: V)
    requires a in m && k !in m
    ensures |(m - {a})[k := v]| == |m|
  {
    assert ((m - {a})[k := v]).Keys == m.Keys - {a} + {k};
  }

  /** The first m slots of a probe sequence are m distinct slots. */
  lemma {:induction false} RunSize(h: nat, m: nat, n: nat)
    requires h < n && m <= n
    ensures |Run(h, m, n)| == m
  {
    if m > 0 {
      RunSize(h, m - 1, n);
      assert Run(h, m, n) == Run(h, m - 1, n) + {ProbeIndex(h, m - 1, n)};
      assert ProbeIndex(h, m - 1, n) !in Run(h, m - 1, n);
    }
  }

  /** m occupied slots in a row from bucket h: there are at least m occupied slots. */
  lemma RunCount<K, V>(s: seq<Slot<K, V>>, h: nat, m: nat)
    requires h < |s| && m <= |s|
    requires forall t | 0 <= t < m :: s[ProbeIndex(h, t, |s|)].Full?
    ensures m <= |Occupied(s)|
  {
    RunSize(h, m, |s|);
    SubsetCard(Run(h, m, |s|), Occupied(s));
  }

  lemma OccupiedUpdate<K, V>(s: seq<Slot<K, V>>, i: int, x: Slot<K, V>)
    requires 0 <= i < |s|
    ensures Occupied(s[i := x]) == if x.Full? then Occupied(s) + {i} else Occupied(s) - {i}
  {
  }

  // ---------------------------------------------------------------------------
  // Writing one slot

  lemma PlacedUpdate<K, V>(s: seq<Slot<K, V>>, hash: K -> Uint64, i: int, x: Slot<K, V>)
    requires Placed(s, hash) && 0 <= i < |s| && PlacedAt(s[i := x], hash, i)
    ensures Placed(s[i := x], hash)
  {
    var s' := s[i := x];
    forall j | 0 <= j < |s|
      ensures PlacedAt(s', hash, j)
    {
      if j != i {
        assert PlacedAt(s, hash, j);
      }
    }
  }

  /** Writing slot i can only disturb the order at i and at the slot before it. */
  lemma OrderedUpdate<K, V>(s: seq<Slot<K, V>>, i: int, x: Slot<K, V>)
    requires 0 <= i < |s|
    requires forall j | 0 <= j < |s| && j != i && j != Prev(i, |s|) :: OrderedAt(s, j)
    requires OrderedAt(s[i := x], i) && OrderedAt(s[i := x], Prev(i, |s|))
    ensures Ordered(s[i := x])
  {
    var s' := s[i := x];
    forall j | 0 <= j < |s|
      ensures OrderedAt(s', j)
    {
      if j != i && j != Prev(i, |s|) {
        assert OrderedAt(s, j);
      }
    }
  }

  lemma IndexedPlace<K, V>(s: seq<Slot<K, V>>, contents: map<K, V>, pos: map<K, nat>,
                           i: int, k: K, v: V, d: Uint8)
    requires Indexed(s, contents, pos) && 0 <= i < |s| && s[i].Empty? && k !in contents
    ensures Indexed(s[i := Full(k, v, d)], contents[k := v], pos[k := i])
  {
    var s', c', p' := s[i := Full(k, v, d)], contents[k := v], pos[k := i];
    forall k' | k' in p'
      ensures StoredAt(s', c', p', k')
    {
      if k' != k {
        assert StoredAt(s, contents, pos, k');
      }
    }
    forall j | 0 <= j < |s'|
      ensures SlotIndexed(s', p', j)
    {
      if j != i {
        assert SlotIndexed(s, pos, j);
      }
    }
  }

  lemma IndexedSet<K, V>(s: seq<Slot<K, V>>, contents: map<K, V>, pos: map<K, nat>, i: int, v: V)
    requires Indexed(s, contents, pos) && 0 <= i < |s| && s[i].Full?
    ensures Indexed(s[i := Full(s[i].key, v, s[i].distance)], contents[s[i].key := v], pos)
  {
    var s', c' := s[i := Full(s[i].key, v, s[i].distance)], contents[s[i].key := v];
    assert SlotIndexed(s, pos, i);
    forall k' | k' in pos
      ensures StoredAt(s', c', pos, k')
    {
      assert StoredAt(s, contents, pos, k');
    }
    forall j | 0 <= j < |s'|
      ensures SlotIndexed(s', pos, j)
    {
      assert SlotIndexed(s, pos, j);
    }
  }

  lemma IndexedClear<K, V>(s: seq<Slot<K, V>>, contents: map<K, V>, pos: map<K, nat>, i: int)
    requires Indexed(s, contents, pos) && 0 <= i < |s| && s[i].Full?
    ensures Indexed(s[i := Empty], contents - {s[i].key}, pos - {s[i].key})
  {
    var s', c', p' := s[i := Empty], contents - {s[i].key}, pos - {s[i].key};
    assert SlotIndexed(s, pos, i);
    forall k' | k' in p'
      ensures StoredAt(s', c', p', k')
    {
      assert StoredAt(s, contents, pos, k');
    }
    forall j | 0 <= j < |s'|
      ensures SlotIndexed(s', p', j)
    {
      assert SlotIndexed(s, pos, j);
    }
  }

  lemma IndexedSwap<K, V>(s: seq<Slot<K, V>>, contents: map<K, V>, pos: map<K, nat>,
                          i: int, k: K, v: V, d: Uint8)
    requires Indexed(s, contents, pos) && 0 <= i < |s| && s[i].Full? && k !in contents
    ensures Indexed(s[i := Full(k, v, d)], (contents - {s[i].key})[k := v], (pos - {s[i].key})[k := i])
  {
    IndexedClear(s, contents, pos, i);
    IndexedPlace(s[i := Empty], contents - {s[i].key}, pos - {s[i].key}, i, k, v, d);
    assert s[i := Empty][i := Full(k, v, d)] == s[i := Full(k, v, d)];
  }

  lemma IndexedMove<K, V>(g: seq<Slot<K, V>>, contents: map<K, V>, pos: map<K, nat>, hole: int, j: int, d: Uint8)
    requires Indexed(g, contents, pos) && 0 <= hole < |g| && 0 <= j < |g| && hole != j
    requires g[hole].Empty? && g[j].Full?
    ensures Indexed(g[hole := Full(g[j].key, g[j].value, d)][j := Empty], contents, pos[g[j].key := hole])
  {
    var g' := g[hole := Full(g[j].key, g[j].value, d)][j := Empty];
    var p' := pos[g[j].key := hole];
    assert SlotIndexed(g, pos, j);
    assert StoredAt(g, contents, pos, g[j].key);
    forall k' | k' in p'
      ensures StoredAt(g', contents, p', k')
    {
      assert StoredAt(g, contents, pos, k');
    }
    forall i | 0 <= i < |g'|
      ensures SlotIndexed(g', p', i)
    {
      assert SlotIndexed(g, pos, i);
    }
  }

  // ---------------------------------------------------------------------------
  // The Robin Hood invariant seen along a probe path

  /** If step d of a probe from h meets an entry displaced at least d steps, so does every
      earlier step t: the slots between a key's home bucket and the key are occupied by
      entries displaced at least as far as the probe has come. */
  lemma {:induction false} PathOf<K, V>(s: seq<Slot<K, V>>, h: nat, d: nat)
    requires h < |s| && d < |s| && Ordered(s) && PathSlot(s, h, d)
    ensures forall t | 0 <= t <= d :: PathSlot(s, h, t)
  {
    if d > 0 {
      var p := ProbeIndex(h, d - 1, |s|);
      ProbeStep(h, d - 1, |s|);
      assert OrderedAt(s, p);
      PathOf(s, h, d - 1);
    }
  }

  /** Every recorded distance is smaller than the number of stored entries, because the d
      slots before an entry displaced d steps are all occupied. */
  lemma DistanceBelowOccupied<K, V>(s: seq<Slot<K, V>>, hash: K -> Uint64, i: int)
    requires Placed(s, hash) && Ordered(s) && 0 <= i < |s| && s[i].Full?
    ensures s[i].distance < |Occupied(s)|
  {
    assert PlacedAt(s, hash, i);
    var h := Home(hash, s[i].key, |s|);
    var d: nat := s[i].distance;
    PathOf(s, h, d);
    forall t | 0 <= t < d + 1
      ensures s[ProbeIndex(h, t, |s|)].Full?
    {
      assert PathSlot(s, h, t);
    }
    RunCount(s, h, d + 1);
  }

  /** A probe for a stored key that has not yet gone past the key's own distance is still
      on an occupied slot displaced at least as far, and it is at the key's slot exactly
      when the step count equals the key's distance. */
  lemma NotPassed<K, V>(s: seq<Slot<K, V>>, hash: K -> Uint64, contents: map<K, V>, pos: map<K, nat>,
                        key: K, dist: nat, index: nat)
    requires Table(s, hash, contents, pos) && dist < |s|
    requires index == ProbeIndex(Home(hash, key, |s|), dist, |s|)
    requires key in contents && NotBeyond(s, pos, key, dist)
    ensures s[index].Full? && s[index].distance >= dist
    ensures s[index].key != key ==> dist < s[pos[key]].distance
  {
    var q := pos[key];
    assert StoredAt(s, contents, pos, key);
    assert PlacedAt(s, hash, q);
    PathOf(s, Home(hash, key, |s|), s[q].distance);
    assert PathSlot(s, Home(hash, key, |s|), dist);
  }

  // ---------------------------------------------------------------------------
  // Lookup: the loop shared by Get and by the search phase of Remove

  /** A lookup for `key` is at step `dist`, slot `index`, and has not gone past the place
      where the key would be stored. */
  ghost predicate Probing<K, V>(s: seq<Slot<K, V>>, hash: K -> Uint64, contents: map<K, V>, pos: map<K, nat>,
                                key: K, dist: nat, index: nat)
  {
    && Table(s, hash, contents, pos)
    && dist < |s|
    && index == ProbeIndex(Home(hash, key, |s|), dist, |s|)
    && (key in contents ==> NotBeyond(s, pos, key, dist))
  }

  lemma ProbeStart<K, V>(s: seq<Slot<K, V>>, hash: K -> Uint64, contents: map<K, V>, pos: map<K, nat>, key: K)
    requires Table(s, hash, contents, pos)
    ensures Probing(s, hash, contents, pos, key, 0, Home(hash, key, |s|))
  {
    if key in contents {
      assert StoredAt(s, contents, pos, key);
    }
  }

  /** Early termination is sound: an empty slot, or a resident displaced less than the
      probe has come, proves the key absent. */
  lemma ProbeMiss<K, V>(s: seq<Slot<K, V>>, hash: K -> Uint64, contents: map<K, V>, pos: map<K, nat>,
                        key: K, dist: nat, index: nat)
    requires Probing(s, hash, contents, pos, key, dist, index)
    ensures key in contents ==> s[index].Full? && dist <= s[index].distance
  {
    if key in contents {
      NotPassed(s, hash, contents, pos, key, dist, index);
    }
  }

  /** Meeting the key itself: the stored value is the one in `contents`. */
  lemma ProbeHit<K, V>(s: seq<Slot<K, V>>, hash: K -> Uint64, contents: map<K, V>, pos: map<K, nat>,
                       key: K, dist: nat, index: nat)
    requires Probing(s, hash, contents, pos, key, dist, index)
    requires s[index].Full? && s[index].key == key
    ensures key in contents && contents[key] == s[index].value && pos[key] == index
  {
    assert SlotIndexed(s, pos, index);
    assert StoredAt(s, contents, pos, key);
  }

  /** Moving on past a resident that is not the key keeps the lookup state, and the step
      count stays below the number of entries (so it fits a `uint8` while they do). */
  lemma ProbeAdvance<K, V>(s: seq<Slot<K, V>>, hash: K -> Uint64, contents: map<K, V>, pos: map<K, nat>,
                           key: K, dist: nat, index: nat)
    requires Probing(s, hash, contents, pos, key, dist, index)
    requires s[index].Full? && s[index].key != key && dist <= s[index].distance
    ensures dist + 1 <= |contents|
    ensures Probing(s, hash, contents, pos, key, dist + 1, Next(index, |s|))
  {
    DistanceBelowOccupied(s, hash, index);
    ProbeStep(Home(hash, key, |s|), dist, |s|);
    if key in contents {
      NotPassed(s, hash, contents, pos, key, dist, index);
    }
  }

  // ---------------------------------------------------------------------------
  // Insertion: the swap-and-continue loop of Put

  /** The state of the insertion loop. `key`/`value` are what Put was called with and
      `start` the contents before; `k`/`v`/`dist` is the entry being carried, virtually at
      `index`; `steps` counts the slots visited. Before the first swap the carried entry is
      the new one and nothing has changed; after it, the new key is stored and the carried
      entry is a displaced resident. */
  ghost predicate Inserting<K, V>(s: seq<Slot<K, V>>, hash: K -> Uint64, contents: map<K, V>, pos: map<K, nat>,
                                  start: map<K, V>, key: K, value: V,
                                  k: K, v: V, dist: nat, index: nat, steps: nat, swapped: bool)
  {
    && Table(s, hash, contents, pos)
    && Walked(s, Home(hash, key, |s|), index, steps)
    && Carrying(s, Home(hash, k, |s|), dist, index)
    && (!swapped ==>
          && k == key && v == value && contents == start
          && (key in contents ==> NotBeyond(s, pos, key, dist)))
    && (swapped ==> key !in start && k !in contents && contents[k := v] == start[key := value])
  }

  /** The probe from bucket h has visited `steps` occupied slots and is at `index`. */
  ghost predicate Walked<K, V>(s: seq<Slot<K, V>>, h: nat, index: nat, steps: nat)
  {
    && h < |s| && steps < |s|
    && index == ProbeIndex(h, steps, |s|)
    && (forall t | 0 <= t < steps :: s[ProbeIndex(h, t, |s|)].Full?)
  }

  /** An entry from bucket h is carried `dist` steps from home to `index`, behind a path of
      entries displaced at least as far. */
  ghost predicate Carrying<K, V>(s: seq<Slot<K, V>>, h: nat, dist: nat, index: nat)
  {
    && h < |s| && dist < |s|
    && index == ProbeIndex(h, dist, |s|)
    && (dist > 0 ==> PathSlot(s, h, dist - 1))
  }

  lemma InsertStart<K, V>(s: seq<Slot<K, V>>, hash: K -> Uint64, contents: map<K, V>, pos: map<K, nat>,
                          key: K, value: V)
    requires Table(s, hash, contents, pos)
    ensures Inserting(s, hash, contents, pos, contents, key, value, key, value, 0, Home(hash, key, |s|), 0, false)
  {
    if key in contents {
      assert StoredAt(s, contents, pos, key);
    }
  }

  /** The slots from the carried entry's home up to `index` are occupied, so the carried
      distance is below the number of entries. */
  lemma CarriedBound<K, V>(s: seq<Slot<K, V>>, hash: K -> Uint64, contents: map<K, V>, pos: map<K, nat>,
                           start: map<K, V>, key: K, value: V,
                           k: K, v: V, dist: nat, index: nat, steps: nat, swapped: bool)
    requires Inserting(s, hash, contents, pos, start, key, value, k, v, dist, index, steps, swapped)
    requires s[index].Full?
    ensures dist + 1 <= |contents| && steps + 1 <= |contents|
  {
    var n := |s|;
    var hk := Home(hash, k, n);
    if dist > 0 {
      PathOf(s, hk, dist - 1);
    }
    forall t | 0 <= t < dist + 1
      ensures s[ProbeIndex(hk, t, n)].Full?
    {
      if t < dist {
        assert PathSlot(s, hk, t);
      }
    }
    RunCount(s, hk, dist + 1);
    RunCount(s, Home(hash, key, n), steps + 1);
  }

  /** Storing an entry in a free slot at its own distance, behind a path of entries
      displaced at least as far, keeps the table well formed. */
  lemma TablePlace<K, V>(s: seq<Slot<K, V>>, hash: K -> Uint64, contents: map<K, V>, pos: map<K, nat>,
                         i: nat, k: K, v: V, d: Uint8)
    requires Table(s, hash, contents, pos) && i < |s| && s[i].Empty? && k !in contents
    requires |contents| + 1 < |s|
    requires d < |s| && ProbeIndex(Home(hash, k, |s|), d, |s|) == i
    requires d > 0 ==> PathSlot(s, Home(hash, k, |s|), d - 1)
    ensures Table(s[i := Full(k, v, d)], hash, contents[k := v], pos[k := i])
  {
    var n := |s|;
    var x := Full(k, v, d);
    PlacedUpdate(s, hash, i, x);
    assert OrderedAt(s, i);
    if d > 0 {
      ProbeStep(Home(hash, k, n), d - 1, n);
      assert Prev(i, n) == ProbeIndex(Home(hash, k, n), d - 1, n);
    }
    OrderedUpdate(s, i, x);
    IndexedPlace(s, contents, pos, i, k, v, d);
    OccupiedUpdate(s, i, x);
  }

  /** Overwriting the value of an occupied slot keeps the table well formed. */
  lemma TableSet<K, V>(s: seq<Slot<K, V>>, hash: K -> Uint64, contents: map<K, V>, pos: map<K, nat>,
                       i: nat, v: V)
    requires Table(s, hash, contents, pos) && i < |s| && s[i].Full?
    ensures Table(s[i := Full(s[i].key, v, s[i].distance)], hash, contents[s[i].key := v], pos)
  {
    var x := Full(s[i].key, v, s[i].distance);
    assert PlacedAt(s, hash, i);
    PlacedUpdate(s, hash, i, x);
    assert OrderedAt(s, i);
    assert OrderedAt(s, Prev(i, |s|));
    OrderedUpdate(s, i, x);
    IndexedSet(s, contents, pos, i, v);
    OccupiedUpdate(s, i, x);
    assert s[i].key in contents;
    assert contents[s[i].key := v].Keys == contents.Keys;
    var s' := s[i := x];
    assert Placed(s', hash);
    assert Ordered(s');
    assert Indexed(s', contents[s[i].key := v], pos);
    assert Occupied(s') == Occupied(s);
    assert |contents[s[i].key := v]| == |contents|;
    assert 0 < |s'|;
  }

  /** Putting an entry displaced further than the resident of slot i in its place (the
      resident leaves the table) keeps the table well formed. */
  lemma TableSwap<K, V>(s: seq<Slot<K, V>>, hash: K -> Uint64, contents: map<K, V>, pos: map<K, nat>,
                        i: nat, k: K, v: V, d: Uint8)
    requires Table(s, hash, contents, pos) && i < |s| && s[i].Full? && k !in contents
    requires d < |s| && ProbeIndex(Home(hash, k, |s|), d, |s|) == i && d > s[i].distance
    requires PathSlot(s, Home(hash, k, |s|), d - 1)
    ensures Table(s[i := Full(k, v, d)], hash, (contents - {s[i].key})[k := v], (pos - {s[i].key})[k := i])
  {
    var n := |s|;
    var x := Full(k, v, d);
    PlacedUpdate(s, hash, i, x);
    assert OrderedAt(s, i);
    ProbeStep(Home(hash, k, n), d - 1, n);
    assert Prev(i, n) == ProbeIndex(Home(hash, k, n), d - 1, n);
    OrderedUpdate(s, i, x);
    IndexedSwap(s, contents, pos, i, k, v, d);
    OccupiedUpdate(s, i, x);
    assert Occupied(s[i := x]) == Occupied(s);
    assert SlotIndexed(s, pos, i);
    TradeSize(contents, s[i].key, k, v);
  }

  /** A free slot ends the loop: the carried entry is stored there and the table holds the
      old contents with `key` mapped to `value`. */
  lemma InsertPlace<K, V>(s: seq<Slot<K, V>>, hash: K -> Uint64, contents: map<K, V>, pos: map<K, nat>,
                          start: map<K, V>, key: K, value: V,
                          k: K, v: V, dist: Uint8, index: nat, steps: nat, swapped: bool)
    requires Inserting(s, hash, contents, pos, start, key, value, k, v, dist, index, steps, swapped)
    requires s[index].Empty? && |contents| + 1 < |s|
    ensures key !in start && k !in contents && contents[k := v] == start[key := value]
    ensures Table(s[index := Full(k, v, dist)], hash, contents[k := v], pos[k := index])
  {
    if !swapped && key in contents {
      NotPassed(s, hash, contents, pos, key, dist, index);
    }
    TablePlace(s, hash, contents, pos, index, k, v, dist);
  }

  /** The key is met: only its value changes, and it was already stored. */
  lemma InsertUpdate<K, V>(s: seq<Slot<K, V>>, hash: K -> Uint64, contents: map<K, V>, pos: map<K, nat>,
                           start: map<K, V>, key: K, value: V,
                           k: K, v: V, dist: nat, index: nat, steps: nat, swapped: bool)
    requires Inserting(s, hash, contents, pos, start, key, value, k, v, dist, index, steps, swapped)
    requires s[index].Full? && s[index].key == k
    ensures !swapped && k == key && v == value && key in start && contents == start
    ensures Table(s[index := Full(k, v, s[index].distance)], hash, contents[k := v], pos)
  {
    assert SlotIndexed(s, pos, index);
    TableSet(s, hash, contents, pos, index, v);
  }

  /** The resident is at least as far from home as the carried entry: move on. */
  lemma InsertAdvance<K, V>(s: seq<Slot<K, V>>, hash: K -> Uint64, contents: map<K, V>, pos: map<K, nat>,
                            start: map<K, V>, key: K, value: V,
                            k: K, v: V, dist: nat, index: nat, steps: nat, swapped: bool)
    requires Inserting(s, hash, contents, pos, start, key, value, k, v, dist, index, steps, swapped)
    requires s[index].Full? && s[index].key != k && dist <= s[index].distance
    ensures dist + 1 <= |contents|
    ensures Inserting(s, hash, contents, pos, start, key, value, k, v, dist + 1, Next(index, |s|), steps + 1, swapped)
  {
    var n := |s|;
    CarriedBound(s, hash, contents, pos, start, key, value, k, v, dist, index, steps, swapped);
    ProbeStep(Home(hash, key, n), steps, n);
    ProbeStep(Home(hash, k, n), dist, n);
    if !swapped && key in contents {
      NotPassed(s, hash, contents, pos, key, dist, index);
    }
  }

  /** The resident is closer to home than the carried entry: they trade places and the
      resident is carried on. The facts about the state before come from `SwapFacts`. */
  lemma InsertSwap<K, V>(s: seq<Slot<K, V>>, hash: K -> Uint64, contents: map<K, V>, pos: map<K, nat>,
                         start: map<K, V>, key: K, value: V,
                         k: K, v: V, dist: Uint8, index: nat, steps: nat)
    requires Table(s, hash, contents, pos)
    requires Walked(s, Home(hash, key, |s|), index, steps)
    requires Carrying(s, Home(hash, k, |s|), dist, index)
    requires s[index].Full? && dist > s[index].distance
    requires dist + 1 <= |contents| && steps + 1 <= |contents| && k !in contents && key !in start
    requires s[index].key in contents && contents[s[index].key] == s[index].value
    requires contents[k := v] == start[key := value]
    ensures |(contents - {s[index].key})[k := v]| == |contents|
    ensures
      var e := s[index];
      Inserting(s[index := Full(k, v, dist)], hash, (contents - {e.key})[k := v], (pos - {e.key})[k := index],
                start, key, value, e.key, e.value, e.distance + 1, Next(index, |s|), steps + 1, true)
  {
    var n := |s|;
    var e := s[index];
    var s' := s[index := Full(k, v, dist)];
    var c' := (contents - {e.key})[k := v];
    assert Table(s', hash, c', (pos - {e.key})[k := index]) by {
      TableSwap(s, hash, contents, pos, index, k, v, dist);
    }
    assert Walked(s', Home(hash, key, n), Next(index, n), steps + 1) by {
      ProbeStep(Home(hash, key, n), steps, n);
    }
    assert Carrying(s', Home(hash, e.key, n), e.distance + 1, Next(index, n)) by {
      assert PlacedAt(s, hash, index);
      ProbeStep(Home(hash, e.key, n), e.distance, n);
    }
    MapTrade(contents, e.key, e.value, k, v);
    TradeSize(contents, e.key, k, v);
    InsertingSwapped(s', hash, c', (pos - {e.key})[k := index], start, key, value,
                     e.key, e.value, e.distance + 1, Next(index, n), steps + 1);
  }

  /** Before a trade: the carried key is new, the resident is stored under its own key,
      and the carried distance is below the number of entries. */
  lemma SwapFacts<K, V>(s: seq<Slot<K, V>>, hash: K -> Uint64, contents: map<K, V>, pos: map<K, nat>,
                        start: map<K, V>, key: K, value: V,
                        k: K, v: V, dist: Uint8, index: nat, steps: nat, swapped: bool)
    requires Inserting(s, hash, contents, pos, start, key, value, k, v, dist, index, steps, swapped)
    requires s[index].Full? && s[index].key != k && dist > s[index].distance
    ensures dist + 1 <= |contents| && steps + 1 <= |contents| && k !in contents && key !in start
    ensures s[index].key in contents && contents[s[index].key] == s[index].value
    ensures contents[k := v] == start[key := value]
  {
    CarriedBound(s, hash, contents, pos, start, key, value, k, v, dist, index, steps, swapped);
    if !swapped && key in contents {
      NotPassed(s, hash, contents, pos, key, dist, index);
    }
    assert SlotIndexed(s, pos, index);
    assert StoredAt(s, contents, pos, s[index].key);
  }

  lemma InsertingSwapped<K, V>(s: seq<Slot<K, V>>, hash: K -> Uint64, contents: map<K, V>, pos: map<K, nat>,
                               start: map<K, V>, key: K, value: V, k: K, v: V, dist: nat, index: nat, steps: nat)
    requires Table(s, hash, contents, pos)
    requires Walked(s, Home(hash, key, |s|), index, steps)
    requires Carrying(s, Home(hash, k, |s|), dist, index)
    requires key !in start && k !in contents && contents[k := v] == start[key := value]
    ensures Inserting(s, hash, contents, pos, start, key, value, k, v, dist, index, steps, true)
  {
  }

  // ---------------------------------------------------------------------------
  // Backward-shift deletion: the inner loop of Remove

  /** What the slot array means during the shift: read with the slot at `hole` empty it is
      a well-formed table (see `Gap`). The slot at `hole` itself still holds a stale copy,
      as in the source, and the slots visited since `origin` are all occupied. */
  ghost predicate Shifting<K, V>(s: seq<Slot<K, V>>, hash: K -> Uint64, contents: map<K, V>, pos: map<K, nat>,
                                 hole: nat, origin: nat, shifted: nat)
  {
    && Walked(s, origin, hole, shifted)
    && s[hole].Full?
    && |contents| + 1 < |s|
    && Gap(s[hole := Empty], hash, contents, pos, hole)
  }

  /** A table with an empty slot at `hole`, well formed except that the order between the
      hole and the slot after it may not hold yet; `Bridge` carries the order across. */
  ghost predicate Gap<K, V>(g: seq<Slot<K, V>>, hash: K -> Uint64, contents: map<K, V>, pos: map<K, nat>, hole: nat)
  {
    && 3 <= |g| && hole < |g| && g[hole].Empty?
    && Placed(g, hash)
    && Indexed(g, contents, pos)
    && |Occupied(g)| == |contents|
    && (forall i | 0 <= i < |g| && i != hole :: OrderedAt(g, i))
    && Bridge(g, hole)
  }

  ghost predicate Bridge<K, V>(g: seq<Slot<K, V>>, hole: nat)
    requires hole < |g|
  {
    var prev := Prev(hole, |g|);
    var next := Next(hole, |g|);
    g[next].Full? && g[next].distance > 1 ==> g[prev].Full? && g[next].distance <= g[prev].distance + 2
  }

  /** The entry after the hole, moved back one step into the hole. */
  function Moved<K, V>(g: seq<Slot<K, V>>, hole: nat): seq<Slot<K, V>>
    requires hole < |g| && g[Next(hole, |g|)].Full? && g[Next(hole, |g|)].distance > 0
    ensures |Moved(g, hole)| == |g|
  {
    var next := Next(hole, |g|);
    var e := g[next];
    g[hole := Full(e.key, e.value, e.distance - 1)][next := Empty]
  }

  lemma MovedPlaced<K, V>(g: seq<Slot<K, V>>, hash: K -> Uint64, hole: nat)
    requires Placed(g, hash) && 3 <= |g| && hole < |g|
    requires g[Next(hole, |g|)].Full? && g[Next(hole, |g|)].distance > 0
    ensures Placed(Moved(g, hole), hash)
  {
    var n := |g|;
    var next := Next(hole, n);
    var e := g[next];
    assert PlacedAt(g, hash, next);
    ProbeStep(Home(hash, e.key, n), e.distance - 1, n);
    var g1 := g[hole := Full(e.key, e.value, e.distance - 1)];
    PlacedUpdate(g, hash, hole, Full(e.key, e.value, e.distance - 1));
    PlacedUpdate(g1, hash, next, Empty);
  }

  lemma MovedOrdered<K, V>(g: seq<Slot<K, V>>, hole: nat)
    requires 3 <= |g| && hole < |g| && g[hole].Empty?
    requires g[Next(hole, |g|)].Full? && g[Next(hole, |g|)].distance > 0
    requires forall i | 0 <= i < |g| && i != hole :: OrderedAt(g, i)
    requires Bridge(g, hole)
    ensures forall i | 0 <= i < |g| && i != Next(hole, |g|) :: OrderedAt(Moved(g, hole), i)
    ensures Bridge(Moved(g, hole), Next(hole, |g|))
  {
    var n := |g|;
    var next := Next(hole, n);
    var g' := Moved(g, hole);
    forall i | 0 <= i < n && i != next
      ensures OrderedAt(g', i)
    {
      if i != hole && Next(i, n) != hole {
        assert OrderedAt(g, i);
      }
    }
    assert OrderedAt(g, next);
  }

  /** Moving the entry after the hole back into it moves the gap one slot forward. */
  lemma GapMove<K, V>(g: seq<Slot<K, V>>, hash: K -> Uint64, contents: map<K, V>, pos: map<K, nat>, hole: nat)
    requires Gap(g, hash, contents, pos, hole)
    requires g[Next(hole, |g|)].Full? && g[Next(hole, |g|)].distance > 0
    ensures Gap(Moved(g, hole), hash, contents, pos[g[Next(hole, |g|)].key := hole], Next(hole, |g|))
  {
    var next := Next(hole, |g|);
    var e := g[next];
    var x := Full(e.key, e.value, e.distance - 1);
    MovedPlaced(g, hash, hole);
    MovedOrdered(g, hole);
    IndexedMove(g, contents, pos, hole, next, e.distance - 1);
    OccupiedUpdate(g, hole, x);
    OccupiedUpdate(g[hole := x], next, Empty);
    assert Moved(g, hole) == g[hole := x][next := Empty];
    assert Occupied(Moved(g, hole)) == Occupied(g) + {hole} - {next};
  }

  /** Removing the key stored at `hole` starts the shift. */
  lemma ShiftStart<K, V>(s: seq<Slot<K, V>>, hash: K -> Uint64, contents: map<K, V>, pos: map<K, nat>, key: K)
    requires Table(s, hash, contents, pos) && 3 <= |s| && key in contents
    ensures Shifting(s, hash, contents - {key}, pos - {key}, pos[key], pos[key], 0)
  {
    var n := |s|;
    assert StoredAt(s, contents, pos, key);
    var hole := pos[key];
    var g := s[hole := Empty];
    PlacedUpdate(s, hash, hole, Empty);
    forall i | 0 <= i < n && i != hole
      ensures OrderedAt(g, i)
    {
      assert OrderedAt(s, i);
    }
    assert OrderedAt(s, hole);
    assert OrderedAt(s, Prev(hole, n));
    IndexedClear(s, contents, pos, hole);
    OccupiedUpdate(s, hole, Empty);
    assert (contents - {key}).Keys == contents.Keys - {key};
  }

  /** The next entry is displaced: it moves back into the hole, one step closer to home,
      and the hole moves forward. */
  lemma ShiftStep<K, V>(s: seq<Slot<K, V>>, hash: K -> Uint64, contents: map<K, V>, pos: map<K, nat>,
                        hole: nat, origin: nat, shifted: nat)
    requires Shifting(s, hash, contents, pos, hole, origin, shifted)
    requires s[Next(hole, |s|)].Full? && s[Next(hole, |s|)].distance > 0
    ensures
      var e := s[Next(hole, |s|)];
      Shifting(s[hole := Full(e.key, e.value, e.distance - 1)], hash, contents, pos[e.key := hole],
               Next(hole, |s|), origin, shifted + 1)
  {
    var next := Next(hole, |s|);
    var e := s[next];
    var g := s[hole := Empty];
    var s' := s[hole := Full(e.key, e.value, e.distance - 1)];
    ShiftWalk(s, hash, contents, pos, hole, origin, shifted, Full(e.key, e.value, e.distance - 1));
    assert s'[next := Empty] == Moved(g, hole);
    GapMove(g, hash, contents, pos, hole);
  }

  /** The slots the shift has visited stay occupied when the hole is filled, and there are
      fewer of them than slots, since one slot is empty. */
  lemma ShiftWalk<K, V>(s: seq<Slot<K, V>>, hash: K -> Uint64, contents: map<K, V>, pos: map<K, nat>,
                        hole: nat, origin: nat, shifted: nat, x: Slot<K, V>)
    requires Shifting(s, hash, contents, pos, hole, origin, shifted)
    requires s[Next(hole, |s|)].Full? && x.Full?
    ensures Walked(s[hole := x], origin, Next(hole, |s|), shifted + 1)
  {
    var n := |s|;
    assert shifted + 1 < n by {
      OccupiedUpdate(s, hole, Empty);
      RunCount(s, origin, shifted + 1);
    }
    ProbeStep(origin, shifted, n);
  }

  /** The next slot is empty or at its home bucket: clearing the hole ends the shift with a
      well-formed table. */
  lemma ShiftEnd<K, V>(s: seq<Slot<K, V>>, hash: K -> Uint64, contents: map<K, V>, pos: map<K, nat>,
                       hole: nat, origin: nat, shifted: nat)
    requires Shifting(s, hash, contents, pos, hole, origin, shifted)
    requires s[Next(hole, |s|)].Empty? || s[Next(hole, |s|)].distance == 0
    ensures Table(s[hole := Empty], hash, contents, pos)
  {
    var g := s[hole := Empty];
    assert OrderedAt(g, hole);
  }
}
