/** `MultiKeyHashMap` (hashmap/mutiple_key.go): a map in which one value is reachable
    through a primary key and any number of aliases. `data` maps every key, primary or
    alias, to its value; `aliases` maps a primary key to its alias list.

    Loops over a Go map visit keys in an unspecified order. Where that order shows in a
    result (the order of a new alias list, the primary `GetPrimaryKey` reports for a key
    held by several alias lists) the contracts admit every order: a new alias list is
    described by its elements, and a reported primary by the set of candidates. */
module MultiKey {
  import opened Options
  import opened Lists
  import opened Sets

  /** The alias list stored for p; a nil slice when p owns none. */
  function AliasesOf<K>(aliases: map<K, seq<K>>, p: K): seq<K>
  {
    if p in aliases then aliases[p] else []
  }

  /** The keys a list holds. */
  ghost function Elems<K>(s: seq<K>): set<K>
  {
    set k | k in s
  }

  /** Some stored alias list holds the key. */
  ghost predicate Listed<K>(aliases: map<K, seq<K>>, key: K)
  {
    exists q | q in aliases :: key in aliases[q]
  }

  /** The answers `GetPrimaryKey` may give for a key of `data`: the key itself when it owns
      an alias list; otherwise the owner of any list holding it (the scan stops at the
      first such list in map order); otherwise the key itself, a primary without aliases. */
  ghost function Primaries<K>(aliases: map<K, seq<K>>, key: K): set<K>
  {
    if key in aliases then {key}
    else if Listed(aliases, key) then set q | q in aliases && key in aliases[q]
    else {key}
  }

  /** There is always an answer. */
  lemma PrimariesNonEmpty<K>(aliases: map<K, seq<K>>, key: K)
    ensures Primaries(aliases, key) != {}
  {
    if key !in aliases && Listed(aliases, key) {
      var q :| q in aliases && key in aliases[q];
      assert q in Primaries(aliases, key);
    }
  }

  /** A primary is its own primary: asking again for the primary of an answer gives back
      that answer, and only it. */
  lemma PrimaryOfPrimary<K>(aliases: map<K, seq<K>>, key: K, p: K)
    requires p in Primaries(aliases, key)
    ensures Primaries(aliases, p) == {p}
  {
    if key !in aliases && !Listed(aliases, key) {
      assert p == key;
    }
  }

  /** When no key is held by two alias lists, every key has exactly one primary, so the
      answer of `GetPrimaryKey` does not depend on map order. */
  lemma PrimaryUnique<K>(aliases: map<K, seq<K>>, key: K)
    requires forall q1, q2, a | q1 in aliases && q2 in aliases && a in aliases[q1] && a in aliases[q2] :: q1 == q2
    ensures |Primaries(aliases, key)| == 1
  {
    if key !in aliases && Listed(aliases, key) {
      var q :| q in aliases && key in aliases[q];
      assert Primaries(aliases, key) == {q};
    }
  }

  /** The shape every alias list keeps: non-empty, no alias twice, never its own owner. */
  ghost predicate WellFormed<K>(aliases: map<K, seq<K>>)
  {
    forall p | p in aliases :: aliases[p] != [] && NoDuplicates(aliases[p]) && p !in aliases[p]
  }

  /** The aliases `Put(keys, v)` records for keys[0]: the other keys, without keys[0]. */
  ghost function NewAliases<K>(keys: seq<K>): set<K>
    requires |keys| > 0
  {
    set a | a in keys[1..] && a != keys[0]
  }

  /** The state after `Put(keys, value)` from data `d` and aliases `al`. With no keys
      nothing changes. Otherwise every given key maps to the value; the old aliases of the
      primary keys[0] are gone unless given again; every other key keeps its entry; the
      primary's alias list becomes the other keys, without repeats and without the
      primary, in any order; with no such key the alias map is left as it was. */
  ghost predicate PutResult<K, V>(d: map<K, V>, al: map<K, seq<K>>, keys: seq<K>, value: V,
                                  d': map<K, V>, al': map<K, seq<K>>)
  {
    if |keys| == 0 then d' == d && al' == al
    else
      var p := keys[0];
      && (forall k | k in keys :: k in d' && d'[k] == value)
      && (forall k | k in d' && k !in keys :: k in d && k !in AliasesOf(al, p) && d'[k] == d[k])
      && (forall k | k in d && k !in keys && k !in AliasesOf(al, p) :: k in d')
      && al' - {p} == al - {p}
      && (if NewAliases(keys) == {} then al' == al
          else p in al' && NoDuplicates(al'[p]) && Elems(al'[p]) == NewAliases(keys))
  }

  /** `Put` is determined up to the order of the new alias list. */
  lemma PutDeterminate<K, V>(d: map<K, V>, al: map<K, seq<K>>, keys: seq<K>, value: V,
                             d1: map<K, V>, al1: map<K, seq<K>>, d2: map<K, V>, al2: map<K, seq<K>>)
    requires PutResult(d, al, keys, value, d1, al1)
    requires PutResult(d, al, keys, value, d2, al2)
    ensures d1 == d2
    ensures al1.Keys == al2.Keys
    ensures forall q | q in al1 :: Elems(al1[q]) == Elems(al2[q])
  {
    if |keys| > 0 {
      var p := keys[0];
      assert d1.Keys == d2.Keys;
      if NewAliases(keys) != {} {
        assert al1.Keys == (al1 - {p}).Keys + {p};
        assert al2.Keys == (al2 - {p}).Keys + {p};
      }
      forall q | q in al1
        ensures Elems(al1[q]) == Elems(al2[q])
      {
        if q != p {
          assert al1[q] == (al1 - {p})[q] == (al2 - {p})[q] == al2[q];
        }
      }
    }
  }

  /** `Put` keeps the alias lists well formed. */
  lemma PutWellFormed<K, V>(d: map<K, V>, al: map<K, seq<K>>, keys: seq<K>, value: V,
                            d': map<K, V>, al': map<K, seq<K>>)
    requires WellFormed(al) && PutResult(d, al, keys, value, d', al')
    ensures WellFormed(al')
  {
    if |keys| > 0 && NewAliases(keys) != {} {
      var p := keys[0];
      forall q | q in al'
        ensures al'[q] != [] && NoDuplicates(al'[q]) && q !in al'[q]
      {
        if q == p {
          var a :| a in NewAliases(keys);
          assert a in Elems(al'[p]);
          assert p !in NewAliases(keys);
        } else {
          assert q in al' - {p};
          assert al'[q] == (al - {p})[q] == al[q];
        }
      }
    }
  }

  /** The keys of a group, the primary first: what `GetAllKeys` returns for a key whose
      primary is p. */
  function GroupOf<K>(al: map<K, seq<K>>, p: K): seq<K>
  {
    [p] + AliasesOf(al, p)
  }

  /** Putting a value under a primary's whole group maps every key of the group to the
      value, and the primary keeps the same aliases. */
  lemma PutGroup<K, V>(d: map<K, V>, al: map<K, seq<K>>, p: K, value: V,
                       d': map<K, V>, al': map<K, seq<K>>)
    requires WellFormed(al)
    requires PutResult(d, al, GroupOf(al, p), value, d', al')
    ensures forall k | k in GroupOf(al, p) :: k in d' && d'[k] == value
    ensures Elems(AliasesOf(al', p)) == Elems(AliasesOf(al, p))
    ensures d' - Elems(GroupOf(al, p)) == d - Elems(GroupOf(al, p))
    ensures WellFormed(al')
  {
    var group := GroupOf(al, p);
    assert group[0] == p && group[1..] == AliasesOf(al, p);
    assert NewAliases(group) == Elems(AliasesOf(al, p));
    PutWellFormed(d, al, group, value, d', al');
    var g := Elems(group);
    assert (d' - g).Keys == (d - g).Keys;
  }

  /** The state after `AddAlias(e, a)` when e's primary is p. */
  ghost predicate AliasAdded<K, V>(d: map<K, V>, al: map<K, seq<K>>, p: K, a: K, added: bool,
                                   d': map<K, V>, al': map<K, seq<K>>)
  {
    if a == p || p !in d then !added && d' == d && al' == al
    else
      && added && d' == d[a := d[p]]
      && (a in AliasesOf(al, p) ==> al' == al)
      && (a !in AliasesOf(al, p) ==> al' == al[p := AliasesOf(al, p) + [a]])
  }

  /** After `AddAlias` the alias lists stay well formed, so the new alias is listed once;
      the alias reads the primary's value. */
  lemma AliasAddedWellFormed<K, V>(d: map<K, V>, al: map<K, seq<K>>, p: K, a: K, added: bool,
                                   d': map<K, V>, al': map<K, seq<K>>)
    requires WellFormed(al) && AliasAdded(d, al, p, a, added, d', al')
    ensures WellFormed(al')
    ensures added ==> a in d' && d'[a] == d[p] && a in AliasesOf(al', p)
  {
    if added && a !in AliasesOf(al, p) {
      var list := AliasesOf(al, p) + [a];
      assert NoDuplicates(list) by {
        assert p in al ==> NoDuplicates(al[p]);
      }
      assert list[|list| - 1] == a;
    }
  }

  /** The state after `Remove(key)` when key's primary is p: a primary goes with all its
      aliases and its list; an alias goes alone and leaves its owner's list, which is
      dropped once empty. */
  ghost predicate Removed<K, V>(d: map<K, V>, al: map<K, seq<K>>, key: K, p: K,
                                d': map<K, V>, al': map<K, seq<K>>)
  {
    if key == p then
      d' == d - {key} - Elems(AliasesOf(al, p)) && al' == al - {p}
    else
      && d' == d - {key}
      && (p !in al ==> al' == al)
      && (p in al && Without(al[p], key) == [] ==> al' == al - {p})
      && (p in al && Without(al[p], key) != [] ==> al' == al[p := Without(al[p], key)])
  }

  /** `Remove` keeps the alias lists well formed, and the removed key is gone. */
  lemma RemovedWellFormed<K, V>(d: map<K, V>, al: map<K, seq<K>>, key: K, p: K,
                                d': map<K, V>, al': map<K, seq<K>>)
    requires WellFormed(al) && Removed(d, al, key, p, d', al')
    ensures WellFormed(al')
    ensures key !in d'
  {
    if key != p && p in al && Without(al[p], key) != [] {
      WithoutNoDuplicates(al[p], key);
      WithoutMembers(al[p], key);
    }
  }

  /** One answer of `GetPrimaryKey` for each key the choice covers. */
  ghost predicate Chosen<K>(al: map<K, seq<K>>, choice: map<K, K>)
  {
    forall k | k in choice :: choice[k] in Primaries(al, k)
  }

  /** A later choice keeps every answer of an earlier one. */
  ghost predicate Extends<K>(choice: map<K, K>, choice': map<K, K>)
  {
    forall k | k in choice :: k in choice' && choice'[k] == choice[k]
  }

  /** A choice of one primary for every key of `data`, as the loop of `Size` makes it. */
  ghost predicate PrimaryChoice<K, V>(d: map<K, V>, al: map<K, seq<K>>, choice: map<K, K>)
  {
    choice.Keys == d.Keys && Chosen(al, choice)
  }

  /** A map has no more distinct values than keys. */
  lemma {:induction false} ValuesCard<K>(m: map<K, K>)
    ensures |m.Values| <= |m|
    ensures |m.Values| == 0 <==> m == map[]
    decreases |m|
  {
    if m != map[] {
      var k :| k in m;
      var r := m - {k};
      assert r.Keys == m.Keys - {k};
      ValuesCard(r);
      forall v | v in m.Values
        ensures v in r.Values + {m[k]}
      {
        var k' :| k' in m && m[k'] == v;
        if k' != k {
          assert k' in r && r[k'] == v;
        }
      }
      assert m[k] in m.Values;
      SubsetCard(m.Values, r.Values + {m[k]});
    }
  }

  lemma ValuesUpdate<K>(m: map<K, K>, k: K, x: K)
    requires k !in m
    ensures m[k := x].Values == m.Values + {x}
  {
    forall v | v in m.Values
      ensures v in m[k := x].Values
    {
      var k' :| k' in m && m[k'] == v;
      assert m[k := x][k'] == v;
    }
    assert m[k := x][k] == x;
  }

  /** A key of `data` in s has its chosen primary, and all that primary's aliases, in s
      too. */
  ghost predicate Expanded<K, V>(d: map<K, V>, al: map<K, seq<K>>, c: map<K, K>, k: K, s: set<K>)
  {
    k in d ==> k in c && c[k] in s && Elems(AliasesOf(al, c[k])) <= s
  }

  ghost predicate Closed<K, V>(d: map<K, V>, al: map<K, seq<K>>, c: map<K, K>, s: set<K>)
  {
    forall k | k in s :: Expanded(d, al, c, k, s)
  }

  /** A link of the search: from a key of `data` to its chosen primary or one of that
      primary's aliases. */
  ghost predicate Linked<K, V>(d: map<K, V>, al: map<K, seq<K>>, c: map<K, K>, a: K, b: K)
  {
    a in d && a in c && (b == c[a] || b in AliasesOf(al, c[a]))
  }

  /** Every key after the first is reached by a link from an earlier one. */
  ghost predicate Chained<K, V>(d: map<K, V>, al: map<K, seq<K>>, c: map<K, K>, r: seq<K>)
  {
    forall i | 0 < i < |r| :: LinkedBefore(d, al, c, r, i)
  }

  /** The key at position i is reached by a link from an earlier one. */
  ghost predicate LinkedBefore<K, V>(d: map<K, V>, al: map<K, seq<K>>, c: map<K, K>, r: seq<K>, i: nat)
    requires i < |r|
  {
    exists j | 0 <= j < i :: Linked(d, al, c, r[j], r[i])
  }

  /** Every key the maps mention: the keys of `data`, the owners of alias lists and the
      aliases they list. */
  ghost function Universe<K, V>(d: map<K, V>, al: map<K, seq<K>>): set<K>
  {
    d.Keys + al.Keys + (set q, a | q in al && a in al[q] :: a)
  }

  /** The keys `RemoveWithCascade(key)` deletes, given the one primary the search chose for
      each key it resolved: the key, closed under links, each one reached from the key. */
  ghost predicate Cascade<K, V>(d: map<K, V>, al: map<K, seq<K>>, c: map<K, K>, key: K, r: seq<K>)
  {
    && Chosen(al, c)
    && |r| > 0 && r[0] == key && NoDuplicates(r)
    && Closed(d, al, c, Elems(r)) && Chained(d, al, c, r)
  }

  /** The cascade is the least set that holds the key and is closed under the links: it
      deletes nothing that the chosen primaries do not connect to the key. */
  lemma CascadeLeast<K, V>(d: map<K, V>, al: map<K, seq<K>>, c: map<K, K>, key: K, r: seq<K>, s: set<K>)
    requires Cascade(d, al, c, key, r)
    requires key in s && forall a, b | a in s && Linked(d, al, c, a, b) :: b in s
    ensures Elems(r) <= s
  {
    ChainInside(d, al, c, r, s, |r|);
  }

  lemma {:induction false} ChainInside<K, V>(d: map<K, V>, al: map<K, seq<K>>, c: map<K, K>,
                                             r: seq<K>, s: set<K>, n: nat)
    requires Chained(d, al, c, r) && 0 < |r| && r[0] in s && n <= |r|
    requires forall a, b | a in s && Linked(d, al, c, a, b) :: b in s
    ensures forall i | 0 <= i < n :: r[i] in s
  {
    if n > 1 {
      ChainInside(d, al, c, r, s, n - 1);
      assert LinkedBefore(d, al, c, r, n - 1);
      var j :| 0 <= j < n - 1 && Linked(d, al, c, r[j], r[n - 1]);
      assert r[j] in s;
    }
  }

  /** With one key listed by two owners, a cascade from that key reaches one owner only:
      the search resolves the key once. */
  lemma CascadeOneOwner(c: map<int, int>, r: seq<int>)
    requires Cascade(map[1 := 0, 2 := 0, 3 := 0], map[2 := [1], 3 := [1]], c, 1, r)
    ensures !(2 in r && 3 in r)
  {
    var d, al := map[1 := 0, 2 := 0, 3 := 0], map[2 := [1], 3 := [1]];
    assert 1 in Elems(r);
    var p := c[1];
    assert p in Primaries(al, 1);
    assert Listed(al, 1) by { assert 1 in al[2]; }
    assert p == 2 || p == 3;
    assert c[p] in Primaries(al, p);
    assert c[p] == p;
    var s := {1, p};
    forall a, b | a in s && Linked(d, al, c, a, b)
      ensures b in s
    {
      assert AliasesOf(al, c[a]) == [1];
    }
    CascadeLeast(d, al, c, 1, r, s);
    assert 2 in r ==> 2 in Elems(r);
    assert 3 in r ==> 3 in Elems(r);
  }

  lemma ExpandedGrows<K, V>(d: map<K, V>, al: map<K, seq<K>>, c: map<K, K>, k: K, s: set<K>,
                            c': map<K, K>, s': set<K>)
    requires Expanded(d, al, c, k, s) && Extends(c, c') && s <= s'
    ensures Expanded(d, al, c', k, s')
  {
  }

  lemma ExpandedAllGrow<K, V>(d: map<K, V>, al: map<K, seq<K>>, t: set<K>, c: map<K, K>, s: set<K>,
                              c': map<K, K>, s': set<K>)
    requires forall k | k in t :: Expanded(d, al, c, k, s)
    requires Extends(c, c') && s <= s'
    ensures forall k | k in t :: Expanded(d, al, c', k, s')
  {
    forall k | k in t
      ensures Expanded(d, al, c', k, s')
    {
      ExpandedGrows(d, al, c, k, s, c', s');
    }
  }

  /** The keys two successive searches visit, from v through v1 to v2, are expanded within
      v2 for the later choice. */
  lemma ExpandedMerge<K, V>(d: map<K, V>, al: map<K, seq<K>>, v: set<K>, c1: map<K, K>, v1: set<K>,
                            c2: map<K, K>, v2: set<K>)
    requires v <= v1 <= v2 && Extends(c1, c2)
    requires forall x | x in v1 - v :: Expanded(d, al, c1, x, v1)
    requires forall x | x in v2 - v1 :: Expanded(d, al, c2, x, v2)
    ensures forall x | x in v2 - v :: Expanded(d, al, c2, x, v2)
  {
    ExpandedAllGrow(d, al, v1 - v, c1, v1, c2, v2);
  }

  lemma ExpandedCollect<K, V>(d: map<K, V>, al: map<K, seq<K>>, c: map<K, K>, v: set<K>, key: K,
                               v1: set<K>, v2: set<K>, v3: set<K>)
    requires v1 == v + {key} && v1 <= v2 <= v3 && Expanded(d, al, c, key, v3)
    requires forall x | x in v2 - v1 :: Expanded(d, al, c, x, v3)
    requires forall x | x in v3 - v2 :: Expanded(d, al, c, x, v3)
    ensures forall x | x in v3 - v :: Expanded(d, al, c, x, v3)
  {
  }

  /** Appending a key reached by a link keeps the result chained. */
  lemma ChainedGrows<K, V>(d: map<K, V>, al: map<K, seq<K>>, c: map<K, K>, r: seq<K>, j: nat, x: K)
    requires Chained(d, al, c, r) && j < |r| && Linked(d, al, c, r[j], x)
    ensures Chained(d, al, c, r + [x])
  {
    var r' := r + [x];
    forall i | 0 < i < |r'|
      ensures LinkedBefore(d, al, c, r', i)
    {
      if i < |r| {
        assert LinkedBefore(d, al, c, r, i);
        var j' :| 0 <= j' < i && Linked(d, al, c, r[j'], r[i]);
        assert r'[j'] == r[j'] && r'[i] == r[i];
        assert Linked(d, al, c, r'[j'], r'[i]);
      } else {
        assert r'[j] == r[j] && r'[i] == x;
        assert Linked(d, al, c, r'[j], r'[i]);
      }
    }
  }

  /** A chained result stays chained when the choice is extended. */
  lemma ChainedExtends<K, V>(d: map<K, V>, al: map<K, seq<K>>, c: map<K, K>, c': map<K, K>, r: seq<K>)
    requires Chained(d, al, c, r) && Extends(c, c')
    ensures Chained(d, al, c', r)
  {
    forall i | 0 < i < |r|
      ensures LinkedBefore(d, al, c', r, i)
    {
      assert LinkedBefore(d, al, c, r, i);
      var j :| 0 <= j < i && Linked(d, al, c, r[j], r[i]);
      assert Linked(d, al, c', r[j], r[i]);
    }
  }

  lemma NoDuplicatesAppend<K>(r: seq<K>, x: K)
    requires NoDuplicates(r) && x !in r
    ensures NoDuplicates(r + [x]) && Elems(r + [x]) == Elems(r) + {x}
  {
  }

  /** The state of the search: each visited key once in the result, each reached by a link
      from an earlier one, and a primary chosen only for visited keys. */
  ghost predicate Search<K, V>(d: map<K, V>, al: map<K, seq<K>>, c: map<K, K>, visited: set<K>, result: seq<K>)
  {
    && Chosen(al, c) && c.Keys <= visited
    && visited == Elems(result) && NoDuplicates(result) && Chained(d, al, c, result)
  }

  /** Visiting a key reached by a link appends it to the result. */
  lemma SearchVisit<K, V>(d: map<K, V>, al: map<K, seq<K>>, c: map<K, K>, visited: set<K>, result: seq<K>, key: K)
    requires Search(d, al, c, visited, result) && key !in visited
    requires result == [] || exists j | 0 <= j < |result| :: Linked(d, al, c, result[j], key)
    ensures Search(d, al, c, visited + {key}, result + [key])
  {
    if result != [] {
      var j :| 0 <= j < |result| && Linked(d, al, c, result[j], key);
      ChainedGrows(d, al, c, result, j, key);
    }
    NoDuplicatesAppend(result, key);
  }

  /** Resolving a visited key to one of its primaries extends the choice. */
  lemma SearchResolve<K, V>(d: map<K, V>, al: map<K, seq<K>>, c: map<K, K>, visited: set<K>, result: seq<K>,
                            key: K, p: K)
    requires Search(d, al, c, visited, result) && key in visited && key !in c
    requires p in Primaries(al, key)
    ensures Search(d, al, c[key := p], visited, result) && Extends(c, c[key := p])
  {
    ChainedExtends(d, al, c, c[key := p], result);
  }

  /** A result that extends r0 keeps r0's first n keys and its key at `here`. */
  lemma PrefixKeep<K>(r0: seq<K>, r: seq<K>, n: nat, here: nat)
    requires n <= |r0| <= |r| && r[..|r0|] == r0 && here < |r0|
    ensures r[..n] == r0[..n] && r[here] == r0[here]
  {
    assert r[..n] == r[..|r0|][..n];
    assert r[here] == r[..|r0|][here];
  }

  lemma ElemsSnoc<K>(s: seq<K>, i: nat)
    requires i < |s|
    ensures Elems(s[..i + 1]) == Elems(s[..i]) + {s[i]}
  {
    assert s[..i + 1] == s[..i] + [s[i]];
  }

  lemma AliasInUniverse<K, V>(d: map<K, V>, al: map<K, seq<K>>, p: K, a: K)
    requires p in al && a in al[p]
    ensures a in Universe(d, al)
  {
  }

  lemma UnvisitedShrinks<K>(u: set<K>, v: set<K>, v': set<K>, x: K)
    requires v <= v' && x in u && x !in v && x in v'
    ensures |u - v'| < |u - v|
  {
    assert u - v' <= (u - v) - {x};
    SubsetCard(u - v', (u - v) - {x});
  }

  /** The `delete` loop over an alias list: every listed key leaves the map. */
  method DeleteKeys<K, V>(m: map<K, V>, list: seq<K>) returns (m': map<K, V>)
    ensures m' == m - Elems(list)
    ensures m'.Keys <= m.Keys
  {
    m' := m;
    for i := 0 to |list|
      invariant m' == m - Elems(list[..i])
    {
      ElemsSnoc(list, i);
      m' := m' - {list[i]};
    }
    assert list[..|list|] == list;
  }

  /** The `uniqueAliases` set of `Put`: the keys after the first, without the first. */
  method DistinctAliases<K>(keys: seq<K>) returns (unique: set<K>)
    requires |keys| > 0
    ensures unique == NewAliases(keys)
    ensures forall k | k in keys :: k == keys[0] || k in unique
  {
    unique := {};
    for i := 1 to |keys|
      invariant unique == set a | a in keys[1..i] && a != keys[0]
    {
      assert keys[1..i + 1] == keys[1..i] + [keys[i]];
      if keys[i] != keys[0] {
        unique := unique + {keys[i]};
      }
    }
    assert keys[1..|keys|] == keys[1..];
    forall k | k in keys
      ensures k == keys[0] || k in unique
    {
      var i :| 0 <= i < |keys| && keys[i] == k;
      if i > 0 {
        assert keys[1..][i - 1] == k;
      }
    }
  }

  /** The loop of `Put` that turns the alias set into a list, in map order, mapping each
      alias to the value: the list holds each alias once, and the map gains exactly them. */
  method StoreAliases<K, V>(m: map<K, V>, unique: set<K>, value: V) returns (list: seq<K>, m': map<K, V>)
    ensures NoDuplicates(list) && Elems(list) == unique
    ensures list == [] <==> unique == {}
    ensures m'.Keys == m.Keys + unique
    ensures forall k | k in m' :: m'[k] == if k in unique then value else m[k]
  {
    list, m' := [], m;
    var rest := unique;
    while rest != {}
      invariant rest <= unique
      invariant Elems(list) == unique - rest && NoDuplicates(list)
      invariant m'.Keys == m.Keys + Elems(list)
      invariant forall k | k in m' :: m'[k] == if k in list then value else m[k]
      decreases rest
    {
      var a :| a in rest;
      assert a !in Elems(list);
      NoDuplicatesAppend(list, a);
      list := list + [a];
      m' := m'[a := value];
      rest := rest - {a};
    }
    if list != [] {
      assert list[0] in Elems(list);
    }
  }

  class MultiKeyHashMap<K(==), V> {
    var data: map<K, V>
    var aliases: map<K, seq<K>>

    /** `NewMultiKeyHashMap`: both maps empty. */
    constructor ()
      ensures data == map[] && aliases == map[] && WellFormed(aliases)
    {
      data := map[];
      aliases := map[];
    }

    /** `Put`: the first key is the primary; see `PutResult`. */
    method Put(keys: seq<K>, value: V)
      modifies this
      ensures PutResult(old(data), old(aliases), keys, value, data, aliases)
      ensures |keys| > 0 ==> Get(keys[0]) == Some(value)
    {
      if |keys| == 0 {
        return;
      }
      var p := keys[0];
      // The primary's old aliases leave `data`.
      if p in aliases {
        data := DeleteKeys(data, aliases[p]);
      }
      ghost var base := data;
      assert base == old(data) - Elems(AliasesOf(old(aliases), p));
      data := data[p := value];
      var uniqueAliases := DistinctAliases(keys);
      var list;
      list, data := StoreAliases(data, uniqueAliases, value);
      if |list| > 0 {
        aliases := aliases[p := list];
        assert aliases - {p} == old(aliases) - {p};
      }
    }

    /** `Get`: the value under a primary key or an alias. */
    function Get(key: K): (r: Option<V>)
      reads this
      ensures r.Some? <==> key in data
      ensures r.Some? ==> r.value == data[key]
    {
      if key in data then Some(data[key]) else None
    }

    /** `GetPrimaryKey`: nothing for an absent key; otherwise one of `Primaries`. */
    method GetPrimaryKey(key: K) returns (r: Option<K>)
      ensures r.Some? <==> key in data
      ensures r.Some? ==> r.value in Primaries(aliases, key)
    {
      if key !in data {
        return None;
      }
      if key in aliases {
        return Some(key);
      }
      var rest := aliases.Keys;
      while rest != {}
        invariant rest <= aliases.Keys
        invariant forall q | q in aliases && q !in rest :: key !in aliases[q]
        decreases rest
      {
        var q :| q in rest;
        var list := aliases[q];
        for i := 0 to |list|
          invariant key !in list[..i]
        {
          if list[i] == key {
            return Some(q);
          }
        }
        assert list[..|list|] == list;
        rest := rest - {q};
      }
      return Some(key);
    }

    /** `GetAllKeys`: nothing for an absent key; otherwise its primary followed by the
        primary's alias list. */
    method GetAllKeys(key: K) returns (keys: seq<K>)
      ensures key !in data ==> keys == []
      ensures key in data ==> exists p | p in Primaries(aliases, key) :: keys == GroupOf(aliases, p)
    {
      if key !in data {
        return [];
      }
      // The `!exists` branch of the source cannot be taken: the key is present.
      var primary := GetPrimaryKey(key);
      var p := primary.value;
      keys := [p];
      if p in aliases {
        keys := keys + aliases[p];
      }
    }

    /** `AddAlias`: see `AliasAdded`; an absent existing key changes nothing. */
    method AddAlias(existingKey: K, newAlias: K) returns (added: bool)
      modifies this
      ensures existingKey !in old(data) ==> !added && data == old(data) && aliases == old(aliases)
      ensures existingKey in old(data) ==>
                exists p | p in Primaries(old(aliases), existingKey) ::
                  AliasAdded(old(data), old(aliases), p, newAlias, added, data, aliases)
    {
      var primary := GetPrimaryKey(existingKey);
      if primary.None? {
        return false;
      }
      var p := primary.value;
      if newAlias == p {
        return false;
      }
      if p in data {
        data := data[newAlias := data[p]];
        var list := AliasesOf(aliases, p);
        for i := 0 to |list|
          invariant newAlias !in list[..i]
        {
          if list[i] == newAlias {
            return true;
          }
        }
        assert list[..|list|] == list;
        aliases := aliases[p := list + [newAlias]];
        return true;
      }
      return false;
    }

    /** `Size`: the number of distinct primaries, one chosen for each key. */
    method Size() returns (n: nat)
      ensures exists choice :: PrimaryChoice(data, aliases, choice) && n == |choice.Values|
      ensures n <= |data| && (n == 0 <==> data == map[])
    {
      var primaryKeys: set<K> := {};
      ghost var choice: map<K, K> := map[];
      var rest := data.Keys;
      while rest != {}
        invariant rest <= data.Keys
        invariant choice.Keys == data.Keys - rest
        invariant forall k | k in choice :: choice[k] in Primaries(aliases, k)
        invariant primaryKeys == choice.Values
        decreases rest
      {
        var key :| key in rest;
        var primary := GetPrimaryKey(key);
        primaryKeys := primaryKeys + {primary.value};
        ValuesUpdate(choice, key, primary.value);
        choice := choice[key := primary.value];
        rest := rest - {key};
      }
      assert PrimaryChoice(data, aliases, choice);
      ValuesCard(choice);
      n := |primaryKeys|;
    }

    /** `Clear`: both maps empty. */
    method Clear()
      modifies this
      ensures data == map[] && aliases == map[] && WellFormed(aliases)
    {
      data := map[];
      aliases := map[];
    }

    /** `Remove`: see `Removed`; an absent key changes nothing. */
    method Remove(key: K)
      modifies this
      ensures key !in old(data) ==> data == old(data) && aliases == old(aliases)
      ensures key in old(data) ==>
                exists p | p in Primaries(old(aliases), key) ::
                  Removed(old(data), old(aliases), key, p, data, aliases)
    {
      if key !in data {
        return;
      }
      // As in `GetAllKeys`, the key is present, so it has a primary.
      var primary := GetPrimaryKey(key);
      var p := primary.value;
      if key == p {
        if p in aliases {
          data := DeleteKeys(data, aliases[p]);
          aliases := aliases - {p};
        }
        data := data - {p};
        assert data == old(data) - {key} - Elems(AliasesOf(old(aliases), p));
        assert Removed(old(data), old(aliases), key, p, data, aliases);
      } else {
        data := data - {key};
        if p in aliases {
          var list := aliases[p];
          var newAliases: seq<K> := [];
          for i := 0 to |list|
            invariant aliases == old(aliases) && data == old(data) - {key}
            invariant newAliases == Without(list[..i], key)
          {
            assert list[..i + 1][..i] == list[..i];
            if list[i] != key {
              newAliases := newAliases + [list[i]];
            }
          }
          assert list[..|list|] == list;
          if |newAliases| > 0 {
            aliases := aliases[p := newAliases];
          } else {
            aliases := aliases - {p};
          }
        }
      }
    }

    /** `RemoveWithCascade`: every key of the cascade of `key` leaves both maps. */
    method RemoveWithCascade(key: K)
      modifies this
      ensures key !in old(data) ==> data == old(data) && aliases == old(aliases)
      ensures key in old(data) ==>
                exists c, r :: Cascade(old(data), old(aliases), c, key, r) &&
                  data == old(data) - Elems(r) && aliases == old(aliases) - Elems(r)
    {
      if key !in data {
        return;
      }
      var allKeys := GetAllConnectedKeys(key);
      ghost var c :| Cascade(data, aliases, c, key, allKeys);
      for i := 0 to |allKeys|
        invariant data == old(data) - Elems(allKeys[..i])
        invariant aliases == old(aliases) - Elems(allKeys[..i])
      {
        assert Elems(allKeys[..i + 1]) == Elems(allKeys[..i]) + {allKeys[i]};
        data := data - {allKeys[i]};
        aliases := aliases - {allKeys[i]};
      }
      assert allKeys[..|allKeys|] == allKeys;
      assert Cascade(old(data), old(aliases), c, key, allKeys);
    }

    /** `getAllConnectedKeys`: the keys of a depth-first search from `key`, each once, for
        the primaries the search chose. */
    method GetAllConnectedKeys(key: K) returns (r: seq<K>)
      ensures exists c :: Cascade(data, aliases, c, key, r)
    {
      var visited;
      ghost var c;
      visited, r, c := TraverseConnectedKeys(key, {}, [], map[], Universe(data, aliases) + {key});
      assert Cascade(data, aliases, c, key, r);
    }

    /** `traverseConnectedKeys`: unless already visited, visit the key, then its primary,
        then that primary's aliases. The Go `visited` map and `*[]K` result are threaded
        through as arguments and results, and so is the ghost choice `c` of the primary
        `GetPrimaryKey` answered for each visited key; a key is resolved once, when it is
        visited. The search ends because each call that goes on visits a key of `universe`
        not visited before. */
    method TraverseConnectedKeys(key: K, visited: set<K>, result: seq<K>, ghost c: map<K, K>,
                                 ghost universe: set<K>)
      returns (visited': set<K>, result': seq<K>, ghost c': map<K, K>)
      requires Universe(data, aliases) <= universe && key in universe
      requires Search(data, aliases, c, visited, result)
      requires result == [] || key in visited ||
               exists j | 0 <= j < |result| :: Linked(data, aliases, c, result[j], key)
      ensures Search(data, aliases, c', visited', result') && Extends(c, c')
      ensures |result| <= |result'| && result'[..|result|] == result
      ensures result == [] ==> |result'| > 0 && result'[0] == key
      ensures key in visited' && visited <= visited'
      ensures forall k | k in visited' - visited :: Expanded(data, aliases, c', k, visited')
      decreases |universe - visited|, 0
    {
      if key in visited {
        return visited, result, c;
      }
      visited' := visited + {key};
      result' := result + [key];
      SearchVisit(data, aliases, c, visited, result, key);
      var primary := GetPrimaryKey(key);
      if primary.None? {
        c' := c;
        return;
      }
      var p := primary.value;
      ghost var v1, c1 := visited', c[key := p];
      SearchResolve(data, aliases, c, visited', result', key, p);
      assert p in universe by {
        if p != key {
          assert p in aliases;
        }
      }
      UnvisitedShrinks(universe, visited, visited', key);
      ghost var r1 := result';
      visited', result', c' := VisitPrimary(p, |result|, visited', result', c1, universe);
      PrefixKeep(r1, result', |result|, |result|);
      assert c'[key] == p;
      ExpandedCollect(data, aliases, c', visited, key, v1, visited', visited');
    }

    /** The part of `traverseConnectedKeys` after the key at `here` is visited and resolved
        to p: search from p unless visited, then from each alias of p. */
    method VisitPrimary(p: K, ghost here: nat, visited: set<K>, result: seq<K>, ghost c: map<K, K>,
                        ghost universe: set<K>)
      returns (visited': set<K>, result': seq<K>, ghost c': map<K, K>)
      requires Universe(data, aliases) <= universe && p in universe
      requires Search(data, aliases, c, visited, result)
      requires here < |result| && result[here] in data && result[here] in c && c[result[here]] == p
      ensures Search(data, aliases, c', visited', result') && Extends(c, c')
      ensures |result| <= |result'| && result'[..|result|] == result
      ensures visited <= visited' && p in visited' && Elems(AliasesOf(aliases, p)) <= visited'
      ensures forall x | x in visited' - visited :: Expanded(data, aliases, c', x, visited')
      decreases |universe - visited|, 3
    {
      assert Linked(data, aliases, c, result[here], p);
      visited', result', c' := VisitKey(p, here, visited, result, c, universe);
      PrefixKeep(result, result', |result|, here);
      if p in aliases {
        ghost var v2, r2, c2 := visited', result', c';
        SubsetCard(universe - v2, universe - visited);
        visited', result', c' := VisitAliases(aliases[p], p, here, visited', result', c', universe);
        PrefixKeep(r2, result', |result|, here);
        ExpandedMerge(data, aliases, visited, c2, v2, c', visited');
      }
    }

    /** The `if !visited[k]` guard in front of each recursive call of
        `traverseConnectedKeys`, for a key reached by a link from the entry at `anchor`. */
    method VisitKey(k: K, ghost anchor: nat, visited: set<K>, result: seq<K>, ghost c: map<K, K>,
                    ghost universe: set<K>)
      returns (visited': set<K>, result': seq<K>, ghost c': map<K, K>)
      requires Universe(data, aliases) <= universe && k in universe
      requires Search(data, aliases, c, visited, result)
      requires anchor < |result| && Linked(data, aliases, c, result[anchor], k)
      ensures Search(data, aliases, c', visited', result') && Extends(c, c')
      ensures |result| <= |result'| && result'[..|result|] == result
      ensures k in visited' && visited <= visited'
      ensures forall x | x in visited' - visited :: Expanded(data, aliases, c', x, visited')
      decreases |universe - visited|, 1
    {
      if k in visited {
        return visited, result, c;
      }
      visited', result', c' := TraverseConnectedKeys(k, visited, result, c, universe);
    }

    /** The loop of `traverseConnectedKeys` over the alias list of p, the primary chosen for
        the key at `here`: each alias not yet visited starts a search of its own. */
    method VisitAliases(list: seq<K>, ghost p: K, ghost here: nat, visited: set<K>, result: seq<K>,
                        ghost c: map<K, K>, ghost universe: set<K>)
      returns (visited': set<K>, result': seq<K>, ghost c': map<K, K>)
      requires Universe(data, aliases) <= universe
      requires Search(data, aliases, c, visited, result)
      requires here < |result| && result[here] in data && result[here] in c && c[result[here]] == p
      requires p in aliases && list == aliases[p]
      ensures Search(data, aliases, c', visited', result') && Extends(c, c')
      ensures |result| <= |result'| && result'[..|result|] == result
      ensures visited <= visited' && Elems(list) <= visited'
      ensures forall x | x in visited' - visited :: Expanded(data, aliases, c', x, visited')
      decreases |universe - visited|, 2
    {
      visited', result', c' := visited, result, c;
      for i := 0 to |list|
        invariant Search(data, aliases, c', visited', result') && Extends(c, c')
        invariant |result| <= |result'| && result'[..|result|] == result
        invariant visited <= visited' && Elems(list[..i]) <= visited'
        invariant forall x | x in visited' - visited :: Expanded(data, aliases, c', x, visited')
      {
        var alias := list[i];
        AliasInUniverse(data, aliases, p, alias);
        PrefixKeep(result, result', |result|, here);
        assert Linked(data, aliases, c', result'[here], alias);
        SubsetCard(universe - visited', universe - visited);
        ghost var before, cb := visited', c';
        ghost var r0 := result';
        visited', result', c' := VisitKey(alias, here, visited', result', c', universe);
        PrefixKeep(r0, result', |result|, here);
        ExpandedMerge(data, aliases, visited, cb, before, c', visited');
        ElemsSnoc(list, i);
      }
      assert list[..|list|] == list;
    }
  }
}
