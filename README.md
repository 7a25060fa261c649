# fastmap in Dafny

A model of the core of `fastmap`, a Go library of hash maps, with proofs about it. It
covers:

- the Robin Hood hash map (`robinhood/robinhood.go`): open addressing with linear probing
  over a power-of-two array of slots. An insertion takes the slot of any entry that sits
  closer to its home bucket than the entry being inserted, and carries that entry on. A
  lookup stops at the first empty slot or at the first entry closer to home than the
  probe has come. A deletion shifts the following run back by one slot. The table doubles
  before an insertion would pass a load factor of 3/4.
- the baseline `HashMap` (`hashmap/core.go`, `operations.go`, `functional.go`,
  `conversion.go`): a struct holding one Go map, with bulk operations, `Filter`, `Map` and
  the conversions to and from a plain map.
- `AppendableHashMap` (`hashmap/appendable.go`): a `HashMap` of slices that appends to
  the slice under a key.
- `MultiKeyHashMap` (`hashmap/mutiple_key.go`): one value reachable through a primary key
  and its aliases. `data` maps every key to the value. `aliases` maps a primary key to its
  alias list. `RemoveWithCascade` deletes every key reachable from a key by a
  depth-first search over primaries and alias lists, which resolves each key it visits
  to one primary.
- `AppendableMultiKeyHashMap` (`hashmap/multiple_appendable.go`): a `MultiKeyHashMap` of
  slices that appends to, or replaces, the slice a whole group of keys shares.

Files and modules:

| file | module | contents |
|---|---|---|
| `options.dfy` | `Options` | `Option`, the Go `(value, ok)` result |
| `sets.dfy` | `Sets` | a subset is no larger than its superset |
| `robinhood_slots.dfy` | `RobinHoodSlots` | the slot array as a sequence: what a well-formed table is, and the lemmas the loops use |
| `robinhood.dfy` | `RobinHood` | the class `RobinHoodMap` over an `array` of slots, and its loops as methods on the array |
| `lists.dfy` | `Lists` | duplicate-free slices, and a slice with one element filtered out |
| `hashmap.dfy` | `HashMaps` | the class `HashMap` over a `map` field |
| `appendable.dfy` | `Appendable` | the class `AppendableHashMap` |
| `multikey.dfy` | `MultiKey` | the class `MultiKeyHashMap`, and what each operation does to the two maps, as predicates |
| `multikey_appendable.dfy` | `MultiKeyAppendable` | the class `AppendableMultiKeyHashMap` |

The Robin Hood map keeps ghost fields `Contents` (the key/value pairs held) and `Pos`
(the slot of each key). Its invariant `Valid` says that every slot records its entry's
distance from home (`Placed`). It says that the Robin Hood order holds between neighbours
(`Ordered`). It says that every key is stored once at its recorded slot (`Indexed`), and
that at least one slot is empty. `Put`, `Get`, `Remove` and the resize are proved against
`Contents`.

A Go map is iterated in an unspecified order. Each loop over a map here picks any key not
yet visited. Where the order shows in a result, the contracts allow every order. Examples
are the order of `Keys`, the order of a new alias list, and the primary
`GetPrimaryKey` reports for a key held by two alias lists. `Primaries(aliases, key)` is
the set of answers `GetPrimaryKey` may give. `PrimaryUnique` shows that it has one
element when no key is held by two lists.

## Model

| member | source | states |
|---|---|---|
| `RobinHood.RobinHoodMap.constructor` | robinhood/robinhood.go:23-31 | a new map has eight empty slots, mask 7, size 0 and holds nothing |
| `RobinHood.RobinHoodMap.Size` | robinhood/robinhood.go:145-147 | the size is the number of keys held |
| `RobinHood.RobinHoodMap.Put` | robinhood/robinhood.go:39-76 | afterwards the key maps to the value and nothing else changes; the size grows by one exactly when the key was new; when one more entry would pass 3/4 of the array, the array is a fresh one of twice the length, and otherwise it is the same array; the invariant is kept |
| `RobinHood.RobinHoodMap.Resize` | robinhood/robinhood.go:131-143 | a fresh array of twice the length holds the same entries, the size is unchanged, and the invariant is kept |
| `RobinHood.RobinHoodMap.Get` | robinhood/robinhood.go:78-95 | the value stored under the key when it is held, and nothing otherwise, although the probe stops early |
| `RobinHood.RobinHoodMap.Remove` | robinhood/robinhood.go:97-129 | the key is gone and nothing else changes; the result is whether it was held; the size drops by one exactly then; the invariant is kept |
| `RobinHood.RobinHoodMap.Clear` | robinhood/robinhood.go:149-153 | back to eight empty slots holding nothing |
| `RobinHood.InsertEntry` | robinhood/robinhood.go:44-75 | the probing loop of `Put` leaves a well-formed table holding the old entries with the key set to the value, and reports whether the key was new |
| `RobinHood.CarryStep` | robinhood/robinhood.go:65-74 | one step past an occupied slot: when the carried entry is farther from home than the resident they trade places; the loop state, including the table's well-formedness, is kept |
| `RobinHood.RemoveEntry` | robinhood/robinhood.go:98-128 | the search and backward shift of `Remove` leave a well-formed table without the key, and report whether it was held |
| `RobinHood.ShiftBack` | robinhood/robinhood.go:111-124 | pulling each following displaced entry back one slot, until an empty slot or an entry at home, closes the hole and restores a well-formed table |
| `RobinHood.Rehash` | robinhood/robinhood.go:132-142 | re-inserting every occupied old slot, in slot order, into a fresh array of twice the length gives a well-formed table with the same entries (the load test of the nested `Put` cannot fire, as the new array stays at most 3/8 full) |
| `RobinHood.PrefixAll` | robinhood/robinhood.go:138-142 | once every old slot has been visited, the re-inserted entries are all the entries |
| `RobinHoodSlots.DistanceBelowOccupied` | robinhood/robinhood.go:19 | a recorded distance is below the number of entries, so it fits the `uint8` field while fewer than 256 entries are held |
| `RobinHoodSlots.NotPassed` | robinhood/robinhood.go:87-94 | a probe that has not gone past a stored key's distance is on an occupied slot displaced at least as far |
| `RobinHoodSlots.ProbeMiss` | robinhood/robinhood.go:85-88 | stopping at an empty slot or at an entry closer to home than the probe is sound: the key is not held |
| `RobinHoodSlots.ProbeHit` | robinhood/robinhood.go:89-91 | meeting the key gives the value held under it |
| `RobinHoodSlots.InsertSwap` | robinhood/robinhood.go:65-71 | taking a resident's slot stores the carried entry and keeps the table well formed, with the resident carried on one step farther |
| `RobinHoodSlots.InsertPlace` | robinhood/robinhood.go:51-58 | writing the carried entry into an empty slot completes the insertion |
| `RobinHoodSlots.InsertUpdate` | robinhood/robinhood.go:60-63 | meeting the key before any swap overwrites its value in place |
| `RobinHoodSlots.ShiftStep` | robinhood/robinhood.go:119-123 | moving the next entry back into the hole keeps every other entry in place and its own distance right |
| `RobinHoodSlots.ShiftEnd` | robinhood/robinhood.go:114-118 | an empty slot or an entry at home ends the shift; emptying the hole gives a well-formed table |
| `HashMaps.HashMap.constructor` | hashmap/core.go:17-21 | a new map is empty and has size 0 |
| `HashMaps.HashMap.Put` | hashmap/core.go:27-29 | the key maps to the value afterwards, every other key is unchanged, and the size grows exactly when the key was new |
| `HashMaps.HashMap.Get` | hashmap/core.go:37-40 | found exactly when the key is present, with its value |
| `HashMaps.HashMap.Remove` | hashmap/core.go:46-48 | the key is absent afterwards, every other key is unchanged; removing an absent key changes nothing |
| `HashMaps.HashMap.Size` | hashmap/core.go:55-57 | the number of distinct keys; zero exactly for the empty map |
| `HashMaps.HashMap.Clear` | hashmap/operations.go:10-12 | the map is empty afterwards |
| `HashMaps.HashMap.Contains` | hashmap/operations.go:20-23 | true exactly when `Get` finds the key |
| `HashMaps.HashMap.IsEmpty` | hashmap/operations.go:31-33 | true exactly when the size is zero |
| `HashMaps.HashMap.Keys` | hashmap/operations.go:42-48 | as many keys as the size, each present key exactly once, nothing else |
| `HashMaps.HashMap.Values` | hashmap/operations.go:57-63 | one value per key: the multiset of the values stored |
| `HashMaps.BagContents` | hashmap/operations.go:57-63 | that multiset has one element per key and holds exactly the stored values |
| `HashMaps.HashMap.UpdateValue` | hashmap/operations.go:90-96 | overwrites and reports true exactly when the key was present; otherwise nothing changes |
| `HashMaps.HashMap.PutAll` | hashmap/operations.go:104-108 | every entry of the other map is put, overriding the receiver's, other keys unchanged; the other map is unchanged |
| `HashMaps.HashMap.Filter` | hashmap/functional.go:9-17 | a new map holding exactly the entries the predicate accepts, with their values |
| `HashMaps.Filtered` | hashmap/functional.go:9-17 | a key is kept exactly when the predicate accepts its entry; kept keys keep their values |
| `HashMaps.FilterAllOrNothing` | hashmap/functional.go:9-17 | a predicate that accepts everything keeps the whole map; an empty map filters to empty; a filter never grows the map |
| `HashMaps.HashMap.Map` | hashmap/functional.go:26-32 | a new map with the same keys, each value transformed from its key and old value |
| `HashMaps.Transformed` | hashmap/functional.go:26-32 | same keys, and the value under k is the transform of k and its old value |
| `HashMaps.FilterThenMapSize` | hashmap/functional.go:26-32 | mapping after filtering keeps as many entries as the filter kept |
| `HashMaps.HashMap.ToMap` | hashmap/conversion.go:10-16 | a plain map with exactly the same entries |
| `HashMaps.FromMap` | hashmap/conversion.go:23-29 | a new `HashMap` with exactly the entries of the plain map, and size its length |
| `HashMaps.FromMapThenToMap` | hashmap/conversion.go:10-29 | converting a plain map to a `HashMap` and back gives the map again |
| `HashMaps.ToMapThenFromMap` | hashmap/conversion.go:10-29 | converting a `HashMap` to a plain map and back gives the same entries |
| `Appendable.AppendableHashMap.constructor` | hashmap/appendable.go:24-28 | a new map is empty |
| `Appendable.AppendableHashMap.AppendValues` | hashmap/appendable.go:42-48 | the key holds its old slice followed by the values, or the values alone when it was absent; no other key changes; the slice grows by the number of values |
| `Appendable.Appended` | hashmap/appendable.go:42-48 | the old slice is a prefix and the values the rest; with no old slice, the values alone |
| `Appendable.AppendedTwice` | hashmap/appendable.go:42-48 | appending in two calls equals appending both lists at once |
| `MultiKey.MultiKeyHashMap.constructor` | hashmap/mutiple_key.go:14-19 | both maps start empty |
| `MultiKey.MultiKeyHashMap.Put` | hashmap/mutiple_key.go:25-58 | with no keys nothing changes; otherwise every given key maps to the value, the primary's old aliases that are not given again are deleted, other keys keep their values, and the primary's alias list becomes the other distinct keys (left as it was when there are none) |
| `MultiKey.PutDeterminate` | hashmap/mutiple_key.go:25-58 | `Put` is determined up to the order of the new alias list |
| `MultiKey.PutWellFormed` | hashmap/mutiple_key.go:25-58 | after `Put` every alias list is non-empty, duplicate-free and does not hold its owner |
| `MultiKey.PutGroup` | hashmap/mutiple_key.go:25-58 | putting under a primary's whole group gives every key of the group the value and keeps the primary's aliases |
| `MultiKey.DeleteKeys` | hashmap/mutiple_key.go:31-35 | every key of an alias list leaves the map, and nothing else |
| `MultiKey.DistinctAliases` | hashmap/mutiple_key.go:41-46 | the set of keys after the first that differ from the first |
| `MultiKey.StoreAliases` | hashmap/mutiple_key.go:49-53 | a duplicate-free list of exactly those aliases, each mapped to the value |
| `MultiKey.MultiKeyHashMap.Get` | hashmap/mutiple_key.go:66-69 | found exactly when the key, primary or alias, is present, with its value |
| `MultiKey.MultiKeyHashMap.GetPrimaryKey` | hashmap/mutiple_key.go:77-100 | nothing for an absent key; otherwise the key itself when it owns a list, else the owner of a list holding it, else the key itself |
| `MultiKey.PrimariesNonEmpty` | hashmap/mutiple_key.go:77-100 | a present key always has a primary |
| `MultiKey.PrimaryOfPrimary` | hashmap/mutiple_key.go:77-100 | the primary of a primary is itself |
| `MultiKey.PrimaryUnique` | hashmap/mutiple_key.go:77-100 | when no key is held by two lists the primary is unique |
| `MultiKey.MultiKeyHashMap.GetAllKeys` | hashmap/mutiple_key.go:107-129 | nothing for an absent key; otherwise its primary followed by that primary's alias list |
| `MultiKey.MultiKeyHashMap.AddAlias` | hashmap/mutiple_key.go:135-160 | false and no change when the key is absent, the alias is the primary or the primary holds no value; otherwise the alias reads the primary's value and is appended to the primary's list unless already there |
| `MultiKey.AliasAddedWellFormed` | hashmap/mutiple_key.go:135-160 | after `AddAlias` the lists stay well formed and the alias is listed under its primary |
| `MultiKey.MultiKeyHashMap.Size` | hashmap/mutiple_key.go:167-177 | the number of distinct primaries of the present keys; at most the number of keys, and zero exactly when there are none |
| `MultiKey.ValuesCard` | hashmap/mutiple_key.go:167-177 | a choice of primaries has no more distinct values than keys, and none only when empty |
| `MultiKey.MultiKeyHashMap.Clear` | hashmap/mutiple_key.go:183-186 | both maps empty |
| `MultiKey.MultiKeyHashMap.Remove` | hashmap/mutiple_key.go:195-235 | an absent key changes nothing; a primary goes with all its aliases and its list; an alias goes alone and leaves its owner's list, which is dropped once empty |
| `MultiKey.RemovedWellFormed` | hashmap/mutiple_key.go:195-235 | after `Remove` the key is gone and the lists stay well formed |
| `Lists.WithoutMembers` | hashmap/mutiple_key.go:221-226 | the filtered alias list holds exactly the other aliases |
| `Lists.WithoutNoDuplicates` | hashmap/mutiple_key.go:221-226 | filtering keeps a duplicate-free list duplicate-free |
| `MultiKey.MultiKeyHashMap.RemoveWithCascade` | hashmap/mutiple_key.go:241-255 | an absent key changes nothing; otherwise, for one choice of primary per key, the keys of the cascade from the key leave both maps, and nothing else |
| `MultiKey.MultiKeyHashMap.GetAllConnectedKeys` | hashmap/mutiple_key.go:258-263 | for one answer of `GetPrimaryKey` per key: the key first, each key once, each reached by a link from an earlier one, and closed: every present key in it brings its chosen primary and all that primary's aliases |
| `MultiKey.CascadeLeast` | hashmap/mutiple_key.go:266-293 | the cascade lies inside every set that holds the key and is closed under the links of the same choice, so with `Closed` it is exactly the keys the links reach |
| `MultiKey.CascadeOneOwner` | hashmap/mutiple_key.go:266-293 | a key listed by two owners is resolved once, so a cascade from it never reaches both owners |
| `MultiKey.MultiKeyHashMap.TraverseConnectedKeys` | hashmap/mutiple_key.go:266-293 | resolves each newly visited key to one primary, recorded in the choice, which only grows; extends the result by unvisited keys only, each once and reached by a link, and every newly visited key is expanded; it ends because each call that goes on visits a new key of a finite universe |
| `MultiKey.MultiKeyHashMap.VisitPrimary` | hashmap/mutiple_key.go:280-292 | after the searches from the primary and from each of its aliases, the primary and all its aliases are visited, the choice only grew, and every newly visited key is expanded |
| `MultiKey.MultiKeyHashMap.VisitKey` | hashmap/mutiple_key.go:281-283 | the visited-check before a recursive call: the key ends up visited and the search state is kept |
| `MultiKey.MultiKeyHashMap.VisitAliases` | hashmap/mutiple_key.go:286-292 | after the loop over the primary's alias list every alias is visited and the search state is kept |
| `MultiKey.ChainedGrows` | hashmap/mutiple_key.go:266-273 | appending a key reached by a link from the result keeps every key of the result reached by a link |
| `MultiKey.ChainedExtends` | hashmap/mutiple_key.go:275 | recording the primary of a newly visited key keeps every earlier link |
| `MultiKeyAppendable.AppendableMultiKeyHashMap.constructor` | hashmap/multiple_appendable.go:9-13 | a new map is empty |
| `MultiKeyAppendable.AppendableMultiKeyHashMap.AppendValues` | hashmap/multiple_appendable.go:16-32 | false and no change for an absent key; otherwise the primary's whole group, the key included, gets the primary's slice followed by the values, or the values go under the primary alone when it holds none |
| `MultiKeyAppendable.KeyInGroup` | hashmap/multiple_appendable.go:16-32 | every key belongs to the group of its primary |
| `MultiKeyAppendable.AppendableMultiKeyHashMap.AppendValuesWithKeys` | hashmap/multiple_appendable.go:35-49 | false and no change with no keys; otherwise every key gets the first key's slice followed by the values, or the values alone |
| `MultiKeyAppendable.AppendableMultiKeyHashMap.GetSlice` | hashmap/multiple_appendable.go:52-54 | found exactly when the key is present, with its slice |
| `MultiKeyAppendable.AppendableMultiKeyHashMap.UpdateSlice` | hashmap/multiple_appendable.go:57-63 | false and no change for an absent key; otherwise the primary's whole group, the key included, gets the new slice, and nothing changes when the primary holds no value |

## Left out

- The hash function is a parameter of the Robin Hood map. The source hashes the printed
  form of the key with a `maphash.Hash` seeded on first use; that is not modelled.
- `RobinHood.RobinHoodMap.Put`: requires fewer than 255 entries, because the probe
  distance is a `uint8` and the source's behaviour once a distance wraps around is not
  modelled. With fewer entries every distance stays below 255 (`DistanceBelowOccupied`).
  The bound matters only when the key is new; the model asks it also of a `Put` that
  overwrites a present key in a table of 255 entries, which the source handles.
- The load-factor test `float64(size+1)/float64(len) > 0.75` is stated as the integer
  test `4 * (size + 1) > 3 * len`, which agrees with it for the sizes a table can have.
- `hash & mask` is written `hash % (mask + 1)`, which is the same for a power-of-two
  length.
- Go's `(value, bool)` results are `Option` values; the zero value returned with `false`
  is not modelled.
- Go slices are sequences. Aliasing between the slice a caller passes and the slice a
  map stores, and the sharing that `append` can cause, is not modelled.
- The order in which Go iterates over a map is not modelled: each loop may visit the keys
  in any order, and the contracts allow every order.
- `MultiKey.MultiKeyHashMap.GetAllKeys` and `MultiKey.MultiKeyHashMap.Remove`: the
  branch taken when `GetPrimaryKey` finds no primary for a present key cannot be
  reached, so it is omitted.
- `MultiKey.MultiKeyHashMap.Put` keeps the old alias list when the new keys name no
  alias, although the old aliases have left `data`. This is what the source does, and the
  model does the same.
- `MultiKey.MultiKeyHashMap.GetAllConnectedKeys`: the contract fixes the set of keys
  for the primaries the search chose, and that each key is reached by a link from an
  earlier one, but not the exact depth-first order of the result.
- `HashMap.ForEach` is not modelled: it calls back into caller code and stops on the
  first error the callback returns.
- The thread-safe wrappers and their mutexes, `config_operations.go`, the tests,
  benchmarks, samples and `doc.go` are not part of this model.
