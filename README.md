# canoe-game entity cache core, in Dafny

This project models the in-process entity cache of canoe-game and the value types it rests on, and proves properties of that model. The Java sources live under `core/src/main/java/org/canoegame/`.

- **TtlEngine** (`util/TtlEngine.java`): an intrusive, circular, doubly linked recency ring. The nodes live in an arena; a node's handle indexes `next`, `prev`, `list`, `accessTime` and `values`. A ghost sequence `ring` lists the nodes from head to tail. `add` and `touch` move a node to the head, `remove` unlinks it, and `expire` cuts the maximal tail run of nodes idle for more than `ttl`. Access times stay non-increasing from head to tail as long as the clock does not run backwards.
- **Cache shard** (`entity/Cache.java`, `Group`, `Manual`, `Ttl`): two TreeMaps from key to holder, a permanent tier and an expiring tier. A key has a holder in at most one of them, and the holder's state names the tier it sits in. A TreeMap is a list of entries sorted strictly by key (module `SortedMaps`). The expiring tier indexes its holders through TtlEngine nodes.
- **Cache façade** (`Cache`): ten groups with a key routed by `groupCode % 10`. Each group owns its own objects, so an operation on one group leaves the others untouched. The façade also holds a prefix index.
- **Prefix indexes** (`ManualPrefix`, `TtlPrefix`): sets of keys kept free of prefix relations (an antichain). `exists` is a floor lookup followed by an `isPrefixOf` test.
- **EntityHolder**: the identity-stable cell the stores hand out, with state `UNCACHED`, `MANUAL` or `EXPIRING`.
- **Keys**: the `Key` interface is a value `KeyOrder<K>` together with the laws the cache relies on (`Ordering.Valid`). `MockEntity.Key` and `MockStringKey` from the cache test are proved to satisfy those laws. A Java `String` is a sequence of UTF-16 code units (`MockKeys.JavaString`), the form `compareTo` and `startsWith` work on; `MockKeys.Utf16` encodes a Dafny string into it.
- **FieldSet** (`entity/FieldSet.java` and the near-copy `orm/FieldSet.java`): a set of enum constants kept as a `bv64` mask. It supports set algebra and iteration in ascending field-number order. One class models both files; the entity version adds `addAll()` and `clone`. Where the orm file has the same method, its lines are named in the states column.
- **Entity** (`entity/Entity.java`): the lifecycle (`Unavailable`, `NEW`, `NORMAL`, `DELETED`) and flags (`WRITABLE`, `DIRTY`, `COMMITTING`) state machine, with its change set and the `Change`, `delete` and `commit` transitions.

The clock is a parameter: every operation that reads `System.currentTimeMillis` takes `now`. Java's `null` is `None`, and a thrown exception is an `Err`/`Fail` value of `Wrappers.Fault`. The TtlEngine's expire handler is not called from inside the sweep. Instead `expire` returns the expired values tail first, in the order the handler would receive them, and the owning store applies the handler to them.

Where the two sources disagree, the model follows `Cache.java`. It calls `new EntityHolder<>(value, expiring)` and `isExpiring()`/`setExpiring()`, which `EntityHolder.java` does not have. Its expiring flag is modelled as the holder's `State` (`EXPIRING` or `MANUAL`), and a holder is built with its key. The test file calls `Cache` methods and constructors that `Cache.java` does not define; those are not modelled.

## Model

| member | source | states |
|---|---|---|
| Ordering.ValidFromLex | core/src/main/java/org/canoegame/entity/Key.java:3-7 | A key order whose compareTo agrees in sign with a lexicographic comparison of an injective projection, and whose isPrefixOf is the initial-segment test on that projection, meets the whole key contract: a total order, reflexive and transitive prefixes, prefixes sorting first, and covered keys forming a contiguous run. |
| Ordering.Contiguous | core/src/main/java/org/canoegame/entity/Key.java:3-7 | Under the key contract, a key that sorts between a prefix p and a key p covers is covered by p too. This is what lets a prefix scan stop at the first miss. |
| Ordering.LexCompareTransitive | core/src/test/java/org/canoegame/entity/CacheTest.java:124-144 | The lexicographic comparison that compareTo follows is transitive. |
| Ordering.LexCompareZero | core/src/test/java/org/canoegame/entity/CacheTest.java:115-144 | The lexicographic comparison is zero exactly on equal sequences. |
| Ordering.LexPrefixFirst | core/src/test/java/org/canoegame/entity/CacheTest.java:84-104 | An initial segment sorts no later than the sequence it starts. |
| Ordering.LexPrefixContiguous | core/src/test/java/org/canoegame/entity/CacheTest.java:84-104 | Whatever sorts between an initial segment and a sequence it starts also starts with it. |
| MockKeys.CompareToIsLexicographic | core/src/test/java/org/canoegame/entity/CacheTest.java:124-144 | compareTo has the sign of the lexicographic comparison of the significant fields, with the shorter key first on a tie. |
| MockKeys.Create | core/src/test/java/org/canoegame/entity/CacheTest.java:71-73 | create(key1, key2) has both fields significant: its field sequence is [key1, key2]. |
| MockKeys.CreatePrefix | core/src/test/java/org/canoegame/entity/CacheTest.java:75-77 | createPrefix() has no significant field. |
| MockKeys.CreatePrefixOf | core/src/test/java/org/canoegame/entity/CacheTest.java:79-81 | createPrefix(key1) has key1 as its only significant field. |
| MockKeys.CompareTo | core/src/test/java/org/canoegame/entity/CacheTest.java:124-137 | compareTo answers -1, 0 or 1: Integer.compare of the first differing significant field, else of the significant counts. |
| MockKeys.IsPrefixOf | core/src/test/java/org/canoegame/entity/CacheTest.java:84-104 | A key with no significant field prefixes every key, and a prefix never has more significant fields than the key it prefixes. |
| MockKeys.GroupCode | core/src/test/java/org/canoegame/entity/CacheTest.java:106-109 | groupCode is key1: the first field when there is one, and 0 for createPrefix(). |
| MockKeys.IsPrefixOfIsInitialSegment | core/src/test/java/org/canoegame/entity/CacheTest.java:84-104 | isPrefixOf holds exactly when the significant fields of one key start those of the other. |
| MockKeys.Equals | core/src/test/java/org/canoegame/entity/CacheTest.java:115-121 | equals (compareTo(k) == 0) holds exactly for the same key. |
| MockKeys.CreatePrefixCoversAll | core/src/test/java/org/canoegame/entity/CacheTest.java:75-77 | createPrefix() is a prefix of every key (isPrefixOf, lines 89-91). |
| MockKeys.IsPrefixOfByFields | core/src/test/java/org/canoegame/entity/CacheTest.java:93-103 | isPrefixOf is false when the first key has more significant fields; otherwise it holds exactly when every significant field of the first key equals the other key's. |
| MockKeys.PrefixSortsFirst | core/src/test/java/org/canoegame/entity/CacheTest.java:84-137 | A key that prefixes another sorts no later than it. |
| MockKeys.GroupCodeIsKey1 | core/src/test/java/org/canoegame/entity/CacheTest.java:106-109 | groupCode of a key built by create or createPrefix(key1) is key1. |
| MockKeys.EntityOrderValid | core/src/test/java/org/canoegame/entity/CacheTest.java:71-144 | MockEntity.Key meets the key contract the cache relies on. |
| MockKeys.StringCompareIsLex | core/src/test/java/org/canoegame/entity/CacheTest.java:300-302 | String compareTo is the lexicographic comparison of the UTF-16 code units: the difference at the first mismatch, else the length difference. |
| MockKeys.StartsWithIsPrefix | core/src/test/java/org/canoegame/entity/CacheTest.java:290-292 | startsWith is the initial-segment test on UTF-16 code units. |
| MockKeys.StringCompare | core/src/test/java/org/canoegame/entity/CacheTest.java:300-302 | String.compareTo is zero exactly on equal strings. |
| MockKeys.StartsWith | core/src/test/java/org/canoegame/entity/CacheTest.java:290-292 | startsWith holds exactly when the prefix is no longer than the string and agrees with it code unit by code unit. |
| MockKeys.StringKeyCompare | core/src/test/java/org/canoegame/entity/CacheTest.java:299-302 | MockStringKey.compareTo is zero exactly for the same key. |
| MockKeys.StringKeyIsPrefixOf | core/src/test/java/org/canoegame/entity/CacheTest.java:289-292 | A key prefixes itself, and a prefix is never longer than the value it prefixes. |
| MockKeys.StringKeyGroupCode | core/src/test/java/org/canoegame/entity/CacheTest.java:294-297 | groupCode is always 0. |
| MockKeys.EncodeChar | core/src/test/java/org/canoegame/entity/CacheTest.java:283 | A Java String holds UTF-16 code units: a character below U+10000 is one unit with its own value, any other is a high surrogate followed by a low surrogate. |
| MockKeys.Utf16 | core/src/test/java/org/canoegame/entity/CacheTest.java:283 | A string of n characters is between n and 2n code units long. |
| MockKeys.Utf16Append | core/src/test/java/org/canoegame/entity/CacheTest.java:283 | The code units of a concatenation are the code units of the parts, in order. |
| MockKeys.SupplementarySortsBelowBmp | core/src/test/java/org/canoegame/entity/CacheTest.java:300-302 | compareTo works on code units, not characters: U+10000 sorts below U+FFFF because its high surrogate 0xD800 is below 0xFFFF. |
| MockKeys.StringOrderValid | core/src/test/java/org/canoegame/entity/CacheTest.java:282-302 | MockStringKey meets the key contract: prefix is startsWith and order is string order (groupCode is 0, line 295-297). |
| SortedMaps.Put | core/src/main/java/org/canoegame/entity/Cache.java:215 | TreeMap.put keeps the entry list sorted, and its map is the old map with the key updated. |
| SortedMaps.Remove | core/src/main/java/org/canoegame/entity/Cache.java:228 | TreeMap.remove keeps the list sorted and drops exactly the key. |
| SortedMaps.Get | core/src/main/java/org/canoegame/entity/Cache.java:208 | TreeMap.get is the value under the key, or null when the key is absent. |
| SortedMaps.LowerBound | core/src/main/java/org/canoegame/entity/Cache.java:237 | The start of tailMap(k, true): every entry before it has a key below k, and the entry at it, if any, has a key not below k. |
| SortedMaps.UpperBound | core/src/main/java/org/canoegame/entity/Cache.java:437-442 | The end of headMap(k, true): every entry before it has a key at most k, and the entry at it, if any, has a key above k. |
| SortedMaps.PrefixScanIsMatching | core/src/main/java/org/canoegame/entity/Cache.java:237-244 | Iterating tailMap(p, true) and stopping at the first key p does not prefix yields exactly the entries whose key p prefixes, in key order. |
| SortedMaps.MatchingIsLeadingRun | core/src/main/java/org/canoegame/entity/Cache.java:237-244 | In a sorted run of keys not below p, the entries p prefixes are exactly the leading run. |
| SortedMaps.PrefixValues | core/src/main/java/org/canoegame/entity/Cache.java:235-247 | The values collected by the prefix scan are the values of all entries p prefixes, in key order. |
| SortedMaps.RunValues | core/src/main/java/org/canoegame/entity/Cache.java:238-244 | The scan loop from the lower bound on collects the values of the leading run p prefixes. |
| SortedMaps.RemoveAtMap | core/src/main/java/org/canoegame/entity/Cache.java:354 | Removing the entry at an index through the iterator removes exactly its key from the map. |
| TtlEngines.TtlEngine.constructor | core/src/main/java/org/canoegame/util/TtlEngine.java:12-15 | A new engine has an empty ring and the given ttl. |
| TtlEngines.TtlEngine.Add | core/src/main/java/org/canoegame/util/TtlEngine.java:17-21 | add returns a new node that belongs to the engine, holds the value and sits at the head of the ring, stamped now; the rest of the ring follows in its old order. Recency order is kept. |
| TtlEngines.TtlEngine.NewNode | core/src/main/java/org/canoegame/util/TtlEngine.java:121-124 | The Node constructor: a new node that belongs to the engine but is not yet linked, with the ring unchanged. |
| TtlEngines.TtlEngine.IsExpired | core/src/main/java/org/canoegame/util/TtlEngine.java:117-119 | A node is expired exactly when it is no longer in the ring. |
| TtlEngines.TtlEngine.Remove | core/src/main/java/org/canoegame/util/TtlEngine.java:23-41 | A node of another engine, or one already expired, changes nothing. Otherwise the node leaves the ring and is marked expired, and the other nodes stay a ring in their old order. Removing the only node empties the engine. |
| TtlEngines.TtlEngine.Touch | core/src/main/java/org/canoegame/util/TtlEngine.java:43-50 | A node that does not belong to the engine changes nothing. Otherwise it is stamped now and moved to the head, the others keeping their relative order. Recency order is kept when no stamp lies after now. |
| TtlEngines.TtlEngine.MoveNodeToHead | core/src/main/java/org/canoegame/util/TtlEngine.java:52-76 | A node of the engine ends up at the head, first in the ring, with the others in their old order; the head itself, or an empty ring, is handled as the source does. |
| TtlEngines.TtlEngine.Unlink | core/src/main/java/org/canoegame/util/TtlEngine.java:66-69 | A node of the ring other than the head is taken out, the ring staying well formed around it. |
| TtlEngines.TtlEngine.LinkAtHead | core/src/main/java/org/canoegame/util/TtlEngine.java:71-75 | The pending node is linked in front of the head and becomes the head. |
| TtlEngines.TtlEngine.Expire | core/src/main/java/org/canoegame/util/TtlEngine.java:78-103 | The ring keeps exactly its prefix of length Kept, dropping the maximal tail run idle for more than ttl. The values of the dropped nodes are returned tail first. The survivors form a closed ring with the same head, or the engine is empty. Recency order is kept. |
| TtlEngines.Sweep | core/src/main/java/org/canoegame/util/TtlEngine.java:83-97 | The sweep loop walks from the tail while the node is idle more than ttl: it marks each such node expired, collects its value tail first, and stops at the first fresh node; the kept count is Kept. |
| TtlEngines.TtlEngine.Close | core/src/main/java/org/canoegame/util/TtlEngine.java:99-102 | The surviving nodes are closed into a ring again, or the engine is left empty. |
| TtlEngines.Kept | core/src/main/java/org/canoegame/util/TtlEngine.java:85 | Every node at or behind the cut is idle for more than ttl and the node just before it is not. |
| TtlEngines.KeptUnique | core/src/main/java/org/canoegame/util/TtlEngine.java:85-97 | Kept is the only cut with a stale tail run behind it and a fresh node in front: the sweep removes exactly the maximal stale tail run. |
| TtlEngines.SweepSplitsByAge | core/src/main/java/org/canoegame/util/TtlEngine.java:48-85 | With access times non-increasing from head to tail, every survivor is idle at most ttl and every swept node was touched before every survivor. |
| TtlEngines.TouchKeepsOrder | core/src/main/java/org/canoegame/util/TtlEngine.java:48-75 | Moving a node stamped now to the head keeps access times non-increasing along the ring when no stamp lies after now. |
| TtlEngines.PrependNewest | core/src/main/java/org/canoegame/util/TtlEngine.java:71-75 | A node stamped now placed in front of nodes stamped no later keeps recency order. |
| TtlEngines.AppendKeepsOrder | core/src/main/java/org/canoegame/util/TtlEngine.java:121-124 | A new node leaves the recency order of the ring as it was. |
| TtlEngines.RecencyPrefix | core/src/main/java/org/canoegame/util/TtlEngine.java:91-102 | The nodes left by a sweep are still in recency order. |
| TtlEngines.WithoutMembers | core/src/main/java/org/canoegame/util/TtlEngine.java:23-41 | The ring after removing a node holds exactly the other nodes. |
| Scenarios.EngineScenario | core/src/test/java/org/canoegame/util/TtlEngineTest.java:7-27 | testAdd with the sleeps as clock steps of 500 ms, the last one 501 ms: node1 is live after the adds; after the sweep at 1500 it is expired while node2, touched at 1000, is not; after the sweep at 2001 node2 is expired too. At exactly 2000 node2 would be idle 1000 ms, which is not more than the ttl (TtlEngine.java line 85), so the test relies on Thread.sleep overshooting. |
| Scenarios.LaterSweeps | core/src/test/java/org/canoegame/util/TtlEngineTest.java:16-27 | The sweeps and the touch of testAdd from its first expire on, from the ring [node3, node2, node1]. |
| Scenarios.TestAddSweeps | core/src/test/java/org/canoegame/util/TtlEngineTest.java:16-26 | The cuts each sweep of testAdd makes, and the ring order after touch(node2). |
| Holders.Holder.constructor | core/src/main/java/org/canoegame/entity/EntityHolder.java:4-11 | A new holder carries the given key and value and starts UNCACHED. |
| Holders.Holder.Get | core/src/main/java/org/canoegame/entity/EntityHolder.java:13-15 | get returns the value stored by the constructor or the latest set. |
| Holders.Holder.GetKey | core/src/main/java/org/canoegame/entity/EntityHolder.java:17-19 | getKey returns the key the holder was built for. |
| Holders.Holder.Set | core/src/main/java/org/canoegame/entity/EntityHolder.java:21-23 | set replaces the value, and the key and the state are unchanged. |
| Holders.Holder.GetState | core/src/main/java/org/canoegame/entity/EntityHolder.java:25-27 | getState returns the state stored by the latest setState, UNCACHED before any. |
| Holders.Holder.SetState | core/src/main/java/org/canoegame/entity/EntityHolder.java:29-31 | setState replaces the state; the value and the key are unchanged. |
| Holders.Holder.IsExpiring | core/src/main/java/org/canoegame/entity/Cache.java:178 | isExpiring as Cache.java calls it: true exactly when the state is EXPIRING. |
| Holders.Holder.SetExpiring | core/src/main/java/org/canoegame/entity/Cache.java:183-191 | setExpiring as Cache.java calls it: EXPIRING for true and MANUAL for false, never UNCACHED, with the value unchanged. |
| Stores.Manual.constructor | core/src/main/java/org/canoegame/entity/Cache.java:205-206 | A new permanent tier is empty. |
| Stores.Manual.Get | core/src/main/java/org/canoegame/entity/Cache.java:207-209 | get is the holder under the key, or null. |
| Stores.Manual.Put | core/src/main/java/org/canoegame/entity/Cache.java:211-221 | A present key keeps its holder, which takes the new value; an absent key gets a new MANUAL holder with the value, and no other key changes. |
| Stores.Manual.PutHolder | core/src/main/java/org/canoegame/entity/Cache.java:223-225 | The holder is stored under its key, replacing any other. |
| Stores.Manual.Remove | core/src/main/java/org/canoegame/entity/Cache.java:227-229 | The key leaves the map, and its old holder (or null) is returned. |
| Stores.Manual.Size | core/src/main/java/org/canoegame/entity/Cache.java:231-233 | size is the number of keys. |
| Stores.Manual.GetAllWithPrefix | core/src/main/java/org/canoegame/entity/Cache.java:235-247 | The holders of exactly the keys the prefix prefixes, in key order. |
| Stores.Ttl.constructor | core/src/main/java/org/canoegame/entity/Cache.java:254-257 | A new expiring tier is empty, over an engine with the given ttl. |
| Stores.Ttl.Expire | core/src/main/java/org/canoegame/entity/Cache.java:256 | The engine sweeps its stale tail run, and each expired holder's own key (EntityHolder.getKey, `Stores.KeyOf`) leaves the map; a key stays exactly when its node stays in the ring, with the same holder. |
| Stores.Ttl.Forget | core/src/main/java/org/canoegame/entity/Cache.java:256 | The handler applied to the expired values removes exactly the keys whose node left the ring. |
| Stores.Ttl.Get | core/src/main/java/org/canoegame/entity/Cache.java:259-273 | Without peek the tier is swept and the node found is touched: the ring becomes the part the sweep keeps, with the found node moved to the head, and only that node's stamp changes, to now. With peek nothing changes. Every key left keeps its holder and its node. The result is the holder under the key after that, or null. |
| Stores.Ttl.Put | core/src/main/java/org/canoegame/entity/Cache.java:275-287 | A present key keeps its holder, which takes the value, and the engine (ring, stamps, nodes) is as it was. An absent key gets a new EXPIRING holder, and the engine gains a new node at the head of the ring stamped now (`Entered`), every other key keeping its node and every other node its stamp. |
| Stores.Ttl.PutHolder | core/src/main/java/org/canoegame/entity/Cache.java:290-292 | The holder goes under its key, and the engine gains a new node at the head of the ring stamped now (`Entered`), every other key keeping its node and every other node its stamp. |
| Stores.Ttl.Remove | core/src/main/java/org/canoegame/entity/Cache.java:295-303 | The key leaves the map and its holder (or null) is returned. The engine loses the key's node from the ring and from the node map, every stamp staying (`Left`); an absent key leaves the engine as it was. |
| Stores.Ttl.Size | core/src/main/java/org/canoegame/entity/Cache.java:305-307 | size is the number of keys. |
| Stores.Ttl.GetAllWithPrefix | core/src/main/java/org/canoegame/entity/Cache.java:309-324 | After the sweep, the holders of exactly the keys left that the prefix prefixes, in key order. The ring is the part the sweep keeps with those keys' nodes touched in turn (`TouchedRing`); their nodes are stamped now and no other stamp changes. No key is added or given another holder or node. |
| Stores.Ttl.Collect | core/src/main/java/org/canoegame/entity/Cache.java:311-323 | The scan on the swept tier returns the holders of the keys the prefix prefixes. The ring is the old ring with their nodes touched in turn; their stamps become now and no other stamp changes. |
| Stores.Ttl.Scan | core/src/main/java/org/canoegame/entity/Cache.java:312-319 | The nodes of exactly the keys the prefix prefixes, in key order, each in the ring. |
| Stores.Ttl.TouchAll | core/src/main/java/org/canoegame/entity/Cache.java:313-321 | Each node of the run is touched in turn and its holder collected, in order. The ring is `TouchedRing` of the old ring and the run, the stamps are `Stamped` (the run's nodes read now, the others as before), and the values stay. |
| Stores.Ttl.TouchNode | core/src/main/java/org/canoegame/entity/Cache.java:319 | A node of the ring is stamped now and moved to the head, the other nodes keeping their order, and the map still agrees with the ring. |
| Stores.Ttl.MapKeys | core/src/main/java/org/canoegame/entity/Cache.java:256 | Each holder of the expiring tier carries the key it is stored under. |
| Stores.EvictedKeyAsWritten | core/src/main/java/org/canoegame/entity/Cache.java:256 | The eviction handler as written takes the key from the holder's value; it fails with a NullPointerException exactly when the value is null. |
| Stores.SweepAsWritten | core/src/main/java/org/canoegame/util/TtlEngine.java:83-102 | The sweep with the handler as written: a handler that throws stops the sweep with a NullPointerException; otherwise it keeps at most the whole ring. |
| Stores.SweepAsWrittenFails | core/src/main/java/org/canoegame/entity/Cache.java:256 | The sweep as written fails exactly when a holder in the stale tail run has a null value; when it does not fail, it keeps the same prefix of the ring as the corrected sweep. |
| Stores.KeptLater | core/src/main/java/org/canoegame/util/TtlEngine.java:85 | A sweep at a later time keeps no more of the same ring. |
| Stores.StuckAfterEmptiedHolder | core/src/main/java/org/canoegame/entity/Cache.java:152-165 | Once a holder that putOnDelete emptied is idle more than ttl, every later sweep of a ring that still holds its node throws. The failed sweep leaves the links of the ring as they were (it has cleared the list flag of each node it visited, and the handler has removed the keys of the stale nodes behind the holder), so the throw repeats. |
| TtlIndexes.EvictKeepsIndexes | core/src/main/java/org/canoegame/entity/Cache.java:256 | Removing the keys of expired holders keeps the map and the ring in step: each key's node is in the ring and holds its holder. |
| TtlIndexes.Evict | core/src/main/java/org/canoegame/entity/Cache.java:256 | The handler loop over the expired values: the map stays sorted and loses exactly the keys of the expired values. |
| TtlIndexes.AddKeepsIndexes | core/src/main/java/org/canoegame/entity/Cache.java:280 | Storing a new key under a new node at the head keeps the map and the ring in step. |
| TtlIndexes.RemoveKeepsIndexes | core/src/main/java/org/canoegame/entity/Cache.java:295-303 | Removing a key and its node keeps the map and the ring in step. |
| Groups.Group.constructor | core/src/main/java/org/canoegame/entity/Cache.java:71-75 | A new group has two empty tiers; the expiring one uses the given ttl. |
| Groups.Group.Peek | core/src/main/java/org/canoegame/entity/Cache.java:167-174 | The holder of the key from the permanent tier, else from the expiring tier without sweeping or touching; nothing changes. |
| Groups.Group.Get | core/src/main/java/org/canoegame/entity/Cache.java:77-99 | The holder of the key from whichever tier has it after the sweep, else null. No holder is created or changed and the permanent tier is untouched. Unless the permanent tier has the key, the expiring tier is swept at now, a key staying exactly when its node lies in the part of the ring the sweep keeps, and the node of a key found there is moved to the head and stamped now. The engine's whole new state is pinned down: only the found node's stamp changes, and every key left keeps its node (`Swept`). |
| Groups.Group.GetExpiring | core/src/main/java/org/canoegame/entity/Cache.java:95 | get's expiring half, for a key the permanent tier does not have: the sweep at now keeps a key exactly when its node lies in the kept part of the ring, and a found node moves to the head stamped now (`Swept`). The answer is the holder under the key after the sweep, or null. |
| Groups.Group.GetAll | core/src/main/java/org/canoegame/entity/Cache.java:101-119 | The permanent tier's holders of the keys the prefix prefixes, in key order. Unless canonical, they are followed by the expiring tier's: that tier is swept at now, a key staying exactly when its node lies in the part of the ring the sweep keeps. The new ring is that part with the returned keys' nodes touched in turn, only their stamps change (to now), and every key left keeps its node (`SweptRun`). When canonical the expiring tier is untouched. |
| Groups.Group.SweepPrefixed | core/src/main/java/org/canoegame/entity/Cache.java:114 | The expiring tier's part of getAll: the sweep at now keeps a key exactly when its node lies in the part of the ring it keeps; then the holders of the keys the prefix prefixes. The ring is the kept part with their nodes touched in turn, only their stamps change (to now), and every key left keeps its node (`SweptRun`). |
| Groups.Group.SwitchExpiring | core/src/main/java/org/canoegame/entity/Cache.java:176-194 | The holder moves to the tier the flag names and its state follows, so each key stays in exactly one tier with a state naming it. It is a no-op when the flag already matches. The expiring engine's whole state follows `Moved`: entering gives a new head node stamped now, leaving takes the key's node out of the ring, and otherwise nothing changes. |
| Groups.Group.ToExpiring | core/src/main/java/org/canoegame/entity/Cache.java:182-184 | A permanent holder moves to the expiring tier, with its value unchanged. The engine gains a new head node for the key stamped now, and nothing else in it changes (`Entered`). |
| Groups.Group.JoinTtl | core/src/main/java/org/canoegame/entity/Cache.java:184 | An EXPIRING holder joins the expiring tier under its key. The engine gains a new head node for the key stamped now, and nothing else in it changes (`Entered`). |
| Groups.Group.LeaveManual | core/src/main/java/org/canoegame/entity/Cache.java:182-183 | The holder leaves the permanent tier and is marked EXPIRING. |
| Groups.Group.ToManual | core/src/main/java/org/canoegame/entity/Cache.java:190-192 | An expiring holder moves to the permanent tier, with its value unchanged. The engine loses the key's node from the ring and the node map, every stamp staying (`Left`). |
| Groups.Group.JoinManual | core/src/main/java/org/canoegame/entity/Cache.java:192 | A MANUAL holder joins the permanent tier under its key. |
| Groups.Group.LeaveTtl | core/src/main/java/org/canoegame/entity/Cache.java:190-191 | The holder leaves the expiring tier and is marked MANUAL. The engine loses the key's node from the ring and the node map, every stamp staying (`Left`). |
| Groups.Group.Put | core/src/main/java/org/canoegame/entity/Cache.java:196-202 | A key cached nowhere gets a new holder with the value, in the tier the flag names. The expiring set gains the key exactly when the flag is set, and the engine gains a new head node stamped now exactly then (`Moved`). |
| Groups.Group.PutExpiring | core/src/main/java/org/canoegame/entity/Cache.java:198 | A new EXPIRING holder in the expiring tier. The engine gains a new head node for the key stamped now, and nothing else in it changes (`Entered`). |
| Groups.Group.PutManual | core/src/main/java/org/canoegame/entity/Cache.java:200 | A new MANUAL holder in the permanent tier. |
| Groups.Group.PutOnFetch | core/src/main/java/org/canoegame/entity/Cache.java:121-134 | An absent key gets a new holder with the value in the requested tier. A present key returns the same holder with its value unchanged, moved to the requested tier. The expiring set gains or loses the key as the flag says, and the engine follows `Moved`: a new head node stamped now when the key enters the expiring tier, its node taken out when it leaves, no change otherwise. |
| Groups.Group.PutOnStore | core/src/main/java/org/canoegame/entity/Cache.java:136-150 | The key's holder, the cached one or a new one, carries the value and sits in the requested tier. The expiring set gains or loses the key as the flag says, and the engine follows `Moved`: a new head node stamped now when the key enters the expiring tier, its node taken out when it leaves, no change otherwise. |
| Groups.Group.PutOnDelete | core/src/main/java/org/canoegame/entity/Cache.java:152-165 | A present key keeps its holder, whose value becomes null and which joins the expiring set. The engine gains a new head node stamped now if the key was permanent, and is unchanged if it was already expiring (`Moved`). An absent key changes nothing. |
| Groups.Group.Assign | core/src/main/java/org/canoegame/entity/Cache.java:144 | Setting the value of a cached holder keeps its tier and state. |
| Groups.MoveToFirst | core/src/main/java/org/canoegame/entity/Cache.java:190-192 | Moving a key from one of two disjoint maps to the other keeps them disjoint and keeps their union. |
| Groups.MoveToSecond | core/src/main/java/org/canoegame/entity/Cache.java:182-184 | Moving a key from one of two disjoint maps to the other keeps them disjoint and keeps their union. |
| Groups.ShrinkSecond | core/src/main/java/org/canoegame/entity/Cache.java:95 | A sweep of the expiring tier only drops keys of the group's map. |
| Groups.Got | core/src/main/java/org/canoegame/entity/Cache.java:77-99 | What get at now does to a group: the answer is the holder of the key, every key left keeps the holder it had, no holder is added, and the permanent tier's map is as it was. If that tier has the key, the engine is unchanged. Otherwise the engine's new state is the old ring's kept part, with a found node moved to the head; only the found node's stamp changes, to now, and every key left keeps its node (`Swept`). |
| Caches.GroupIn | core/src/main/java/org/canoegame/entity/Cache.java:57-63 | A negative groupCode routes to no group; otherwise the key goes to slot groupCode % 10. |
| Caches.Slot | core/src/main/java/org/canoegame/entity/Cache.java:62 | The slot a non-negative groupCode routes to is below 10 and congruent to it modulo 10. |
| Caches.SlotsAsWritten | core/src/main/java/org/canoegame/entity/Cache.java:23 | The group array as the constructor leaves it holds only null slots. |
| Caches.NoGroupAsWritten | core/src/main/java/org/canoegame/entity/Cache.java:23 | As written, getGroup finds no group for any key. |
| Caches.Cache.constructor | core/src/main/java/org/canoegame/entity/Cache.java:16-24 | The prefix index is a ManualPrefix exactly when useManualCache holds, else a TtlPrefix with ttl 1000. All ten groups exist, start empty and own disjoint objects. |
| Caches.Cache.GetGroup | core/src/main/java/org/canoegame/entity/Cache.java:57-63 | No group exactly for a negative groupCode; otherwise groups[groupCode % 10]. |
| Caches.Cache.Get | core/src/main/java/org/canoegame/entity/Cache.java:26-29 | A negative groupCode fails with a NullPointerException. Otherwise the routed group's get answers with its sweep and touch, including the new state of that group's engine (`Groups.Got`). Every object of that group except its expiring tier and engine is unchanged, so every holder keeps its value and state. The other groups are untouched. |
| Caches.Cache.PutOnFetch | core/src/main/java/org/canoegame/entity/Cache.java:42-45 | A negative groupCode fails with a NullPointerException. Otherwise the routed group's putOnFetch (`Caches.Fetched`): a cached key keeps its holder and value, a new key gets a new holder with the value, and the group's expiring set gains or loses the key as the flag says. Every object of that group except its tiers, its engine and the key's holder is unchanged, so the other keys' holders keep their values and states. The other groups are untouched. |
| Caches.Cache.PutOnStore | core/src/main/java/org/canoegame/entity/Cache.java:47-50 | A negative groupCode fails with a NullPointerException. Otherwise the routed group's putOnStore (`Caches.Stored`): the key's holder, cached or new, carries the value, and the group's expiring set gains or loses the key as the flag says. Every object of that group except its tiers, its engine and the key's holder is unchanged, so the other keys' holders keep their values and states. The other groups are untouched. |
| Caches.Cache.PutOnDelete | core/src/main/java/org/canoegame/entity/Cache.java:52-55 | A negative groupCode fails with a NullPointerException. Otherwise the routed group's putOnDelete (`Caches.Deleted`): a cached key's holder is emptied and joins the expiring set, and the engine follows `Moved`; an uncached key changes nothing. Every object of that group except its tiers, its engine and the key's holder is unchanged, so the other keys' holders keep their values and states. The other groups are untouched. |
| Caches.Cache.HolderOwned | core/src/main/java/org/canoegame/entity/Cache.java:57-63 | The holder of a key cached in the group a key routes to is one of that group's objects, not a tier or the engine, and differs from the holder of every other key. |
| Caches.GetKeepsHolders | core/src/main/java/org/canoegame/entity/Cache.java:26-29 | After get, every holder still cached in the routed group has the value and state it had. |
| Caches.FetchKeepsOthers | core/src/main/java/org/canoegame/entity/Cache.java:42-45 | After putOnFetch of one key, the holder of every other key of the routed group is still cached, with its value and state. |
| Caches.StoreKeepsOthers | core/src/main/java/org/canoegame/entity/Cache.java:47-50 | After putOnStore of one key, the holder of every other key of the routed group is still cached, with its value and state. |
| Caches.DeleteKeepsOthers | core/src/main/java/org/canoegame/entity/Cache.java:52-55 | After putOnDelete of one key, the holder of every other key of the routed group is still cached, with its value and state. |
| Prefixes.AddKeepsAntichain | core/src/main/java/org/canoegame/entity/Cache.java:340-362 | When no stored key covers the new one, the keys it does not prefix plus the key itself are free of prefix relations. |
| Prefixes.AddCoverage | core/src/main/java/org/canoegame/entity/Cache.java:340-362 | After add(key), a key is covered exactly when it was covered before or key prefixes it, so nothing covered stops being covered. |
| Prefixes.Floor | core/src/main/java/org/canoegame/entity/Cache.java:364-376 | The floor entry answers only with a stored key that prefixes the query. On a sorted antichain it answers exactly when some stored key prefixes the query. |
| Prefixes.FloorOfCover | core/src/main/java/org/canoegame/entity/Cache.java:364-376 | A stored key that prefixes the query is its floor entry in a sorted antichain. |
| Prefixes.Subsumed | core/src/main/java/org/canoegame/entity/Cache.java:340-362 | In the index, a stored key that prefixes another stored key is that key. |
| Prefixes.CutKeys | core/src/main/java/org/canoegame/entity/Cache.java:347-355 | After the loop of add, the keys left are exactly the stored keys the new key does not prefix. |
| Prefixes.CutIndex | core/src/main/java/org/canoegame/entity/Cache.java:347-355 | In a sorted list the new key prefixes exactly the run of entries after its lower bound. |
| Prefixes.ManualPrefix.constructor | core/src/main/java/org/canoegame/entity/Cache.java:336-339 | A new manual index is empty. |
| Prefixes.ManualPrefix.Exists | core/src/main/java/org/canoegame/entity/Cache.java:364-376 | exists holds exactly when some stored key prefixes the query; this index never touches. |
| Prefixes.ManualPrefix.Add | core/src/main/java/org/canoegame/entity/Cache.java:340-362 | add is refused with no change exactly when a stored key covers the key. Otherwise every stored key it prefixes is removed and it is inserted, and the index stays free of prefix relations. |
| Prefixes.ManualPrefix.CutPrefixed | core/src/main/java/org/canoegame/entity/Cache.java:347-355 | The loop of add removes exactly the stored keys the new key prefixes. |
| Prefixes.ManualPrefix.Size | core/src/main/java/org/canoegame/entity/Cache.java:378-385 | size is the number of keys. |
| Prefixes.TtlPrefix.constructor | core/src/main/java/org/canoegame/entity/Cache.java:393-397 | A new TTL index is empty, over an engine with the given ttl. |
| Prefixes.TtlPrefix.Expire | core/src/main/java/org/canoegame/entity/Cache.java:396 | The engine's sweep with the store::remove handler, whose nodes hold the keys themselves (`Prefixes.Id`), leaves exactly the keys whose node survives. |
| Prefixes.TtlPrefix.Forget | core/src/main/java/org/canoegame/entity/Cache.java:396 | The handler removes exactly the keys whose node left the ring. |
| Prefixes.TtlPrefix.Exists | core/src/main/java/org/canoegame/entity/Cache.java:432-454 | The index is swept first. The answer is whether some live key prefixes the query. Only when touch is set, the covering key's node is moved to the head of the swept ring and stamped now. |
| Prefixes.TtlPrefix.Lookup | core/src/main/java/org/canoegame/entity/Cache.java:437-450 | The floor lookup on the swept index; the engine changes only when the answer is true and touch is set, and then the covering key's node goes to the head stamped now. |
| Prefixes.TtlPrefix.TouchNode | core/src/main/java/org/canoegame/entity/Cache.java:448 | The covering key's node is stamped now and moved to the head, the other nodes keeping their order. |
| Prefixes.TtlPrefix.Add | core/src/main/java/org/canoegame/entity/Cache.java:406-430 | After the sweep, add is refused exactly when a live key covers the key; then the ring is the part the sweep keeps and no stamp changes. Otherwise every live key it prefixes is removed with its node, and the key gets a new node at the head whose stamp, now, is appended; every other key keeps its node. |
| Prefixes.TtlPrefix.Insert | core/src/main/java/org/canoegame/entity/Cache.java:424 | The key is stored, and the engine gains a new node at the head stamped now, every other key keeping its node and every other node its stamp (`Entered`). |
| Prefixes.TtlPrefix.CutPrefixed | core/src/main/java/org/canoegame/entity/Cache.java:413-422 | The loop of add removes exactly the keys the new key prefixes. The ring loses exactly their nodes (`WithoutAll`), the stamps and values stay, and every key left keeps its node. |
| Prefixes.TtlPrefix.RemoveEntry | core/src/main/java/org/canoegame/entity/Cache.java:420-421 | The entry leaves the store, and its node leaves the ring and the node map, every stamp staying (`Left`). |
| Prefixes.TtlPrefix.Size | core/src/main/java/org/canoegame/entity/Cache.java:398-405 | size is the number of keys. |
| Scenarios.ManualPrefixScenario | core/src/test/java/org/canoegame/entity/CacheTest.java:317-334 | testManualPrefix: "a" is added, "a" and "a_b" are refused; "a" and "a_b" exist, "b" does not, size 1; "b" is added, "b_a" refused, size 2. |
| Masks.BitCount | core/src/main/java/org/canoegame/entity/FieldSet.java:43-45 | Long.bitCount is the number of members of the mask (orm lines 32-34). |
| Masks.TrailingZeros | core/src/main/java/org/canoegame/entity/FieldSet.java:73 | numberOfTrailingZeros of a non-zero mask is its least member. |
| Masks.LowestBit | core/src/main/java/org/canoegame/entity/FieldSet.java:71-72 | unseen & -unseen isolates the lowest set bit, and subtracting it removes exactly that member (orm lines 59-61). |
| Masks.MembersSubset | core/src/main/java/org/canoegame/entity/FieldSet.java:121 | (y & ~x) == 0 is the subset test on members. |
| Masks.AscendingStep | core/src/main/java/org/canoegame/entity/FieldSet.java:68-74 | The iterator's next takes the least member off the ascending list of members. |
| Masks.AscendingOrder | core/src/main/java/org/canoegame/entity/FieldSet.java:55-82 | The iterator yields every member once, in increasing order (orm lines 44-71). |
| FieldSets.HeldSize | core/src/main/java/org/canoegame/entity/FieldSet.java:43-45 | The popcount of a mask is the number of constants the set holds. |
| FieldSets.HeldInjective | core/src/main/java/org/canoegame/entity/FieldSet.java:185-193 | Masks of one element type are equal exactly when they hold the same constants. |
| FieldSets.HeldForeign | core/src/main/java/org/canoegame/entity/FieldSet.java:114-171 | Against a set of another element type, removal changes nothing, retention leaves nothing, containment means empty, and equality means both empty. |
| FieldSets.HeldOr | core/src/main/java/org/canoegame/entity/FieldSet.java:141-143 | `|` is union of constants. |
| FieldSets.HeldAnd | core/src/main/java/org/canoegame/entity/FieldSet.java:168-170 | `&` is intersection of constants. |
| FieldSets.HeldAndNot | core/src/main/java/org/canoegame/entity/FieldSet.java:153-155 | `& ~` is difference of constants. |
| FieldSets.Include | core/src/main/java/org/canoegame/entity/FieldSet.java:97-99 | Setting the constant's bit adds exactly it, and the mask changes exactly when it was absent. |
| FieldSets.Exclude | core/src/main/java/org/canoegame/entity/FieldSet.java:109-111 | Clearing the constant's bit removes exactly it, and the mask changes exactly when it was present. |
| FieldSets.Union | core/src/main/java/org/canoegame/entity/FieldSet.java:141-143 | The union of the constants, with the change flag telling whether the set grew. |
| FieldSets.Difference | core/src/main/java/org/canoegame/entity/FieldSet.java:153-155 | The difference of the constants, with the change flag. |
| FieldSets.Intersection | core/src/main/java/org/canoegame/entity/FieldSet.java:168-170 | The intersection of the constants, with the change flag. |
| FieldSets.Empty | core/src/main/java/org/canoegame/entity/FieldSet.java:47-49 | `elements == 0` holds exactly when no constant is held. |
| FieldSets.Member | core/src/main/java/org/canoegame/entity/FieldSet.java:91 | For a constant of the element type, the bit test holds exactly when the constant is held. |
| FieldSets.Contained | core/src/main/java/org/canoegame/entity/FieldSet.java:121 | For one element type, `(es.elements & ~elements) == 0` holds exactly when the other set's constants are all held. |
| FieldSets.Same | core/src/main/java/org/canoegame/entity/FieldSet.java:192 | For one element type, equal masks hold exactly the same constants. |
| FieldSets.Emptied | core/src/main/java/org/canoegame/entity/FieldSet.java:162-166 | retainAll against another element type empties the set, changing it exactly when it held something. |
| FieldSets.MaxNumber | core/src/main/java/org/canoegame/entity/FieldSet.java:25-30 | getUniverse's max is at least every number and is one of them, or 0. |
| FieldSets.Max | core/src/main/java/org/canoegame/entity/FieldSet.java:25-30 | The max loop computes MaxNumber. |
| FieldSets.GetUniverse | core/src/main/java/org/canoegame/entity/FieldSet.java:22-40 | The universe has one slot per number up to the largest, holding the constant with that number or null (orm constructor, lines 15-30). |
| FieldSets.SlotsHold | core/src/main/java/org/canoegame/entity/FieldSet.java:32-35 | After the fill loop, slot n holds the constant numbered n when there is one, and null otherwise. |
| FieldSets.AllBits | core/src/main/java/org/canoegame/entity/FieldSet.java:124-127 | addAll() as written holds every number from 0 to 63. |
| FieldSets.AllConstants | core/src/main/java/org/canoegame/entity/FieldSet.java:124-127 | The corrected addAll() mask holds exactly the element type's constants. |
| FieldSets.AllBitsOverrun | core/src/main/java/org/canoegame/entity/FieldSet.java:124-127 | With MockEntity.Field (numbers 1, 2, 3) the all-bits set holds fields numbered 0 and 4 that are not constants: slot 0 of the four-slot universe is null and number 4 lies past its end. |
| FieldSets.ConstantsInUniverse | core/src/main/java/org/canoegame/entity/FieldSet.java:55-82 | With exactly the type's constants held, every number iteration visits lies inside the universe and its slot holds that constant. |
| FieldSets.Count | core/src/main/java/org/canoegame/entity/FieldSet.java:43-45 | size is the number of constants held (orm lines 32-34). |
| FieldSets.FieldSet.constructor | core/src/main/java/org/canoegame/entity/FieldSet.java:17-20 | A new set over an element type is empty, with that type's universe. |
| FieldSets.FieldSet.Size | core/src/main/java/org/canoegame/entity/FieldSet.java:43-45 | size is the number of constants held (orm lines 32-34). |
| FieldSets.FieldSet.IsEmpty | core/src/main/java/org/canoegame/entity/FieldSet.java:47-49 | isEmpty holds exactly when no constant is held (orm lines 36-38). |
| FieldSets.FieldSet.Iterator | core/src/main/java/org/canoegame/entity/FieldSet.java:51-53 | A new iterator has every member still to come and nothing returned (orm lines 40-42). |
| FieldSets.FieldSet.Contains | core/src/main/java/org/canoegame/entity/FieldSet.java:84-92 | contains holds exactly for a non-null constant in the set; null and constants of another type give false (orm lines 73-81). |
| FieldSets.FieldSet.TypeCheck | core/src/main/java/org/canoegame/entity/FieldSet.java:195-199 | A constant of another type is a ClassCastException (orm lines 171-175). |
| FieldSets.FieldSet.Add | core/src/main/java/org/canoegame/entity/FieldSet.java:94-100 | null fails with a NullPointerException and a constant of another type with a ClassCastException, both changing nothing. Otherwise the constant is added, and the result is true exactly when it was absent (orm lines 83-89). |
| FieldSets.FieldSet.Remove | core/src/main/java/org/canoegame/entity/FieldSet.java:102-112 | null and constants of another type answer false with no change. Otherwise the constant is removed, and the result is true exactly when it was present (orm lines 91-101). |
| FieldSets.FieldSet.ContainsAll | core/src/main/java/org/canoegame/entity/FieldSet.java:114-122 | On a FieldSet, containsAll is the subset test, whatever the element types (orm lines 103-111). |
| FieldSets.FieldSet.AddAllBits | core/src/main/java/org/canoegame/entity/FieldSet.java:124-127 | addAll() as written: the set holds every number from 0 to 63. |
| FieldSets.FieldSet.AddAllConstants | core/src/main/java/org/canoegame/entity/FieldSet.java:124-127 | The corrected addAll(): the set holds exactly the element type's constants. |
| FieldSets.FieldSet.AddAll | core/src/main/java/org/canoegame/entity/FieldSet.java:129-144 | An empty set of another type answers false with no change, and a non-empty one is a ClassCastException. Otherwise the result is the union, answering whether the set changed (orm lines 113-128). |
| FieldSets.FieldSet.RemoveAll | core/src/main/java/org/canoegame/entity/FieldSet.java:146-156 | The set loses the other's constants, answering whether it changed; a set of another type changes nothing (orm lines 130-140). |
| FieldSets.FieldSet.RetainAll | core/src/main/java/org/canoegame/entity/FieldSet.java:158-171 | The set keeps only the common constants, answering whether it changed; another element type empties it (orm lines 142-155). |
| FieldSets.FieldSet.Clear | core/src/main/java/org/canoegame/entity/FieldSet.java:173-175 | clear leaves no constant (orm lines 157-159). |
| FieldSets.FieldSet.Clone | core/src/main/java/org/canoegame/entity/FieldSet.java:177-183 | A clone is a new, independent set of the same type holding the same constants. |
| FieldSets.FieldSet.Copy | core/src/main/java/org/canoegame/entity/FieldSet.java:177-183 | Object.clone's copy has the same element type, universe and mask as the original. |
| FieldSets.FieldSet.Equals | core/src/main/java/org/canoegame/entity/FieldSet.java:185-193 | On a FieldSet, equals is set equality: the same constants, so sets of different types are equal only when both are empty (orm lines 161-169). |
| FieldSets.TakeLowest | core/src/main/java/org/canoegame/entity/FieldSet.java:71-73 | next's step: the lowest bit is the first member in ascending order, and the rest lists the others. |
| FieldSets.ClearLast | core/src/main/java/org/canoegame/entity/FieldSet.java:79 | The iterator's remove clears exactly the last returned constant. |
| FieldSets.FieldSetIterator.constructor | core/src/main/java/org/canoegame/entity/FieldSet.java:60-62 | The iterator starts with the owner's mask unseen and nothing returned. |
| FieldSets.FieldSetIterator.HasNext | core/src/main/java/org/canoegame/entity/FieldSet.java:64-66 | hasNext holds exactly when some member is still to come (orm lines 53-55). |
| FieldSets.FieldSetIterator.Next | core/src/main/java/org/canoegame/entity/FieldSet.java:68-74 | With nothing left, a NoSuchElementException. Otherwise the least member left is taken off and returned through the universe, which fails for a number past its end (orm lines 57-63). |
| FieldSets.FieldSetIterator.Remove | core/src/main/java/org/canoegame/entity/FieldSet.java:76-81 | With nothing returned since the last remove, an IllegalStateException. Otherwise the last returned constant leaves the set and nothing counts as returned (orm lines 65-70). |
| Entities.CommittedLifecycle | core/src/main/java/org/canoegame/entity/Entity.java:154-158 | commit takes NEW to NORMAL and DELETED to Unavailable, and leaves the others; the result is NORMAL exactly for NEW and NORMAL. |
| Entities.DeletedLifecycle | core/src/main/java/org/canoegame/entity/Entity.java:126-137 | delete moves only NEW or NORMAL, always to a different lifecycle that commits as Unavailable. |
| Entities.Entity.constructor | core/src/main/java/org/canoegame/entity/Entity.java:15-19 | A new entity is Unavailable, with no flags, no manager and an empty change set. |
| Entities.Entity.SetEntityManager | core/src/main/java/org/canoegame/entity/Entity.java:21-27 | A second call fails with an IllegalStateException and changes nothing. The first call sets the manager. |
| Entities.Entity.ValidateRead | core/src/main/java/org/canoegame/entity/Entity.java:29-38 | Passes exactly with a manager whose access validation is off or when this is the task's local copy. With no manager it is a NullPointerException, otherwise an IllegalStateException. |
| Entities.Entity.ValidateWrite | core/src/main/java/org/canoegame/entity/Entity.java:40-53 | Fails with an IllegalStateException unless WRITABLE is set; after that it is validateRead. |
| Entities.Entity.HasFlag | core/src/main/java/org/canoegame/entity/Entity.java:101-103 | hasFlag holds exactly when the flag is set. |
| Entities.Entity.SetFlag | core/src/main/java/org/canoegame/entity/Entity.java:93-95 | The flag is added, and nothing else changes. |
| Entities.Entity.ClearFlag | core/src/main/java/org/canoegame/entity/Entity.java:97-99 | The flag is removed, and nothing else changes. |
| Entities.Entity.Change | core/src/main/java/org/canoegame/entity/Entity.java:105-118 | A failing validation is reported with no change. NEW records nothing. DELETED and Unavailable throw IllegalStateException. NORMAL adds the field to the changes and sets DIRTY. Changes are only ever recorded on a dirty NORMAL or DELETED entity. |
| Entities.Entity.Delete | core/src/main/java/org/canoegame/entity/Entity.java:124-138 | NEW becomes Unavailable and NORMAL becomes DELETED, both marked DIRTY and answering true. Other lifecycles answer false with no change; a failing validation is reported. |
| Entities.Entity.Commit | core/src/main/java/org/canoegame/entity/Entity.java:140-164 | The payload is all fields for NEW (the corrected addAll() of FieldSet.java lines 124-127), a snapshot of the changes for NORMAL (after exactly one revision increment), the empty set for DELETED, and null for Unavailable. The lifecycle then moves by CommittedLifecycle, the changes are emptied, and DIRTY and COMMITTING are cleared. |

## Left out

- Locks, `volatile` and every concurrency concern. Each operation runs to completion on its own. The read-lock/write-lock double check in `Group.get` is a single lookup.
- `System.currentTimeMillis` is the parameter `now`. Recency order is proved under the assumption that `now` never lies before a stored access time (`TtlEngine.Ordered`).
- TtlEngine's handler call inside the sweep: `expire` returns the expired values, and `Stores.Ttl.Forget` and `Prefixes.TtlPrefix.Forget` apply the handler. The sweep never calls back into the engine, so the order of effects is the same.
- TtlEngine nodes are handles into an arena rather than heap objects. A handle of another engine is modelled as a handle whose `list` flag is false.
- `Cache.getAll` (Cache.java:31-40) is a stub that returns null on both paths, so it is not modelled. `Group.getAll` is modelled instead.
- `new Cache<>(Class, ttl, canonical)`, `putNullIfAbsent`, `putPrefix` and `putOnStore(entity, expiring)` are called by the cache test but do not exist in Cache.java, so those test methods are not replayed.
- The `TtlPrefix` test scenario is not replayed. Its timing depends on `Thread.sleep` lasting strictly more than the ttl; `Scenarios.EngineScenario` shows the same effect on the engine with explicit clock steps.
- Stores.Ttl.Expire: evicted holders keep state `EXPIRING`, because the source never resets them.
- Stores.Ttl.PutHolder: requires the key to be absent. On a present key the source would leave the old node in the ring with no key naming it; `Group` only calls it for keys cached nowhere.
- Caches.Cache.PutOnFetch: does not restate the new state of the routed group's expiring engine. `Groups.Group.PutOnFetch`, which it calls, states it (`Moved`), but carrying it through the cache's ghost record of which objects each group owns costs more than the verifier's budget for this method.
- Caches.Cache.PutOnStore: does not restate the new state of the routed group's expiring engine, for the same reason; `Groups.Group.PutOnStore` states it (`Moved`).
- Groups.Got: does not itself say that the holders keep their values and states, because reading the holders inside this predicate puts `Caches.Cache.Get` over the verifier's budget; `Caches.Cache.Get` states it as a frame on the group's objects, and `Groups.Group.Get` through what it may modify.
- Prefixes.TtlPrefix.Add: when the key is added, the contract gives the new node at the head and the stamps, not the order of the rest of the ring (the kept part of the old ring without the removed keys' nodes); `Prefixes.TtlPrefix.Expire`, `CutPrefixed` and `Insert` state each step's ring.
- Reflection in FieldSet: `getEnumConstants`, the `ConcurrentHashMap` of universes and the class and superclass checks. An element type is a name with its constants' numbers, and the superclass case (a constant with its own body) is the same name.
- FieldSet field numbers are limited to 0..63 (`Index`). Java's `1L << n` would take `n` modulo 64.
- FieldSet bulk operations on a collection that is not a FieldSet fall back to `AbstractSet` (`super.containsAll` and the like). They are not modelled.
- `EntityManager` is not modelled: its methods are stubs over task-local storage. `getLocalCopy(getKey()) == this` is the parameter `isLocalCopy`, and only `isAccessValidation` is kept (`Entities.Manager`).
- Entity `read`, `copyWrite` and `clone` loop on `EntityManager.refer` and clone the entity, which are foreign calls, so they are not modelled. `createCommitment` is abstract; `Entities.Entity.Commit` returns the FieldSet it would be handed. `incrementRevision` is abstract and is modelled as a counter, and `getLifecycle` reads the field.
- Entities.Entity.Commit: hands over the corrected addAll() (`FieldSets.FieldSet.AddAllConstants`) for a NEW entity instead of the all-bits set as written (see Findings).
- Entity's `holder` field is not used in the modelled methods.
- The scheduler, the generated protobuf code, the protoc plugins and the demo stubs are not part of this model.

## Findings

| source | as written | input that shows it | evidently intended | confidence | as-written member | corrected member |
|---|---|---|---|---|---|---|
| core/src/main/java/org/canoegame/entity/Cache.java:23 | The constructor allocates `new Group[CONCURRENCY_LEVEL]` but never fills it, so every slot is null | any key with `groupCode() >= 0`: `getGroup` returns null and `get`/`putOnFetch`/`putOnStore`/`putOnDelete` throw NullPointerException | the constructor creates ten groups | not executed | Caches.NoGroupAsWritten | Caches.Cache.constructor |
| core/src/main/java/org/canoegame/entity/Cache.java:256 | The expire handler removes `v.get().getKey()`, the key of the holder's value | `putOnDelete(k)` on a cached key leaves a holder with a null value in the expiring tier; once it is idle more than ttl the handler throws NullPointerException in the sweep. The ring is not closed again, so the stale tail stays linked and every later expire, which starts each get without peek and each getAllWithPrefix of that tier, throws while the holder has no value | remove the holder's own key (`EntityHolder.getKey`) | not executed | Stores.StuckAfterEmptiedHolder | Stores.Ttl.Expire |
| core/src/main/java/org/canoegame/entity/FieldSet.java:124-127 | `addAll()` sets `elements = ~0L`, all 64 bits | an element type with constants numbered 1, 2, 3 (the test's `MockEntity.Field`): `size()` is 64, the iterator returns null for number 0 and throws ArrayIndexOutOfBoundsException at number 4; `Entity.commit` hands this set over for a NEW entity | hold exactly the element type's constants | not executed | FieldSets.AllBitsOverrun | FieldSets.ConstantsInUniverse, used by Entities.Entity.Commit |
