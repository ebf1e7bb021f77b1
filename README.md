# agori in Dafny

A model of agori, a bounded-memory approximate counter for 32-bit keys such as
IPv4 addresses. It has three parts:

- **The trie** (`trie.dfy`, module `Trie`). This is the path-compressed binary trie `BinTrie` of
  trie.go.
  - Nodes carry a segment of `keylen` key bits and a count, and are arranged by the next key bit.
  - `Increment` walks the key from bit 31 down. Depending on what it finds, it bumps the node of
    the full key, hangs a new leaf with the rest of the key, or splits a node whose segment
    disagrees.
  - `getBT`/`Get` look up bits 31..m of a key. `sumParent` adds the parent's count.
  - `Delete` removes a childless full-key node. Its parent keeps the removed node's count and
    absorbs the surviving sibling.
- **The recency list** (`lru.dfy`, module `Lru`). This is `LRU` of lru.go: a list, most recently
  used first, plus a map from key to list element.
  - `Add` touches or admits a key and evicts the back key on overflow.
  - `Delete` untracks a key.
  - `GetEnd` peeks at an offset from the back.
- **The coordinator** (`agori.dfy`, module `Agori`). This is `Agori` of agori.go.
  - Every `Insert` counts the key in the trie.
  - While the list has room, `Insert` only admits the key.
  - At capacity, `Insert` scans from the back for the first key whose importance is not above
    the threshold (sumParent: its count plus its parent's). It evicts that key from the list and
    the trie, then admits the new key.
  - `InsertD`/`GetD` pack four bytes into a key.

The trie is a recursive datatype `Tree` held in the field `root` of class `BinTrie`.
- A node is addressed by its path, a sequence of child slots from the root.
- Go's parent pointer is the path without its last slot.
- Rewriting linked nodes in place is `ReplaceAt` at that path.
- `Increment` and `GetBT` are `while` loops that mirror Go's (`complen` starts at -1). They are
  proved against node-by-node reference functions (`IncSpec`, `Find`).
- `Delete` is proved against `DeleteSpec`.
- `Wf` is the structural invariant. It says every non-root segment is non-empty and fits in the
  32 bits, its key is below 2^keylen, and its top bit is the slot it hangs in. Every operation
  preserves `Wf`.
- `Compact` (`trie_compact.dfy`, module `TrieCompact`) is the compression invariant. Below the
  root every node has no child or two, and every leaf ends exactly at bit 0. Increment keeps it.
  Delete keeps it except exactly when the root absorbs a sibling that has children of its own.

The recency list is class `LRU` with a sequence `l` and the set `m` of its keys. `Valid` says
`l` has no duplicates and `m` holds exactly its keys.

`Agori` is a class over a `BinTrie` and an `LRU`. `Insert` is proved against `InsertSpec`, a
function on the observable `State` (trie, list, number of inserts).

`bits.dfy` (module `Bits`) holds the uint32 bit arithmetic on `nat`: shifts, low bits, single
bits and key segments, with their lemmas.

## Model

| member | source | states |
|---|---|---|
| Trie.BinTrie.constructor | agori.go:25 | a new trie is a zeroed root without children, and is well formed |
| Trie.BinTrie.Increment | trie.go:21-121 | the walk keeps the trie well formed and leaves exactly the reference increment `IncSpec` of the old trie |
| Trie.BinTrie.GetBT | trie.go:123-158 | found exactly when bits 31..m of k end on a node boundary (`Find`), and then returns that node's path |
| Trie.BinTrie.Get | trie.go:160-169 | reports (true, count) of the node found, else (false, 0) |
| Trie.BinTrie.SumParent | trie.go:171-180 | reports (true, node's count + parent's count) of the node found, else (false, 0) |
| Trie.BinTrie.Delete | trie.go:189-236 | keeps the trie well formed and leaves exactly `DeleteSpec`: only a childless full-key node is unlinked, and its parent absorbs the sibling |
| Trie.Find | trie.go:123-158 | a found path leads to a node and is never the root's own (empty) path |
| Trie.FindFrom | trie.go:125-151 | a found path leads to a node, and is empty exactly when no bit is left to match |
| Trie.Agree | trie.go:66-67 | the number of leading segment bits the key follows is at least 1 and at most keylen; up to there they agree, and the next bit differs |
| Trie.SetChild | trie.go:87-89 | replacing one child keeps the other child, the key, keylen and count |
| Trie.LeafWf | trie.go:29-42 | the new leaf holding the rest of k fits the slot of k's next bit |
| Trie.SplitWf | trie.go:92-111 | the split node, with the high bits above the low part of the old node and the new leaf, keeps its place well formed |
| Trie.IncSpecWf | trie.go:11-15 | increment keeps the trie well formed: every key below 2^keylen, segments within 32 bits |
| Trie.AbsorbWf | trie.go:221-235 | absorbing a child appends its segment without wrapping the uint32 key or uint8 keylen, and keeps the place well formed |
| Trie.UnlinkWf | trie.go:202-235 | removing a leaf below a non-root parent keeps the parent's place well formed |
| Trie.RootUnlinkWf | trie.go:202-235 | removing a leaf below the root keeps the trie well formed, with the root's key and keylen wrapping as uint32 and uint8 |
| Trie.DeleteSpecWf | trie.go:189-236 | delete keeps the trie well formed |
| Trie.IncAtIsSpec | trie.go:24-120 | the bit-by-bit walk of Increment computes the node-by-node reference increment |
| Trie.FindAtIsSpec | trie.go:124-157 | the bit-by-bit walk of getBT computes the node-by-node reference search |
| Trie.SumChildren | trie.go:182-187 | the total count of a subtree covers the node's own count and each child's total |
| Trie.Split | trie.go:92-111 | the split node has count 0 and the high keylen − complen bits; the old node keeps its count and children with the low complen bits, in the slot of its bit complen − 1; the new leaf holds the rest of k in the other slot |
| Trie.Absorb | trie.go:220-235 | the parent takes over the absorbed child's children, and its total count is its own plus the child's total |
| Trie.Unlink | trie.go:206-235 | the parent ends up with the sibling's children (none if there is no sibling), and the removed leaf's count is kept in the parent's total |
| Trie.AtPrefix | trie.go:177 | a node at a non-empty path has a parent, the node at the path without its last slot |
| TrieProps.GetSpecLookup | trie.go:163-169 | Get is present exactly when the walk down bits 31..m ends on a node, with that node's count, and (false, 0) otherwise |
| TrieProps.SumParentGet | trie.go:174-180 | sumParent finds a node exactly when Get does, reports at least Get's count plus the parent's, and m >= 32 is always absent |
| TrieProps.LeafHoldsRest | trie.go:29-42 | the new leaf at bit i holds k mod 2^(i+1) in i+1 bits with count 1 |
| TrieProps.NewLeafCount | trie.go:29-59 | the new leaf is reached only by the full-key lookup of k, which finds count 1 |
| TrieProps.SplitAbsorb | trie.go:92-101 | split gives the new node the high bits and the old node the low complen bits; high·2^complen + low is the old key, the lengths add up, and absorbing the low part back restores the old node |
| TrieProps.JoinSplit | trie.go:94-101 | rejoining the two halves in uint32 and uint8 arithmetic gives back the key and keylen |
| TrieProps.SplitSum | trie.go:69-111 | a split adds a count-0 node and a count-1 leaf and keeps everything else |
| TrieProps.IncSum | trie.go:21-121 | Increment raises sumChildren of the root by exactly 1 |
| TrieProps.IncCount | trie.go:21-121 | for every lookup depth, the full key of k gains 1 (or appears with 1), every count found before is kept, and only a masked lookup may newly find a count-0 node |
| TrieProps.IncGetSelf | trie.go:119-120 | after Increment(k), Get(k, 0) is present with one more than before (1 if k was absent) |
| TrieProps.IncGetOther | trie.go:21-121 | Increment(k) leaves Get(k', 0) unchanged for every other key |
| TrieProps.IncGetMasked | trie.go:21-121 | a present masked lookup keeps its count; an absent one can only become a count-0 hit |
| TrieProps.FindMask | trie.go:125-157 | keys that agree on bits 31..m get the same getBT and Get answers |
| TrieProps.UnlinkSum | trie.go:207-223 | removing a childless node and absorbing the sibling keep the parent subtree's total count |
| TrieProps.ReplaceSum | trie.go:202-235 | replacing a node changes the total count by the difference of the two subtrees |
| TrieProps.DeleteSum | trie.go:189-236 | Delete keeps sumChildren of the root |
| TrieProps.DeleteLeaf | trie.go:196-235 | helper unfolding one branch of `DeleteSpec`: deleting an existing childless full-key node unlinks it from its parent |
| TrieProps.DeleteChanges | trie.go:196-200 | Delete changes the trie exactly when k's full-key node exists and has no children |
| TrieProps.UnlinkSize | trie.go:207-235 | unlinking a leaf, and absorbing a sibling, remove nodes from the parent's subtree |
| TrieProps.ReplaceSize | trie.go:202-235 | replacing a node changes the node count by the difference of the two subtrees |
| TrieProps.DeleteGone | trie.go:207-231 | when the leaf's parent is not the root, Get(k, 0) is absent after Delete(k) |
| TrieProps.UnlinkOnPath | trie.go:207-231 | unlinking the childless node a lookup found, below a non-root parent, makes that lookup fail |
| TrieProps.RootAbsorbLosesAll | trie.go:233-234 | when the root absorbs a sibling, the trie stays well formed but no key at all is present after Delete |
| TrieProps.ShallowFind | trie.go:125-151 | a full-key lookup fails below a node whose children are well formed both at its own depth and at least one bit deeper, as after the root absorbs a segment |
| TrieProps.ShallowContinue | trie.go:138-151 | a full-key lookup fails from a child that is well formed at two different depths |
| TrieProps.UnlinkSplit | trie.go:92-111 | deleting the leaf a split just hung restores the split node, with its count raised by 1 |
| TrieProps.RootDeleteLosesSibling | trie.go:233-234 | when the root absorbs a surviving full-key sibling, that key was present before and no key is present after |
| Lru.LRU.constructor | lru.go:13-20 | a new list is empty, with an empty map and capacity size |
| Lru.LRU.Add | lru.go:26-46 | keeps no duplicates and map = list keys, and gives exactly `AddSpec`'s list, eviction flag and victim |
| Lru.LRU.Delete | lru.go:48-56 | returns whether the key was tracked, and removes just that key, keeping the others in order |
| Lru.LRU.GetEnd | lru.go:58-68 | returns the key offset places from the back, or 0 once the walk passes the front |
| Lru.IndexOf | lru.go:28-29 | the element the map gives for a tracked key is its first position in the list |
| Lru.RemoveAt | lru.go:48-56 | removing the element at a key's position is removing that key, when keys are distinct |
| Lru.WithoutKeys | lru.go:48-56 | removal keeps the keys distinct, drops exactly the key from the key set, and shortens the list by one when it was there |
| Lru.WithoutAbsent | lru.go:55 | removing an untracked key changes nothing |
| Lru.AddTouch | lru.go:28-32 | a tracked key moves to the front; returns (false, 0); length, key set and the order of the rest are kept |
| Lru.AddNew | lru.go:34-43 | a new key goes to the front; exactly when the length then exceeds s, the back key is removed from list and map and returned with true |
| Lru.FrontNoDup | lru.go:34-35 | pushing an untracked key to the front keeps the keys distinct |
| Lru.AddBound | lru.go:37-45 | a list with length <= s still has length <= s after Add |
| Lru.FullEvicts | lru.go:22-46 | Add evicts exactly when the key is new and the list is full (IsFull) |
| Lru.LRU.IsFull | lru.go:22-24 | true exactly when Add of any new key would evict one |
| Lru.EvictsEnd | lru.go:37-68 | the key a full Add evicts is the tracked key GetEnd(0) reports |
| Lru.AddKeys | lru.go:26-46 | Add keeps the list duplicate free |
| Agori.Agori.constructor | agori.go:23-31 | a new Agori has an empty trie, an empty list of capacity numNodes and no inserts |
| Agori.Agori.Default | agori.go:19-21 | NewAgoriD has capacity 256 and threshold 1/32 |
| Agori.Agori.Insert | agori.go:75-109 | leaves exactly `InsertSpec` of the old state, or reports that Go's scan never ends; the list stays within numNodes |
| Agori.Agori.AdmitKey | agori.go:80-107 | Add(k) to the list, and delete from the trie any key it evicts |
| Agori.Agori.FindVictim | agori.go:88-98 | finds a victim exactly when the reference scan `ScanFrom` does, and returns that key |
| Agori.Agori.Get | agori.go:111-114 | is the trie's Get(k, 0), whatever the list holds |
| Agori.Agori.InsertD | agori.go:68-72 | is Insert of the packed key |
| Agori.Agori.GetD | agori.go:116-119 | is Get of the packed key |
| Agori.InsertSpec | agori.go:75-78 | an insert that ends keeps the trie well formed and raises numAdded by exactly 1 |
| Agori.Admit | agori.go:80-85 | admission keeps the trie well formed |
| Agori.ScanVictim | agori.go:88-98 | the victim is the first key from the back that is not exempt; every skipped key has sumParent above the threshold; a victim past the front is the sentinel 0 |
| Agori.ScanDiverges | agori.go:91-98 | the scan runs for ever only when every offset is exempt, and then key 0 is in the trie |
| Agori.InsertNotFull | agori.go:79-85 | below capacity Add never evicts, so insert is Increment plus Add and the "Incorrectly deleting" branch is unreachable |
| Agori.InsertNotFullCounts | agori.go:76-85 | below capacity, Get(k) after an insert is one more than before |
| Agori.InsertKeepsList | agori.go:79-108 | the list stays duplicate free and within numNodes keys |
| Agori.InsertFull | agori.go:99-107 | helper unfolding the at-capacity branch of `InsertSpec`: at capacity the victim is removed from the list and the trie before k is admitted |
| Agori.InsertTrackedShrinks | agori.go:86-107 | at capacity, re-inserting a tracked key that is not the victim still evicts the victim, so the list shrinks by one |
| Agori.InsertMany | agori.go:75-109 | a run of inserts that ends keeps the trie well formed |
| Agori.EmptyAbsent | agori.go:25 | the fresh trie is well formed and finds nothing |
| Agori.RepeatedInsert | agori_test.go:35-46 | n inserts of one key into a fresh Agori of capacity >= 2 count it n times and leave only it in the list |
| Agori.InsertAgain | agori_test.go:35-46 | one more insert of the only tracked key counts it once more |
| Agori.Threshold | agori.go:93 | the threshold is the floor of thrNum·numAdded/thrDen |
| Agori.Pack | agori.go:71 | the byte packing never wraps: it is d1·2^24 + d2·2^16 + d3·2^8 + d4 |
| Agori.PackOctets | agori.go:71 | the bytes can be read back from a packed key |
| Agori.OctetsPack | agori.go:118 | every key is the packing of its bytes, so the packing is a bijection |
| TrieCompact.FullDepth | trie.go:29-42 | a compact subtree ends no later than bit 0 |
| TrieCompact.FullUnique | trie.go:29-42 | a compact subtree fixes the depth its leaves end at |
| TrieCompact.EmptyCompact | agori.go:25 | the new trie is compact |
| TrieCompact.IncFromFull | trie.go:24-120 | the walk of Increment below a compact node keeps it compact |
| TrieCompact.ResumeFull | trie.go:66-111 | the step below a compact child, descending or splitting, leaves a compact child |
| TrieCompact.SplitFull | trie.go:92-111 | a split of a compact node gives a compact node with two children |
| TrieCompact.IncSpecCompact | trie.go:21-121 | Increment keeps the trie compact |
| TrieCompact.AtFull | trie.go:189-200 | every node of a compact trie below the root is compact at its own depth |
| TrieCompact.CompactReplace | trie.go:202-235 | replacing a node below the root by one compact at the same depth keeps the trie compact |
| TrieCompact.UnlinkFull | trie.go:220-235 | a compact non-root parent of a removed leaf absorbs its sibling and stays compact |
| TrieCompact.RootDelete | trie.go:233-234 | removing a leaf at the root keeps the trie compact exactly when the absorbed sibling has no children |
| TrieCompact.DeleteCompact | trie.go:189-236 | Delete keeps the trie compact exactly when it does not make the root absorb a sibling with children |
| Agori.Localhost | agori_test.go:13-31 | InsertD(127, 0, 0, 1) and Insert(2130706433) use the same key |

## Left out

- The print helpers of trie.go (`PrintDebug`, `PrintContents`, `printWithPrefix`, `uint32ToIP`) and `Agori.Print` only format output.
- The "Incorrectly deleting" messages printed by `Insert` are output only. The branch itself is modelled in `AdmitKey`.
- `InsertS`/`GetS` parse dotted-decimal strings with `strings.Split` and `strconv.ParseUint`. These are library code and are not part of this model. `InsertD`/`GetD` are modelled.
- `reclaimExemptionThreshold` is a float32. The model takes it as a fraction thrNum/thrDen, and the threshold is floor(thrNum·numAdded/thrDen). float32 rounding of `numAdded` above 2^24 and of the product is not modelled.
- Counts (`val`, Go `uint`) and `numAdded` (Go `int`) are unbounded naturals. Their overflow is not modelled.
- The unused `numSkip` field of `Agori` is not modelled.
- Node parent pointers are not stored. A node's parent is found by its path, so pointer aliasing between nodes is not modelled.
- `container/list` and the Go map are modelled as a sequence and the set of its keys.
- The randomized survival test and the benchmarks of agori_test.go depend on `math/rand` and are not modelled.
- Agori.Agori.Insert: Go's eviction scan never ends when every tracked key is exempt and key 0, which GetEnd reports past the front, is in the trie and exempt too (key 0 need not be tracked: a first Insert(0) at capacity 0 is one case). There the model returns `terminates = false` instead of looping. The trie increment and `numAdded` are already updated by then.
- TrieProps.DeleteGone: covers a parent below the root only. When the parent is the root, Delete behaves as written, and `RootAbsorbLosesAll` shows that after the root absorbs a sibling no key at all is present.
- Trie.BinTrie.Delete: when the deleted leaf's parent is the root, the root absorbs the sibling's segment. Walks skip the root's segment, so those keys become unreachable. This is modelled as written, not corrected.
- Trie.Wf: the compression invariant is not part of `Wf` and not a class invariant of `BinTrie`, because a Delete that makes the root absorb a sibling with children breaks it. It is stated separately as `Compact`, with `IncSpecCompact` and `DeleteCompact`.
- Trie.Wf: the root's own key and keylen are only bounded by uint32 and uint8, because the walks never read them.
