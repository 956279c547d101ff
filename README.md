# pfx prefix trees in Dafny

A model of the `pfx` crate's byte-keyed prefix tree: the map
(`PrefixTreeMap`, src/map.rs), its node type, its entry protocol, its
iterators, and the set built on it (`PrefixTreeSet`, src/set.rs). The model
proves properties about all of these.

## The model

- **Keys.** Keys are any type `K` that can be viewed as bytes (`AsRef<[u8]>`
  in Rust). The view is a function `keyBytes: K -> seq<bv8>`, fixed when a map
  is created. Lookups, removals and prefix queries take the key bytes
  directly, as the Rust methods take any `&Q` that can be viewed as bytes.
- **Nodes** (`nodes.dfy`, module `Nodes`). A `Node` is a value: an optional
  stored `(key, value)` pair, the byte on the edge from its parent
  (`key_fragment`), and its children sorted strictly by fragment. A node owns
  its children exclusively, so the model treats updates as functions that
  return a new tree:
  - `SearchOrInsert` and `WithItem` build the new tree;
  - `Search` and `BinarySearch` read it;
  - the method `Compact` prunes it with the same recursion as `Node::compact`.

  Each tree has three ghost views:
  - `Contents`: a map from byte paths to the stored pairs;
  - `InOrder`: the pairs in the order the iterators yield them;
  - `InOrderKeys`: the paths of those pairs.
- **The map** (`map.dfy`, module `Maps`). `PrefixTreeMap` is a class with two
  mutable fields, `root` and `len`; `Items()` is `Contents(root)`. The
  invariant `Valid()` says:
  - the tree is well formed;
  - every stored pair sits under the bytes of its own key;
  - `len` counts the pairs.

  An `Entry` is a handle to a node on a path: `Vacant(key, path)` or
  `Occupied(path)`. `EntryFor` creates the nodes on that path, as `entry` does.
  The vacant and occupied operations then write that node's item slot, and
  `len` is adjusted with it.
- **Bulk operations.** The set-algebra operations are loops over the other
  collection, modelled as a `seq`. Each is proved against a fold over that
  sequence:
  - `UnionAll` for union;
  - `ToggleAll` for symmetric difference;
  - `Without` and `Restricted` for difference and intersection.

  Lemmas then say what each fold means.
- **Iterators** (`iterators.dfy`, module `Iterators`). A `NodeIter` holds a
  `Cursor`, which has three parts:
  - the item not yet yielded;
  - the children not yet entered;
  - the boxed iterator of the current child.

  `NextIn` follows `NodeIter::next` step by step, and each step yields the
  head of the pending sequence. `Iter` adds the exact count used by `len`.
- **The set** (`set.dfy`, module `Sets`). `PrefixTreeSet` wraps a map whose
  values are `()`. Its members are the key paths of that map.
- **Map intersection drains the matched pairs from `self`.** `intersection`
  removes each pair whose key occurs in `other` from `self` and collects it
  into the result. The model states both sides: the result holds the
  matched pairs, and `self` keeps only the unmatched ones. The Rust method
  consumes `self`, so nothing can observe that remainder.

## Code and documentation disagree

- **Union keeps the existing key.** The union documentation says that
  elements already in the map "will be overwritten by `other`". The code
  inserts through `OccupiedEntry::insert`, which replaces only the value and
  keeps the key already stored. The model follows the code:
  `Maps.UnionAllKeepsKey` proves the original key is kept, and
  `Sets.PrefixTreeSet.UnionInPlace` proves that a set member keeps its
  stored item.

## Model

| member | source | states |
|---|---|---|
| Nodes.Prefixed | src/map.rs:449-453 | the pairs of a child, seen from its parent: a key is present iff it starts with the child's fragment and its tail is in the child, with the same pair |
| Nodes.WithFragment | src/map.rs:461-467 | a fresh node is well formed, has the given fragment and stores no pair |
| Nodes.Root | src/map.rs:456-459 | the root of a new tree is well formed and stores no pair |
| Nodes.BinarySearch | src/map.rs:509 | `binary_search_by_key` on the fragments: `Found(i)` points at the byte; `Missing(i)` is an insertion index within bounds |
| Nodes.Middle | src/map.rs:509 | the probe index of a bisection step lies in the window being searched |
| Nodes.Bisect | src/map.rs:509 | a found index lies in the window and holds the byte; a miss lies within the window |
| Nodes.BisectMisses | src/map.rs:509 | on sorted fragments, a miss returns the position that keeps the sequence sorted |
| Nodes.MissesRight | src/map.rs:509 | after a probe below the byte, a miss in the right half is a correct insertion index |
| Nodes.MissesLeft | src/map.rs:509 | after a probe above the byte, a miss in the left half is a correct insertion index |
| Nodes.NarrowFromLeft | src/map.rs:509 | on sorted fragments, everything at or before a probe below the byte is below the byte |
| Nodes.NarrowFromRight | src/map.rs:509 | on sorted fragments, everything at or after a probe above the byte is above the byte |
| Nodes.BinarySearchMisses | src/map.rs:509 | on sorted fragments, `Missing(i)` means every fragment before `i` is below the byte and every one from `i` on is above it |
| Nodes.BinarySearchExact | src/map.rs:509 | on sorted fragments, the search finds the byte iff it is present, and reports its unique index |
| Nodes.Search | src/map.rs:501-512 | no bytes left gives the node itself; a first byte with no matching child gives nothing; a found node carries the last byte as its fragment and is well formed |
| Nodes.ForestKeyHead | src/map.rs:449-453 | every path stored below a list of children starts with one of their fragments |
| Nodes.FragsTail | src/map.rs:449-453 | dropping the first child keeps the remaining fragments sorted |
| Nodes.PrefixedAt | src/map.rs:449-453 | the fragment followed by `k` is stored under the child iff `k` is stored in the child, with the same pair |
| Nodes.ForestContentsAt | src/map.rs:501-512 | the `i`-th child's fragment followed by `k` is stored among the children iff `k` is stored in that child, with the same pair |
| Nodes.ForestContentsFirst | src/map.rs:501-512 | the same for the first child |
| Nodes.TailKeysAbove | src/map.rs:449-453 | every path under the later children starts above the first child's fragment |
| Nodes.ForestContentsSkip | src/map.rs:501-512 | a path that does not start with the first child's fragment is found among the children iff it is found among the later ones |
| Nodes.LookupContents | src/map.rs:38-45 | walking the path and reading the item slot gives exactly the stored pair for that key, or nothing |
| Nodes.ContentsByLookup | src/map.rs:38-45 | two trees with the same lookups hold the same pairs |
| Nodes.SpliceIncreasing | src/map.rs:536-538 | inserting a byte at the index the search reported keeps the fragments strictly sorted |
| Nodes.SpliceAt | src/map.rs:536-538 | where each element of the spliced sequence comes from |
| Nodes.SplicedIncreasing | src/map.rs:536-538 | a sequence built by splicing a byte between smaller and larger ones is strictly sorted |
| Nodes.ChildSearch | src/map.rs:501-512 | searching a key that starts with a child's fragment is searching that child for the rest of the key |
| Nodes.ReplaceChild | src/map.rs:543 | replacing a child by a well-formed node with the same fragment keeps the fragments and keeps the node well formed |
| Nodes.SpliceChild | src/map.rs:536-538 | inserting a well-formed node at the reported position keeps the node well formed |
| Nodes.SearchOrInsert | src/map.rs:527-544 | the result is well formed, keeps the node's own item and fragment, and has a node at the path |
| Nodes.SpliceSearch | src/map.rs:536-543 | after splicing in the new child, the path is found and the node is well formed |
| Nodes.ReplaceChildLookup | src/map.rs:543 | after replacing a child, keys under its fragment are looked up in the new child and all other keys are unchanged |
| Nodes.SpliceChildLookup | src/map.rs:536-538 | after splicing in a child, keys under its fragment are looked up in it and all other keys are unchanged |
| Nodes.SearchOrInsertKeeps | src/map.rs:527-544 | search-or-insert changes no lookup: the nodes it creates are empty |
| Nodes.SpliceKeeps | src/map.rs:536-538 | splicing in a child that adds no pair changes no lookup |
| Nodes.SearchOrInsertExisting | src/map.rs:527-544 | when the path already exists, the tree is left as it was |
| Nodes.SearchOrInsertIdempotent | src/map.rs:527-544 | a second search-or-insert of the same path changes nothing |
| Nodes.SearchOrInsertContents | src/map.rs:196-206 | `entry` adds and removes no pair |
| Nodes.WithItem | src/map.rs:673-677 | writing the slot at a path keeps the tree well formed and the path present, and does nothing when the path is absent |
| Nodes.SameHead | src/map.rs:501-512 | two paths with the same first byte are equal iff their tails are equal |
| Nodes.WithItemAt | src/map.rs:714-721 | after writing the slot at `path`, looking up `path` gives the new slot value and every other key is unchanged |
| Nodes.WithItemContents | src/map.rs:714-721 | after writing the slot, the stored pairs are the old ones with `path` updated or removed |
| Nodes.SearchAppend | src/map.rs:501-512 | searching `p + k` is searching `p` and then `k` from the node found |
| Nodes.SubtreeContents | src/map.rs:161-173 | the node at `p` holds exactly the pairs whose keys start with `p`; if there is none, no key starts with `p` |
| Nodes.PrefixedEmpty | src/map.rs:471-481 | a child holds no pair iff its prefixed view is empty |
| Nodes.AnyItem | src/set.rs:39-47 | a node answers "some key lies here" iff its subtree stores a pair |
| Nodes.AnyChildItem | src/set.rs:39-47 | a list of children answers "some key lies here" iff some child's subtree stores a pair |
| Nodes.LexLessPrefix | src/map.rs:106-108 | a proper prefix comes first in byte order |
| Nodes.LexLessAt | src/map.rs:106-108 | at the first differing byte, the smaller byte decides the order |
| Nodes.LexLessCases | src/map.rs:106-108 | when `a` comes first, it is a proper prefix of `b` or is smaller at the first difference |
| Nodes.LexLessIrreflexive | src/map.rs:106-108 | no key comes before itself |
| Nodes.LexLessPrefixed | src/map.rs:106-108 | a common prefix does not change the order |
| Nodes.AscendingConcat | src/map.rs:106-108 | two ascending lists, each wholly below the next, join into an ascending list |
| Nodes.AscendingCard | src/map.rs:106-108 | an ascending list of paths has no duplicates |
| Nodes.LexLessAsymmetric | src/map.rs:106-108 | if one key comes before another, the second does not come before the first |
| Nodes.AscendingTail | src/map.rs:106-108 | dropping the first path of an ascending list keeps it ascending |
| Nodes.AscendingUnique | src/map.rs:106-108 | two ascending lists with the same paths are equal |
| Nodes.SameContentsSameOrder | src/map.rs:106-111 | two well-formed trees storing the same pairs iterate them in the same order |
| Nodes.KeysLength | src/map.rs:560-572 | the walk lists one path per pair |
| Nodes.ForestKeysLength | src/map.rs:560-572 | the same for a list of children |
| Nodes.ForestKeysStart | src/map.rs:560-572 | each listed path under the children starts with a child's fragment, and the first child's paths start with its own |
| Nodes.KeyAt | src/map.rs:560-572 | the `i`-th pair of the walk is stored under the `i`-th listed path |
| Nodes.ForestKeyAt | src/map.rs:560-572 | the same for a list of children |
| Nodes.KeyListed | src/map.rs:560-572 | every stored path is listed by the walk |
| Nodes.ForestKeyListed | src/map.rs:560-572 | the same for a list of children |
| Nodes.KeysAscending | src/map.rs:106-111 | the walk lists the paths in strictly ascending byte order |
| Nodes.ForestKeysAscending | src/map.rs:106-111 | the same for a list of children with sorted fragments |
| Nodes.ExtendedAscending | src/map.rs:106-111 | putting the same byte in front of every path keeps the order |
| Nodes.LaterChildAfter | src/map.rs:106-111 | every path under a later child comes after every path that starts with the first child's fragment |
| Nodes.Listing | src/map.rs:106-111 | the walk lists every stored pair exactly once, each under its own path, in ascending byte order |
| Nodes.PrunedSnoc | src/map.rs:474-478 | `retain_mut` processes children in order: appending a child appends its compacted form iff it is useful |
| Nodes.PrunedEmpty | src/map.rs:471-481 | pruning leaves no child iff the children store no pair |
| Nodes.HoldsItemUnfold | src/map.rs:480 | a node is useful iff it has an item or a useful child |
| Nodes.Compact | src/map.rs:471-481 | `Node::compact` returns the compacted node, and reports it useful iff its subtree stores a pair |
| Nodes.CompactedContents | src/map.rs:176-183 | compaction keeps every stored pair |
| Nodes.PrunedContents | src/map.rs:471-481 | dropping useless children keeps every stored pair |
| Nodes.EmptyInOrder | src/map.rs:471-481 | a useless node yields nothing |
| Nodes.ForestEmptyInOrder | src/map.rs:471-481 | children that store nothing yield nothing |
| Nodes.CompactedInOrder | src/map.rs:176-183 | compaction keeps the iteration sequence |
| Nodes.PrunedInOrder | src/map.rs:471-481 | dropping useless children keeps the iteration sequence |
| Nodes.CompactedWellFormed | src/map.rs:471-481 | compaction keeps the tree well formed |
| Nodes.PrunedFrags | src/map.rs:474-478 | pruned children keep fragments drawn from the originals |
| Nodes.ConsIncreasing | src/map.rs:449-453 | a byte below all of a sorted sequence can be put in front of it |
| Nodes.FirstFragBelow | src/map.rs:449-453 | the first fragment is below all later ones |
| Nodes.ConsWellFormed | src/map.rs:474-478 | a kept child in front of kept, sorted, well-formed children gives a sorted, well-formed list |
| Nodes.ConsFrags | src/map.rs:449-453 | the fragments of a child put in front of a list |
| Nodes.ConsEach | src/map.rs:474-478 | every child of the combined list is well formed |
| Nodes.PrunedWellFormed | src/map.rs:474-478 | retained children stay sorted and well formed |
| Nodes.CompactedTight | src/map.rs:176-183 | after compaction, no node without a pair is left in the tree except possibly the root |
| Nodes.PrunedTight | src/map.rs:474-478 | every retained child is useful and tight |
| Nodes.TightCompacted | src/map.rs:176-183 | compacting a tight tree changes nothing |
| Nodes.TightPruned | src/map.rs:474-478 | pruning useful, tight children changes nothing |
| Nodes.CompactedIdempotent | src/map.rs:176-183 | compacting twice is compacting once |
| Iterators.Start | src/map.rs:560-572 | a fresh node iterator holds the node's own item |
| Iterators.StartPending | src/map.rs:560-572 | a fresh node iterator yields the subtree's pairs in walk order |
| Iterators.StartWeight | src/map.rs:560-572 | a fresh iterator's measure is below the subtree's size, so `next` terminates |
| Iterators.NodeIter.constructor | src/map.rs:560-572 | `Node::iter`: the remaining sequence is the subtree's walk |
| Iterators.NodeIter.Empty | src/map.rs:161-172 | the iterator `prefix_iter` returns for a missing prefix yields nothing |
| Iterators.NodeIter.Next | src/map.rs:781-809 | yields the head of the remaining sequence and drops it, or nothing once empty |
| Iterators.ShiftHead | src/map.rs:781-809 | dropping the head of the first part drops the head of the whole |
| Iterators.TakeOwn | src/map.rs:782-785 | the node's own item comes first, and taking it lowers the measure |
| Iterators.TakeCurrent | src/map.rs:787-792 | without an own item, the current child's next pair comes next |
| Iterators.Enter | src/map.rs:794-808 | entering the next child once the current one is spent yields the same sequence with a smaller measure |
| Iterators.NextIn | src/map.rs:781-809 | `NodeIter::next` on a state: yields the head of the pending pairs and leaves the rest, or nothing when none is left |
| Iterators.Iter.constructor | src/map.rs:109-111 | `iter`: the count equals the number of pairs to come |
| Iterators.Iter.Len | src/map.rs:865-867 | `len` is the number of pairs still to come |
| Iterators.Iter.Next | src/map.rs:851-855 | yields the next pair and lowers the count by one, keeping count and remaining pairs in step |
| Maps.UnionAllKeys | src/map.rs:233-240 | after a union, the keys are the old keys plus the keys of `other` |
| Maps.UnionAllKeepsKey | src/map.rs:233-240 | a key already present keeps its original key object; only values are replaced |
| Maps.UnionAllLast | src/map.rs:233-240 | the value stored for a key is the one from its last occurrence in `other` |
| Maps.UnionAllUntouched | src/map.rs:233-240 | pairs whose key is not in `other` are unchanged |
| Maps.UnionAllSelf | src/map.rs:233-240 | the union with pairs already present changes nothing |
| Maps.DistinctTail | src/map.rs:233-240 | a list with distinct keys splits into its head and a tail without that key |
| Maps.UnionAllDistinct | src/map.rs:319-345 | building from distinct pairs stores each pair under its key |
| Maps.UnionAllOrder | src/lib.rs:60-99 | building a map from the same distinct pairs in any order gives the same map |
| Maps.SameMembers | src/lib.rs:60-99 | two permutations have the same elements |
| Maps.UnionAllAt | src/lib.rs:60-99 | each pair of a distinct list is stored under its key after building |
| Maps.ToggleAllKeys | src/map.rs:290-300 | with distinct keys, the result keys are those in exactly one of `self` and `other` |
| Maps.ToggleAllKept | src/map.rs:290-300 | pairs whose key is not in `other` are unchanged |
| Maps.ToggleAllAdded | src/map.rs:290-300 | a key in `other` but not in `self` is added with its pair |
| Maps.ToggleAllParity | src/map.rs:290-300 | a key ends up present iff it started present and occurs an even number of times in `other`, or the reverse |
| Maps.ToggleAllSelf | src/lib.rs:203 | the symmetric difference with the map's own keys is empty |
| Maps.WithoutSnoc | src/map.rs:266-275 | removing one more key removes just that key |
| Maps.RestrictedSnoc | src/map.rs:244-254 | intersecting with one more key adds that key's pair if it was present |
| Maps.WithoutStep | src/map.rs:266-275 | one loop step of difference removes `other[i]` |
| Maps.IntersectionStep | src/map.rs:244-254 | one loop step of intersection moves `other[i]` from `self` to the result if present |
| Maps.SubtreeItem | src/map.rs:161-173 | the `i`-th pair under the node at `p` is stored under `p` plus the `i`-th listed path, which belongs to its key |
| Maps.Walked | src/map.rs:560-572 | every stored pair appears in the walk |
| Maps.SubtreeCovers | src/map.rs:161-173 | every pair whose key starts with `p` appears in the walk of the node at `p` |
| Maps.SubtreeListing | src/map.rs:158-173 | the walk of the node at `p` lists exactly the pairs whose key starts with `p`, in ascending key order |
| Maps.NoSubtree | src/map.rs:161-173 | when no node is at `p`, no stored key starts with `p` |
| Maps.PrefixTreeMap.constructor | src/map.rs:23-25 | `new`: an empty map with count 0 |
| Maps.PrefixTreeMap.Len | src/map.rs:28-30 | the count is the number of stored pairs |
| Maps.PrefixTreeMap.IsEmpty | src/map.rs:33-35 | true iff no pair is stored |
| Maps.PrefixTreeMap.GetEntry | src/map.rs:38-45 | the stored pair for the key bytes, or nothing; a stored key has those bytes |
| Maps.PrefixTreeMap.Get | src/map.rs:58-65 | the stored value for the key bytes, or nothing |
| Maps.PrefixTreeMap.ContainsKey | src/map.rs:78-85 | true iff a pair is stored under the key bytes |
| Maps.PrefixTreeMap.EntryFor | src/map.rs:196-206 | creates the path with no pair added; the entry is occupied iff the key is present, and a vacant one holds the key |
| Maps.PrefixTreeMap.VacantInsert | src/map.rs:673-677 | stores `(key, value)` at the path, adds one to the count and returns the value |
| Maps.PrefixTreeMap.OccupiedKey | src/map.rs:697-699 | the stored key, whose bytes are the path |
| Maps.PrefixTreeMap.OccupiedGet | src/map.rs:701-703 | the stored value |
| Maps.PrefixTreeMap.OccupiedInsert | src/map.rs:714-716 | replaces the value, keeps the stored key and the count, and returns the old value |
| Maps.PrefixTreeMap.OccupiedRemoveEntry | src/map.rs:718-721 | takes the pair out, lowers the count by one and returns the pair |
| Maps.PrefixTreeMap.OccupiedRemove | src/map.rs:723-725 | takes the pair out, lowers the count and returns its value |
| Maps.PrefixTreeMap.EntryKey | src/map.rs:594-599 | the stored key when occupied, the given key when vacant; either way its bytes are the path |
| Maps.PrefixTreeMap.OrInsertWithKey | src/map.rs:601-612 | an occupied entry is left as is and its value returned; a vacant one gets `default(key)`; afterwards the path holds the returned value |
| Maps.PrefixTreeMap.OrInsertWith | src/map.rs:614-619 | the same with `default()` |
| Maps.PrefixTreeMap.OrInsert | src/map.rs:630-632 | the same with a given value |
| Maps.PrefixTreeMap.AndModify | src/map.rs:634-644 | an occupied entry's value becomes `f(value)`, with key and count unchanged; a vacant entry is untouched |
| Maps.PrefixTreeMap.EntryRemoveEntry | src/map.rs:646-652 | removes and returns the pair if occupied, otherwise returns nothing; the count follows |
| Maps.PrefixTreeMap.EntryRemove | src/map.rs:654-660 | the same, returning the value |
| Maps.PrefixTreeMap.Insert | src/map.rs:211-219 | the key maps to the new value; an existing key object is kept; returns the previous value if any; the count grows only for a new key |
| Maps.PrefixTreeMap.RemoveEntry | src/map.rs:88-96 | removes the key and returns its pair if present; the count follows |
| Maps.PrefixTreeMap.Remove | src/map.rs:99-104 | removes the key and returns its value if present; the count follows |
| Maps.PrefixTreeMap.Compact | src/map.rs:181-183 | pairs, count and iteration order are unchanged, and the tree is left tight |
| Maps.PrefixTreeMap.Iter | src/map.rs:106-111 | iterates every pair exactly once, in ascending byte order of the keys, with the exact count |
| Maps.PrefixTreeMap.PrefixIter | src/map.rs:158-173 | iterates exactly the pairs whose key starts with the prefix, in ascending order; nothing when no node is at the prefix; everything for the empty prefix |
| Maps.PrefixTreeMap.UnionInPlace | src/map.rs:233-240 | the pairs are those of the union fold over `other` |
| Maps.PrefixTreeMap.Intersection | src/map.rs:244-254 | the result holds exactly the pairs of `self` whose keys occur in `other` |
| Maps.PrefixTreeMap.MoveInto | src/map.rs:248-253 | moves one pair, if present, from `self` to the result |
| Maps.PrefixTreeMap.DifferenceInPlace | src/map.rs:266-275 | removes every key of `other` and nothing else |
| Maps.PrefixTreeMap.SymmetricDifferenceInPlace | src/map.rs:290-300 | the pairs are those of the toggle fold over `other` |
| Sets.Paired | src/set.rs:111-116 | pairs each item with `()`, position by position |
| Sets.PairedKeys | src/set.rs:111-116 | the key bytes of the paired items are those of the items |
| Sets.FirstOfIndex | src/set.rs:124-132 | the first item with given bytes is absent iff no item has them; when present it sits at an index with no earlier item of those bytes |
| Sets.UnionAllFirst | src/map.rs:211-219 | collecting items into a map without the key stores, under given bytes, exactly the first item with them |
| Sets.CollectedFirst | src/set.rs:124-132 | a collection of a filtered sequence stores, under each of its keys, the first item of the original sequence with those bytes |
| Sets.KeptCollected | src/set.rs:124-132 | collecting the items kept by a filter on keys gives exactly the kept keys that occur, with items drawn from the original sequence and the first of each |
| Sets.FromItems | src/set.rs:186-194 | `from_iter`: a new set whose stored items are those of the union fold over the items, so its members are their key bytes |
| Sets.UnionAllDrawnFrom | src/set.rs:124-132 | a set collected from `other` stores only items taken from `other` |
| Sets.PrefixOccupied | src/set.rs:39-47 | the node at the prefix holds a pair iff some member starts with the prefix |
| Sets.PrefixTreeSet.constructor | src/set.rs:17-19 | `new`: the empty set |
| Sets.PrefixTreeSet.Len | src/set.rs:22-24 | the number of members |
| Sets.PrefixTreeSet.IsEmpty | src/set.rs:27-29 | true iff there are no members |
| Sets.PrefixTreeSet.Contains | src/set.rs:32-37 | true iff the item's bytes are a member |
| Sets.PrefixTreeSet.ContainsPrefix | src/set.rs:39-47 | true iff some member starts with the prefix |
| Sets.PrefixTreeSet.Insert | src/set.rs:92-97 | adds the item; returns true iff it was new; an existing member keeps its stored item |
| Sets.PrefixTreeSet.Remove | src/set.rs:49-56 | removes the item's key and its stored item and nothing else; returns true iff it was a member |
| Sets.PrefixTreeSet.UnionInPlace | src/set.rs:109-116 | the members are the old ones plus the items of `other`; old members keep their stored items |
| Sets.PrefixTreeSet.Filtered | src/set.rs:128-131 | keeps exactly the items of `other` that are members |
| Sets.PrefixTreeSet.FilteredFirst | src/set.rs:128-131 | the first kept item with given bytes is the first item of `other` with them when they are a member, and there is none otherwise |
| Sets.PrefixTreeSet.IntersectionCollects | src/set.rs:124-132 | collecting the kept items gives exactly the members that occur in `other`, each storing the first item of `other` with its bytes |
| Sets.PrefixTreeSet.Intersection | src/set.rs:118-132 | a new set holding exactly what collecting the items of `other` that are members would store: its members are those of `self` that occur in `other`, and each stores the first item of `other` with those bytes |
| Sets.PrefixTreeSet.DifferenceInPlace | src/set.rs:144-151 | removes every key of `other` with its stored item, and nothing else |
| Sets.PrefixTreeSet.SymmetricDifferenceInPlace | src/set.rs:162-168 | the stored items are those of the toggle fold over `other`; a key ends up a member iff membership and odd occurrence in `other` differ; with distinct items, the members are those in exactly one side |
| Sets.PrefixTreeSet.Iter | src/set.rs:58-61 | iterates every member exactly once, in ascending byte order |
| Sets.PrefixTreeSet.PrefixIter | src/set.rs:72-81 | iterates exactly the members starting with the prefix, in ascending byte order |
| Sets.PrefixTreeSet.Compact | src/set.rs:83-88 | stored items, members, count and iteration order are unchanged, and the tree is left tight |

## Left out

- Operator traits (`BitAnd`, `BitOr`, `BitXor` and their `Assign` forms), `Index`, `Debug`, the derived `Clone`/`Eq`/`Ord`/`Hash`, and the serde support: these only delegate to the modelled methods or are generated code.
- `From` and `Extend` are covered only as `union_in_place`, which they call; the set's `FromIterator` is `FromItems`. The map's `From` and `FromIterator` are likewise covered as its `union_in_place`.
- `union`, `difference` and `symmetric_difference` by value call the in-place forms, which are modelled.
- `get_mut`, `get_entry_mut`, `search_mut`, `OccupiedEntry::get_mut` and `into_mut` return mutable references; with trees as values they are the immutable lookups followed by a slot write (`WithItem`), already modelled.
- `or_default` needs `V: Default`, and Dafny has no generic default; `OrInsert` covers it given that default value.
- `VacantEntry::into_key` and `VacantEntry::key` are plain field reads of the key that `EntryKey` returns.
- The key and value projections (`keys`, `values`, `into_keys`, `into_values`) and `size_hint` are not modelled separately: they are `Iter` mapped through `.0`, `.1` or `len`.
- The owning iterators (`NodeIntoIter`, `IntoIter`, `into_prefix_iter`, the set's `IntoIter` and `IntoPrefixIter`) walk exactly like the borrowing ones; with trees as values they are the same model. Their use of `mem::take` to detach a subtree is not modelled.
- The set's `Iter` and `PrefixIter` wrappers yield `&T` from pairs `(T, ())`; the model returns the map iterators over those pairs.
- `usize` overflow of the count is not modelled: the count is an unbounded `nat`, and overflow is unreachable in Rust because every pair occupies memory.
- Lifetimes, borrows and the aliasing of `&mut` slots held by entries: the model instead requires that an entry is used while it still describes the current tree (`Handles`).
- `PrefixTreeMap::contains_prefix`, which `PrefixTreeSet::contains_prefix` calls, is not in src/map.rs. The model states its documented meaning (src/set.rs:39-41) and computes it with `Search` and `AnyItem`.
- Maps.UnionAllOrder: proves only that the stored pairs are equal; with `Nodes.SameContentsSameOrder` the iteration order is then equal too, but the insertion-order test also compares trees by the derived `Eq` and `Hash`, which look at the node structure (including empty nodes), and that structural equality is not proved.
