/**
 * `PrefixTreeMap` (src/map.rs): a root node and the count of stored pairs,
 * the entry protocol (`Entry`, `VacantEntry`, `OccupiedEntry`), lookups,
 * insertion, removal, compaction, iteration and the set-algebra operations.
 *
 * Keys are of any type `K` that can be viewed as bytes (`AsRef<[u8]>`); the
 * view is the function `keyBytes`, fixed when the map is created. Lookups
 * take the key bytes directly, as the Rust methods take any `&Q` viewable as
 * bytes.
 */
module Maps {
  import opened Wrappers
  import opened Nodes
  import Iterators

  /** Every stored pair sits under the bytes of its own key. */
  ghost predicate KeysMatch<K, V>(m: map<seq<bv8>, (K, V)>, kb: K -> seq<bv8>)
  {
    forall k :: k in m ==> kb(m[k].0) == k
  }

  /** The handle `entry` returns: the path to the reached slot, and for a
      vacant slot the key that `insert` will store. */
  datatype Entry<K> = Vacant(key: K, path: seq<bv8>) | Occupied(path: seq<bv8>)

  // ---------------------------------------------------------------------------
  // The set-algebra operations on the contents
  // ---------------------------------------------------------------------------

  /** `insert` on the contents: a new key brings its pair; a key already
      present keeps the stored key and takes the new value. */
  ghost function Inserted<K, V>(m: map<seq<bv8>, (K, V)>, kb: K -> seq<bv8>, key: K, value: V): map<seq<bv8>, (K, V)>
  {
    var b := kb(key);
    m[b := (if b in m then m[b].0 else key, value)]
  }

  /** The pairs inserted one after the other, first to last. */
  ghost function UnionAll<K, V>(m: map<seq<bv8>, (K, V)>, kb: K -> seq<bv8>, ps: seq<(K, V)>): map<seq<bv8>, (K, V)>
    decreases |ps|
  {
    if ps == [] then m else UnionAll(Inserted(m, kb, ps[0].0, ps[0].1), kb, ps[1..])
  }

  /** One step of the symmetric difference: a present key is removed, an absent one inserted. */
  ghost function Toggled<K, V>(m: map<seq<bv8>, (K, V)>, kb: K -> seq<bv8>, p: (K, V)): map<seq<bv8>, (K, V)>
  {
    var b := kb(p.0);
    if b in m then m - {b} else m[b := p]
  }

  ghost function ToggleAll<K, V>(m: map<seq<bv8>, (K, V)>, kb: K -> seq<bv8>, ps: seq<(K, V)>): map<seq<bv8>, (K, V)>
    decreases |ps|
  {
    if ps == [] then m else ToggleAll(Toggled(m, kb, ps[0]), kb, ps[1..])
  }

  ghost function KeysOf<K, V>(kb: K -> seq<bv8>, ps: seq<(K, V)>): set<seq<bv8>>
  {
    set p | p in ps :: kb(p.0)
  }

  /** The union contains the old keys and the keys of the inserted pairs, no others. */
  lemma {:induction false} UnionAllKeys<K, V>(m: map<seq<bv8>, (K, V)>, kb: K -> seq<bv8>, ps: seq<(K, V)>)
    ensures UnionAll(m, kb, ps).Keys == m.Keys + KeysOf(kb, ps)
    decreases |ps|
  {
    if ps != [] {
      UnionAllKeys(Inserted(m, kb, ps[0].0, ps[0].1), kb, ps[1..]);
      assert ps == [ps[0]] + ps[1..];
      assert KeysOf(kb, ps) == {kb(ps[0].0)} + KeysOf(kb, ps[1..]);
    }
  }

  /** A key that was stored keeps its original key object through the union. */
  lemma {:induction false} UnionAllKeepsKey<K, V>(m: map<seq<bv8>, (K, V)>, kb: K -> seq<bv8>, ps: seq<(K, V)>, k: seq<bv8>)
    requires k in m
    ensures k in UnionAll(m, kb, ps) && UnionAll(m, kb, ps)[k].0 == m[k].0
    decreases |ps|
  {
    if ps != [] {
      UnionAllKeepsKey(Inserted(m, kb, ps[0].0, ps[0].1), kb, ps[1..], k);
    }
  }

  /** Right bias: the value stored under a key is that of the last pair with that key. */
  lemma {:induction false} UnionAllLast<K, V>(m: map<seq<bv8>, (K, V)>, kb: K -> seq<bv8>, ps: seq<(K, V)>, i: nat)
    requires i < |ps|
    requires forall j :: i < j < |ps| ==> kb(ps[j].0) != kb(ps[i].0)
    ensures kb(ps[i].0) in UnionAll(m, kb, ps) && UnionAll(m, kb, ps)[kb(ps[i].0)].1 == ps[i].1
    decreases |ps|
  {
    var m' := Inserted(m, kb, ps[0].0, ps[0].1);
    if i == 0 {
      UnionAllUntouched(m', kb, ps[1..], kb(ps[0].0));
    } else {
      UnionAllLast(m', kb, ps[1..], i - 1);
    }
  }

  /** A key that no inserted pair names keeps its pair. */
  lemma {:induction false} UnionAllUntouched<K, V>(m: map<seq<bv8>, (K, V)>, kb: K -> seq<bv8>, ps: seq<(K, V)>, k: seq<bv8>)
    requires k in m && forall j :: 0 <= j < |ps| ==> kb(ps[j].0) != k
    ensures k in UnionAll(m, kb, ps) && UnionAll(m, kb, ps)[k] == m[k]
    decreases |ps|
  {
    if ps != [] {
      UnionAllUntouched(Inserted(m, kb, ps[0].0, ps[0].1), kb, ps[1..], k);
    }
  }

  /** Every pair listed from `m` itself: the union changes nothing (`x ∪ x = x`). */
  lemma {:induction false} UnionAllSelf<K, V>(m: map<seq<bv8>, (K, V)>, kb: K -> seq<bv8>, ps: seq<(K, V)>)
    requires forall j :: 0 <= j < |ps| ==> kb(ps[j].0) in m && m[kb(ps[j].0)].1 == ps[j].1
    ensures UnionAll(m, kb, ps) == m
    decreases |ps|
  {
    if ps != [] {
      var b := kb(ps[0].0);
      assert Inserted(m, kb, ps[0].0, ps[0].1) == m;
      UnionAllSelf(m, kb, ps[1..]);
    }
  }

  /** No two pairs of `ps` have the same key bytes. */
  ghost predicate DistinctKeys<K, V>(kb: K -> seq<bv8>, ps: seq<(K, V)>)
  {
    forall i, j :: 0 <= i < j < |ps| ==> kb(ps[i].0) != kb(ps[j].0)
  }

  lemma DistinctTail<K, V>(kb: K -> seq<bv8>, ps: seq<(K, V)>)
    requires ps != [] && DistinctKeys(kb, ps)
    ensures DistinctKeys(kb, ps[1..])
    ensures kb(ps[0].0) !in KeysOf(kb, ps[1..])
    ensures KeysOf(kb, ps) == {kb(ps[0].0)} + KeysOf(kb, ps[1..])
  {
    var rest := ps[1..];
    forall i, j | 0 <= i < j < |rest| ensures kb(rest[i].0) != kb(rest[j].0) {
      assert rest[i] == ps[i + 1] && rest[j] == ps[j + 1];
    }
    forall q | q in rest ensures kb(q.0) != kb(ps[0].0) {
      var j :| 0 <= j < |rest| && rest[j] == q;
      assert ps[j + 1] == q;
    }
    assert ps == [ps[0]] + rest;
  }

  /** Pairs with distinct keys, none of them stored yet, are stored exactly as given. */
  lemma {:induction false} UnionAllDistinct<K, V>(m: map<seq<bv8>, (K, V)>, kb: K -> seq<bv8>, ps: seq<(K, V)>)
    requires DistinctKeys(kb, ps) && KeysOf(kb, ps) !! m.Keys
    ensures forall j :: 0 <= j < |ps| ==> kb(ps[j].0) in UnionAll(m, kb, ps) && UnionAll(m, kb, ps)[kb(ps[j].0)] == ps[j]
    decreases |ps|
  {
    if ps != [] {
      DistinctTail(kb, ps);
      var b := kb(ps[0].0);
      var m' := Inserted(m, kb, ps[0].0, ps[0].1);
      assert m' == m[b := ps[0]];
      UnionAllDistinct(m', kb, ps[1..]);
      forall j | 0 <= j < |ps[1..]| ensures kb(ps[1..][j].0) != b {
        assert ps[1..][j] in ps[1..];
      }
      UnionAllUntouched(m', kb, ps[1..], b);
      forall j | 0 < j < |ps| ensures kb(ps[j].0) in UnionAll(m, kb, ps) && UnionAll(m, kb, ps)[kb(ps[j].0)] == ps[j] {
        assert ps[1..][j - 1] == ps[j];
      }
    }
  }

  /** The same pairs with distinct keys, inserted in any order, give the same
      contents. */
  lemma UnionAllOrder<K, V>(kb: K -> seq<bv8>, ps: seq<(K, V)>, qs: seq<(K, V)>)
    requires DistinctKeys(kb, ps) && DistinctKeys(kb, qs) && multiset(ps) == multiset(qs)
    ensures UnionAll(map[], kb, ps) == UnionAll(map[], kb, qs)
  {
    var u, w := UnionAll(map[], kb, ps), UnionAll(map[], kb, qs);
    SameMembers(ps, qs);
    assert KeysOf(kb, ps) == KeysOf(kb, qs);
    UnionAllKeys(map[], kb, ps);
    UnionAllKeys(map[], kb, qs);
    forall k | k in u ensures w[k] == u[k] {
      var p :| p in ps && kb(p.0) == k;
      UnionAllAt(kb, ps, p);
      UnionAllAt(kb, qs, p);
    }
  }

  /** Sequences with the same multiset have the same members. */
  lemma SameMembers<T>(ps: seq<T>, qs: seq<T>)
    requires multiset(ps) == multiset(qs)
    ensures forall p :: p in ps <==> p in qs
  {
    forall p ensures p in ps <==> p in qs {
      assert p in ps <==> p in multiset(ps);
      assert p in qs <==> p in multiset(qs);
    }
  }

  /** With distinct keys, every pair is stored as given under its key. */
  lemma UnionAllAt<K, V>(kb: K -> seq<bv8>, ps: seq<(K, V)>, p: (K, V))
    requires DistinctKeys(kb, ps) && p in ps
    ensures kb(p.0) in UnionAll(map[], kb, ps) && UnionAll(map[], kb, ps)[kb(p.0)] == p
  {
    UnionAllDistinct(map[], kb, ps);
    var i :| 0 <= i < |ps| && ps[i] == p;
  }

  /** With pairwise distinct keys, the symmetric difference holds exactly the
      keys in one of the two sides. */
  lemma {:induction false} ToggleAllKeys<K, V>(m: map<seq<bv8>, (K, V)>, kb: K -> seq<bv8>, ps: seq<(K, V)>)
    requires DistinctKeys(kb, ps)
    ensures ToggleAll(m, kb, ps).Keys == (m.Keys - KeysOf(kb, ps)) + (KeysOf(kb, ps) - m.Keys)
    decreases |ps|
  {
    if ps != [] {
      DistinctTail(kb, ps);
      ToggleAllKeys(Toggled(m, kb, ps[0]), kb, ps[1..]);
    }
  }

  /** A stored key that no pair names keeps its pair. */
  lemma {:induction false} ToggleAllKept<K, V>(m: map<seq<bv8>, (K, V)>, kb: K -> seq<bv8>, ps: seq<(K, V)>, k: seq<bv8>)
    requires k in m && k !in KeysOf(kb, ps)
    ensures k in ToggleAll(m, kb, ps) && ToggleAll(m, kb, ps)[k] == m[k]
    decreases |ps|
  {
    if ps != [] {
      assert ps[0] in ps;
      assert KeysOf(kb, ps[1..]) <= KeysOf(kb, ps) by {
        forall q | q in ps[1..] ensures q in ps { }
      }
      ToggleAllKept(Toggled(m, kb, ps[0]), kb, ps[1..], k);
    }
  }

  /** With pairwise distinct keys, a pair whose key was not stored is added as given. */
  lemma {:induction false} ToggleAllAdded<K, V>(m: map<seq<bv8>, (K, V)>, kb: K -> seq<bv8>, ps: seq<(K, V)>, j: nat)
    requires DistinctKeys(kb, ps) && j < |ps| && kb(ps[j].0) !in m
    ensures kb(ps[j].0) in ToggleAll(m, kb, ps) && ToggleAll(m, kb, ps)[kb(ps[j].0)] == ps[j]
    decreases |ps|
  {
    DistinctTail(kb, ps);
    var t := Toggled(m, kb, ps[0]);
    if j == 0 {
      ToggleAllKept(t, kb, ps[1..], kb(ps[0].0));
    } else {
      assert ps[1..][j - 1] == ps[j];
      ToggleAllAdded(t, kb, ps[1..], j - 1);
    }
  }

  /** How many pairs of `ps` have the key bytes `k`. */
  ghost function Occurrences<K, V>(kb: K -> seq<bv8>, ps: seq<(K, V)>, k: seq<bv8>): nat
  {
    if ps == [] then 0 else (if kb(ps[0].0) == k then 1 else 0) + Occurrences(kb, ps[1..], k)
  }

  /** Whatever the repetitions in `ps`, each occurrence of a key flips its
      membership: a key is stored afterwards exactly when it was stored before
      and occurs an even number of times, or was not and occurs an odd number. */
  lemma {:induction false} ToggleAllParity<K, V>(m: map<seq<bv8>, (K, V)>, kb: K -> seq<bv8>, ps: seq<(K, V)>, k: seq<bv8>)
    ensures k in ToggleAll(m, kb, ps) <==> ((k in m) != (Occurrences(kb, ps, k) % 2 == 1))
    decreases |ps|
  {
    if ps != [] {
      ToggleAllParity(Toggled(m, kb, ps[0]), kb, ps[1..], k);
    }
  }

  /** A key toggled twice is back where it started: the symmetric difference
      with the map's own pairs empties it. */
  lemma {:induction false} ToggleAllSelf<K, V>(m: map<seq<bv8>, (K, V)>, kb: K -> seq<bv8>, ps: seq<(K, V)>)
    requires DistinctKeys(kb, ps) && KeysOf(kb, ps) == m.Keys
    ensures ToggleAll(m, kb, ps) == map[]
  {
    ToggleAllKeys(m, kb, ps);
  }

  /** `m` without the keys of `ks`. */
  ghost function Without<K, V>(m: map<seq<bv8>, (K, V)>, ks: seq<seq<bv8>>): map<seq<bv8>, (K, V)>
  {
    m - set k | k in ks
  }

  /** The pairs of `m` whose keys `ks` names. */
  ghost function Restricted<K, V>(m: map<seq<bv8>, (K, V)>, ks: seq<seq<bv8>>): map<seq<bv8>, (K, V)>
  {
    map k | k in m && k in ks :: m[k]
  }

  lemma WithoutSnoc<K, V>(m: map<seq<bv8>, (K, V)>, ks: seq<seq<bv8>>, k: seq<bv8>)
    ensures Without(m, ks + [k]) == Without(m, ks) - {k}
  {
    assert (set x | x in ks + [k]) == (set x | x in ks) + {k};
  }

  lemma RestrictedSnoc<K, V>(m: map<seq<bv8>, (K, V)>, ks: seq<seq<bv8>>, k: seq<bv8>)
    ensures Restricted(m, ks + [k]) == if k in m then Restricted(m, ks)[k := m[k]] else Restricted(m, ks)
  {
    forall x ensures x in ks + [k] <==> x in ks || x == k { }
  }

  /** One step of `difference_in_place` on the contents: the `i`-th key goes. */
  lemma WithoutStep<K, V>(m: map<seq<bv8>, (K, V)>, ks: seq<seq<bv8>>, i: nat)
    requires i < |ks|
    ensures Without(m, ks[..i + 1]) == Without(m, ks[..i]) - {ks[i]}
  {
    assert ks[..i + 1] == ks[..i] + [ks[i]];
    WithoutSnoc(m, ks[..i], ks[i]);
  }

  /** One step of `intersection` on the contents, at the `i`-th key: the key
      moves across only if it is still stored, and then it is not yet collected. */
  lemma IntersectionStep<K, V>(m: map<seq<bv8>, (K, V)>, ks: seq<seq<bv8>>, i: nat)
    requires i < |ks|
    ensures ks[i] in Without(m, ks[..i]) ==> ks[i] !in Restricted(m, ks[..i])
    ensures Without(m, ks[..i + 1]) == Without(m, ks[..i]) - {ks[i]}
    ensures Restricted(m, ks[..i + 1]) ==
      if ks[i] in Without(m, ks[..i])
      then Restricted(m, ks[..i])[ks[i] := Without(m, ks[..i])[ks[i]]]
      else Restricted(m, ks[..i])
  {
    var k := ks[i];
    assert ks[..i + 1] == ks[..i] + [k];
    WithoutSnoc(m, ks[..i], k);
    RestrictedSnoc(m, ks[..i], k);
    if k in m && k !in Without(m, ks[..i]) {
      assert Restricted(m, ks[..i])[k := m[k]] == Restricted(m, ks[..i]);
    }
  }

  // ---------------------------------------------------------------------------
  // Iteration order seen from the map
  // ---------------------------------------------------------------------------

  /** `s` lists exactly the pairs of `m` whose key starts with `p`, in
      ascending lexicographic order of the key bytes. */
  ghost predicate ListsInOrder<K, V>(s: seq<(K, V)>, m: map<seq<bv8>, (K, V)>, kb: K -> seq<bv8>, p: seq<bv8>)
  {
    && (forall i :: 0 <= i < |s| ==> p <= kb(s[i].0) && kb(s[i].0) in m && m[kb(s[i].0)] == s[i])
    && (forall k :: k in m && p <= k ==> m[k] in s)
    && (forall i, j :: 0 <= i < j < |s| ==> LexLess(kb(s[i].0), kb(s[j].0)))
  }

  /** The `i`-th pair of the walk under `p` is stored under `p` followed by
      its key relative to the subtree, which is its own key's bytes. */
  lemma SubtreeItem<K, V>(root: Node<K, V>, kb: K -> seq<bv8>, p: seq<bv8>, node: Node<K, V>, i: nat)
    requires WellFormed(root) && KeysMatch(Contents(root), kb) && Search(root, p) == Some(node)
    requires i < |InOrder(node)|
    ensures i < |InOrderKeys(node)|
    ensures var k := p + InOrderKeys(node)[i];
      kb(InOrder(node)[i].0) == k && k in Contents(root) && Contents(root)[k] == InOrder(node)[i]
  {
    Listing(node);
    SubtreeContents(root, p);
    var rel := InOrderKeys(node)[i];
    assert rel in Contents(node);
    assert p + rel in Contents(root);
  }

  /** Every stored pair of a node appears in its walk. */
  lemma Walked<K, V>(n: Node<K, V>, k: seq<bv8>)
    requires WellFormed(n) && k in Contents(n)
    ensures Contents(n)[k] in InOrder(n)
  {
    Listing(n);
    var i :| 0 <= i < |InOrderKeys(n)| && InOrderKeys(n)[i] == k;
    assert Contents(n)[k] == InOrder(n)[i];
  }

  /** A stored key under `p` is listed by the walk of the subtree `p` reaches. */
  lemma SubtreeCovers<K, V>(root: Node<K, V>, p: seq<bv8>, node: Node<K, V>, k: seq<bv8>)
    requires WellFormed(root) && Search(root, p) == Some(node)
    requires k in Contents(root) && p <= k
    ensures Contents(root)[k] in InOrder(node)
  {
    SubtreeContents(root, p);
    var rel := k[|p|..];
    assert p + rel == k;
    Walked(node, rel);
  }

  /** The subtree reached by a prefix is walked in key order and yields
      exactly the pairs under that prefix. */
  lemma SubtreeListing<K, V>(root: Node<K, V>, kb: K -> seq<bv8>, p: seq<bv8>, node: Node<K, V>)
    requires WellFormed(root) && KeysMatch(Contents(root), kb) && Search(root, p) == Some(node)
    ensures ListsInOrder(InOrder(node), Contents(root), kb, p)
  {
    var s := InOrder(node);
    Listing(node);
    var ks := InOrderKeys(node);
    forall i | 0 <= i < |s| ensures p <= kb(s[i].0) && kb(s[i].0) in Contents(root) && Contents(root)[kb(s[i].0)] == s[i] {
      SubtreeItem(root, kb, p, node, i);
    }
    forall k | k in Contents(root) && p <= k ensures Contents(root)[k] in s {
      SubtreeCovers(root, p, node, k);
    }
    forall i, j | 0 <= i < j < |s| ensures LexLess(kb(s[i].0), kb(s[j].0)) {
      SubtreeItem(root, kb, p, node, i);
      SubtreeItem(root, kb, p, node, j);
      LexLessPrefixed(p, ks[i], ks[j]);
    }
  }

  /** A prefix whose path is missing has no stored key under it. */
  lemma NoSubtree<K, V>(root: Node<K, V>, kb: K -> seq<bv8>, p: seq<bv8>)
    requires WellFormed(root) && Search(root, p).None?
    ensures ListsInOrder([], Contents(root), kb, p)
  {
    SubtreeContents(root, p);
    forall k | p <= k ensures k !in Contents(root) {
      assert p + k[|p|..] == k;
    }
  }

  // ---------------------------------------------------------------------------
  // The map
  // ---------------------------------------------------------------------------

  class PrefixTreeMap<K, V> {
    const keyBytes: K -> seq<bv8>
    var root: Node<K, V>
    var len: nat

    /** The children stay sorted, every pair sits under its own key's bytes,
        and `len` counts the filled item slots. */
    ghost predicate Valid()
      reads this
    {
      && WellFormed(root)
      && KeysMatch(Contents(root), keyBytes)
      && len == |Contents(root)|
    }

    /** The stored pairs, by key bytes. */
    ghost function Items(): map<seq<bv8>, (K, V)>
      reads this
    {
      Contents(root)
    }

    /** `PrefixTreeMap::new`: an empty map over keys viewed through `keyBytes`. */
    constructor (keyBytes: K -> seq<bv8>)
      ensures Valid() && Items() == map[] && len == 0 && this.keyBytes == keyBytes
    {
      this.keyBytes := keyBytes;
      root := Root();
      len := 0;
    }

    function Len(): (r: nat)
      requires Valid()
      reads this
      ensures r == |Items()|
    {
      len
    }

    function IsEmpty(): (r: bool)
      requires Valid()
      reads this
      ensures r <==> Items() == map[]
    {
      len == 0
    }

    /** `get_entry`: the stored key and value for `key`, if any. */
    function GetEntry(key: seq<bv8>): (r: Option<(K, V)>)
      requires Valid()
      reads this
      ensures r == if key in Items() then Some(Items()[key]) else None
      ensures r.Some? ==> keyBytes(r.value.0) == key
    {
      LookupContents(root, key);
      match Search(root, key)
      case None => None
      case Some(node) => node.item
    }

    /** `get`: the value stored for `key`, if any. */
    function Get(key: seq<bv8>): (r: Option<V>)
      requires Valid()
      reads this
      ensures r == if key in Items() then Some(Items()[key].1) else None
    {
      match GetEntry(key)
      case None => None
      case Some(item) => Some(item.1)
    }

    /** `contains_key`: the search reaches a node and that node holds an item. */
    function ContainsKey(key: seq<bv8>): (r: bool)
      requires Valid()
      reads this
      ensures r <==> key in Items()
    {
      LookupContents(root, key);
      match Search(root, key)
      case None => false
      case Some(node) => node.item.Some?
    }

    // -------------------------------------------------------------------------
    // The entry protocol
    // -------------------------------------------------------------------------

    /** `e` was obtained from this map and is still current: its path exists,
        it is occupied exactly when the slot holds a pair, and a vacant entry
        holds a key with those bytes. */
    ghost predicate Handles(e: Entry<K>)
      reads this
    {
      && Search(root, e.path).Some?
      && (e.Occupied? <==> e.path in Items())
      && (e.Vacant? ==> keyBytes(e.key) == e.path)
    }

    /** `entry`: walks to the slot of `key`, creating the missing nodes on the
        way (empty, so no pair is added), and reports whether it is filled. */
    method EntryFor(key: K) returns (e: Entry<K>)
      requires Valid()
      modifies this
      ensures Valid() && Items() == old(Items()) && len == old(len)
      ensures root == SearchOrInsert(old(root), keyBytes(key))
      ensures Handles(e) && e.path == keyBytes(key)
      ensures e.Occupied? <==> keyBytes(key) in Items()
      ensures e.Vacant? ==> e.key == key
    {
      var bytes := keyBytes(key);
      SearchOrInsertContents(root, bytes);
      root := SearchOrInsert(root, bytes);
      LookupContents(root, bytes);
      var node := Search(root, bytes).value;
      if node.item.Some? {
        e := Occupied(bytes);
      } else {
        e := Vacant(key, bytes);
      }
    }

    /** `VacantEntry::insert`: fills the slot with the entry's key and `value`
        and counts the new pair. */
    method VacantInsert(e: Entry<K>, value: V) returns (v: V)
      requires Valid() && Handles(e) && e.Vacant?
      modifies this
      ensures Valid() && Handles(Occupied(e.path))
      ensures Items() == old(Items())[e.path := (e.key, value)] && len == old(len) + 1
      ensures root == WithItem(old(root), e.path, Some((e.key, value)))
      ensures v == value
    {
      WithItemContents(root, e.path, Some((e.key, value)));
      root := WithItem(root, e.path, Some((e.key, value)));
      len := len + 1;
      v := value;
    }

    /** `OccupiedEntry::key`: the key stored in the slot. */
    function OccupiedKey(e: Entry<K>): (r: K)
      requires Valid() && Handles(e) && e.Occupied?
      reads this
      ensures r == Items()[e.path].0 && keyBytes(r) == e.path
    {
      LookupContents(root, e.path);
      Search(root, e.path).value.item.value.0
    }

    /** `OccupiedEntry::get`: the value in the slot. */
    function OccupiedGet(e: Entry<K>): (r: V)
      requires Valid() && Handles(e) && e.Occupied?
      reads this
      ensures r == Items()[e.path].1
    {
      LookupContents(root, e.path);
      Search(root, e.path).value.item.value.1
    }

    /** `OccupiedEntry::insert`: replaces the value only; the stored key stays. */
    method OccupiedInsert(e: Entry<K>, value: V) returns (prev: V)
      requires Valid() && Handles(e) && e.Occupied?
      modifies this
      ensures Valid() && Handles(e) && len == old(len)
      ensures Items() == old(Items())[e.path := (old(Items())[e.path].0, value)]
      ensures prev == old(Items())[e.path].1
      ensures root == WithItem(old(root), e.path, Some((old(Items())[e.path].0, value)))
    {
      LookupContents(root, e.path);
      var item := Search(root, e.path).value.item.value;
      WithItemContents(root, e.path, Some((item.0, value)));
      root := WithItem(root, e.path, Some((item.0, value)));
      prev := item.1;
    }

    /** `OccupiedEntry::remove_entry`: empties the slot (the node stays) and
        uncounts the pair. */
    method OccupiedRemoveEntry(e: Entry<K>) returns (item: (K, V))
      requires Valid() && Handles(e) && e.Occupied?
      modifies this
      ensures Valid()
      ensures Items() == old(Items()) - {e.path} && len == old(len) - 1
      ensures item == old(Items())[e.path]
      ensures root == WithItem(old(root), e.path, None)
    {
      LookupContents(root, e.path);
      item := Search(root, e.path).value.item.value;
      WithItemContents(root, e.path, None);
      len := len - 1;
      root := WithItem(root, e.path, None);
    }

    /** `OccupiedEntry::remove`: the value of `remove_entry`. */
    method OccupiedRemove(e: Entry<K>) returns (v: V)
      requires Valid() && Handles(e) && e.Occupied?
      modifies this
      ensures Valid()
      ensures Items() == old(Items()) - {e.path} && len == old(len) - 1
      ensures v == old(Items())[e.path].1
    {
      var item := OccupiedRemoveEntry(e);
      v := item.1;
    }

    /** `Entry::key`: the key a vacant entry would store, or the stored key. */
    function EntryKey(e: Entry<K>): (r: K)
      requires Valid() && Handles(e)
      reads this
      ensures keyBytes(r) == e.path
      ensures e.Occupied? ==> r == Items()[e.path].0
      ensures e.Vacant? ==> r == e.key
    {
      match e
      case Vacant(key, _) => key
      case Occupied(_) => OccupiedKey(e)
    }

    /** `Entry::or_insert_with_key`: the stored value, or the value `default`
        computes from the entry's key, inserted. */
    method OrInsertWithKey(e: Entry<K>, default: K -> V) returns (v: V)
      requires Valid() && Handles(e)
      modifies this
      ensures Valid() && e.path in Items() && Items()[e.path].1 == v
      ensures e.Occupied? ==> Items() == old(Items()) && len == old(len) && v == old(Items())[e.path].1
      ensures e.Vacant? ==>
        Items() == old(Items())[e.path := (e.key, default(e.key))] && len == old(len) + 1 && v == default(e.key)
    {
      match e
      case Vacant(key, _) =>
        var value := default(key);
        v := VacantInsert(e, value);
      case Occupied(_) =>
        v := OccupiedGet(e);
    }

    /** `Entry::or_insert_with`: as above with a default that ignores the key. */
    method OrInsertWith(e: Entry<K>, default: () -> V) returns (v: V)
      requires Valid() && Handles(e)
      modifies this
      ensures Valid() && e.path in Items() && Items()[e.path].1 == v
      ensures e.Occupied? ==> Items() == old(Items()) && len == old(len) && v == old(Items())[e.path].1
      ensures e.Vacant? ==>
        Items() == old(Items())[e.path := (e.key, default())] && len == old(len) + 1 && v == default()
    {
      v := OrInsertWithKey(e, _ => default());
    }

    /** `Entry::or_insert`: the stored value, or `value` inserted. */
    method OrInsert(e: Entry<K>, value: V) returns (v: V)
      requires Valid() && Handles(e)
      modifies this
      ensures Valid() && e.path in Items() && Items()[e.path].1 == v
      ensures e.Occupied? ==> Items() == old(Items()) && len == old(len) && v == old(Items())[e.path].1
      ensures e.Vacant? ==> Items() == old(Items())[e.path := (e.key, value)] && len == old(len) + 1 && v == value
    {
      v := OrInsertWithKey(e, _ => value);
    }

    /** `Entry::and_modify`: applies `f` to the stored value of an occupied
        entry; a vacant entry is passed on untouched. */
    method AndModify(e: Entry<K>, f: V -> V) returns (e': Entry<K>)
      requires Valid() && Handles(e)
      modifies this
      ensures Valid() && e' == e && Handles(e') && len == old(len)
      ensures e.Occupied? ==>
        Items() == old(Items())[e.path := (old(Items())[e.path].0, f(old(Items())[e.path].1))]
      ensures e.Vacant? ==> Items() == old(Items()) && root == old(root)
    {
      if e.Occupied? {
        var v := OccupiedGet(e);
        var _ := OccupiedInsert(e, f(v));
      }
      e' := e;
    }

    /** `Entry::remove_entry`: the stored pair of an occupied entry, removed;
        nothing for a vacant one. */
    method EntryRemoveEntry(e: Entry<K>) returns (r: Option<(K, V)>)
      requires Valid() && Handles(e)
      modifies this
      ensures Valid() && Items() == old(Items()) - {e.path}
      ensures r == if e.Occupied? then Some(old(Items())[e.path]) else None
      ensures len == if e.Occupied? then old(len) - 1 else old(len)
    {
      if e.Occupied? {
        var item := OccupiedRemoveEntry(e);
        r := Some(item);
      } else {
        r := None;
      }
    }

    /** `Entry::remove`: the value of `remove_entry`. */
    method EntryRemove(e: Entry<K>) returns (r: Option<V>)
      requires Valid() && Handles(e)
      modifies this
      ensures Valid() && Items() == old(Items()) - {e.path}
      ensures r == if e.Occupied? then Some(old(Items())[e.path].1) else None
      ensures len == if e.Occupied? then old(len) - 1 else old(len)
    {
      var item := EntryRemoveEntry(e);
      r := if item.Some? then Some(item.value.1) else None;
    }

    // -------------------------------------------------------------------------
    // Insertion and removal
    // -------------------------------------------------------------------------

    /** `insert`: through `entry`; returns the previous value, if any. */
    method Insert(key: K, value: V) returns (r: Option<V>)
      requires Valid()
      modifies this
      ensures Valid()
      ensures Items() == Inserted(old(Items()), keyBytes, key, value)
      ensures keyBytes(key) in Items() && Items()[keyBytes(key)].1 == value
      ensures Items()[keyBytes(key)].0 == if keyBytes(key) in old(Items()) then old(Items())[keyBytes(key)].0 else key
      ensures r == if keyBytes(key) in old(Items()) then Some(old(Items())[keyBytes(key)].1) else None
      ensures len == if keyBytes(key) in old(Items()) then old(len) else old(len) + 1
    {
      var e := EntryFor(key);
      if e.Vacant? {
        var _ := VacantInsert(e, value);
        r := None;
      } else {
        var prev := OccupiedInsert(e, value);
        r := Some(prev);
      }
    }

    /** `remove_entry`: a missing path or an empty slot yields nothing;
        otherwise the slot is emptied (the node stays) and the pair returned. */
    method RemoveEntry(key: seq<bv8>) returns (r: Option<(K, V)>)
      requires Valid()
      modifies this
      ensures Valid()
      ensures Items() == old(Items()) - {key}
      ensures r == if key in old(Items()) then Some(old(Items())[key]) else None
      ensures len == if key in old(Items()) then old(len) - 1 else old(len)
      ensures root == if key in old(Items()) then WithItem(old(root), key, None) else old(root)
    {
      LookupContents(root, key);
      match Search(root, key)
      case None =>
        r := None;
      case Some(node) =>
        if node.item.None? {
          r := None;
        } else {
          r := node.item;
          WithItemContents(root, key, None);
          root := WithItem(root, key, None);
          len := len - 1;
        }
    }

    /** `remove`: the value of `remove_entry`. */
    method Remove(key: seq<bv8>) returns (r: Option<V>)
      requires Valid()
      modifies this
      ensures Valid()
      ensures Items() == old(Items()) - {key}
      ensures r == if key in old(Items()) then Some(old(Items())[key].1) else None
      ensures len == if key in old(Items()) then old(len) - 1 else old(len)
    {
      var item := RemoveEntry(key);
      r := if item.Some? then Some(item.value.1) else None;
    }

    /** `compact`: drops every node below the root whose subtree holds no pair. */
    method Compact()
      requires Valid()
      modifies this
      ensures Valid() && Items() == old(Items()) && len == old(len)
      ensures root == Compacted(old(root)) && Tight(root)
      ensures InOrder(root) == old(InOrder(root))
    {
      CompactedContents(root);
      CompactedWellFormed(root);
      CompactedTight(root);
      CompactedInOrder(root);
      var r, _ := Nodes.Compact(root);
      root := r;
    }

    // -------------------------------------------------------------------------
    // Iteration
    // -------------------------------------------------------------------------

    /** `iter`: all pairs, in ascending order of key bytes, with an exact count. */
    method Iter() returns (it: Iterators.Iter<K, V>)
      requires Valid()
      ensures fresh(it) && fresh(it.iter) && it.Valid()
      ensures it.Remaining() == InOrder(root)
      ensures ListsInOrder(it.Remaining(), Items(), keyBytes, [])
    {
      Listing(root);
      SubtreeListing(root, keyBytes, [], root);
      it := new Iterators.Iter(root, len);
    }

    /** `prefix_iter`: the pairs whose key starts with `prefix`, in ascending
        order of key bytes; nothing when the prefix path does not exist. */
    method PrefixIter(prefix: seq<bv8>) returns (it: Iterators.NodeIter<K, V>)
      requires Valid()
      ensures fresh(it)
      ensures ListsInOrder(it.Remaining(), Items(), keyBytes, prefix)
      ensures Search(root, prefix).None? ==> it.Remaining() == []
      ensures prefix == [] ==> it.Remaining() == InOrder(root)
    {
      var found := Search(root, prefix);
      if found.None? {
        NoSubtree(root, keyBytes, prefix);
        it := new Iterators.NodeIter.Empty();
      } else {
        SubtreeListing(root, keyBytes, prefix, found.value);
        it := new Iterators.NodeIter(found.value);
      }
    }

    // -------------------------------------------------------------------------
    // Set algebra
    // -------------------------------------------------------------------------

    /** `union_in_place`: inserts the pairs of `other` in order. */
    method UnionInPlace(other: seq<(K, V)>)
      requires Valid()
      modifies this
      ensures Valid() && Items() == UnionAll(old(Items()), keyBytes, other)
    {
      var i := 0;
      while i < |other|
        invariant 0 <= i <= |other| && Valid()
        invariant UnionAll(Items(), keyBytes, other[i..]) == UnionAll(old(Items()), keyBytes, other)
      {
        assert other[i..][1..] == other[i + 1..];
        var _ := Insert(other[i].0, other[i].1);
        i := i + 1;
      }
    }

    /** `intersection`: moves out of this map every pair whose key bytes
        `other` names, collecting them into a new map. */
    method Intersection(other: seq<seq<bv8>>) returns (r: PrefixTreeMap<K, V>)
      requires Valid()
      modifies this
      ensures fresh(r) && r.Valid() && r.keyBytes == keyBytes
      ensures r.Items() == Restricted(old(Items()), other)
      ensures Valid() && Items() == Without(old(Items()), other)
    {
      ghost var m := Items();
      r := new PrefixTreeMap(keyBytes);
      var i := 0;
      assert other[..0] == [];
      assert Without(m, []) == m;
      assert Restricted(m, []) == map[];
      while i < |other|
        invariant 0 <= i <= |other| && Valid()
        invariant fresh(r) && r.Valid() && r.keyBytes == keyBytes
        invariant Items() == Without(m, other[..i])
        invariant r.Items() == Restricted(m, other[..i])
      {
        IntersectionStep(m, other, i);
        MoveInto(r, other[i]);
        i := i + 1;
      }
      assert other[..i] == other;
    }

    /** One step of `intersection`: the pair stored under `key`, if any, is
        removed from this map and inserted into `r`, which does not hold that key. */
    method MoveInto(r: PrefixTreeMap<K, V>, key: seq<bv8>)
      requires Valid() && r.Valid() && r != this && r.keyBytes == keyBytes
      requires key in Items() ==> key !in r.Items()
      modifies this, r
      ensures Valid() && r.Valid()
      ensures Items() == old(Items()) - {key}
      ensures r.Items() == if key in old(Items()) then old(r.Items())[key := old(Items())[key]] else old(r.Items())
    {
      var pair := RemoveEntry(key);
      if pair.Some? {
        assert keyBytes(pair.value.0) == key;
        var _ := r.Insert(pair.value.0, pair.value.1);
      }
    }

    /** `difference_in_place`: removes every key `other` names. */
    method DifferenceInPlace(other: seq<seq<bv8>>)
      requires Valid()
      modifies this
      ensures Valid() && Items() == Without(old(Items()), other)
    {
      ghost var m := Items();
      var i := 0;
      assert Without(m, other[..0]) == m;
      while i < |other|
        invariant 0 <= i <= |other| && Valid()
        invariant Items() == Without(m, other[..i])
      {
        WithoutStep(m, other, i);
        var _ := Remove(other[i]);
        i := i + 1;
      }
      assert other[..i] == other;
    }

    /** `symmetric_difference_in_place`: for each pair of `other` in order,
        an occupied entry is removed and a vacant one filled. */
    method SymmetricDifferenceInPlace(other: seq<(K, V)>)
      requires Valid()
      modifies this
      ensures Valid() && Items() == ToggleAll(old(Items()), keyBytes, other)
    {
      var i := 0;
      while i < |other|
        invariant 0 <= i <= |other| && Valid()
        invariant ToggleAll(Items(), keyBytes, other[i..]) == ToggleAll(old(Items()), keyBytes, other)
      {
        assert other[i..][1..] == other[i + 1..];
        var e := EntryFor(other[i].0);
        if e.Occupied? {
          var _ := OccupiedRemove(e);
        } else {
          var _ := VacantInsert(e, other[i].1);
        }
        i := i + 1;
      }
    }
  }
}
