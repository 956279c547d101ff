/**
 * The vertex of the byte-keyed prefix tree (`struct Node` in src/map.rs) and
 * the traversal primitives over it: binary search among the children, plain
 * search, search-or-insert, writing an item slot and compaction.
 *
 * A node exclusively owns its children, so a tree is modelled as a value:
 * an update "in place" returns the new tree, which the map then stores.
 */
module Nodes {
  import opened Wrappers

  /** One vertex: the optional stored pair, the byte on the edge from the
      parent (`key_fragment`, never compared at the root) and the children,
      kept strictly sorted by their fragment. */
  datatype Node<K, V> = Node(item: Option<(K, V)>, frag: bv8, children: seq<Node<K, V>>)

  /** The outcome of a binary search: Rust's `Ok(index)` / `Err(insertion index)`. */
  datatype Probe = Found(index: nat) | Missing(insertAt: nat)

  /** The fragments of a sequence of siblings, in order. */
  function Frags<K, V>(cs: seq<Node<K, V>>): seq<bv8>
  {
    seq(|cs|, i requires 0 <= i < |cs| => cs[i].frag)
  }

  predicate Increasing(s: seq<bv8>)
  {
    forall i, j :: 0 <= i < j < |s| ==> s[i] < s[j]
  }

  /** The structural invariant: at every node the children's fragments are
      strictly increasing (sorted and unique), which binary search relies on. */
  ghost predicate WellFormed<K, V>(n: Node<K, V>)
  {
    && Increasing(Frags(n.children))
    && forall i :: 0 <= i < |n.children| ==> WellFormed(n.children[i])
  }

  // ---------------------------------------------------------------------------
  // Abstract views: the stored pairs as a map from relative key bytes, and the
  // in-order sequence of pairs (own item first, then children left to right).
  // ---------------------------------------------------------------------------

  /** The pairs of `m`, each key extended in front by the edge byte `b`. */
  ghost function Prefixed<K, V>(b: bv8, m: map<seq<bv8>, (K, V)>): (r: map<seq<bv8>, (K, V)>)
    ensures forall k :: k in r <==> k != [] && k[0] == b && k[1..] in m
    ensures forall k :: k in r ==> r[k] == m[k[1..]]
  {
    assert forall k1, k2 :: [b] + k1 == [b] + k2 ==> k1 == k2 by {
      forall k1, k2 | [b] + k1 == [b] + k2 ensures k1 == k2 {
        assert k1 == ([b] + k1)[1..];
        assert k2 == ([b] + k2)[1..];
      }
    }
    var r := map k | k in m :: [b] + k := m[k];
    assert forall k :: k != [] && k[0] == b && k[1..] in m ==> k in r by {
      forall k | k != [] && k[0] == b && k[1..] in m ensures k in r {
        assert k == [b] + k[1..];
      }
    }
    assert forall k :: k in r ==> k != [] && k[0] == b && k[1..] in m && r[k] == m[k[1..]] by {
      forall k | k in r ensures k != [] && k[0] == b && k[1..] in m && r[k] == m[k[1..]] {
        var k' :| k' in m && k == [b] + k';
        assert k[1..] == k';
      }
    }
    r
  }

  /** The pairs stored in the subtree `n`, keyed by the bytes below `n`. */
  ghost function Contents<K, V>(n: Node<K, V>): map<seq<bv8>, (K, V)>
  {
    var below := ForestContents(n.children);
    if n.item.Some? then below[[] := n.item.value] else below
  }

  ghost function ForestContents<K, V>(cs: seq<Node<K, V>>): map<seq<bv8>, (K, V)>
  {
    if cs == [] then map[] else Prefixed(cs[0].frag, Contents(cs[0])) + ForestContents(cs[1..])
  }

  /** The order in which the iterators visit the pairs of `n`. */
  ghost function InOrder<K, V>(n: Node<K, V>): seq<(K, V)>
  {
    if n.item.Some? then [n.item.value] + ForestInOrder(n.children) else ForestInOrder(n.children)
  }

  ghost function ForestInOrder<K, V>(cs: seq<Node<K, V>>): seq<(K, V)>
  {
    if cs == [] then [] else InOrder(cs[0]) + ForestInOrder(cs[1..])
  }

  /** The subtree holds at least one pair. */
  ghost predicate HoldsItem<K, V>(n: Node<K, V>)
  {
    Contents(n) != map[]
  }

  // ---------------------------------------------------------------------------
  // Construction
  // ---------------------------------------------------------------------------

  /** `Node::with_key_fragment`: an empty node below the edge `b`. */
  function WithFragment<K, V>(b: bv8): (r: Node<K, V>)
    ensures WellFormed(r) && r.frag == b && Contents(r) == map[]
  {
    Node(None, b, [])
  }

  /** `Node::root`: the fragment of the root is an arbitrary sentinel. */
  function Root<K, V>(): (r: Node<K, V>)
    ensures WellFormed(r) && Contents(r) == map[]
  {
    WithFragment(0)
  }

  // ---------------------------------------------------------------------------
  // Binary search among siblings (`binary_search_by_key` on `key_fragment`)
  // ---------------------------------------------------------------------------

  /** Finds `b` in `s`. What a miss means on a sorted `s` is `BinarySearchMisses`. */
  function BinarySearch(s: seq<bv8>, b: bv8): (r: Probe)
    ensures r.Found? ==> r.index < |s| && s[r.index] == b
    ensures r.Missing? ==> r.insertAt <= |s|
  {
    Bisect(s, b, 0, |s|)
  }

  /** The probe position of a non-empty window. */
  function Middle(lo: nat, hi: nat): (m: nat)
    requires lo < hi
    ensures lo <= m < hi
  {
    (lo + hi) / 2
  }

  /** Binary search of the window `s[lo..hi]`. */
  function Bisect(s: seq<bv8>, b: bv8, lo: nat, hi: nat): (r: Probe)
    requires lo <= hi <= |s|
    ensures r.Found? ==> lo <= r.index < hi && s[r.index] == b
    ensures r.Missing? ==> lo <= r.insertAt <= hi
    decreases hi - lo
  {
    if lo == hi then Missing(lo)
    else
      var mid := Middle(lo, hi);
      if s[mid] == b then Found(mid)
      else if s[mid] < b then Bisect(s, b, mid + 1, hi)
      else Bisect(s, b, lo, mid)
  }

  /** Everything left of the window `s[lo..hi]` is smaller than `b`, everything right of it larger. */
  predicate Window(s: seq<bv8>, b: bv8, lo: nat, hi: nat)
  {
    && (forall j :: 0 <= j < lo && j < |s| ==> s[j] < b)
    && (forall j :: hi <= j < |s| ==> b < s[j])
  }

  /** A miss of the binary search of a window splits `s` at the reported index. */
  lemma {:induction false} BisectMisses(s: seq<bv8>, b: bv8, lo: nat, hi: nat)
    requires lo <= hi <= |s| && Increasing(s) && Window(s, b, lo, hi)
    ensures Bisect(s, b, lo, hi).Missing? ==> Window(s, b, Bisect(s, b, lo, hi).insertAt, Bisect(s, b, lo, hi).insertAt)
    decreases hi - lo, 1
  {
    if lo < hi {
      var mid := Middle(lo, hi);
      if s[mid] == b {
      } else if s[mid] < b {
        MissesRight(s, b, lo, hi, mid);
      } else {
        MissesLeft(s, b, lo, hi, mid);
      }
    }
  }

  lemma {:induction false} MissesRight(s: seq<bv8>, b: bv8, lo: nat, hi: nat, mid: nat)
    requires lo <= mid < hi <= |s| && Increasing(s) && Window(s, b, lo, hi) && s[mid] < b
    ensures Bisect(s, b, mid + 1, hi).Missing? ==>
      Window(s, b, Bisect(s, b, mid + 1, hi).insertAt, Bisect(s, b, mid + 1, hi).insertAt)
    decreases hi - lo, 0
  {
    NarrowFromLeft(s, b, lo, hi, mid);
    BisectMisses(s, b, mid + 1, hi);
  }

  lemma {:induction false} MissesLeft(s: seq<bv8>, b: bv8, lo: nat, hi: nat, mid: nat)
    requires lo <= mid < hi <= |s| && Increasing(s) && Window(s, b, lo, hi) && b < s[mid]
    ensures Bisect(s, b, lo, mid).Missing? ==> Window(s, b, Bisect(s, b, lo, mid).insertAt, Bisect(s, b, lo, mid).insertAt)
    decreases hi - lo, 0
  {
    NarrowFromRight(s, b, lo, hi, mid);
    BisectMisses(s, b, lo, mid);
  }

  lemma NarrowFromLeft(s: seq<bv8>, b: bv8, lo: nat, hi: nat, mid: nat)
    requires Increasing(s) && Window(s, b, lo, hi) && mid < |s| && s[mid] < b
    ensures Window(s, b, mid + 1, hi)
  {
    forall j | 0 <= j < mid ensures s[j] < b {
      assert s[j] < s[mid];
    }
  }

  lemma NarrowFromRight(s: seq<bv8>, b: bv8, lo: nat, hi: nat, mid: nat)
    requires Increasing(s) && Window(s, b, lo, hi) && mid < |s| && b < s[mid]
    ensures Window(s, b, lo, mid)
  {
    forall j | mid < j < |s| ensures b < s[j] {
      assert s[mid] < s[j];
    }
  }

  /** On sorted fragments a miss reports the insertion index that keeps them sorted. */
  lemma BinarySearchMisses(s: seq<bv8>, b: bv8)
    requires Increasing(s)
    ensures BinarySearch(s, b).Missing? ==>
      && (forall j :: 0 <= j < BinarySearch(s, b).insertAt ==> s[j] < b)
      && (forall j :: BinarySearch(s, b).insertAt <= j < |s| ==> b < s[j])
  {
    BisectMisses(s, b, 0, |s|);
    var r := BinarySearch(s, b);
    if r.Missing? {
      assert Window(s, b, r.insertAt, r.insertAt);
    }
  }

  /** On strictly increasing fragments the search result is determined:
      it finds the one position holding `b`, and misses exactly when `b` is absent. */
  lemma BinarySearchExact(s: seq<bv8>, b: bv8)
    requires Increasing(s)
    ensures BinarySearch(s, b).Found? <==> b in s
    ensures forall i :: 0 <= i < |s| && s[i] == b ==> BinarySearch(s, b) == Found(i)
  {
    BinarySearchMisses(s, b);
    var r := BinarySearch(s, b);
    if r.Missing? {
      forall i | 0 <= i < |s| ensures s[i] != b {
        if i < r.insertAt { assert s[i] < b; } else { assert b < s[i]; }
      }
    }
  }

  // ---------------------------------------------------------------------------
  // Search (`Node::search` / `Node::search_mut`)
  // ---------------------------------------------------------------------------

  /** Walks the key bytes from `n`; the empty key stops at `n` itself, so
      `n`'s own fragment is never compared. */
  function Search<K, V>(n: Node<K, V>, bytes: seq<bv8>): (r: Option<Node<K, V>>)
    ensures bytes == [] ==> r == Some(n)
    ensures bytes != [] && bytes[0] !in Frags(n.children) ==> r == None
    ensures r.Some? && bytes != [] ==> r.value.frag == bytes[|bytes| - 1]
    ensures r.Some? && WellFormed(n) ==> WellFormed(r.value)
    decreases |bytes|
  {
    if bytes == [] then Some(n)
    else
      match BinarySearch(Frags(n.children), bytes[0])
      case Missing(_) => None
      case Found(i) => Search(n.children[i], bytes[1..])
  }

  /** The pair stored under `key`: search, then the node's `item` accessor. */
  function ItemAt<K, V>(n: Node<K, V>, key: seq<bv8>): Option<(K, V)>
  {
    match Search(n, key)
    case None => None
    case Some(m) => m.item
  }

  // ---------------------------------------------------------------------------
  // Searching agrees with the abstract contents
  // ---------------------------------------------------------------------------

  /** Every key stored below a sequence of siblings starts with one of their fragments. */
  lemma {:induction false} ForestKeyHead<K, V>(cs: seq<Node<K, V>>, k: seq<bv8>)
    requires k in ForestContents(cs)
    ensures k != [] && k[0] in Frags(cs)
  {
    var head := Prefixed(cs[0].frag, Contents(cs[0]));
    assert ForestContents(cs) == head + ForestContents(cs[1..]);
    if k in head {
      assert Frags(cs)[0] == cs[0].frag;
    } else {
      ForestKeyHead(cs[1..], k);
      var j :| 0 <= j < |cs[1..]| && Frags(cs[1..])[j] == k[0];
      assert Frags(cs)[j + 1] == k[0];
    }
  }

  /** The fragments of the later children, still increasing. */
  lemma FragsTail<K, V>(cs: seq<Node<K, V>>)
    requires cs != [] && Increasing(Frags(cs))
    ensures Frags(cs[1..]) == Frags(cs)[1..] && Increasing(Frags(cs[1..]))
  {
  }

  /** `[b] + k` is under `b` exactly when `k` is in `m`, with the same pair. */
  lemma PrefixedAt<K, V>(b: bv8, m: map<seq<bv8>, (K, V)>, k: seq<bv8>)
    ensures ([b] + k in Prefixed(b, m)) == (k in m)
    ensures k in m ==> Prefixed(b, m)[[b] + k] == m[k]
  {
    assert ([b] + k)[1..] == k;
  }

  /** On sorted siblings, the keys below child `i` are exactly `[frag] + k`
      for the keys `k` of that child. */
  lemma {:induction false} ForestContentsAt<K, V>(cs: seq<Node<K, V>>, i: nat, k: seq<bv8>)
    requires Increasing(Frags(cs)) && i < |cs|
    ensures ([cs[i].frag] + k in ForestContents(cs)) == (k in Contents(cs[i]))
    ensures k in Contents(cs[i]) ==> ForestContents(cs)[[cs[i].frag] + k] == Contents(cs[i])[k]
  {
    if i == 0 {
      ForestContentsFirst(cs, k);
    } else {
      FragsTail(cs);
      assert cs[1..][i - 1] == cs[i];
      ForestContentsAt(cs[1..], i - 1, k);
      var key := [cs[i].frag] + k;
      assert key[0] == Frags(cs)[i] && Frags(cs)[0] == cs[0].frag;
      ForestContentsSkip(cs, key);
    }
  }

  /** Keys under the first child's fragment come from the first child alone. */
  lemma ForestContentsFirst<K, V>(cs: seq<Node<K, V>>, k: seq<bv8>)
    requires Increasing(Frags(cs)) && cs != []
    ensures ([cs[0].frag] + k in ForestContents(cs)) == (k in Contents(cs[0]))
    ensures k in Contents(cs[0]) ==> ForestContents(cs)[[cs[0].frag] + k] == Contents(cs[0])[k]
  {
    PrefixedAt(cs[0].frag, Contents(cs[0]), k);
    TailKeysAbove(cs);
  }

  /** Every key held by a later child starts above the first child's fragment. */
  lemma TailKeysAbove<K, V>(cs: seq<Node<K, V>>)
    requires Increasing(Frags(cs)) && cs != []
    ensures forall k :: k in ForestContents(cs[1..]) ==> k != [] && cs[0].frag < k[0]
  {
    FirstFragBelow(cs);
    forall k | k in ForestContents(cs[1..]) ensures k != [] && cs[0].frag < k[0] {
      ForestKeyHead(cs[1..], k);
    }
  }

  /** A key that does not start with the first child's fragment is found in
      the later children or nowhere. */
  lemma ForestContentsSkip<K, V>(cs: seq<Node<K, V>>, key: seq<bv8>)
    requires cs != [] && (key == [] || key[0] != cs[0].frag)
    ensures (key in ForestContents(cs)) == (key in ForestContents(cs[1..]))
    ensures key in ForestContents(cs) ==> ForestContents(cs)[key] == ForestContents(cs[1..])[key]
  {
    assert key !in Prefixed(cs[0].frag, Contents(cs[0]));
  }

  /** The bridge between the operational and the abstract view: searching a
      key finds exactly the pair that the contents map holds for it. */
  lemma {:induction false} LookupContents<K, V>(n: Node<K, V>, key: seq<bv8>)
    requires WellFormed(n)
    ensures ItemAt(n, key) == if key in Contents(n) then Some(Contents(n)[key]) else None
    decreases |key|
  {
    var below := ForestContents(n.children);
    if key == [] {
      if [] in below { ForestKeyHead(n.children, []); }
    } else {
      var s := Frags(n.children);
      BinarySearchExact(s, key[0]);
      assert key == [key[0]] + key[1..];
      match BinarySearch(s, key[0])
      case Missing(_) =>
        if key in below { ForestKeyHead(n.children, key); }
      case Found(i) =>
        LookupContents(n.children[i], key[1..]);
        ForestContentsAt(n.children, i, key[1..]);
    }
  }

  /** A tree whose lookups all agree with `m` has contents `m`. */
  lemma ContentsByLookup<K, V>(n: Node<K, V>, m: map<seq<bv8>, (K, V)>)
    requires WellFormed(n)
    requires forall k :: ItemAt(n, k) == if k in m then Some(m[k]) else None
    ensures Contents(n) == m
  {
    forall k ensures (k in Contents(n)) == (k in m) && (k in m ==> Contents(n)[k] == m[k]) {
      LookupContents(n, k);
    }
  }

  // ---------------------------------------------------------------------------
  // Search-or-insert (`Node::search_or_insert`)
  // ---------------------------------------------------------------------------

  /** Splicing `b` in at an index where it fits keeps the fragments sorted. */
  lemma {:induction false} SpliceIncreasing(s: seq<bv8>, i: nat, b: bv8)
    requires i <= |s| && Increasing(s)
    requires forall j :: 0 <= j < i ==> s[j] < b
    requires forall j :: i <= j < |s| ==> b < s[j]
    ensures Increasing(s[..i] + [b] + s[i..])
  {
    var t := s[..i] + [b] + s[i..];
    forall x | 0 <= x < |t| ensures t[x] == if x < i then s[x] else if x == i then b else s[x - 1] {
      var _ := SpliceAt(s, i, b, x);
    }
    SplicedIncreasing(s, i, b, t);
  }

  /** Where the `j`-th element of a splice comes from. */
  lemma SpliceAt<T>(s: seq<T>, i: nat, b: T, j: nat) returns (r: nat)
    requires i <= |s| && j <= |s|
    ensures j < i ==> r == j && (s[..i] + [b] + s[i..])[j] == s[j]
    ensures j == i ==> (s[..i] + [b] + s[i..])[j] == b
    ensures j > i ==> r == j - 1 && (s[..i] + [b] + s[i..])[j] == s[j - 1]
  {
    r := if j <= i then j else j - 1;
  }

  /** `t` is `s` with `b` placed at `i`, stated elementwise. */
  lemma SplicedIncreasing(s: seq<bv8>, i: nat, b: bv8, t: seq<bv8>)
    requires i <= |s| && Increasing(s) && |t| == |s| + 1
    requires forall j :: 0 <= j < i ==> s[j] < b
    requires forall j :: i <= j < |s| ==> b < s[j]
    requires forall x {:trigger t[x]} :: 0 <= x < |t| ==> t[x] == (if x < i then s[x] else if x == i then b else s[x - 1])
    ensures Increasing(t)
  {
    forall j, k | 0 <= j < k < |t| ensures t[j] < t[k] {
      var tj, tk := t[j], t[k];
      if k < i {
        assert tj == s[j] && tk == s[k];
      } else if k == i {
        assert tj == s[j] && tk == b;
      } else if j < i {
        assert tj == s[j] && tk == s[k - 1] && b < s[k - 1];
      } else if j == i {
        assert tj == b && tk == s[k - 1];
      } else {
        assert tj == s[j - 1] && tk == s[k - 1];
      }
    }
  }

  /** Under sorted children, a key whose first byte is child `j`'s fragment
      is searched for in that child. */
  lemma {:induction false} ChildSearch<K, V>(n: Node<K, V>, j: nat, k: seq<bv8>)
    requires Increasing(Frags(n.children)) && j < |n.children|
    requires k != [] && k[0] == n.children[j].frag
    ensures Search(n, k) == Search(n.children[j], k[1..])
    ensures ItemAt(n, k) == ItemAt(n.children[j], k[1..])
  {
    BinarySearchExact(Frags(n.children), k[0]);
    assert Frags(n.children)[j] == k[0];
    assert BinarySearch(Frags(n.children), k[0]) == Found(j);
  }

  /** Replacing one child by a well-formed node with the same fragment keeps the node well-formed. */
  lemma {:induction false} ReplaceChild<K, V>(n: Node<K, V>, i: nat, x: Node<K, V>)
    requires WellFormed(n) && WellFormed(x) && i < |n.children| && x.frag == n.children[i].frag
    ensures Frags(n.children[i := x]) == Frags(n.children)
    ensures WellFormed(n.(children := n.children[i := x]))
  {
  }

  /** Splicing a well-formed node in where its fragment fits keeps the node well-formed. */
  lemma {:induction false} SpliceChild<K, V>(n: Node<K, V>, i: nat, x: Node<K, V>)
    requires WellFormed(n) && WellFormed(x) && i <= |n.children|
    requires forall j :: 0 <= j < i ==> Frags(n.children)[j] < x.frag
    requires forall j :: i <= j < |n.children| ==> x.frag < Frags(n.children)[j]
    ensures Frags(n.children[..i] + [x] + n.children[i..]) == Frags(n.children)[..i] + [x.frag] + Frags(n.children)[i..]
    ensures WellFormed(n.(children := n.children[..i] + [x] + n.children[i..]))
  {
    var s := Frags(n.children);
    var cs := n.children[..i] + [x] + n.children[i..];
    assert Frags(cs) == s[..i] + [x.frag] + s[i..];
    SpliceIncreasing(s, i, x.frag);
    forall j | 0 <= j < |cs| ensures WellFormed(cs[j]) {
      if j < i { assert cs[j] == n.children[j]; }
      else if i < j { assert cs[j] == n.children[j - 1]; }
    }
  }

  /** Walks the key bytes like `Search`, but a missing child is created, with
      an empty slot, at the index the binary search reports, and the walk goes
      on into it. The result is the updated subtree; the node the Rust code
      returns is `Search(r, bytes)`, which exists. */
  function SearchOrInsert<K, V>(n: Node<K, V>, bytes: seq<bv8>): (r: Node<K, V>)
    requires WellFormed(n)
    ensures WellFormed(r)
    ensures r.item == n.item && r.frag == n.frag
    ensures Search(r, bytes).Some?
    decreases |bytes|
  {
    if bytes == [] then n
    else
      var s := Frags(n.children);
      match BinarySearch(s, bytes[0])
      case Found(i) =>
        var c := SearchOrInsert(n.children[i], bytes[1..]);
        ReplaceChild(n, i, c);
        var r := n.(children := n.children[i := c]);
        ChildSearch(r, i, bytes);
        r
      case Missing(i) =>
        var c := SearchOrInsert(WithFragment(bytes[0]), bytes[1..]);
        SpliceSearch(n, i, c, bytes);
        n.(children := n.children[..i] + [c] + n.children[i..])
  }

  /** The child that search-or-insert creates goes where the binary search
      says; there the node stays well-formed and the walk finds the child. */
  lemma SpliceSearch<K, V>(n: Node<K, V>, i: nat, c: Node<K, V>, bytes: seq<bv8>)
    requires WellFormed(n) && WellFormed(c) && bytes != [] && c.frag == bytes[0]
    requires BinarySearch(Frags(n.children), bytes[0]) == Missing(i)
    requires Search(c, bytes[1..]).Some?
    ensures i <= |n.children|
    ensures WellFormed(n.(children := n.children[..i] + [c] + n.children[i..]))
    ensures Search(n.(children := n.children[..i] + [c] + n.children[i..]), bytes).Some?
  {
    BinarySearchMisses(Frags(n.children), bytes[0]);
    SpliceChild(n, i, c);
    var r := n.(children := n.children[..i] + [c] + n.children[i..]);
    assert r.children[i] == c;
    ChildSearch(r, i, bytes);
  }

  /** Replacing child `i` changes only the lookups that go through it. */
  lemma {:induction false} ReplaceChildLookup<K, V>(n: Node<K, V>, i: nat, x: Node<K, V>, k: seq<bv8>)
    requires WellFormed(n) && i < |n.children| && x.frag == n.children[i].frag
    ensures ItemAt(n.(children := n.children[i := x]), k) ==
      if k != [] && k[0] == x.frag then ItemAt(x, k[1..]) else ItemAt(n, k)
  {
    var r := n.(children := n.children[i := x]);
    assert Frags(r.children) == Frags(n.children);
    if k != [] {
      var s := Frags(n.children);
      if k[0] == x.frag {
        ChildSearch(r, i, k);
      } else if k[0] in s {
        var j :| 0 <= j < |s| && s[j] == k[0];
        ChildSearch(r, j, k);
        ChildSearch(n, j, k);
      }
    }
  }

  /** Splicing a new child in changes only the lookups that go through it. */
  lemma {:induction false} SpliceChildLookup<K, V>(n: Node<K, V>, i: nat, x: Node<K, V>, k: seq<bv8>)
    requires WellFormed(n) && WellFormed(x) && i <= |n.children|
    requires forall j :: 0 <= j < i ==> Frags(n.children)[j] < x.frag
    requires forall j :: i <= j < |n.children| ==> x.frag < Frags(n.children)[j]
    ensures ItemAt(n.(children := n.children[..i] + [x] + n.children[i..]), k) ==
      if k != [] && k[0] == x.frag then ItemAt(x, k[1..]) else ItemAt(n, k)
  {
    var r := n.(children := n.children[..i] + [x] + n.children[i..]);
    SpliceChild(n, i, x);
    if k != [] {
      var s := Frags(n.children);
      if k[0] == x.frag {
        assert r.children[i] == x;
        ChildSearch(r, i, k);
      } else if k[0] in s {
        var j :| 0 <= j < |s| && s[j] == k[0];
        var j' := if j < i then j else j + 1;
        assert r.children[j'] == n.children[j];
        ChildSearch(r, j', k);
        ChildSearch(n, j, k);
      } else {
        assert k[0] !in Frags(r.children);
      }
    }
  }

  /** Search-or-insert adds only empty slots: every key finds the same item as before. */
  lemma {:induction false} SearchOrInsertKeeps<K, V>(n: Node<K, V>, bytes: seq<bv8>, k: seq<bv8>)
    requires WellFormed(n)
    ensures ItemAt(SearchOrInsert(n, bytes), k) == ItemAt(n, k)
    decreases |bytes|
  {
    if bytes != [] {
      var s := Frags(n.children);
      var b := bytes[0];
      match BinarySearch(s, b)
      case Found(i) =>
        var c := SearchOrInsert(n.children[i], bytes[1..]);
        ReplaceChildLookup(n, i, c, k);
        if k != [] && k[0] == b {
          ChildSearch(n, i, k);
          SearchOrInsertKeeps(n.children[i], bytes[1..], k[1..]);
        }
      case Missing(i) =>
        var c := SearchOrInsert(WithFragment<K, V>(b), bytes[1..]);
        if k != [] && k[0] == b {
          SearchOrInsertKeeps(WithFragment<K, V>(b), bytes[1..], k[1..]);
          LookupContents(WithFragment<K, V>(b), k[1..]);
        }
        SpliceKeeps(n, i, c, k);
    }
  }

  /** Splicing in a child that finds nothing leaves every lookup as it was. */
  lemma SpliceKeeps<K, V>(n: Node<K, V>, i: nat, c: Node<K, V>, k: seq<bv8>)
    requires WellFormed(n) && WellFormed(c)
    requires BinarySearch(Frags(n.children), c.frag) == Missing(i)
    requires k != [] && k[0] == c.frag ==> ItemAt(c, k[1..]) == None
    ensures i <= |n.children|
    ensures ItemAt(n.(children := n.children[..i] + [c] + n.children[i..]), k) == ItemAt(n, k)
  {
    var s := Frags(n.children);
    BinarySearchMisses(s, c.frag);
    SpliceChildLookup(n, i, c, k);
    if k != [] && k[0] == c.frag {
      BinarySearchExact(s, c.frag);
    }
  }

  /** Search-or-insert on a path that already exists changes nothing. */
  lemma {:induction false} SearchOrInsertExisting<K, V>(n: Node<K, V>, bytes: seq<bv8>)
    requires WellFormed(n) && Search(n, bytes).Some?
    ensures SearchOrInsert(n, bytes) == n
    decreases |bytes|
  {
    if bytes != [] {
      match BinarySearch(Frags(n.children), bytes[0])
      case Found(i) =>
        SearchOrInsertExisting(n.children[i], bytes[1..]);
        assert n.children[i := n.children[i]] == n.children;
      case Missing(_) =>
    }
  }

  /** Repeating search-or-insert with the same bytes adds no node. */
  lemma SearchOrInsertIdempotent<K, V>(n: Node<K, V>, bytes: seq<bv8>)
    requires WellFormed(n)
    ensures SearchOrInsert(SearchOrInsert(n, bytes), bytes) == SearchOrInsert(n, bytes)
  {
    SearchOrInsertExisting(SearchOrInsert(n, bytes), bytes);
  }

  /** Search-or-insert leaves the stored pairs as they were. */
  lemma SearchOrInsertContents<K, V>(n: Node<K, V>, bytes: seq<bv8>)
    requires WellFormed(n)
    ensures Contents(SearchOrInsert(n, bytes)) == Contents(n)
  {
    forall k ensures ItemAt(SearchOrInsert(n, bytes), k) == if k in Contents(n) then Some(Contents(n)[k]) else None {
      SearchOrInsertKeeps(n, bytes, k);
      LookupContents(n, k);
    }
    ContentsByLookup(SearchOrInsert(n, bytes), Contents(n));
  }

  // ---------------------------------------------------------------------------
  // Writing a slot (`search_mut` followed by a write to `item`)
  // ---------------------------------------------------------------------------

  /** Replaces the item slot of the node reached by `path`; a path that does not
      exist changes nothing. No node is added or removed. */
  function WithItem<K, V>(n: Node<K, V>, path: seq<bv8>, it: Option<(K, V)>): (r: Node<K, V>)
    requires WellFormed(n)
    ensures WellFormed(r) && r.frag == n.frag
    ensures Search(n, path).None? ==> r == n
    ensures Search(n, path).Some? ==> Search(r, path).Some?
    decreases |path|
  {
    if path == [] then n.(item := it)
    else
      match BinarySearch(Frags(n.children), path[0])
      case Missing(_) => n
      case Found(i) =>
        var r := n.(children := n.children[i := WithItem(n.children[i], path[1..], it)]);
        assert Frags(r.children) == Frags(n.children);
        r
  }

  /** Two keys with the same first byte are equal exactly when their tails are. */
  lemma SameHead(k: seq<bv8>, p: seq<bv8>)
    requires k != [] && p != [] && k[0] == p[0]
    ensures (k == p) == (k[1..] == p[1..])
  {
    if k[1..] == p[1..] {
      assert k == [k[0]] + k[1..] && p == [p[0]] + p[1..];
    }
  }

  /** After the write, `path` finds the new slot value and every other key what it found before. */
  lemma {:induction false} WithItemAt<K, V>(n: Node<K, V>, path: seq<bv8>, it: Option<(K, V)>, k: seq<bv8>)
    requires WellFormed(n) && Search(n, path).Some?
    ensures ItemAt(WithItem(n, path, it), k) == if k == path then it else ItemAt(n, k)
    decreases |path|
  {
    if path != [] {
      match BinarySearch(Frags(n.children), path[0])
      case Found(i) =>
        var c := WithItem(n.children[i], path[1..], it);
        ReplaceChildLookup(n, i, c, k);
        if k != [] && k[0] == path[0] {
          ChildSearch(n, i, k);
          WithItemAt(n.children[i], path[1..], it, k[1..]);
          SameHead(k, path);
        }
      case Missing(_) =>
    }
  }

  /** Writing a pair into an existing slot adds or replaces that key; clearing it removes the key. */
  lemma WithItemContents<K, V>(n: Node<K, V>, path: seq<bv8>, it: Option<(K, V)>)
    requires WellFormed(n) && Search(n, path).Some?
    ensures Contents(WithItem(n, path, it)) ==
      if it.Some? then Contents(n)[path := it.value] else Contents(n) - {path}
  {
    var m := if it.Some? then Contents(n)[path := it.value] else Contents(n) - {path};
    forall k ensures ItemAt(WithItem(n, path, it), k) == if k in m then Some(m[k]) else None {
      WithItemAt(n, path, it, k);
      LookupContents(n, k);
    }
    ContentsByLookup(WithItem(n, path, it), m);
  }

  // ---------------------------------------------------------------------------
  // Keys below a prefix (`search` of a prefix, then of the rest)
  // ---------------------------------------------------------------------------

  /** Searching `p + k` is searching `p`, then `k` from the node reached. */
  lemma {:induction false} SearchAppend<K, V>(n: Node<K, V>, p: seq<bv8>, k: seq<bv8>)
    ensures Search(n, p + k) == match Search(n, p) case None => None case Some(m) => Search(m, k)
    decreases |p|
  {
    if p == [] {
      assert p + k == k;
    } else {
      assert (p + k)[0] == p[0] && (p + k)[1..] == p[1..] + k;
      match BinarySearch(Frags(n.children), p[0])
      case Found(i) => SearchAppend(n.children[i], p[1..], k);
      case Missing(_) =>
    }
  }

  /** The pairs of the node reached by `p` are exactly the pairs whose key
      starts with `p`; when `p` leads nowhere no stored key starts with it. */
  lemma SubtreeContents<K, V>(n: Node<K, V>, p: seq<bv8>)
    requires WellFormed(n)
    ensures Search(n, p).Some? ==> forall k ::
      && (p + k in Contents(n) <==> k in Contents(Search(n, p).value))
      && (k in Contents(Search(n, p).value) ==> Contents(n)[p + k] == Contents(Search(n, p).value)[k])
    ensures Search(n, p).None? ==> forall k :: p + k !in Contents(n)
  {
    forall k
      ensures Search(n, p).Some? ==>
        && (p + k in Contents(n) <==> k in Contents(Search(n, p).value))
        && (k in Contents(Search(n, p).value) ==> Contents(n)[p + k] == Contents(Search(n, p).value)[k])
      ensures Search(n, p).None? ==> p + k !in Contents(n)
    {
      SearchAppend(n, p, k);
      LookupContents(n, p + k);
      if Search(n, p).Some? {
        LookupContents(Search(n, p).value, k);
      }
    }
  }

  // ---------------------------------------------------------------------------
  // Whether a subtree holds anything (the walk behind `contains_prefix`)
  // ---------------------------------------------------------------------------

  /** A prefixed map is empty exactly when the original is. */
  lemma PrefixedEmpty<K, V>(b: bv8, m: map<seq<bv8>, (K, V)>)
    ensures (Prefixed(b, m) == map[]) == (m == map[])
  {
    if m != map[] {
      var k :| k in m;
      assert ([b] + k)[1..] == k;
      assert [b] + k in Prefixed(b, m);
    }
  }

  /** Stops at the first stored item found, own item first. */
  function AnyItem<K, V>(n: Node<K, V>): (r: bool)
    ensures r == HoldsItem(n)
  {
    if n.item.Some? then
      assert [] in Contents(n);
      true
    else AnyChildItem(n.children)
  }

  function AnyChildItem<K, V>(cs: seq<Node<K, V>>): (r: bool)
    ensures r == (ForestContents(cs) != map[])
  {
    if cs == [] then false
    else
      PrefixedEmpty(cs[0].frag, Contents(cs[0]));
      AnyItem(cs[0]) || AnyChildItem(cs[1..])
  }

  // ---------------------------------------------------------------------------
  // Visiting order: the keys of `InOrder`, in lexicographic byte order
  // ---------------------------------------------------------------------------

  /** Strict lexicographic order on byte strings, the order of Rust's `[u8]`. */
  predicate LexLess(a: seq<bv8>, b: seq<bv8>)
    decreases |a|
  {
    b != [] && (a == [] || a[0] < b[0] || (a[0] == b[0] && LexLess(a[1..], b[1..])))
  }

  /** A proper prefix comes first. */
  lemma {:induction false} LexLessPrefix(a: seq<bv8>, b: seq<bv8>)
    requires |a| < |b| && a == b[..|a|]
    ensures LexLess(a, b)
    decreases |a|
  {
    if a != [] {
      assert a[1..] == b[1..][..|a| - 1];
      LexLessPrefix(a[1..], b[1..]);
    }
  }

  /** Otherwise the first position where the strings differ decides. */
  lemma {:induction false} LexLessAt(a: seq<bv8>, b: seq<bv8>, d: nat)
    requires d < |a| && d < |b| && a[..d] == b[..d] && a[d] != b[d]
    ensures LexLess(a, b) == (a[d] < b[d])
    decreases d
  {
    if d > 0 {
      assert a[0] == a[..d][0] == b[..d][0] == b[0];
      assert a[1..][..d - 1] == a[..d][1..] && b[1..][..d - 1] == b[..d][1..];
      LexLessAt(a[1..], b[1..], d - 1);
    }
  }

  /** And these are the only two ways `a` can come before `b`: the result is
      `|a|` for a proper prefix, otherwise the first differing position. */
  lemma {:induction false} LexLessCases(a: seq<bv8>, b: seq<bv8>) returns (d: nat)
    requires LexLess(a, b)
    ensures d == |a| ==> |a| < |b| && a == b[..|a|]
    ensures d != |a| ==> d < |a| && d < |b| && a[..d] == b[..d] && a[d] < b[d]
    decreases |a|
  {
    if a == [] {
      d := 0;
    } else if a[0] < b[0] {
      d := 0;
    } else {
      var e := LexLessCases(a[1..], b[1..]);
      d := e + 1;
      assert a == [a[0]] + a[1..] && b == [b[0]] + b[1..];
      if e == |a[1..]| {
        assert b[..|a|] == [b[0]] + b[1..][..e];
      } else {
        assert a[..d] == [a[0]] + a[1..][..e] && b[..d] == [b[0]] + b[1..][..e];
      }
    }
  }

  lemma {:induction false} LexLessIrreflexive(a: seq<bv8>)
    ensures !LexLess(a, a)
    decreases |a|
  {
    if a != [] { LexLessIrreflexive(a[1..]); }
  }

  /** A common prefix does not change the order. */
  lemma {:induction false} LexLessPrefixed(p: seq<bv8>, a: seq<bv8>, b: seq<bv8>)
    ensures LexLess(p + a, p + b) == LexLess(a, b)
    decreases |p|
  {
    if p == [] {
      assert p + a == a && p + b == b;
    } else {
      assert (p + a)[1..] == p[1..] + a && (p + b)[1..] == p[1..] + b;
      LexLessPrefixed(p[1..], a, b);
    }
  }

  ghost predicate LexAscending(ks: seq<seq<bv8>>)
  {
    forall i, j :: 0 <= i < j < |ks| ==> LexLess(ks[i], ks[j])
  }

  lemma AscendingConcat(a: seq<seq<bv8>>, b: seq<seq<bv8>>)
    requires LexAscending(a) && LexAscending(b)
    requires forall i, j :: 0 <= i < |a| && 0 <= j < |b| ==> LexLess(a[i], b[j])
    ensures LexAscending(a + b)
  {
    var c := a + b;
    forall i, j | 0 <= i < j < |c| ensures LexLess(c[i], c[j]) {
      if j < |a| {
        assert c[i] == a[i] && c[j] == a[j];
      } else if i < |a| {
        assert c[i] == a[i] && c[j] == b[j - |a|];
      } else {
        assert c[i] == b[i - |a|] && c[j] == b[j - |a|];
      }
    }
  }

  /** Distinct keys: an ascending list has as many elements as entries. */
  lemma {:induction false} AscendingCard(ks: seq<seq<bv8>>)
    requires LexAscending(ks)
    ensures |set k | k in ks| == |ks|
  {
    if ks != [] {
      var t := ks[1..];
      AscendingTail(ks);
      AscendingCard(t);
      assert ks[0] !in t by {
        forall j | 0 <= j < |t| ensures t[j] != ks[0] {
          assert LexLess(ks[0], ks[j + 1]);
          if t[j] == ks[0] { LexLessIrreflexive(ks[0]); }
        }
      }
      assert (set k | k in ks) == {ks[0]} + (set k | k in t) by {
        assert ks == [ks[0]] + t;
      }
    }
  }

  /** No two keys come before each other. */
  lemma {:induction false} LexLessAsymmetric(a: seq<bv8>, b: seq<bv8>)
    requires LexLess(a, b)
    ensures !LexLess(b, a)
    decreases |a|
  {
    if a != [] && a[0] == b[0] {
      LexLessAsymmetric(a[1..], b[1..]);
    }
  }

  /** An ascending list is fixed by its elements: two ascending lists with
      the same elements are the same list. */
  lemma {:induction false} AscendingUnique(xs: seq<seq<bv8>>, ys: seq<seq<bv8>>)
    requires LexAscending(xs) && LexAscending(ys)
    requires forall k :: k in xs <==> k in ys
    ensures xs == ys
    decreases |xs|
  {
    assert |ys| == 0 || ys[0] in xs;
    if xs != [] {
      assert xs[0] in xs && ys != [] && ys[0] in ys;
      var j :| 0 <= j < |ys| && ys[j] == xs[0];
      var i :| 0 <= i < |xs| && xs[i] == ys[0];
      if i != 0 && j != 0 {
        LexLessAsymmetric(ys[0], ys[j]);
        assert false;
      }
      var s, t := xs[1..], ys[1..];
      AscendingTail(xs);
      AscendingTail(ys);
      forall k ensures k in s <==> k in t {
        if k in s {
          var x :| 0 <= x < |s| && s[x] == k;
          assert LexLess(xs[0], xs[x + 1]);
          LexLessIrreflexive(k);
          assert k in ys;
          var y :| 0 <= y < |ys| && ys[y] == k;
          assert y != 0;
          assert t[y - 1] == k;
        }
        if k in t {
          var y :| 0 <= y < |t| && t[y] == k;
          assert LexLess(ys[0], ys[y + 1]);
          LexLessIrreflexive(k);
          assert k in xs;
          var x :| 0 <= x < |xs| && xs[x] == k;
          assert x != 0;
          assert s[x - 1] == k;
        }
      }
      AscendingUnique(s, t);
      assert xs == [xs[0]] + s && ys == [ys[0]] + t;
    }
  }

  /** The tail of an ascending list is ascending. */
  lemma AscendingTail(ks: seq<seq<bv8>>)
    requires ks != [] && LexAscending(ks)
    ensures LexAscending(ks[1..])
  {
    var t := ks[1..];
    forall i, j | 0 <= i < j < |t| ensures LexLess(t[i], t[j]) {
      assert t[i] == ks[i + 1] && t[j] == ks[j + 1];
    }
  }

  /** Each key extended in front by `b`. */
  ghost function Extended(b: bv8, ks: seq<seq<bv8>>): seq<seq<bv8>>
  {
    seq(|ks|, i requires 0 <= i < |ks| => [b] + ks[i])
  }

  /** The keys (relative to `n`) of the pairs of `InOrder(n)`, position by position. */
  ghost function InOrderKeys<K, V>(n: Node<K, V>): seq<seq<bv8>>
  {
    if n.item.Some? then [[]] + ForestKeys(n.children) else ForestKeys(n.children)
  }

  ghost function ForestKeys<K, V>(cs: seq<Node<K, V>>): seq<seq<bv8>>
  {
    if cs == [] then [] else Extended(cs[0].frag, InOrderKeys(cs[0])) + ForestKeys(cs[1..])
  }

  lemma {:induction false} KeysLength<K, V>(n: Node<K, V>)
    ensures |InOrderKeys(n)| == |InOrder(n)|
    decreases n
  {
    ForestKeysLength(n.children);
  }

  lemma {:induction false} ForestKeysLength<K, V>(cs: seq<Node<K, V>>)
    ensures |ForestKeys(cs)| == |ForestInOrder(cs)|
    decreases cs
  {
    if cs != [] {
      KeysLength(cs[0]);
      ForestKeysLength(cs[1..]);
    }
  }

  /** Every key below a sequence of siblings starts with one of their fragments,
      the keys below the first sibling with its fragment. */
  lemma {:induction false} ForestKeysStart<K, V>(cs: seq<Node<K, V>>, i: nat)
    requires i < |ForestKeys(cs)|
    ensures ForestKeys(cs)[i] != [] && ForestKeys(cs)[i][0] in Frags(cs)
    ensures i < |InOrderKeys(cs[0])| ==> ForestKeys(cs)[i][0] == cs[0].frag
    decreases cs
  {
    var h := Extended(cs[0].frag, InOrderKeys(cs[0]));
    if i >= |h| {
      ForestKeysStart(cs[1..], i - |h|);
      assert Frags(cs[1..]) == Frags(cs)[1..];
    } else {
      assert ForestKeys(cs)[i] == h[i] && h[i][0] == cs[0].frag == Frags(cs)[0];
    }
  }

  /** The `i`-th visited key is stored, and its pair is the `i`-th visited pair. */
  lemma {:induction false} KeyAt<K, V>(n: Node<K, V>, i: nat)
    requires WellFormed(n) && i < |InOrderKeys(n)|
    ensures |InOrder(n)| == |InOrderKeys(n)|
    ensures InOrderKeys(n)[i] in Contents(n) && Contents(n)[InOrderKeys(n)[i]] == InOrder(n)[i]
    decreases n
  {
    KeysLength(n);
    var own := if n.item.Some? then 1 else 0;
    if i < own {
      assert InOrderKeys(n)[i] == [] && InOrder(n)[i] == n.item.value;
    } else {
      var j := i - own;
      var key := ForestKeys(n.children)[j];
      assert InOrderKeys(n)[i] == key && InOrder(n)[i] == ForestInOrder(n.children)[j];
      ForestKeyAt(n.children, j);
      ForestKeysStart(n.children, j);
      assert key != [] && key in ForestContents(n.children);
    }
  }

  lemma {:induction false} ForestKeyAt<K, V>(cs: seq<Node<K, V>>, i: nat)
    requires Increasing(Frags(cs)) && forall j :: 0 <= j < |cs| ==> WellFormed(cs[j])
    requires i < |ForestKeys(cs)|
    ensures |ForestInOrder(cs)| == |ForestKeys(cs)|
    ensures ForestKeys(cs)[i] in ForestContents(cs)
    ensures ForestContents(cs)[ForestKeys(cs)[i]] == ForestInOrder(cs)[i]
    decreases cs
  {
    ForestKeysLength(cs);
    KeysLength(cs[0]);
    var h := Extended(cs[0].frag, InOrderKeys(cs[0]));
    assert Frags(cs[1..]) == Frags(cs)[1..];
    if i < |h| {
      KeyAt(cs[0], i);
      ForestContentsAt(cs, 0, InOrderKeys(cs[0])[i]);
    } else {
      ForestKeyAt(cs[1..], i - |h|);
    }
  }

  /** Every stored key is visited. */
  lemma {:induction false} KeyListed<K, V>(n: Node<K, V>, k: seq<bv8>)
    requires k in Contents(n)
    ensures k in InOrderKeys(n)
    decreases n
  {
    if n.item.None? || k != [] {
      ForestKeyListed(n.children, k);
    }
  }

  lemma {:induction false} ForestKeyListed<K, V>(cs: seq<Node<K, V>>, k: seq<bv8>)
    requires k in ForestContents(cs)
    ensures k in ForestKeys(cs)
    decreases cs
  {
    if k in Prefixed(cs[0].frag, Contents(cs[0])) {
      KeyListed(cs[0], k[1..]);
      var j :| 0 <= j < |InOrderKeys(cs[0])| && InOrderKeys(cs[0])[j] == k[1..];
      assert k == [cs[0].frag] + k[1..];
      assert Extended(cs[0].frag, InOrderKeys(cs[0]))[j] == k;
    } else {
      ForestKeyListed(cs[1..], k);
    }
  }

  /** The visited keys are in strictly ascending lexicographic order. */
  lemma {:induction false} KeysAscending<K, V>(n: Node<K, V>)
    requires WellFormed(n)
    ensures LexAscending(InOrderKeys(n))
    decreases n
  {
    var t := ForestKeys(n.children);
    ForestKeysAscending(n.children);
    if n.item.Some? {
      forall j | 0 <= j < |t| ensures LexLess([], t[j]) {
        ForestKeysStart(n.children, j);
      }
      AscendingConcat([[]], t);
    }
  }

  lemma {:induction false} ForestKeysAscending<K, V>(cs: seq<Node<K, V>>)
    requires Increasing(Frags(cs)) && forall j :: 0 <= j < |cs| ==> WellFormed(cs[j])
    ensures LexAscending(ForestKeys(cs))
    decreases cs
  {
    if cs != [] {
      var b := cs[0].frag;
      var ks := InOrderKeys(cs[0]);
      var h := Extended(b, ks);
      var t := ForestKeys(cs[1..]);
      KeysAscending(cs[0]);
      assert Frags(cs[1..]) == Frags(cs)[1..];
      ForestKeysAscending(cs[1..]);
      ExtendedAscending(b, ks);
      forall i, j | 0 <= i < |h| && 0 <= j < |t| ensures LexLess(h[i], t[j]) {
        LaterChildAfter(cs, j);
      }
      AscendingConcat(h, t);
    }
  }

  /** Putting the same byte in front keeps ascending keys ascending. */
  lemma ExtendedAscending(b: bv8, ks: seq<seq<bv8>>)
    requires LexAscending(ks)
    ensures LexAscending(Extended(b, ks))
  {
    var h := Extended(b, ks);
    forall i, j | 0 <= i < j < |h| ensures LexLess(h[i], h[j]) {
      LexLessPrefixed([b], ks[i], ks[j]);
    }
  }

  /** A key of a later child starts with a byte above the first child's fragment. */
  lemma LaterChildAfter<K, V>(cs: seq<Node<K, V>>, j: nat)
    requires cs != [] && Increasing(Frags(cs)) && j < |ForestKeys(cs[1..])|
    ensures ForestKeys(cs[1..])[j] != [] && cs[0].frag < ForestKeys(cs[1..])[j][0]
    ensures forall a :: a != [] && a[0] == cs[0].frag ==> LexLess(a, ForestKeys(cs[1..])[j])
  {
    var t := ForestKeys(cs[1..]);
    ForestKeysStart(cs[1..], j);
    FragsTail(cs);
    var x :| 0 <= x < |cs[1..]| && Frags(cs[1..])[x] == t[j][0];
    assert Frags(cs)[0] < Frags(cs)[x + 1];
  }

  /** Iteration lists the contents: as many pairs as stored keys, each the
      pair of its key, every stored key listed, in ascending key order. */
  lemma Listing<K, V>(n: Node<K, V>)
    requires WellFormed(n)
    ensures |InOrderKeys(n)| == |InOrder(n)| == |Contents(n)|
    ensures forall i :: 0 <= i < |InOrder(n)| ==>
      InOrderKeys(n)[i] in Contents(n) && Contents(n)[InOrderKeys(n)[i]] == InOrder(n)[i]
    ensures forall k :: k in Contents(n) ==> k in InOrderKeys(n)
    ensures LexAscending(InOrderKeys(n))
  {
    KeysLength(n);
    KeysAscending(n);
    forall i | 0 <= i < |InOrder(n)|
      ensures InOrderKeys(n)[i] in Contents(n) && Contents(n)[InOrderKeys(n)[i]] == InOrder(n)[i]
    {
      KeyAt(n, i);
    }
    forall k | k in Contents(n) ensures k in InOrderKeys(n) {
      KeyListed(n, k);
    }
    AscendingCard(InOrderKeys(n));
    assert Contents(n).Keys == set k | k in InOrderKeys(n);
  }

  /** Iteration order depends only on what is stored: two trees with the
      same pairs yield them in the same order, however they were built. */
  lemma SameContentsSameOrder<K, V>(a: Node<K, V>, b: Node<K, V>)
    requires WellFormed(a) && WellFormed(b) && Contents(a) == Contents(b)
    ensures InOrder(a) == InOrder(b)
  {
    Listing(a);
    Listing(b);
    var ka, kb := InOrderKeys(a), InOrderKeys(b);
    forall k ensures k in ka <==> k in kb {
      if k in ka {
        var i :| 0 <= i < |ka| && ka[i] == k;
        assert k in Contents(b);
      }
      if k in kb {
        var i :| 0 <= i < |kb| && kb[i] == k;
        assert k in Contents(a);
      }
    }
    AscendingUnique(ka, kb);
    forall i | 0 <= i < |InOrder(a)| ensures InOrder(a)[i] == InOrder(b)[i] {
      assert Contents(a)[ka[i]] == InOrder(a)[i];
    }
  }

  // ---------------------------------------------------------------------------
  // Compaction (`Node::compact`)
  // ---------------------------------------------------------------------------

  /** The tree `compact` leaves behind: every child whose subtree holds no
      pair is dropped, recursively, and the order of the rest is kept. */
  ghost function Compacted<K, V>(n: Node<K, V>): Node<K, V>
  {
    Node(n.item, n.frag, Pruned(n.children))
  }

  ghost function Pruned<K, V>(cs: seq<Node<K, V>>): seq<Node<K, V>>
  {
    if cs == [] then []
    else if HoldsItem(cs[0]) then [Compacted(cs[0])] + Pruned(cs[1..]) else Pruned(cs[1..])
  }

  /** Pruning works child by child, which is what lets the loop in `Compact`
      extend its result one child at a time. */
  lemma {:induction false} PrunedSnoc<K, V>(cs: seq<Node<K, V>>, c: Node<K, V>)
    ensures Pruned(cs + [c]) == if HoldsItem(c) then Pruned(cs) + [Compacted(c)] else Pruned(cs)
    decreases |cs|
  {
    if cs == [] {
      assert [c][1..] == [];
    } else {
      assert (cs + [c])[1..] == cs[1..] + [c];
      PrunedSnoc(cs[1..], c);
    }
  }

  /** A sequence of siblings holds a pair exactly when some sibling survives pruning. */
  lemma {:induction false} PrunedEmpty<K, V>(cs: seq<Node<K, V>>)
    ensures (Pruned(cs) == []) == (ForestContents(cs) == map[])
    decreases |cs|
  {
    if cs != [] {
      PrunedEmpty(cs[1..]);
      PrefixedEmpty(cs[0].frag, Contents(cs[0]));
    }
  }

  /** A subtree holds a pair exactly when its node has an item or a child holds one. */
  lemma HoldsItemUnfold<K, V>(n: Node<K, V>)
    ensures HoldsItem(n) == (n.item.Some? || Pruned(n.children) != [])
  {
    PrunedEmpty(n.children);
    if n.item.Some? { assert [] in Contents(n); }
  }

  /** Compacts `n`: each child is compacted (in order) and kept exactly when
      it reports that it is useful; the result reports whether `n` is useful,
      i.e. whether it has an item or a kept child. */
  method Compact<K, V>(n: Node<K, V>) returns (r: Node<K, V>, useful: bool)
    ensures r == Compacted(n)
    ensures useful == HoldsItem(n)
    decreases n
  {
    var hasUsefulChildren := false;
    var kept: seq<Node<K, V>> := [];
    var i := 0;
    while i < |n.children|
      invariant 0 <= i <= |n.children|
      invariant kept == Pruned(n.children[..i])
      invariant hasUsefulChildren == (kept != [])
    {
      var child, isUseful := Compact(n.children[i]);
      hasUsefulChildren := hasUsefulChildren || isUseful;
      if isUseful {
        kept := kept + [child];
      }
      assert n.children[..i + 1] == n.children[..i] + [n.children[i]];
      PrunedSnoc(n.children[..i], n.children[i]);
      i := i + 1;
    }
    assert n.children[..i] == n.children;
    r := Node(n.item, n.frag, kept);
    useful := hasUsefulChildren || n.item.Some?;
    HoldsItemUnfold(n);
  }

  /** Compaction drops only subtrees without pairs: the contents are unchanged. */
  lemma {:induction false} CompactedContents<K, V>(n: Node<K, V>)
    ensures Contents(Compacted(n)) == Contents(n)
    decreases n
  {
    PrunedContents(n.children);
  }

  lemma {:induction false} PrunedContents<K, V>(cs: seq<Node<K, V>>)
    ensures ForestContents(Pruned(cs)) == ForestContents(cs)
    decreases cs
  {
    if cs != [] {
      PrunedContents(cs[1..]);
      var rest := Pruned(cs[1..]);
      if HoldsItem(cs[0]) {
        CompactedContents(cs[0]);
        assert Pruned(cs) == [Compacted(cs[0])] + rest;
        assert Pruned(cs)[1..] == rest;
      } else {
        PrefixedEmpty(cs[0].frag, Contents(cs[0]));
        assert Pruned(cs) == rest;
      }
    }
  }

  /** A subtree without pairs is visited without yielding anything. */
  lemma {:induction false} EmptyInOrder<K, V>(n: Node<K, V>)
    requires !HoldsItem(n)
    ensures InOrder(n) == []
    decreases n
  {
    HoldsItemUnfold(n);
    PrunedEmpty(n.children);
    ForestEmptyInOrder(n.children);
  }

  lemma {:induction false} ForestEmptyInOrder<K, V>(cs: seq<Node<K, V>>)
    requires ForestContents(cs) == map[]
    ensures ForestInOrder(cs) == []
    decreases cs
  {
    if cs != [] {
      var head := Prefixed(cs[0].frag, Contents(cs[0]));
      assert head.Keys <= ForestContents(cs).Keys;
      PrefixedEmpty(cs[0].frag, Contents(cs[0]));
      EmptyInOrder(cs[0]);
      ForestEmptyInOrder(cs[1..]);
    }
  }

  /** Compaction does not change what iteration yields, nor its order. */
  lemma {:induction false} CompactedInOrder<K, V>(n: Node<K, V>)
    ensures InOrder(Compacted(n)) == InOrder(n)
    decreases n
  {
    PrunedInOrder(n.children);
  }

  lemma {:induction false} PrunedInOrder<K, V>(cs: seq<Node<K, V>>)
    ensures ForestInOrder(Pruned(cs)) == ForestInOrder(cs)
    decreases cs
  {
    if cs != [] {
      PrunedInOrder(cs[1..]);
      var rest := Pruned(cs[1..]);
      if HoldsItem(cs[0]) {
        CompactedInOrder(cs[0]);
        assert Pruned(cs) == [Compacted(cs[0])] + rest;
        assert Pruned(cs)[1..] == rest;
      } else {
        EmptyInOrder(cs[0]);
        assert Pruned(cs) == rest;
      }
    }
  }

  /** Compaction keeps the children sorted. */
  lemma {:induction false} CompactedWellFormed<K, V>(n: Node<K, V>)
    requires WellFormed(n)
    ensures WellFormed(Compacted(n))
    decreases n
  {
    PrunedWellFormed(n.children);
  }

  /** Pruning keeps a subsequence: every surviving fragment was there before. */
  lemma {:induction false} PrunedFrags<K, V>(cs: seq<Node<K, V>>)
    ensures forall x :: x in Frags(Pruned(cs)) ==> x in Frags(cs)
    decreases cs
  {
    if cs != [] {
      PrunedFrags(cs[1..]);
      assert Frags(cs[1..]) == Frags(cs)[1..];
      if HoldsItem(cs[0]) {
        ConsFrags(Compacted(cs[0]), Pruned(cs[1..]));
      }
      assert Frags(cs)[0] == cs[0].frag;
      forall x | x in Frags(cs[1..]) ensures x in Frags(cs) {
        var i :| 0 <= i < |cs[1..]| && Frags(cs[1..])[i] == x;
        assert Frags(cs)[i + 1] == x;
      }
    }
  }

  lemma ConsIncreasing(b: bv8, s: seq<bv8>)
    requires Increasing(s) && forall x :: x in s ==> b < x
    ensures Increasing([b] + s)
  {
    var t := [b] + s;
    forall i, j | 0 <= i < j < |t| ensures t[i] < t[j] {
      assert t[j] == s[j - 1] && s[j - 1] in s;
      if i > 0 { assert t[i] == s[i - 1]; }
    }
  }

  /** Under increasing fragments the first child's comes before all others. */
  lemma FirstFragBelow<K, V>(cs: seq<Node<K, V>>)
    requires cs != [] && Increasing(Frags(cs))
    ensures forall x :: x in Frags(cs[1..]) ==> cs[0].frag < x
  {
    FragsTail(cs);
    forall x | x in Frags(cs[1..]) ensures cs[0].frag < x {
      var i :| 0 <= i < |cs| - 1 && Frags(cs[1..])[i] == x;
      assert Frags(cs)[0] < Frags(cs)[i + 1];
    }
  }

  /** A well-formed node whose fragment comes before all of `rest`'s, put in
      front of well-formed siblings, keeps them sorted and well-formed. */
  lemma ConsWellFormed<K, V>(c: Node<K, V>, rest: seq<Node<K, V>>)
    requires WellFormed(c) && Increasing(Frags(rest))
    requires forall j :: 0 <= j < |rest| ==> WellFormed(rest[j])
    requires forall x :: x in Frags(rest) ==> c.frag < x
    ensures Increasing(Frags([c] + rest))
    ensures forall j :: 0 <= j < |[c] + rest| ==> WellFormed(([c] + rest)[j])
  {
    ConsIncreasing(c.frag, Frags(rest));
    ConsFrags(c, rest);
    ConsEach(c, rest);
  }

  lemma ConsFrags<K, V>(c: Node<K, V>, rest: seq<Node<K, V>>)
    ensures Frags([c] + rest) == [c.frag] + Frags(rest)
  {
    var p := [c] + rest;
    forall j | 0 <= j < |p| ensures Frags(p)[j] == ([c.frag] + Frags(rest))[j] {
      if j > 0 { assert p[j] == rest[j - 1]; }
    }
  }

  lemma ConsEach<K, V>(c: Node<K, V>, rest: seq<Node<K, V>>)
    requires WellFormed(c) && forall j :: 0 <= j < |rest| ==> WellFormed(rest[j])
    ensures forall j :: 0 <= j < |[c] + rest| ==> WellFormed(([c] + rest)[j])
  {
    var p := [c] + rest;
    forall j | 0 <= j < |p| ensures WellFormed(p[j]) {
      if j > 0 { assert p[j] == rest[j - 1]; }
    }
  }

  lemma {:induction false} PrunedWellFormed<K, V>(cs: seq<Node<K, V>>)
    requires Increasing(Frags(cs)) && forall j :: 0 <= j < |cs| ==> WellFormed(cs[j])
    ensures Increasing(Frags(Pruned(cs)))
    ensures forall j :: 0 <= j < |Pruned(cs)| ==> WellFormed(Pruned(cs)[j])
    decreases cs
  {
    if cs != [] {
      var rest := Pruned(cs[1..]);
      FragsTail(cs);
      PrunedWellFormed(cs[1..]);
      if HoldsItem(cs[0]) {
        CompactedWellFormed(cs[0]);
        assert Pruned(cs) == [Compacted(cs[0])] + rest;
        PrunedFrags(cs[1..]);
        FirstFragBelow(cs);
        ConsWellFormed(Compacted(cs[0]), rest);
      } else {
        assert Pruned(cs) == rest;
      }
    }
  }

  /** After compaction every node below the root holds a pair. */
  ghost predicate Tight<K, V>(n: Node<K, V>)
  {
    forall j :: 0 <= j < |n.children| ==> HoldsItem(n.children[j]) && Tight(n.children[j])
  }

  lemma {:induction false} CompactedTight<K, V>(n: Node<K, V>)
    ensures Tight(Compacted(n))
    decreases n
  {
    PrunedTight(n.children);
  }

  lemma {:induction false} PrunedTight<K, V>(cs: seq<Node<K, V>>)
    ensures forall j :: 0 <= j < |Pruned(cs)| ==> HoldsItem(Pruned(cs)[j]) && Tight(Pruned(cs)[j])
    decreases cs
  {
    if cs != [] {
      var rest := Pruned(cs[1..]);
      PrunedTight(cs[1..]);
      if HoldsItem(cs[0]) {
        CompactedTight(cs[0]);
        CompactedContents(cs[0]);
        var p := [Compacted(cs[0])] + rest;
        assert Pruned(cs) == p;
        forall j | 0 <= j < |p| ensures HoldsItem(p[j]) && Tight(p[j]) {
          if j > 0 { assert p[j] == rest[j - 1]; }
        }
      }
    }
  }

  /** A tight tree is left as it is, so compacting twice is compacting once. */
  lemma {:induction false} TightCompacted<K, V>(n: Node<K, V>)
    requires Tight(n)
    ensures Compacted(n) == n
    decreases n
  {
    TightPruned(n.children);
  }

  lemma {:induction false} TightPruned<K, V>(cs: seq<Node<K, V>>)
    requires forall j :: 0 <= j < |cs| ==> HoldsItem(cs[j]) && Tight(cs[j])
    ensures Pruned(cs) == cs
    decreases cs
  {
    if cs != [] {
      TightCompacted(cs[0]);
      TightPruned(cs[1..]);
      assert cs == [cs[0]] + cs[1..];
    }
  }

  lemma CompactedIdempotent<K, V>(n: Node<K, V>)
    ensures Compacted(Compacted(n)) == Compacted(n)
  {
    CompactedTight(n);
    TightCompacted(Compacted(n));
  }
}
