/**
 * `PrefixTreeSet` (src/set.rs): a prefix-tree map whose values are all `()`.
 * Membership, insertion and removal answer with booleans; the set algebra
 * goes through the map's in-place operations, except `intersection`, which
 * leaves the set alone and collects the members of `other` it contains into
 * a new set.
 */
module Sets {
  import opened Wrappers
  import opened Nodes
  import Iterators
  import opened Maps

  /** The key bytes of a sequence of items. */
  ghost function ItemKeys<T>(kb: T -> seq<bv8>, xs: seq<T>): set<seq<bv8>>
  {
    set x | x in xs :: kb(x)
  }

  /** The items as map pairs with the unit value (`.map(|item| (item, ()))`). */
  function Paired<T>(xs: seq<T>): (r: seq<(T, ())>)
    ensures |r| == |xs| && forall i :: 0 <= i < |xs| ==> r[i] == (xs[i], ())
  {
    seq(|xs|, i requires 0 <= i < |xs| => (xs[i], ()))
  }

  lemma PairedKeys<T>(kb: T -> seq<bv8>, xs: seq<T>)
    ensures KeysOf(kb, Paired(xs)) == ItemKeys(kb, xs)
  {
    var ps := Paired(xs);
    forall k | k in ItemKeys(kb, xs) ensures k in KeysOf(kb, ps) {
      var x :| x in xs && kb(x) == k;
      var i :| 0 <= i < |xs| && xs[i] == x;
      assert ps[i] in ps;
    }
    forall k | k in KeysOf(kb, ps) ensures k in ItemKeys(kb, xs) {
      var p :| p in ps && kb(p.0) == k;
      var i :| 0 <= i < |ps| && ps[i] == p;
      assert xs[i] in xs;
    }
  }

  /** The first item of `xs` whose key bytes are `k`, if any. */
  ghost function FirstOf<T>(kb: T -> seq<bv8>, xs: seq<T>, k: seq<bv8>): Option<T>
  {
    if xs == [] then None
    else if kb(xs[0]) == k then Some(xs[0])
    else FirstOf(kb, xs[1..], k)
  }

  /** `FirstOf` finds an item with those bytes at an index before which no
      item has them, and finds nothing exactly when no item has them. */
  lemma {:induction false} FirstOfIndex<T>(kb: T -> seq<bv8>, xs: seq<T>, k: seq<bv8>) returns (i: nat)
    ensures FirstOf(kb, xs, k).None? <==> k !in ItemKeys(kb, xs)
    ensures FirstOf(kb, xs, k).Some? ==>
      i < |xs| && xs[i] == FirstOf(kb, xs, k).value && kb(xs[i]) == k &&
      forall j :: 0 <= j < i ==> kb(xs[j]) != k
  {
    if xs == [] {
      i := 0;
    } else if kb(xs[0]) == k {
      i := 0;
      assert xs[0] in xs;
    } else {
      var i' := FirstOfIndex(kb, xs[1..], k);
      i := i' + 1;
      assert ItemKeys(kb, xs) == {kb(xs[0])} + ItemKeys(kb, xs[1..]) by {
        assert xs == [xs[0]] + xs[1..];
      }
      if FirstOf(kb, xs, k).Some? {
        forall j | 0 < j < i ensures kb(xs[j]) != k {
          assert xs[j] == xs[1..][j - 1];
        }
      }
    }
  }

  /** Collecting items into a map where `k` is absent stores under `k` the
      first item with those bytes: later ones only rewrite the value `()`. */
  lemma {:induction false} UnionAllFirst<T>(m: map<seq<bv8>, (T, ())>, kb: T -> seq<bv8>, xs: seq<T>, k: seq<bv8>)
    requires k !in m
    ensures (k in UnionAll(m, kb, Paired(xs))) == FirstOf(kb, xs, k).Some?
    ensures k in UnionAll(m, kb, Paired(xs)) ==> UnionAll(m, kb, Paired(xs))[k].0 == FirstOf(kb, xs, k).value
    decreases |xs|
  {
    if xs != [] {
      assert Paired(xs)[1..] == Paired(xs[1..]);
      var m' := Inserted(m, kb, xs[0], ());
      if kb(xs[0]) == k {
        UnionAllKeepsKey(m', kb, Paired(xs[1..]), k);
      } else {
        UnionAllFirst(m', kb, xs[1..], k);
      }
    }
  }

  /** Every stored item is one of `xs`. */
  ghost predicate DrawnFrom<T>(m: map<seq<bv8>, (T, ())>, xs: seq<T>)
  {
    forall k :: k in m ==> m[k].0 in xs
  }

  /** Inserting items drawn from `ys` keeps every stored item drawn from `ys`. */
  lemma {:induction false} UnionAllDrawnFrom<T>(m: map<seq<bv8>, (T, ())>, kb: T -> seq<bv8>, xs: seq<T>, ys: seq<T>)
    requires DrawnFrom(m, ys) && forall x :: x in xs ==> x in ys
    ensures DrawnFrom(UnionAll(m, kb, Paired(xs)), ys)
    decreases |xs|
  {
    if xs != [] {
      assert Paired(xs)[1..] == Paired(xs[1..]);
      assert xs[0] in xs;
      UnionAllDrawnFrom(Inserted(m, kb, xs[0], ()), kb, xs[1..], ys);
    }
  }

  /** Collecting `f`, whose first item for every key is either absent or the
      first item of `xs` for that key, stores under each key the first item
      of `xs` with those bytes. */
  lemma CollectedFirst<T>(kb: T -> seq<bv8>, xs: seq<T>, f: seq<T>, keep: set<seq<bv8>>)
    requires forall k :: FirstOf(kb, f, k) == if k in keep then FirstOf(kb, xs, k) else None
    ensures forall k :: k in UnionAll(map[], kb, Paired(f)) ==>
      FirstOf(kb, xs, k).Some? && UnionAll(map[], kb, Paired(f))[k].0 == FirstOf(kb, xs, k).value
  {
    forall k | k in UnionAll(map[], kb, Paired(f))
      ensures FirstOf(kb, xs, k).Some? && UnionAll(map[], kb, Paired(f))[k].0 == FirstOf(kb, xs, k).value
    {
      UnionAllFirst(map[], kb, f, k);
    }
  }

  /** What collecting the kept items of `xs` gives: the kept keys of `xs`,
      each stored with the first item of `xs` that has those bytes. */
  lemma KeptCollected<T>(kb: T -> seq<bv8>, xs: seq<T>, f: seq<T>, keep: set<seq<bv8>>)
    requires forall i :: 0 <= i < |f| ==> f[i] in xs && kb(f[i]) in keep
    requires forall i :: 0 <= i < |xs| && kb(xs[i]) in keep ==> xs[i] in f
    requires forall k :: FirstOf(kb, f, k) == if k in keep then FirstOf(kb, xs, k) else None
    ensures UnionAll(map[], kb, Paired(f)).Keys == keep * ItemKeys(kb, xs)
    ensures DrawnFrom(UnionAll(map[], kb, Paired(f)), xs)
    ensures forall k :: k in UnionAll(map[], kb, Paired(f)) ==>
      FirstOf(kb, xs, k).Some? && UnionAll(map[], kb, Paired(f))[k].0 == FirstOf(kb, xs, k).value
  {
    UnionAllKeys(map[], kb, Paired(f));
    PairedKeys(kb, f);
    forall k ensures k in ItemKeys(kb, f) <==> k in keep * ItemKeys(kb, xs) {
      if k in ItemKeys(kb, f) {
        var x :| x in f && kb(x) == k;
        var i :| 0 <= i < |f| && f[i] == x;
      }
      if k in keep * ItemKeys(kb, xs) {
        var x :| x in xs && kb(x) == k;
        var i :| 0 <= i < |xs| && xs[i] == x;
      }
    }
    forall x | x in f ensures x in xs {
      var i :| 0 <= i < |f| && f[i] == x;
    }
    UnionAllDrawnFrom(map[], kb, f, xs);
    CollectedFirst(kb, xs, f, keep);
  }

  /** Some key of `ks` starts with `p`. */
  ghost predicate AnyStartsWith(ks: set<seq<bv8>>, p: seq<bv8>)
  {
    exists k :: k in ks && p <= k
  }

  /** `contains_prefix` on a tree: the prefix path exists and the subtree
      under it holds a pair exactly when some stored key starts with the prefix. */
  lemma PrefixOccupied<K, V>(root: Node<K, V>, p: seq<bv8>)
    requires WellFormed(root)
    ensures (Search(root, p).Some? && HoldsItem(Search(root, p).value)) <==> AnyStartsWith(Contents(root).Keys, p)
  {
    SubtreeContents(root, p);
    match Search(root, p)
    case None =>
      forall k | p <= k ensures k !in Contents(root) {
        assert p + k[|p|..] == k;
      }
    case Some(node) =>
      if HoldsItem(node) {
        var rel :| rel in Contents(node);
        var w := p + rel;
        assert w in Contents(root) && p <= w;
        assert w in Contents(root).Keys;
      }
      forall k | k in Contents(root) && p <= k ensures HoldsItem(node) {
        var rel := k[|p|..];
        assert p + rel == k;
        assert rel in Contents(node);
      }
  }

  /** `FromIterator::from_iter`: a new set that takes the items in order
      through `union_in_place`. */
  method FromItems<T>(keyBytes: T -> seq<bv8>, items: seq<T>) returns (r: PrefixTreeSet<T>)
    ensures fresh(r) && fresh(r.tree) && r.Valid() && r.tree.keyBytes == keyBytes
    ensures r.tree.Items() == UnionAll(map[], keyBytes, Paired(items))
    ensures r.Members() == ItemKeys(keyBytes, items)
  {
    r := new PrefixTreeSet(keyBytes);
    r.UnionInPlace(items);
  }

  class PrefixTreeSet<T> {
    const tree: PrefixTreeMap<T, ()>

    ghost predicate Valid()
      reads this, tree
    {
      tree.Valid()
    }

    /** The key bytes of the members. */
    ghost function Members(): set<seq<bv8>>
      reads this, tree
    {
      tree.Items().Keys
    }

    /** `PrefixTreeSet::new`. */
    constructor (keyBytes: T -> seq<bv8>)
      ensures Valid() && fresh(tree) && Members() == {} && tree.keyBytes == keyBytes
    {
      tree := new PrefixTreeMap(keyBytes);
    }

    function Len(): (r: nat)
      requires Valid()
      reads this, tree
      ensures r == |Members()|
    {
      tree.Len()
    }

    function IsEmpty(): (r: bool)
      requires Valid()
      reads this, tree
      ensures r <==> Members() == {}
    {
      tree.IsEmpty()
    }

    /** `contains`: membership by key bytes. */
    function Contains(item: seq<bv8>): (r: bool)
      requires Valid()
      reads this, tree
      ensures r <==> item in Members()
    {
      tree.ContainsKey(item)
    }

    /** `contains_prefix`: some member starts with `prefix`. The walk stops at
        the node the prefix reaches and looks for any pair below it. */
    function ContainsPrefix(prefix: seq<bv8>): (r: bool)
      requires Valid()
      reads this, tree
      ensures r <==> AnyStartsWith(Members(), prefix)
    {
      PrefixOccupied(tree.root, prefix);
      assert tree.Items() == Contents(tree.root);
      match Search(tree.root, prefix)
      case None => false
      case Some(node) => AnyItem(node)
    }

    /** `insert`: true exactly when the item was not a member; a member keeps
        the item it was stored with. */
    method Insert(item: T) returns (inserted: bool)
      requires Valid()
      modifies tree
      ensures Valid()
      ensures inserted <==> tree.keyBytes(item) !in old(Members())
      ensures Members() == old(Members()) + {tree.keyBytes(item)}
      ensures tree.len == if inserted then old(tree.len) + 1 else old(tree.len)
      ensures tree.Items() == Inserted(old(tree.Items()), tree.keyBytes, item, ())
      ensures tree.Items()[tree.keyBytes(item)].0 ==
        if inserted then item else old(tree.Items())[tree.keyBytes(item)].0
    {
      var prev := tree.Insert(item, ());
      inserted := prev.None?;
    }

    /** `remove`: true exactly when a member was removed. */
    method Remove(item: seq<bv8>) returns (removed: bool)
      requires Valid()
      modifies tree
      ensures Valid()
      ensures removed <==> item in old(Members())
      ensures Members() == old(Members()) - {item}
      ensures tree.Items() == old(tree.Items()) - {item}
      ensures tree.len == if removed then old(tree.len) - 1 else old(tree.len)
    {
      var prev := tree.Remove(item);
      removed := prev.Some?;
    }

    /** `union_in_place`: every item of `other` becomes a member; a member
        already present keeps the item it was stored with. */
    method UnionInPlace(other: seq<T>)
      requires Valid()
      modifies tree
      ensures Valid()
      ensures tree.Items() == UnionAll(old(tree.Items()), tree.keyBytes, Paired(other))
      ensures Members() == old(Members()) + ItemKeys(tree.keyBytes, other)
      ensures forall k :: k in old(Members()) ==> tree.Items()[k].0 == old(tree.Items())[k].0
    {
      PairedKeys(tree.keyBytes, other);
      UnionAllKeys(tree.Items(), tree.keyBytes, Paired(other));
      forall k | k in tree.Items() {
        UnionAllKeepsKey(tree.Items(), tree.keyBytes, Paired(other), k);
      }
      tree.UnionInPlace(Paired(other));
    }

    /** The items of `xs` that are members, in their order (the `filter` of `intersection`). */
    function Filtered(xs: seq<T>): (r: seq<T>)
      requires Valid()
      reads this, tree
      ensures forall i :: 0 <= i < |r| ==> r[i] in xs && tree.keyBytes(r[i]) in Members()
      ensures forall i :: 0 <= i < |xs| && tree.keyBytes(xs[i]) in Members() ==> xs[i] in r
    {
      if xs == [] then []
      else
        var rest := Filtered(xs[1..]);
        assert forall i :: 0 < i < |xs| ==> xs[i] == xs[1..][i - 1];
        if Contains(tree.keyBytes(xs[0])) then [xs[0]] + rest else rest
    }

    /** `intersection`: a new set collecting the items of `other` that are
        members of this set, which is left unchanged. */
    method Intersection(other: seq<T>) returns (r: PrefixTreeSet<T>)
      requires Valid()
      ensures fresh(r) && fresh(r.tree) && r.Valid() && r.tree.keyBytes == tree.keyBytes
      ensures r.tree.Items() == UnionAll(map[], tree.keyBytes, Paired(Filtered(other)))
      ensures r.Members() == Members() * ItemKeys(tree.keyBytes, other)
      ensures DrawnFrom(r.tree.Items(), other)
      ensures forall k :: k in r.tree.Items() ==>
        FirstOf(tree.keyBytes, other, k).Some? && r.tree.Items()[k].0 == FirstOf(tree.keyBytes, other, k).value
    {
      var kept := Filtered(other);
      IntersectionCollects(other);
      ghost var u := UnionAll(map[], tree.keyBytes, Paired(kept));
      ghost var members := Members();
      r := FromItems(tree.keyBytes, kept);
      assert Filtered(other) == kept && Members() == members && r.tree.Items() == u;
    }

    /** What `intersection` collects: the members' bytes that occur in
        `other`, each with the first item of `other` that has them. */
    lemma IntersectionCollects(other: seq<T>)
      requires Valid()
      ensures var u := UnionAll(map[], tree.keyBytes, Paired(Filtered(other)));
        && u.Keys == Members() * ItemKeys(tree.keyBytes, other)
        && DrawnFrom(u, other)
        && forall k :: k in u ==> FirstOf(tree.keyBytes, other, k).Some? && u[k].0 == FirstOf(tree.keyBytes, other, k).value
    {
      var kept := Filtered(other);
      forall k ensures FirstOf(tree.keyBytes, kept, k) == if k in Members() then FirstOf(tree.keyBytes, other, k) else None {
        FilteredFirst(other, k);
      }
      KeptCollected(tree.keyBytes, other, kept, Members());
    }

    /** Filtering by membership keeps, for a member's bytes, the same first
        item as `xs`, and for any other bytes no item. */
    lemma {:induction false} FilteredFirst(xs: seq<T>, k: seq<bv8>)
      requires Valid()
      ensures FirstOf(tree.keyBytes, Filtered(xs), k) == if k in Members() then FirstOf(tree.keyBytes, xs, k) else None
      decreases |xs|
    {
      if xs != [] {
        FilteredFirst(xs[1..], k);
      }
    }

    /** `difference_in_place`: no item of `other` is a member any more. */
    method DifferenceInPlace(other: seq<seq<bv8>>)
      requires Valid()
      modifies tree
      ensures Valid()
      ensures Members() == old(Members()) - set k | k in other
      ensures tree.Items() == Without(old(tree.Items()), other)
    {
      tree.DifferenceInPlace(other);
    }

    /** `symmetric_difference_in_place`: each item of `other` flips the
        membership of its key, so a key ends up a member exactly when it was
        one and occurs an even number of times, or was not and occurs an odd
        number of times. */
    method SymmetricDifferenceInPlace(other: seq<T>)
      requires Valid()
      modifies tree
      ensures Valid()
      ensures tree.Items() == ToggleAll(old(tree.Items()), tree.keyBytes, Paired(other))
      ensures forall k :: k in Members() <==>
        ((k in old(Members())) != (Occurrences(tree.keyBytes, Paired(other), k) % 2 == 1))
      ensures DistinctKeys(tree.keyBytes, Paired(other)) ==>
        Members() == (old(Members()) - ItemKeys(tree.keyBytes, other)) + (ItemKeys(tree.keyBytes, other) - old(Members()))
    {
      var ps := Paired(other);
      PairedKeys(tree.keyBytes, other);
      forall k {
        ToggleAllParity(tree.Items(), tree.keyBytes, ps, k);
      }
      if DistinctKeys(tree.keyBytes, ps) {
        ToggleAllKeys(tree.Items(), tree.keyBytes, ps);
      }
      tree.SymmetricDifferenceInPlace(ps);
    }

    /** `iter`: the members' items in ascending order of key bytes. */
    method Iter() returns (it: Iterators.Iter<T, ()>)
      requires Valid()
      ensures fresh(it) && fresh(it.iter) && it.Valid()
      ensures ListsInOrder(it.Remaining(), tree.Items(), tree.keyBytes, [])
    {
      it := tree.Iter();
    }

    /** `prefix_iter`: the members starting with `prefix`, in ascending order. */
    method PrefixIter(prefix: seq<bv8>) returns (it: Iterators.NodeIter<T, ()>)
      requires Valid()
      ensures fresh(it)
      ensures ListsInOrder(it.Remaining(), tree.Items(), tree.keyBytes, prefix)
    {
      it := tree.PrefixIter(prefix);
    }

    /** `compact`: the stored items, their count and their iteration order
        are unchanged. */
    method Compact()
      requires Valid()
      modifies tree
      ensures Valid() && tree.Items() == old(tree.Items()) && tree.len == old(tree.len)
      ensures Members() == old(Members())
      ensures InOrder(tree.root) == old(InOrder(tree.root))
      ensures Tight(tree.root)
    {
      tree.Compact();
    }
  }
}
