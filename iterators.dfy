/**
 * The subtree iterators of src/map.rs. A node iterator (`NodeIter`) holds the
 * item it has not yielded yet, the children it has not entered yet and, boxed,
 * the iterator of the child it is in (`curr_child_iter`). The state is the
 * datatype `Cursor`, whose `current` field is that boxed iterator. `Iter`
 * wraps a node iterator with the count of pairs still to come.
 *
 * The owning iterators (`NodeIntoIter`, `IntoIter`) walk the same way over an
 * owned tree; with trees as values they are the same model.
 */
module Iterators {
  import opened Wrappers
  import opened Nodes

  /** The state of a `NodeIter`: the item not yet yielded, the children not
      yet entered (`children_iter`) and the iterator of the current child. */
  datatype Cursor<K, V> = Cursor(item: Option<(K, V)>, rest: seq<Node<K, V>>, current: Option<Cursor<K, V>>)

  /** `Node::iter`: the node's own item, and the first child entered straight away. */
  function Start<K, V>(n: Node<K, V>): (r: Cursor<K, V>)
    ensures r.item == n.item
    decreases n
  {
    if n.children == [] then Cursor(n.item, [], None)
    else Cursor(n.item, n.children[1..], Some(Start(n.children[0])))
  }

  /** The pairs a cursor still yields: its own item, then whatever the current
      child's iterator yields, then the remaining children in order. */
  ghost function Pending<K, V>(c: Cursor<K, V>): seq<(K, V)>
  {
    var below := if c.current.Some? then Pending(c.current.value) + ForestInOrder(c.rest) else ForestInOrder(c.rest);
    if c.item.Some? then [c.item.value] + below else below
  }

  /** A fresh cursor yields the subtree in order. */
  lemma {:induction false} StartPending<K, V>(n: Node<K, V>)
    ensures Pending(Start(n)) == InOrder(n)
    decreases n
  {
    if n.children != [] {
      StartPending(n.children[0]);
      assert ForestInOrder(n.children) == InOrder(n.children[0]) + ForestInOrder(n.children[1..]);
    }
  }

  // ---------------------------------------------------------------------------
  // A measure that every step of `next` lowers (termination of the recursion)
  // ---------------------------------------------------------------------------

  ghost function Size<K, V>(n: Node<K, V>): nat
  {
    2 + ForestSize(n.children)
  }

  ghost function ForestSize<K, V>(cs: seq<Node<K, V>>): nat
  {
    if cs == [] then 0 else Size(cs[0]) + ForestSize(cs[1..])
  }

  ghost function Weight<K, V>(c: Cursor<K, V>): nat
  {
    (if c.item.Some? then 1 else 0) + ForestSize(c.rest) + (if c.current.Some? then Weight(c.current.value) else 0)
  }

  /** A fresh cursor weighs less than the subtree it walks. */
  lemma {:induction false} StartWeight<K, V>(n: Node<K, V>)
    ensures Weight(Start(n)) < Size(n)
    decreases n
  {
    if n.children != [] {
      StartWeight(n.children[0]);
    }
  }

  // ---------------------------------------------------------------------------
  // `NodeIter`
  // ---------------------------------------------------------------------------

  class NodeIter<K, V> {
    var cursor: Cursor<K, V>

    /** The pairs this iterator will still yield, in order. */
    ghost function Remaining(): seq<(K, V)>
      reads this
    {
      Pending(cursor)
    }

    /** `Node::iter`: an iterator over the subtree `n`. */
    constructor (n: Node<K, V>)
      ensures Remaining() == InOrder(n)
    {
      cursor := Start(n);
      StartPending(n);
    }

    /** The iterator `prefix_iter` returns when the prefix leads nowhere. */
    constructor Empty()
      ensures Remaining() == []
    {
      cursor := Cursor(None, [], None);
    }

    /** Yields the next pair of the in-order walk, or nothing once the walk is over. */
    method Next() returns (r: Option<(K, V)>)
      modifies this
      ensures old(Remaining()) == [] ==> r == None && Remaining() == []
      ensures old(Remaining()) != [] ==> r == Some(old(Remaining())[0]) && Remaining() == old(Remaining())[1..]
    {
      r, cursor := NextIn(cursor);
    }
  }

  /** `whole` is `p + f` and `tail` is `p[1..] + f`: `tail` is `whole` without its first element. */
  lemma ShiftHead<T>(whole: seq<T>, tail: seq<T>, p: seq<T>, f: seq<T>)
    requires p != [] && whole == p + f && tail == p[1..] + f
    ensures whole != [] && whole[0] == p[0] && tail == whole[1..]
  {
  }

  /** The own item is yielded first. */
  lemma TakeOwn<K, V>(c: Cursor<K, V>)
    requires c.item.Some?
    ensures Pending(c) != [] && Pending(c)[0] == c.item.value
    ensures Pending(c.(item := None)) == Pending(c)[1..]
    ensures Weight(c.(item := None)) < Weight(c)
  {
    var tail := Pending(c.(item := None));
    ShiftHead(Pending(c), tail, [c.item.value], tail);
  }

  /** Without an own item, the current child's next pair comes next. */
  lemma TakeCurrent<K, V>(c: Cursor<K, V>, spent: Cursor<K, V>)
    requires c.item.None? && c.current.Some? && Pending(c.current.value) != []
    requires Pending(spent) == Pending(c.current.value)[1..] && Weight(spent) <= Weight(c.current.value)
    ensures Pending(c) != [] && Pending(c)[0] == Pending(c.current.value)[0]
    ensures Pending(c.(current := Some(spent))) == Pending(c)[1..]
    ensures Weight(c.(current := Some(spent))) <= Weight(c)
  {
    var p, f := Pending(c.current.value), ForestInOrder(c.rest);
    ShiftHead(Pending(c), Pending(c.(current := Some(spent))), p, f);
  }

  /** Entering the next child once the current one is spent: the child's
      fresh cursor replaces the spent one, weighs less and yields the same. */
  lemma Enter<K, V>(c: Cursor<K, V>)
    requires c.item.None? && c.rest != [] && (c.current.Some? ==> Pending(c.current.value) == [])
    ensures Weight(Cursor(None, c.rest[1..], Some(Start(c.rest[0])))) < Weight(c)
    ensures Pending(Cursor(None, c.rest[1..], Some(Start(c.rest[0])))) == Pending(c)
  {
    var child := c.rest[0];
    var entered := Cursor(None, c.rest[1..], Some(Start(child)));
    assert Weight(entered) < Weight(c) by {
      StartWeight(child);
      assert ForestSize(c.rest) == Size(child) + ForestSize(c.rest[1..]);
    }
    calc {
      Pending(entered);
      Pending(Start(child)) + ForestInOrder(c.rest[1..]);
      { StartPending(child); }
      InOrder(child) + ForestInOrder(c.rest[1..]);
      ForestInOrder(c.rest);
      Pending(c);
    }
  }

  /** `NodeIter::next` on the state `c`; returns the pair and the new state.
      The own item comes first; failing that, the current child's next pair;
      failing that, the next child is entered (its iterator replaces the spent
      one) and the call is repeated. */
  method NextIn<K, V>(c: Cursor<K, V>) returns (r: Option<(K, V)>, c': Cursor<K, V>)
    ensures Weight(c') <= Weight(c)
    ensures Pending(c) == [] ==> r == None && Pending(c') == []
    ensures Pending(c) != [] ==> r == Some(Pending(c)[0]) && Pending(c') == Pending(c)[1..]
    decreases Weight(c), c
  {
    if c.item.Some? {
      TakeOwn(c);
      r := c.item;
      c' := c.(item := None);
      return;
    }
    c' := c;
    if c.current.Some? {
      var next, spent := NextIn(c.current.value);
      if next.Some? {
        TakeCurrent(c, spent);
        r := next;
        c' := c.(current := Some(spent));
        return;
      }
      c' := c.(current := Some(spent));
    }
    if c.rest == [] {
      r := None;
      return;
    }
    Enter(c');
    r, c' := NextIn(Cursor(None, c.rest[1..], Some(Start(c.rest[0]))));
  }

  // ---------------------------------------------------------------------------
  // `Iter`: a node iterator with an exact count
  // ---------------------------------------------------------------------------

  class Iter<K, V> {
    const iter: NodeIter<K, V>
    var len: nat

    /** The count is the number of pairs still to come. */
    ghost predicate Valid()
      reads this, iter
    {
      len == |iter.Remaining()|
    }

    ghost function Remaining(): seq<(K, V)>
      reads this, iter
    {
      iter.Remaining()
    }

    /** `PrefixTreeMap::iter`: walks the tree `root` holding `count` pairs. */
    constructor (root: Node<K, V>, count: nat)
      requires |InOrder(root)| == count
      ensures Valid() && fresh(iter) && Remaining() == InOrder(root)
    {
      iter := new NodeIter(root);
      len := count;
    }

    /** `ExactSizeIterator::len`: the number of pairs still to come. */
    function Len(): (r: nat)
      requires Valid()
      reads this, iter
      ensures r == |Remaining()|
    {
      len
    }

    /** Yields the next pair and counts it off. */
    method Next() returns (r: Option<(K, V)>)
      requires Valid()
      modifies this, iter
      ensures Valid()
      ensures old(Remaining()) == [] ==> r == None && Remaining() == [] && len == old(len)
      ensures old(Remaining()) != [] ==>
        r == Some(old(Remaining())[0]) && Remaining() == old(Remaining())[1..] && len == old(len) - 1
    {
      r := iter.Next();
      if r.Some? {
        len := len - 1;
      }
    }
  }
}
