/** The doubly linked list of utils_list.c, refined to the sequence of its nodes, and the two ways
    its users remove nodes while they iterate. */
module UtilsList {
  datatype Direction = LIST_HEAD | LIST_TAIL

  class Node<T> {
    const val: T
    var prev: Node?<T>
    var next: Node?<T>

    constructor (v: T)
      ensures val == v && prev == null && next == null
    {
      val, prev, next := v, null, null;
    }
  }

  /** The nodes from position k on that are to stay, in their order. */
  function Keep<T>(keep: T -> bool, ns: seq<Node<T>>, k: nat): seq<Node<T>>
    requires k <= |ns|
    decreases |ns| - k
  {
    if k == |ns| then [] else (if keep(ns[k].val) then [ns[k]] else []) + Keep(keep, ns, k + 1)
  }

  /** The nodes from position k on, from the tail. */
  function Reverse<A>(s: seq<A>, k: nat): seq<A>
    requires k <= |s|
    decreases |s| - k
  {
    if k == |s| then [] else Reverse(s, k + 1) + [s[k]]
  }

  class List<T(==)> {
    var head: Node?<T>
    var tail: Node?<T>
    var len: nat
    const match_: (T, T) -> bool
    ghost var nodes: seq<Node<T>>
    ghost var footprint: set<Node<T>>

    ghost predicate Valid()
      reads this, footprint
    {
      && (forall i :: 0 <= i < |nodes| ==> nodes[i] in footprint)
      && len == |nodes|
      && head == (if nodes == [] then null else nodes[0])
      && tail == (if nodes == [] then null else nodes[|nodes| - 1])
      && (forall i, j :: 0 <= i < j < |nodes| ==> nodes[i] != nodes[j])
      && (forall i, j :: 0 <= i < j < |nodes| && j == i + 1 ==> nodes[i].next == nodes[j] && nodes[j].prev == nodes[i])
      && (nodes != [] ==> nodes[0].prev == null && nodes[|nodes| - 1].next == null)
    }

    constructor (eq: (T, T) -> bool)
      ensures Valid() && nodes == [] && footprint == {} && match_ == eq
    {
      head, tail, len, match_ := null, null, 0, eq;
      nodes, footprint := [], {};
    }

    /** list_rpush. */
    method RPush(node: Node<T>)
      requires Valid() && node !in nodes
      modifies this, footprint, node
      ensures Valid() && nodes == old(nodes) + [node] && footprint == old(footprint) + {node}
    {
      if len != 0 {
        node.prev := tail;
        node.next := null;
        tail.next := node;
        tail := node;
      } else {
        head := node;
        tail := node;
        node.prev := null;
        node.next := null;
      }
      len := len + 1;
      nodes, footprint := nodes + [node], footprint + {node};
    }

    /** list_lpush. */
    method LPush(node: Node<T>)
      requires Valid() && node !in nodes
      modifies this, footprint, node
      ensures Valid() && nodes == [node] + old(nodes) && footprint == old(footprint) + {node}
    {
      if len != 0 {
        node.next := head;
        node.prev := null;
        head.prev := node;
        head := node;
      } else {
        head := node;
        tail := node;
        node.prev := null;
        node.next := null;
      }
      len := len + 1;
      nodes, footprint := [node] + nodes, footprint + {node};
    }

    /** list_rpop. */
    method RPop() returns (node: Node?<T>)
      requires Valid()
      modifies this, footprint
      ensures Valid() && footprint == old(footprint)
      ensures old(nodes) == [] ==> node == null && nodes == []
      ensures old(nodes) != [] ==> old(nodes) == nodes + [node] && node.prev == null && node.next == null
    {
      if len == 0 {
        return null;
      }
      node := tail;
      assert len > 1 ==> nodes[len - 2].next == nodes[len - 1];
      len := len - 1;
      if len != 0 {
        tail := node.prev;
        tail.next := null;
      } else {
        tail := null;
        head := null;
      }
      node.next := null;
      node.prev := null;
      nodes := nodes[..|nodes| - 1];
    }

    /** list_lpop. */
    method LPop() returns (node: Node?<T>)
      requires Valid()
      modifies this, footprint
      ensures Valid() && footprint == old(footprint)
      ensures old(nodes) == [] ==> node == null && nodes == []
      ensures old(nodes) != [] ==> old(nodes) == [node] + nodes && node.prev == null && node.next == null
    {
      if len == 0 {
        return null;
      }
      node := head;
      assert len > 1 ==> nodes[0].next == nodes[1];
      len := len - 1;
      if len != 0 {
        head := node.next;
        head.prev := null;
      } else {
        head := null;
        tail := null;
      }
      node.next := null;
      node.prev := null;
      nodes := nodes[1..];
    }

    /** list_remove; k is where the node stands. */
    method Remove(node: Node<T>, ghost k: nat)
      requires Valid() && k < |nodes| && nodes[k] == node
      modifies this, footprint
      ensures Valid() && nodes == old(nodes)[..k] + old(nodes)[k + 1..] && footprint == old(footprint)
    {
      assert k > 0 ==> nodes[k - 1].next == nodes[k];
      assert k + 1 < |nodes| ==> nodes[k].next == nodes[k + 1];
      if node.prev != null {
        node.prev.next := node.next;
      } else {
        head := node.next;
      }
      if node.next != null {
        node.next.prev := node.prev;
      } else {
        tail := node.prev;
      }
      if len != 0 {
        len := len - 1;
      }
      nodes := nodes[..k] + nodes[k + 1..];
    }
  }

  /** ListIterator; pos is where next stands in the list, counted from the end the iterator began at. */
  class Iterator<T(==)> {
    var next: Node?<T>
    const direction: Direction

    constructor (list: List<T>, d: Direction)
      requires list.Valid()
      ensures next == (if d == LIST_HEAD then list.head else list.tail) && direction == d
    {
      next := if d == LIST_HEAD then list.head else list.tail;
      direction := d;
    }

    /** list_iterator_next. */
    method Next() returns (curr: Node?<T>)
      modifies this
      ensures curr == old(next)
      ensures next == if curr == null then null else if direction == LIST_HEAD then curr.next else curr.prev
    {
      curr := next;
      if curr != null {
        next := if direction == LIST_HEAD then curr.next else curr.prev;
      }
    }
  }

  /** list_find: the first node from the head that matches. */
  method Find<T(==)>(list: List<T>, val: T) returns (node: Node?<T>, ghost k: nat)
    requires list.Valid()
    ensures k <= |list.nodes| && forall i :: 0 <= i < k ==> !list.match_(val, list.nodes[i].val)
    ensures if k < |list.nodes| then node == list.nodes[k] && list.match_(val, node.val) else node == null
  {
    var it := new Iterator(list, LIST_HEAD);
    node := it.Next();
    k := 0;
    while node != null
      invariant k <= |list.nodes| && (node == null <==> k == |list.nodes|)
      invariant node != null ==> node == list.nodes[k] && it.next == node.next
      invariant forall i :: 0 <= i < k ==> !list.match_(val, list.nodes[i].val)
      invariant it.direction == LIST_HEAD
      decreases |list.nodes| - k
    {
      if list.match_(val, node.val) {
        return;
      }
      assert k + 1 < |list.nodes| ==> list.nodes[k].next == list.nodes[k + 1];
      node := it.Next();
      k := k + 1;
    }
  }

  /** list_at: index 0 is the head, -1 the tail. */
  method At<T(==)>(list: List<T>, index: int) returns (node: Node?<T>)
    requires list.Valid()
    ensures var n := |list.nodes|;
      node == if 0 <= index < n then list.nodes[index] else if -n <= index < 0 then list.nodes[n + index] else null
  {
    var direction, i := LIST_HEAD, index;
    if index < 0 {
      direction := LIST_TAIL;
      i := -index - 1;
    }
    if i < list.len {
      var it := new Iterator(list, direction);
      node := it.Next();
      ghost var k, n := 0, |list.nodes|;
      while i != 0
        invariant 0 <= i && k + i < n && k + i == (if index < 0 then -index - 1 else index)
        invariant node == list.nodes[if index < 0 then n - 1 - k else k]
        invariant it.direction == direction && it.next == if index < 0 then node.prev else node.next
      {
        node := it.Next();
        i := i - 1;
        k := k + 1;
      }
    } else {
      node := null;
    }
  }

  // ---------- removing while iterating ----------

  // A list in the middle of a sweep from the tail: the first k nodes still to come, one node decided
  // but not yet unlinked, and the nodes kept.
  ghost function Pending<T>(ns: seq<Node<T>>, k: nat, held: bool, kept: seq<Node<T>>): seq<Node<T>>
    requires k <= |ns| && (held ==> k < |ns|)
  {
    ns[..k] + (if held then [ns[k]] else []) + kept
  }

  lemma PendingNext<T>(ns: seq<Node<T>>, k: nat, kept: seq<Node<T>>)
    requires k < |ns|
    ensures Pending(ns, k + 1, false, kept) == Pending(ns, k, true, kept) == Pending(ns, k, false, [ns[k]] + kept)
  {
    assert ns[..k + 1] == ns[..k] + [ns[k]];
  }

  lemma Unlinked<T>(ns: seq<Node<T>>, k: nat, kept: seq<Node<T>>)
    requires k < |ns|
    ensures var s := Pending(ns, k, true, kept);
      |s| > k && s[k] == ns[k] && s[..k] + s[k + 1..] == Pending(ns, k, false, kept)
  {}

  // What the iterator will read at the node before position k.
  lemma Before<T>(list: List<T>, ns: seq<Node<T>>, k: nat, held: bool, kept: seq<Node<T>>)
    requires list.Valid() && 0 < k <= |ns| && (held ==> k < |ns|) && list.nodes == Pending(ns, k, held, kept)
    ensures ns[k - 1].prev == if k == 1 then null else ns[k - 2]
  {
    assert list.nodes[k - 1] == ns[k - 1];
    if k > 1 {
      assert list.nodes[k - 2] == ns[k - 2] && list.nodes[k - 2].next == list.nodes[k - 1];
    }
  }

  method Unlink<T(==)>(list: List<T>, node: Node<T>, ghost ns: seq<Node<T>>, ghost k: nat, ghost kept: seq<Node<T>>)
    requires list.Valid() && k < |ns| && list.nodes == Pending(ns, k, true, kept) && node == ns[k]
    modifies list, list.footprint
    ensures list.Valid() && list.nodes == Pending(ns, k, false, kept)
    ensures list.footprint == old(list.footprint)
  {
    Unlinked(ns, k, kept);
    list.Remove(node, k);
  }

  // A walk from the tail: the iterator stands before position k of the list it began with.
  ghost predicate Walking<T>(list: List<T>, it: Iterator<T>, ns: seq<Node<T>>, k: nat, held: bool, kept: seq<Node<T>>)
    reads list, list.footprint, it
  {
    && k <= |ns| && (held ==> k < |ns|)
    && list.Valid() && list.nodes == Pending(ns, k, held, kept)
    && it.direction == LIST_TAIL && it.next == if k == 0 then null else ns[k - 1]
  }

  /** One turn of the sweep of the PUBACK and SUBACK lists: the iterator moves on first, then the
      node held from the turn before is unlinked. */
  method TurnDeferred<T(==)>(list: List<T>, it: Iterator<T>, keep: T -> bool, temp: Node?<T>,
                             ghost ns: seq<Node<T>>, ghost k: nat, ghost kept: seq<Node<T>>)
    returns (held: Node?<T>, ghost kept': seq<Node<T>>)
    requires Walking(list, it, ns, k, temp != null, kept) && k > 0 && (temp != null ==> temp == ns[k])
    modifies list, list.footprint, it
    ensures Walking(list, it, ns, k - 1, held != null, kept') && (held != null ==> held == ns[k - 1])
    ensures kept' == (if keep(ns[k - 1].val) then [ns[k - 1]] else []) + kept
    ensures list.footprint == old(list.footprint)
  {
    Before(list, ns, k, temp != null, kept);
    var node := it.Next();
    if temp != null {
      Unlink(list, temp, ns, k, kept);
    }
    PendingNext(ns, k - 1, kept);
    if !keep(node.val) {
      held, kept' := node, kept;
    } else {
      held, kept' := null, [ns[k - 1]] + kept;
    }
  }

  method FinishDeferred<T(==)>(list: List<T>, temp: Node?<T>, ghost ns: seq<Node<T>>, ghost kept: seq<Node<T>>)
    requires list.Valid() && (temp != null ==> |ns| > 0 && temp == ns[0])
    requires list.nodes == Pending(ns, 0, temp != null, kept)
    modifies list, list.footprint
    ensures list.Valid() && list.nodes == kept
  {
    if temp != null {
      Unlink(list, temp, ns, 0, kept);
    }
  }

  /** The sweep of the PUBACK and SUBACK lists: a node is unlinked after the iterator has moved on to
      the one before it.  Every node is visited once, from the tail, and exactly the nodes that are
      to stay are left, in their order. */
  method SweepDeferred<T(==)>(list: List<T>, keep: T -> bool) returns (ghost visited: seq<Node<T>>)
    requires list.Valid()
    modifies list, list.footprint
    ensures list.Valid() && list.nodes == Keep(keep, old(list.nodes), 0)
    ensures visited == Reverse(old(list.nodes), 0)
  {
    ghost var ns := list.nodes;
    ghost var k: nat := |ns|;
    ghost var kept: seq<Node<T>> := [];
    visited := [];
    var it := new Iterator(list, LIST_TAIL);
    var temp: Node?<T> := null;
    while it.next != null
      invariant Walking(list, it, ns, k, temp != null, kept) && (temp != null ==> temp == ns[k])
      invariant kept == Keep(keep, ns, k) && visited == Reverse(ns, k)
      invariant list.footprint == old(list.footprint)
      decreases k
    {
      temp, kept := TurnDeferred(list, it, keep, temp, ns, k, kept);
      k := k - 1;
      visited := visited + [ns[k]];
    }
    assert k == 0;
    FinishDeferred(list, temp, ns, kept);
  }

  method TurnImmediate<T(==)>(list: List<T>, it: Iterator<T>, keep: T -> bool,
                              ghost ns: seq<Node<T>>, ghost k: nat, ghost kept: seq<Node<T>>)
    returns (ghost kept': seq<Node<T>>)
    requires Walking(list, it, ns, k, false, kept) && k > 0
    modifies list, list.footprint, it
    ensures Walking(list, it, ns, k - 1, false, kept')
    ensures kept' == (if keep(ns[k - 1].val) then [ns[k - 1]] else []) + kept
    ensures list.footprint == old(list.footprint)
  {
    Before(list, ns, k, false, kept);
    var node := it.Next();
    PendingNext(ns, k - 1, kept);
    if !keep(node.val) {
      kept' := kept;
      Unlink(list, node, ns, k - 1, kept);
    } else {
      kept' := [ns[k - 1]] + kept;
    }
  }

  /** _traverse_list of the shadow client with a callback that removes the current node: the
      iterator has already moved on when the node goes. */
  method SweepImmediate<T(==)>(list: List<T>, keep: T -> bool) returns (ghost visited: seq<Node<T>>)
    requires list.Valid()
    modifies list, list.footprint
    ensures list.Valid() && list.nodes == Keep(keep, old(list.nodes), 0)
    ensures visited == Reverse(old(list.nodes), 0)
  {
    ghost var ns := list.nodes;
    ghost var k: nat := |ns|;
    ghost var kept: seq<Node<T>> := [];
    visited := [];
    var it := new Iterator(list, LIST_TAIL);
    while it.next != null
      invariant Walking(list, it, ns, k, false, kept)
      invariant kept == Keep(keep, ns, k) && visited == Reverse(ns, k)
      invariant list.footprint == old(list.footprint)
      decreases k
    {
      kept := TurnImmediate(list, it, keep, ns, k, kept);
      k := k - 1;
      visited := visited + [ns[k]];
    }
  }

  /** Keep has exactly the nodes that are to stay... */
  lemma {:induction false} KeepMeans<T>(keep: T -> bool, ns: seq<Node<T>>, k: nat)
    requires k <= |ns|
    ensures forall n :: n in Keep(keep, ns, k) <==> n in ns[k..] && keep(n.val)
    decreases |ns| - k
  {
    if k < |ns| {
      KeepMeans(keep, ns, k + 1);
      assert ns[k..] == [ns[k]] + ns[k + 1..];
    }
  }

  /** ...in the order of the list: two nodes that stay keep their places relative to each other. */
  lemma {:induction false} KeepInOrder<T>(keep: T -> bool, ns: seq<Node<T>>, k: nat, i: nat, j: nat)
    requires k <= i < j < |ns| && keep(ns[i].val) && keep(ns[j].val)
    ensures exists p, q ::
      0 <= p < q < |Keep(keep, ns, k)| && Keep(keep, ns, k)[p] == ns[i] && Keep(keep, ns, k)[q] == ns[j]
    decreases |ns| - k
  {
    var r, rest := Keep(keep, ns, k), Keep(keep, ns, k + 1);
    if k < i {
      KeepInOrder(keep, ns, k + 1, i, j);
      var p, q :| 0 <= p < q < |rest| && rest[p] == ns[i] && rest[q] == ns[j];
      var d := |r| - |rest|;
      assert r[p + d] == ns[i] && r[q + d] == ns[j];
    } else {
      KeepMeans(keep, ns, k + 1);
      assert ns[k + 1..][j - k - 1] == ns[j];
      assert ns[j] in rest;
      var q :| 0 <= q < |rest| && rest[q] == ns[j];
      assert r[0] == ns[i] && r[q + 1] == ns[j];
    }
  }

  /** The walk from the tail visits every node once. */
  lemma {:induction false} ReverseAt<A>(s: seq<A>, k: nat, i: nat)
    requires k <= i < |s|
    ensures |Reverse(s, k)| == |s| - k && Reverse(s, k)[|s| - 1 - i] == s[i]
    decreases |s| - k
  {
    if k < i {
      ReverseAt(s, k + 1, i);
    } else if k + 1 < |s| {
      ReverseAt(s, k + 1, |s| - 1);
    }
  }
}
