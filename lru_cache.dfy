/** The cache itself: a hash index from keys to list nodes, and an intrusive
    doubly-linked recency list hanging off a permanent sentinel `head`, most
    recently used entry first and least recently used entry at `tail`. Every
    public method is proved to act on the abstract state (recency order and
    contents) as the functions of LruSpec say. */
module Cache {
  import opened LruSpec

  /** A list node. The sentinel carries no entry; its key and value are the
      type's default values. */
  class Node<K(0), V(0)> {
    var next: Node?<K, V>
    var prev: Node?<K, V>
    const key: K
    var value: V

    constructor Sentinel()
      ensures next == null && prev == null
    {
      next := null;
      prev := null;
    }

    constructor (key: K, value: V)
      ensures this.key == key && this.value == value
      ensures next == null && prev == null
    {
      this.key := key;
      this.value := value;
      next := null;
      prev := null;
    }
  }

  /** The index maps the i-th listed key to the i-th node. */
  ghost predicate Indexed<K, N>(order: seq<K>, nodes: seq<N>, index: map<K, N>) {
    |order| == |nodes| &&
    forall i :: 0 <= i < |order| ==> order[i] in index && index[order[i]] == nodes[i]
  }

  /** With as many index entries as listed keys, every indexed key is listed:
      returns its position. */
  lemma PositionOf<K, N>(order: seq<K>, nodes: seq<N>, index: map<K, N>, k: K) returns (p: nat)
    requires Indexed(order, nodes, index) && Distinct(order) && |index| == |order|
    requires k in index
    ensures p < |order| && order[p] == k
  {
    var listed := set x | x in order;
    assert listed <= index.Keys;
    DistinctCard(order);
    assert |index.Keys - listed| == |index.Keys| - |listed| == 0;
    assert index.Keys - listed == {};
    assert k in listed;
    p :| p < |order| && order[p] == k;
  }

  /** Moving the entry at position p to the front keeps the index in step. */
  lemma IndexedTouch<K, N>(order: seq<K>, nodes: seq<N>, index: map<K, N>, p: nat)
    requires Indexed(order, nodes, index) && Distinct(order) && p < |order|
    ensures Indexed([order[p]] + (order[..p] + order[p + 1..]),
                    [nodes[p]] + (nodes[..p] + nodes[p + 1..]), index)
    ensures Distinct([order[p]] + (order[..p] + order[p + 1..]))
  {
    var o := [order[p]] + (order[..p] + order[p + 1..]);
    var n := [nodes[p]] + (nodes[..p] + nodes[p + 1..]);
    forall i | 0 <= i < |o| ensures o[i] in index && index[o[i]] == n[i] {
      if 0 < i <= p {
        assert o[i] == order[i - 1] && n[i] == nodes[i - 1];
      } else if i > p {
        assert o[i] == order[i] && n[i] == nodes[i];
      }
    }
    WithoutAt(order, p);
    WithoutDistinct(order, order[p]);
    assert order[p] !in order[..p] + order[p + 1..];
    ConsDistinct(order[p], order[..p] + order[p + 1..]);
  }

  /** Dropping the entry at position p from the list and its key from the
      index keeps them in step. */
  lemma IndexedRemove<K, N>(order: seq<K>, nodes: seq<N>, index: map<K, N>, p: nat)
    requires Indexed(order, nodes, index) && Distinct(order) && p < |order|
    ensures Indexed(order[..p] + order[p + 1..], nodes[..p] + nodes[p + 1..], index - {order[p]})
    ensures Distinct(order[..p] + order[p + 1..])
    ensures |index - {order[p]}| == |index| - 1
  {
    var o := order[..p] + order[p + 1..];
    var n := nodes[..p] + nodes[p + 1..];
    forall i | 0 <= i < |o| ensures o[i] in index - {order[p]} && index[o[i]] == n[i] {
      if i < p {
        assert o[i] == order[i] && n[i] == nodes[i];
      } else {
        assert o[i] == order[i + 1] && n[i] == nodes[i + 1];
      }
    }
    assert (index - {order[p]}).Keys == index.Keys - {order[p]};
    WithoutAt(order, p);
    WithoutDistinct(order, order[p]);
  }

  /** Linking a new key's node at the front and indexing it keeps them in
      step. */
  lemma IndexedCons<K, N>(order: seq<K>, nodes: seq<N>, index: map<K, N>, k: K, x: N)
    requires Indexed(order, nodes, index) && Distinct(order) && k !in index
    ensures Indexed([k] + order, [x] + nodes, index[k := x])
    ensures Distinct([k] + order)
    ensures |index[k := x]| == |index| + 1
  {
    var o := [k] + order;
    var n := [x] + nodes;
    forall i | 0 <= i < |o| ensures o[i] in index[k := x] && index[k := x][o[i]] == n[i] {
      if i > 0 {
        assert o[i] == order[i - 1] && n[i] == nodes[i - 1];
      }
    }
    assert k !in order;
    ConsDistinct(k, order);
  }

  class LRUCache<K(==, 0), V(0)> {
    var index: map<K, Node<K, V>>
    const head: Node<K, V>
    const capacity: nat
    var tail: Node?<K, V>
    var listSize: nat

    // Abstract view: the linked nodes from front to back, their keys, the
    // stored values, and the objects the cache owns.
    ghost var nodes: seq<Node<K, V>>
    ghost var order: seq<K>
    ghost var contents: map<K, V>
    ghost var Repr: set<object>

    /** The recency list is well formed: `nodes` are linked from `head`
        through `next` and back through `prev`, `tail` is the last node (null
        iff the list is empty) and `listSize` is the list's length. */
    ghost predicate ListValid()
      reads this, Repr
    {
      this in Repr && head in Repr &&
      (forall i :: 0 <= i < |nodes| ==> nodes[i] in Repr) &&
      head !in nodes &&
      Distinct(nodes) &&
      (nodes == [] ==> head.next == null && tail == null) &&
      (nodes != [] ==>
        head.next == nodes[0] && nodes[0].prev == head &&
        tail == nodes[|nodes| - 1] && nodes[|nodes| - 1].next == null) &&
      (forall i :: 0 < i < |nodes| ==> nodes[i].prev == nodes[i - 1]) &&
      (forall i :: 0 <= i < |nodes| - 1 ==> nodes[i].next == nodes[i + 1]) &&
      listSize == |nodes| &&
      |order| == |nodes| &&
      (forall i :: 0 <= i < |nodes| ==> order[i] == nodes[i].key)
    }

    /** The index and the list agree: each listed key is indexed to its own
        node, every indexed key is listed, and the stored values are those of
        the nodes. */
    ghost predicate Consistent()
      reads this, Repr
    {
      ListValid() &&
      Distinct(order) &&
      Indexed(order, nodes, index) &&
      |index| == listSize &&
      contents.Keys == index.Keys &&
      (forall k :: k in index ==> index[k] in Repr && contents[k] == index[k].value)
    }

    /** The object invariant: consistent and within capacity. */
    ghost predicate Valid()
      reads this, Repr
    {
      Consistent() && |order| <= capacity
    }

    /** The object invariant implies the abstract one. */
    lemma ValidInv()
      requires Valid()
      ensures Inv(Model(), capacity)
    {
      forall k | k in contents ensures k in order {
        var p := PositionOf(order, nodes, index, k);
      }
    }

    ghost function Model(): State<K, V>
      reads this
    {
      State(order, contents)
    }

    /** LRUCache(int capacity) for a capacity the source accepts. */
    constructor (capacity: nat)
      ensures Valid() && fresh(Repr)
      ensures Model() == Empty() && this.capacity == capacity
      ensures head.next == null && tail == null && listSize == 0
    {
      this.capacity := capacity;
      var sentinel := new Node.Sentinel();
      head := sentinel;
      index := map[];
      tail := null;
      listSize := 0;
      nodes := [];
      order := [];
      contents := map[];
      Repr := {this, sentinel};
    }

    /** The no-argument constructor: capacity 16. */
    constructor Default()
      ensures Valid() && fresh(Repr)
      ensures Model() == Empty() && capacity == 16
    {
      capacity := 16;
      var sentinel := new Node.Sentinel();
      head := sentinel;
      index := map[];
      tail := null;
      listSize := 0;
      nodes := [];
      order := [];
      contents := map[];
      Repr := {this, sentinel};
    }

    /** Node.addFirst: links `node` right after the sentinel. */
    method AddFirst(node: Node<K, V>)
      requires ListValid() && node != head && node !in nodes
      modifies Repr, node
      ensures ListValid()
      ensures nodes == [node] + old(nodes) && order == [node.key] + old(order)
      ensures head.next == node && node.prev == head
      ensures Repr == old(Repr) + {node}
      ensures index == old(index) && contents == old(contents)
      ensures forall n: Node<K, V> | n in old(Repr) + {node} :: n.value == old(n.value)
    {
      ConsDistinct(node, nodes);
      listSize := listSize + 1;
      var nextNode := head.next;
      if nextNode == null {
        tail := node;
      }
      node.prev := head;
      node.next := nextNode;
      head.next := node;
      if node.next != null {
        node.next.prev := node;
      }
      nodes := [node] + nodes;
      order := [node.key] + order;
      Repr := Repr + {node};
      forall i | 0 <= i < |nodes| - 1 ensures nodes[i].next == nodes[i + 1] {
        if i > 0 {
          assert nodes[i] == old(nodes)[i - 1] && nodes[i + 1] == old(nodes)[i];
        }
      }
    }

    /** Node.remove: unlinks the node at position `p`, whether it is the tail
        (possibly the only node), the first node or an interior node. */
    method RemoveNode(node: Node<K, V>, ghost p: nat)
      requires ListValid() && p < |nodes| && nodes[p] == node
      modifies Repr
      ensures ListValid()
      ensures nodes == old(nodes[..p] + nodes[p + 1..])
      ensures order == old(order[..p] + order[p + 1..])
      ensures Repr == old(Repr)
      ensures index == old(index) && contents == old(contents)
      ensures forall n: Node<K, V> | n in old(Repr) :: n.value == old(n.value)
      ensures p + 1 < old(|nodes|) ==>
        old(node.prev) != null && old(node.next) != null &&
        old(node.prev).next == old(node.next) && old(node.next).prev == old(node.prev) &&
        old(node.prev).next != node && old(node.next).prev != node
    {
      if node == tail {
        UnlinkTail(node, p);
      } else {
        UnlinkInner(node, p);
      }
    }

    /** Node.remove, tail branch: the predecessor (the sentinel when the node
        is the only one) ends the list and becomes the tail. */
    method UnlinkTail(node: Node<K, V>, ghost p: nat)
      requires ListValid() && p < |nodes| && nodes[p] == node && node == tail
      modifies Repr
      ensures ListValid()
      ensures nodes == old(nodes[..p] + nodes[p + 1..])
      ensures order == old(order[..p] + order[p + 1..])
      ensures Repr == old(Repr)
      ensures index == old(index) && contents == old(contents)
      ensures forall n: Node<K, V> | n in old(Repr) :: n.value == old(n.value)
      ensures p + 1 == old(|nodes|)
    {
      assert nodes[|nodes| - 1] == nodes[p];
      assert p + 1 == |nodes|;
      DistinctSplice(nodes, p);
      assert nodes[..p] + nodes[p + 1..] == nodes[..p];
      assert p > 0 ==> node.prev == nodes[p - 1];
      listSize := listSize - 1;
      node.prev.next := null;
      if node.prev == head {
        tail := null;
      } else {
        tail := node.prev;
      }
      nodes := nodes[..p];
      order := order[..p];
    }

    /** Node.remove, other branch: the neighbours are linked to each other. */
    method UnlinkInner(node: Node<K, V>, ghost p: nat)
      requires ListValid() && p < |nodes| && nodes[p] == node && node != tail
      modifies Repr
      ensures ListValid()
      ensures nodes == old(nodes[..p] + nodes[p + 1..])
      ensures order == old(order[..p] + order[p + 1..])
      ensures Repr == old(Repr)
      ensures index == old(index) && contents == old(contents)
      ensures forall n: Node<K, V> | n in old(Repr) :: n.value == old(n.value)
      ensures p + 1 < old(|nodes|)
      ensures old(node.prev) != null && old(node.next) != null &&
        old(node.prev).next == old(node.next) && old(node.next).prev == old(node.prev)
      ensures old(node.prev).next != node && old(node.next).prev != node
    {
      ghost var oldNodes := nodes;
      assert p > 0 ==> node.prev == nodes[p - 1];
      assert p + 1 < |nodes| && node.next == nodes[p + 1];
      assert node.prev != null && node.next != null;
      DistinctSplice(nodes, p);
      listSize := listSize - 1;
      if node.prev != null {
        node.prev.next := node.next;
      }
      if node.next != null {
        node.next.prev := node.prev;
      }
      nodes := nodes[..p] + nodes[p + 1..];
      order := order[..p] + order[p + 1..];
      forall i | 0 < i < |nodes| ensures nodes[i].prev == nodes[i - 1] {
        if i < p {
          assert nodes[i] == oldNodes[i] && nodes[i - 1] == oldNodes[i - 1];
        } else if i == p {
          assert nodes[i] == oldNodes[i + 1] && nodes[i - 1] == oldNodes[i - 1];
        } else {
          assert nodes[i] == oldNodes[i + 1] && nodes[i - 1] == oldNodes[i];
        }
      }
      forall i | 0 <= i < |nodes| - 1 ensures nodes[i].next == nodes[i + 1] {
        if i + 1 < p {
          assert nodes[i] == oldNodes[i] && nodes[i + 1] == oldNodes[i + 1];
        } else if i + 1 == p {
          assert nodes[i] == oldNodes[i] && nodes[i + 1] == oldNodes[i + 2];
        } else {
          assert nodes[i] == oldNodes[i + 1] && nodes[i + 1] == oldNodes[i + 2];
        }
      }
    }

    /** getNode: a stored key's node is unlinked and linked again at the
        front, and returned; for a missing key nothing changes and the result
        is null. The index is untouched either way. */
    method GetNode(key: K) returns (node: Node?<K, V>)
      requires Valid()
      modifies Repr
      ensures Valid() && Repr == old(Repr)
      ensures index == old(index) && contents == old(contents)
      ensures node == null <==> key !in old(contents)
      ensures node != null ==> node in Repr && node.key == key && node.value == contents[key]
      ensures node != null ==> node == index[key] && nodes[0] == node
      ensures order == if key in old(contents) then Touch(old(order), key) else old(order)
    {
      if key in index {
        node := index[key];
        ghost var p := PositionOf(order, nodes, index, key);
        ghost var oldOrder, oldNodes := order, nodes;
        WithoutAt(oldOrder, p);
        IndexedTouch(oldOrder, oldNodes, index, p);
        RemoveNode(node, p);
        AddFirst(node);
      } else {
        node := null;
      }
    }

    /** The step shared by remove and removeIfNeeded: the entry of the node
        at position p leaves the index and the node leaves the list. */
    method Unlink(node: Node<K, V>, ghost p: nat)
      requires Consistent() && p < |nodes| && nodes[p] == node
      modifies Repr
      ensures Consistent() && Repr == old(Repr)
      ensures order == old(order)[..p] + old(order)[p + 1..]
      ensures contents == old(contents) - {old(order)[p]}
      ensures node.value == old(node.value)
    {
      IndexedRemove(order, nodes, index, p);
      index := index - {node.key};
      contents := contents - {node.key};
      RemoveNode(node, p);
    }

    /** removeIfNeeded: when the list is over capacity, the tail (the least
        recently used entry) leaves the index and the list. */
    method RemoveIfNeeded()
      requires Consistent() && |order| <= capacity + 1
      modifies Repr
      ensures Valid() && Repr == old(Repr)
      ensures Model() == Evict(old(Model()), capacity)
      ensures listSize <= capacity
    {
      if listSize > capacity {
        var victim := tail;
        ghost var last := |nodes| - 1;
        assert victim == nodes[last] && victim.key == order[last];
        Unlink(victim, last);
      }
    }

    /** clearNodeList: the sentinel points nowhere, there is no tail and the
        length is 0. */
    method ClearNodeList()
      requires this in Repr && head in Repr
      modifies this, head
      ensures ListValid() && Repr == {this, head}
      ensures nodes == [] && order == [] && head.next == null && tail == null && listSize == 0
      ensures index == old(index) && contents == old(contents)
    {
      head.next := null;
      tail := null;
      listSize := 0;
      nodes := [];
      order := [];
      Repr := {this, head};
    }

    // -------------------------------------------------------------------------
    /** The value assignment in put's existing-key branch: the entry's node
        takes the new value, and the list and the index are unchanged. */
    method SetValue(node: Node<K, V>, value: V)
      requires Valid() && node.key in index && index[node.key] == node
      modifies this, node
      ensures Valid() && Repr == old(Repr)
      ensures index == old(index) && nodes == old(nodes) && order == old(order)
      ensures contents == old(contents)[node.key := value]
      ensures node.value == value
    {
      forall k | k in index && k != node.key
        ensures index[k] != node
      {
        var q := PositionOf(order, nodes, index, k);
        var p := PositionOf(order, nodes, index, node.key);
        assert q != p;
      }
      node.value := value;
      contents := contents[node.key := value];
    }

    /** put's new-key branch up to the capacity check: a fresh node holding
        the entry is linked at the front and recorded in the index. */
    method LinkNew(key: K, value: V)
      requires Valid() && key !in contents
      modifies Repr
      ensures Consistent() && |order| <= capacity + 1
      ensures fresh(Repr - old(Repr))
      ensures order == [key] + old(order) && contents == old(contents)[key := value]
    {
      var node := new Node(key, value);
      IndexedCons(order, nodes, index, key, node);
      AddFirst(node);
      index := index[key := node];
      contents := contents[key := value];
      forall k | k in index ensures index[k] in Repr && contents[k] == index[k].value {
        if k != key {
          assert k in old(index) && index[k] == old(index)[k];
        }
      }
    }

    // Public operations

    /** LRUCache(int capacity): a negative capacity is rejected with
        InvalidArgument; any other capacity gives an empty cache. */
    static method Create(capacity: int) returns (r: Result<LRUCache<K, V>>)
      ensures r.Err? <==> capacity < 0
      ensures r.Err? ==> r.error == InvalidArgument
      ensures r.Ok? ==>
        r.value.Valid() && fresh(r.value.Repr) &&
        r.value.Model() == Empty() && r.value.capacity == capacity
    {
      if capacity < 0 {
        return Err(InvalidArgument);
      }
      var cache := new LRUCache(capacity);
      return Ok(cache);
    }

    /** get: a stored key's value, the key becoming the most recently used;
        NotFound, with nothing changed, for a missing key. */
    method Get(key: K) returns (r: Result<V>)
      requires Valid()
      modifies Repr
      ensures Valid() && fresh(Repr - old(Repr))
      ensures (Model(), r) == LruSpec.Get(old(Model()), key)
    {
      var node := GetNode(key);
      if node != null {
        return Ok(node.value);
      }
      return Err(NotFound);
    }

    /** put: see LruSpec.Put. A new key's index entry is recorded before the
        capacity check (the source records it after; see the README). */
    method Put(key: K, value: V) returns (r: Option<V>)
      requires Valid()
      modifies Repr
      ensures Valid() && fresh(Repr - old(Repr)) && |index| == listSize
      ensures (Model(), r) == LruSpec.Put(old(Model()), key, value, capacity)
    {
      var keyNode := GetNode(key);
      if keyNode != null {
        var oldValue := keyNode.value;
        SetValue(keyNode, value);
        r := Some(oldValue);
      } else {
        LinkNew(key, value);
        RemoveIfNeeded();
        r := None;
      }
    }

    /** remove: a stored key leaves the index and the list and its value is
        returned; NotFound, with nothing changed, for a missing key. */
    method Remove(key: K) returns (r: Result<V>)
      requires Valid()
      modifies Repr
      ensures Valid() && fresh(Repr - old(Repr)) && |index| == listSize
      ensures (Model(), r) == LruSpec.Remove(old(Model()), key)
    {
      if key !in index {
        return Err(NotFound);
      }
      var node := index[key];
      ghost var p := PositionOf(order, nodes, index, key);
      ghost var oldOrder := order;
      Unlink(node, p);
      WithoutAt(oldOrder, p);
      r := Ok(node.value);
    }

    /** clear: index and list both emptied. */
    method Clear()
      requires Valid()
      modifies Repr
      ensures Valid() && fresh(Repr - old(Repr))
      ensures Model() == Empty()
      ensures head.next == null && tail == null && listSize == 0 && |index| == listSize
    {
      index := map[];
      contents := map[];
      ClearNodeList();
    }

    /** size: the number of entries, which is also the list's length. */
    method Size() returns (n: nat)
      requires Valid()
      ensures n == |contents| && n == |order| && n == listSize
    {
      ValidInv();
      SizeAgrees(Model(), capacity);
      assert index.Keys == contents.Keys;
      n := |index|;
    }

    /** isEmpty: whether there are no entries. */
    method IsEmpty() returns (b: bool)
      requires Valid()
      ensures b <==> contents == map[]
      ensures b <==> order == []
    {
      ValidInv();
      SizeAgrees(Model(), capacity);
      b := |index| == 0;
      assert b ==> contents == map[];
    }

    /** containsKey: membership, without touching the recency order. */
    method ContainsKey(key: K) returns (b: bool)
      requires Valid()
      ensures b <==> key in contents
      ensures b <==> key in order
    {
      b := key in index;
      if b {
        var p := PositionOf(order, nodes, index, key);
      }
    }
  }
}
