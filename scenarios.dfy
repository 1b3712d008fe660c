/** The cache's unit tests, replayed against the model: the short ones drive
    the imperative cache and state the outcome each test checks; the long run
    of insertions is stated on the reference model. */
module Scenarios {
  import opened LruSpec
  import opened Cache

  /** A fresh cache of capacity 10 has nothing to get. */
  method EmptyGet() returns (r: Result<int>)
    ensures r == Err(NotFound)
  {
    var c := new LRUCache<int, int>(10);
    r := c.Get(1);
  }

  /** What was put into a cache of capacity 1 can be read back. */
  method OneAdd() returns (r: Result<int>)
    ensures r == Ok(1)
  {
    var c := new LRUCache<int, int>(1);
    var _ := c.Put(1, 1);
    r := c.Get(1);
  }

  /** In a cache of capacity 1 the second key evicts the first. */
  method OneToForget() returns (r: Result<int>)
    ensures r == Err(NotFound)
  {
    var c := new LRUCache<int, int>(1);
    var _ := c.Put(1, 1);
    var _ := c.Put(2, 2);
    r := c.Get(1);
  }

  /** The common start of the capacity-2 tests: put(1, 1) then put(2, 2). */
  method TwoEntries() returns (c: LRUCache<int, int>)
    ensures c.Valid() && fresh(c.Repr) && c.capacity == 2
    ensures c.order == [2, 1] && c.contents == map[1 := 1, 2 := 2]
  {
    c := new LRUCache<int, int>(2);
    var _ := c.Put(1, 1);
    assert c.Model() == State([1], map[1 := 1]);
    var _ := c.Put(2, 2);
  }

  /** put(3, 3) on a full capacity-2 cache whose least recently used key is
      2: key 2 is evicted. */
  method InsertThird(c: LRUCache<int, int>, v1: int)
    requires c.Valid() && c.capacity == 2
    requires c.order == [1, 2] && c.contents == map[1 := v1, 2 := 2]
    modifies c.Repr
    ensures c.Valid() && fresh(c.Repr - old(c.Repr))
    ensures c.order == [3, 1] && c.contents == map[1 := v1, 3 := 3]
  {
    var _ := c.Put(3, 3);
    assert c.contents == map[1 := v1, 2 := 2, 3 := 3] - {2};
  }

  /** Reading key 1 makes key 2 the least recently used, so inserting key 3
      evicts 2 and not 1. */
  method ManyAddGet() returns (r: Result<int>, has2: bool)
    ensures r == Ok(1) && !has2
  {
    var c := TwoEntries();
    ReadKeyOne(c);
    InsertThird(c, 1);
    has2 := c.ContainsKey(2);
    r := c.Get(1);
  }

  /** A negative capacity is refused. */
  method NegativeCapacity() returns (r: Result<LRUCache<int, int>>)
    ensures r == Err(InvalidArgument)
  {
    r := LRUCache<int, int>.Create(-2);
  }

  /** Removing from an empty cache fails. */
  method RemoveMissing() returns (r: Result<int>)
    ensures r == Err(NotFound)
  {
    var c := new LRUCache<int, int>(10);
    r := c.Remove(1);
  }

  /** After clear nothing can be read. */
  method ClearThenGet() returns (r: Result<int>)
    ensures r == Err(NotFound)
  {
    var c := new LRUCache<int, int>(10);
    var _ := c.Put(1, 1);
    c.Clear();
    r := c.Get(1);
  }

  /** get(1) on the two-entry cache: key 1 moves to the front. */
  method ReadKeyOne(c: LRUCache<int, int>)
    requires c.Valid() && c.capacity == 2
    requires c.order == [2, 1] && c.contents == map[1 := 1, 2 := 2]
    modifies c.Repr
    ensures c.Valid() && fresh(c.Repr - old(c.Repr))
    ensures c.order == [1, 2] && c.contents == map[1 := 1, 2 := 2]
  {
    var _ := c.Get(1);
    assert Without([2, 1], 1) == [2];
  }

  /** put(1, 0) on the two-entry cache: key 1 moves to the front. */
  method Overwrite(c: LRUCache<int, int>)
    requires c.Valid() && c.capacity == 2
    requires c.order == [2, 1] && c.contents == map[1 := 1, 2 := 2]
    modifies c.Repr
    ensures c.Valid() && fresh(c.Repr - old(c.Repr))
    ensures c.order == [1, 2] && c.contents == map[1 := 0, 2 := 2]
  {
    var _ := c.Put(1, 0);
    assert Without([2, 1], 1) == [2];
  }

  /** Overwriting key 1 also makes it the most recently used, so inserting
      key 3 evicts key 2 and key 1 keeps its new value. */
  method UpdateNode() returns (r: Result<int>)
    ensures r == Ok(0)
  {
    var c := TwoEntries();
    Overwrite(c);
    InsertThird(c, 0);
    var _ := c.Get(1);
    r := c.Get(1);
  }

  /** remove returns the removed value. */
  method RemovedValue() returns (r: Result<int>)
    ensures r == Ok(1)
  {
    var c := new LRUCache<int, int>(2);
    var _ := c.Put(1, 1);
    r := c.Remove(1);
  }

  /** put of a stored key returns the value it replaces. */
  method PreviousValue() returns (r: Option<int>)
    ensures r == Some(1)
  {
    var c := new LRUCache<int, int>(2);
    var _ := c.Put(1, 1);
    r := c.Put(1, 2);
  }

  /** Putting keys 0..149 (key i with value i) into a cache of capacity 100
      keeps exactly keys 50..149 with their values; keys 0..49 can be neither
      read nor removed. */
  lemma ManyInserts()
    ensures var st := PutAll(Empty(), seq(150, i => (i, i)), 100);
      (forall i :: 50 <= i < 150 ==> Get(st, i).1 == Ok(i)) &&
      (forall i :: 0 <= i < 50 ==> Get(st, i).1 == Err(NotFound) && Remove(st, i).1 == Err(NotFound))
  {
    var kvs := seq(150, i => (i, i));
    assert DistinctKeys(kvs);
    PutAllDistinct(kvs, 100);
    var st := PutAll(Empty(), kvs, 100);
    forall i | 50 <= i < 150 ensures Get(st, i).1 == Ok(i) {
      assert st.order[149 - i] == i;
    }
    forall i | 0 <= i < 50 ensures i !in st.contents {
      assert kvs[i].0 == i;
    }
  }
}
