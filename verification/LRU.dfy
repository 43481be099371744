/** The LRU cache: a map from keys to the nodes of a doubly linked list. */
module LRU {
  import opened Basics
  import opened RecencyList

  class CacheNode<K, V> {
    var pre: CacheNode?<K, V>
    var next: CacheNode?<K, V>
    const key: K
    var value: V

    constructor (key: K, value: V)
      ensures this.key == key && this.value == value && pre == null && next == null
    {
      this.key := key;
      this.value := value;
      pre := null;
      next := null;
    }
  }

  /** The i-th node of order points to its neighbours. */
  ghost predicate LinkedAt<K, V>(order: seq<CacheNode<K, V>>, i: int)
    requires 0 <= i < |order|
    reads order[i]
  {
    order[i].pre == (if i == 0 then null else order[i - 1]) &&
    order[i].next == (if i == |order| - 1 then null else order[i + 1])
  }

  ghost predicate NoRepeats<T>(order: seq<T>) {
    forall i, j :: 0 <= i < j < |order| ==> order[i] != order[j]
  }

  ghost predicate Within<T>(order: seq<T>, nodes: set<T>) {
    forall i :: 0 <= i < |order| ==> order[i] in nodes
  }

  /** The nodes of order are linked both ways, in this order, and occur once. */
  ghost predicate Linked<K, V>(order: seq<CacheNode<K, V>>, nodes: set<CacheNode<K, V>>)
    requires Within(order, nodes)
    reads nodes
  {
    NoRepeats(order) && forall i :: 0 <= i < |order| ==> LinkedAt(order, i)
  }

  ghost function Pairs<K, V>(order: seq<CacheNode<K, V>>, nodes: set<CacheNode<K, V>>): (s: Entries<K, V>)
    requires Within(order, nodes)
    reads nodes
    ensures |s| == |order| && forall i :: 0 <= i < |s| ==> s[i] == (order[i].key, order[i].value)
  {
    seq(|order|, i requires 0 <= i < |order| && order[i] in nodes reads nodes => (order[i].key, order[i].value))
  }

  /** The map leads from the key of the i-th node to this node. */
  ghost predicate Filed<K, V>(caches: map<K, CacheNode<K, V>>, order: seq<CacheNode<K, V>>, i: int)
    requires 0 <= i < |order|
  {
    order[i].key in caches && caches[order[i].key] == order[i]
  }

  ghost predicate InList<K, V>(caches: map<K, CacheNode<K, V>>, order: seq<CacheNode<K, V>>, k: K)
    requires k in caches
  {
    caches[k].key == k && caches[k] in order
  }

  /** The map knows exactly the keys of the list, and their nodes. */
  ghost predicate Indexes<K, V>(caches: map<K, CacheNode<K, V>>, order: seq<CacheNode<K, V>>) {
    |caches| == |order| &&
    (forall i :: 0 <= i < |order| ==> Filed(caches, order, i)) &&
    (forall k :: k in caches ==> InList(caches, order, k))
  }

  lemma IndexesFront<K, V>(caches: map<K, CacheNode<K, V>>, order: seq<CacheNode<K, V>>, i: nat,
                           t: seq<CacheNode<K, V>>)
    requires Indexes(caches, order) && i < |order| && t == [order[i]] + RemoveAt(order, i)
    ensures Indexes(caches, t)
  {
    forall j | 0 <= j < |t| ensures Filed(caches, t, j) {
      assert Filed(caches, order, if j == 0 then i else if j <= i then j - 1 else j);
    }
    forall k | k in caches ensures InList(caches, t, k) {
      assert InList(caches, order, k);
      var j :| 0 <= j < |order| && order[j] == caches[k];
      assert t[if j < i then j + 1 else if j == i then 0 else j] == order[j];
    }
  }

  lemma IndexesInsert<K, V>(caches: map<K, CacheNode<K, V>>, order: seq<CacheNode<K, V>>, n: CacheNode<K, V>,
                            c: map<K, CacheNode<K, V>>, t: seq<CacheNode<K, V>>)
    requires Indexes(caches, order) && n.key !in caches && c == caches[n.key := n] && t == [n] + order
    ensures Indexes(c, t)
  {
    assert c.Keys == caches.Keys + {n.key};
    forall j | 0 <= j < |t| ensures Filed(c, t, j) {
      assert j > 0 ==> Filed(caches, order, j - 1);
    }
    forall k | k in c ensures InList(c, t, k) {
      if k != n.key {
        assert InList(caches, order, k);
      }
    }
  }

  lemma IndexesRemove<K, V>(caches: map<K, CacheNode<K, V>>, order: seq<CacheNode<K, V>>, i: nat,
                            c: map<K, CacheNode<K, V>>, t: seq<CacheNode<K, V>>)
    requires Indexes(caches, order) && NoRepeats(order) && i < |order|
    requires c == caches - {order[i].key} && t == RemoveAt(order, i)
    ensures Indexes(c, t)
  {
    assert Filed(caches, order, i);
    assert c.Keys == caches.Keys - {order[i].key};
    forall j | 0 <= j < |t| ensures Filed(c, t, j) {
      var l := if j < i then j else j + 1;
      assert t[j] == order[l] && Filed(caches, order, l);
    }
    forall k | k in c ensures InList(c, t, k) {
      assert InList(caches, order, k);
      var j :| 0 <= j < |order| && order[j] == caches[k];
      assert t[if j < i then j else j - 1] == order[j];
    }
  }

  lemma SameUpdate<K, T>(m: map<K, T>, k: K, v: T)
    requires k in m && m[k] == v
    ensures m[k := v] == m
  {}

  /** Searching the entries for a key and asking the map for it are the same. */
  lemma MapFinds<K, V>(caches: map<K, CacheNode<K, V>>, order: seq<CacheNode<K, V>>, s: Entries<K, V>, k: K)
    requires Indexes(caches, order) && |s| == |order|
    requires forall i :: 0 <= i < |s| ==> s[i].0 == order[i].key
    ensures Has(s, k) <==> k in caches
    ensures k in caches ==> order[IndexOf(s, k)] == caches[k]
  {
    if Has(s, k) {
      assert Filed(caches, order, IndexOf(s, k));
    }
    if k in caches {
      assert InList(caches, order, k);
      var j :| 0 <= j < |order| && order[j] == caches[k];
      assert s[j].0 == k;
    }
  }

  class LRU<K(==), V> {
    const cacheCapacity: nat
    var caches: map<K, CacheNode<K, V>>
    var head: CacheNode?<K, V>
    var tail: CacheNode?<K, V>

    /** The list from head to tail. */
    ghost var order: seq<CacheNode<K, V>>

    /** All nodes that the cache may write. */
    ghost var Repr: set<CacheNode<K, V>>

    ghost predicate ListValid()
      reads this`head, this`tail, this`order, this`Repr, Repr
    {
      && Within(order, Repr)
      && Linked(order, Repr)
      && head == (if order == [] then null else order[0])
      && tail == (if order == [] then null else order[|order| - 1])
    }

    ghost predicate Valid()
      reads this, Repr
    {
      |order| <= cacheCapacity && ListValid() && Indexes(caches, order)
    }

    /** Keys and values from head to tail. */
    ghost function Contents(): Entries<K, V>
      requires Within(order, Repr)
      reads this`order, this`Repr, Repr
    {
      Pairs(order, Repr)
    }

    /** What the cache knows: the keys of the map, with their values. */
    ghost function Known(): map<K, V>
      reads this`caches, this`Repr, Repr
    {
      map k | k in caches && caches[k] in Repr :: caches[k].value
    }

    /** The map and the list know the same. */
    lemma ListKnows()
      requires Valid()
      ensures LooksUp(Contents(), Known())
    {
      forall i, j | 0 <= i < j < |order| ensures order[i].key != order[j].key {
        assert Filed(caches, order, i) && Filed(caches, order, j);
      }
      forall i | 0 <= i < |order| ensures order[i].key in Known() {
        assert Filed(caches, order, i);
      }
      forall l | l in Known() ensures Has(Contents(), l) {
        MapFinds(caches, order, Contents(), l);
      }
    }

    lemma KnownIs(m: map<K, V>)
      requires Valid() && LooksUp(Contents(), m)
      ensures Known() == m
    {
      ListKnows();
      SameMap(Contents(), Known(), m);
    }

    // What the operations will make of it.

    lemma WillKeep(k: K)
      requires Valid()
      ensures LooksUp(RecencyList.Get(Contents(), k), Known()) && caches.Keys == Known().Keys
      ensures k !in caches ==> RecencyList.Get(Contents(), k) == Contents()
      ensures Lookup(Contents(), k) == if k in Known() then Some(Known()[k]) else None
    {
      ListKnows();
      LookedUp(Contents(), Known(), k);
      GetKeeps(Contents(), Known(), k);
      KeysKnown();
    }

    lemma WillForget(k: K)
      requires Valid()
      ensures LooksUp(RecencyList.Remove(Contents(), k), Known() - {k})
    {
      ListKnows();
      RemoveForgets(Contents(), Known(), k);
    }

    /** What is known once there is room for the key k. */
    ghost function Room(k: K): map<K, V>
      reads this, Repr
    {
      if k in Known() || |Known()| < cacheCapacity || tail == null then Known() else Known() - {tail.key}
    }

    lemma RoomIs(k: K)
      requires Valid()
      ensures Room(k) == RoomFor(Contents(), Known(), cacheCapacity, k)
    {
      KeysKnown();
      assert order != [] ==> Contents()[|order| - 1].0 == tail.key;
    }

    lemma WillStore(k: K, v: V)
      requires Valid() && !(cacheCapacity == 0 && k !in caches)
      ensures LooksUp(RecencyList.Put(Contents(), cacheCapacity, k, v), Room(k)[k := v])
      ensures tail == null ==> k in Known() || |Known()| < cacheCapacity
    {
      ListKnows();
      KeysKnown();
      RoomIs(k);
      LookedUp(Contents(), Known(), k);
      PutStores(Contents(), Known(), cacheCapacity, k, v);
    }

    lemma KeysKnown()
      requires Valid()
      ensures caches.Keys == Known().Keys && |Known()| == |order|
    {
      forall k | k in caches ensures caches[k] in Repr {
        assert InList(caches, order, k);
      }
      assert Known().Keys == caches.Keys && |Known()| == |Known().Keys| && |caches| == |caches.Keys|;
    }

    constructor (size: nat)
      ensures Valid() && Contents() == [] && Known() == map[] && cacheCapacity == size && Repr == {}
    {
      cacheCapacity := size;
      caches := map[];
      head := null;
      tail := null;
      order := [];
      Repr := {};
    }

    /** cacheNode is the i-th node of the list, or, if i is None, a new one. */
    ghost predicate Place(cacheNode: CacheNode<K, V>, i: Option<nat>)
      reads this, cacheNode
    {
      match i
      case Some(p) => p < |order| && order[p] == cacheNode
      case None => cacheNode !in order && cacheNode.pre == null && cacheNode.next == null
    }

    /** Makes the neighbours of the node, and tail, bypass it. */
    method Bypass(cacheNode: CacheNode<K, V>, ghost i: Option<nat>)
      requires ListValid() && Place(cacheNode, i)
      modifies this`tail, Repr
      ensures i.None? ==> ListValid() && tail == old(tail)
      ensures i.Some? ==> Within(RemoveAt(order, i.value), Repr) && Linked(RemoveAt(order, i.value), Repr)
      ensures i.Some? ==> var t := RemoveAt(order, i.value); tail == if t == [] then null else t[|t| - 1]
      ensures cacheNode.pre == old(cacheNode.pre) && cacheNode.next == old(cacheNode.next)
      ensures forall n :: n in Repr ==> n.value == old(n.value)
    {
      if i.Some? {
        assert LinkedAt(order, i.value);
      }
      if cacheNode.next != null {
        cacheNode.next.pre := cacheNode.pre;
      }
      if cacheNode.pre != null {
        cacheNode.pre.next := cacheNode.next;
      }
      if cacheNode == tail {
        tail := tail.pre;
      }
      if i.Some? {
        ghost var rest := RemoveAt(order, i.value);
        forall j | 0 <= j < |rest| ensures LinkedAt(rest, j) {
          var k := if j < i.value then j else j + 1;
          assert rest[j] == order[k];
          assert old(LinkedAt(order, k));
        }
      }
    }

    method LinkFront(cacheNode: CacheNode<K, V>)
      requires ListValid() && cacheNode !in order && cacheNode in Repr
      requires order == [] ==> cacheNode.pre == null && cacheNode.next == null
      modifies this`head, this`tail, this`order, Repr
      ensures ListValid() && order == [cacheNode] + old(order)
      ensures forall n :: n in Repr ==> n.value == old(n.value)
    {
      ghost var before := order;
      order := [cacheNode] + before;
      assert forall j :: 0 < j < |order| ==> order[j] == before[j - 1];
      if head == null || tail == null {
        head := cacheNode;
        tail := cacheNode;
        assert LinkedAt(order, 0);
        return;
      }
      cacheNode.next := head;
      head.pre := cacheNode;
      head := cacheNode;
      head.pre := null;
      forall j | 0 <= j < |order| ensures LinkedAt(order, j) {
        if j > 0 {
          assert old(LinkedAt(before, j - 1));
        }
      }
    }

    /** Puts a node in front: the i-th node of the list, or a new one if i is None. */
    method Move2Head(cacheNode: CacheNode<K, V>, ghost i: Option<nat>)
      requires ListValid() && Place(cacheNode, i) && cacheNode in Repr
      modifies this`head, this`tail, this`order, Repr
      ensures ListValid()
      ensures order == [cacheNode] + if i.Some? then RemoveAt(old(order), i.value) else old(order)
      ensures forall n :: n in Repr ==> n.value == old(n.value)
    {
      if head == cacheNode {
        AtHead(cacheNode, i);
        return;
      }
      Bypass(cacheNode, i);
      order := if i.Some? then RemoveAt(order, i.value) else order;
      LinkFront(cacheNode);
    }

    lemma AtHead(cacheNode: CacheNode<K, V>, i: Option<nat>)
      requires ListValid() && Place(cacheNode, i) && head == cacheNode
      ensures i == Some(0) && order == [cacheNode] + RemoveAt(order, 0)
    {
      assert order[0] == cacheNode;
      assert i.Some?;
      assert i.value == 0;
    }

    method RemoveTail()
      requires ListValid()
      modifies this`head, this`tail, this`order, Repr
      ensures ListValid() && (old(order) == [] ==> order == [])
      ensures old(order) != [] ==>
        order == old(order)[..|old(order)| - 1] && Contents() == old(Contents())[..|old(order)| - 1]
    {
      if tail != null {
        ghost var before := order;
        assert LinkedAt(order, |order| - 1);
        tail := tail.pre;
        order := order[..|order| - 1];
        if tail == null {
          head := null;
        } else {
          tail.next := null;
        }
        forall j | 0 <= j < |order| ensures LinkedAt(order, j) {
          assert old(LinkedAt(before, j));
        }
      }
    }

    /** Moving a stored node to the front, with what it means for the contents. */
    method TouchList(node: CacheNode<K, V>, ghost i: nat)
      requires ListValid() && i < |order| && order[i] == node
      modifies this`head, this`tail, this`order, Repr
      ensures ListValid() && Contents() == [old(Contents()[i])] + RemoveAt(old(Contents()), i)
      ensures order == [node] + RemoveAt(old(order), i) && node.value == old(node.value)
    {
      Move2Head(node, Some(i));
    }

    method Touch(node: CacheNode<K, V>, ghost i: nat)
      requires Valid() && i < |order| && order[i] == node
      modifies this`head, this`tail, this`order, Repr
      ensures Valid() && Contents() == [old(Contents()[i])] + RemoveAt(old(Contents()), i)
      ensures node.value == old(node.value) && head == node
    {
      ghost var before := order;
      TouchList(node, i);
      IndexesFront(caches, before, i, order);
    }

    method Get(k: K) returns (r: Option<V>)
      requires Valid()
      modifies this`head, this`tail, this`order, Repr
      ensures Valid() && Contents() == RecencyList.Get(old(Contents()), k)
      ensures r == Lookup(old(Contents()), k)
      ensures Known() == old(Known()) && r == if k in Known() then Some(Known()[k]) else None
      ensures k in old(caches) ==> head == old(caches)[k]
    {
      ghost var known := Known();
      WillKeep(k);
      r := None;
      if k in caches {
        r := Fetch(k);
      }
      KnownIs(known);
    }

    /** The part of a get that finds its key. */
    method Fetch(k: K) returns (r: Option<V>)
      requires Valid() && k in caches
      modifies this`head, this`tail, this`order, Repr
      ensures Valid() && Contents() == RecencyList.Get(old(Contents()), k)
      ensures r == Lookup(old(Contents()), k) && head == caches[k]
    {
      ghost var s := Contents();
      MapFinds(caches, order, s, k);
      var node := caches[k];
      Touch(node, IndexOf(s, k));
      r := Some(node.value);
    }

    /** Fails where the key of the tail is wanted and there is no tail. */
    method Put(key: K, value: V) returns (failed: bool)
      requires Valid()
      modifies this`head, this`tail, this`order, this`caches, this`Repr, Repr
      ensures Valid() && Contents() == RecencyList.Put(old(Contents()), cacheCapacity, key, value)
      ensures failed <==> cacheCapacity == 0 && key !in old(caches)
      ensures failed <==> PutFails(old(Contents()), cacheCapacity, key)
      ensures failed ==> caches == old(caches) && order == old(order)
      ensures failed ==> Known() == old(Known())
      ensures !failed && (key in old(Known()) || |old(Known())| < cacheCapacity) ==>
                Known() == old(Known())[key := value]
      ensures !failed && key !in old(Known()) && |old(Known())| >= cacheCapacity ==>
                old(tail) != null && Known() == (old(Known()) - {old(tail).key})[key := value]
      ensures !failed ==> head != null && head.key == key
      ensures fresh(Repr - old(Repr))
    {
      ghost var s, known, room := Contents(), Known(), Room(key);
      MapFinds(caches, order, s, key);
      failed := false;
      if key in caches {
        WillStore(key, value);
        PutKnown(key, value, IndexOf(s, key));
      } else {
        if cacheCapacity > 0 {
          WillStore(key, value);
        }
        failed := PutNew(key, value);
      }
      if failed {
        assert Known() == known;
      } else {
        KnownIs(room[key := value]);
      }
    }

    /** The part of a put that renews the value of a key. */
    method PutKnown(key: K, value: V, ghost i: nat)
      requires Valid() && i < |order| && key in caches && order[i] == caches[key]
      modifies this`head, this`tail, this`order, this`caches, Repr
      ensures Valid() && Contents() == [(key, value)] + RemoveAt(old(Contents()), i)
    {
      var cacheNode := caches[key];
      assert InList(caches, order, key);
      SetValue(cacheNode, value, i);
      Touch(cacheNode, i);
      SameUpdate(caches, key, cacheNode);
      caches := caches[key := cacheNode];
    }

    method SetValue(cacheNode: CacheNode<K, V>, value: V, ghost i: nat)
      requires ListValid() && i < |order| && order[i] == cacheNode
      modifies cacheNode`value
      ensures ListValid() && Contents()[i] == (cacheNode.key, value)
      ensures RemoveAt(Contents(), i) == RemoveAt(old(Contents()), i)
    {
      ghost var s := Contents();
      cacheNode.value := value;
      assert forall j :: 0 <= j < |order| && old(LinkedAt(order, j)) ==> LinkedAt(order, j);
      assert forall j :: 0 <= j < |order| && j != i ==> Contents()[j] == s[j];
    }

    /** The part of a put that stores a key the cache does not hold. */
    method PutNew(key: K, value: V) returns (failed: bool)
      requires Valid() && key !in caches
      modifies this`head, this`tail, this`order, this`caches, this`Repr, Repr
      ensures Valid() && (failed <==> cacheCapacity == 0)
      ensures failed ==> caches == old(caches) && order == old(order) && Contents() == old(Contents())
      ensures !failed ==> Contents() == [(key, value)] + Trim(old(Contents()), cacheCapacity)
      ensures fresh(Repr - old(Repr))
    {
      if |caches| >= cacheCapacity {
        if tail == null {
          return true;
        }
        Evict();
      }
      StoreNew(key, value);
      failed := false;
    }

    method StoreNew(key: K, value: V)
      requires Valid() && key !in caches && |order| < cacheCapacity
      modifies this`head, this`tail, this`order, this`caches, this`Repr, Repr
      ensures Valid() && Contents() == [(key, value)] + old(Contents())
      ensures fresh(Repr - old(Repr))
    {
      ghost var cachesBefore, orderBefore := caches, order;
      var cacheNode := NewFirst(key, value);
      caches := caches[key := cacheNode];
      IndexesInsert(cachesBefore, orderBefore, cacheNode, caches, order);
    }

    method NewFirst(key: K, value: V) returns (cacheNode: CacheNode<K, V>)
      requires ListValid()
      modifies this`head, this`tail, this`order, this`Repr, Repr
      ensures ListValid() && order == [cacheNode] + old(order) && cacheNode.key == key
      ensures Contents() == [(key, value)] + old(Contents())
      ensures fresh(Repr - old(Repr))
    {
      cacheNode := new CacheNode(key, value);
      Repr := Repr + {cacheNode};
      Move2Head(cacheNode, None);
    }

    method Evict()
      requires Valid() && order != []
      modifies this`head, this`tail, this`order, this`caches, Repr
      ensures Valid() && Contents() == old(Contents())[..|old(order)| - 1] && |order| == |old(order)| - 1
      ensures caches.Keys <= old(caches.Keys)
    {
      ghost var cachesBefore, orderBefore := caches, order;
      caches := caches - {tail.key};
      RemoveTail();
      IndexesRemove(cachesBefore, orderBefore, |orderBefore| - 1, caches, order);
    }

    method Remove(key: K) returns (node: CacheNode?<K, V>)
      requires Valid()
      modifies this`head, this`tail, this`order, this`caches, Repr
      ensures Valid() && Contents() == RecencyList.Remove(old(Contents()), key)
      ensures node == if key in old(caches) then old(caches[key]) else null
      ensures Lookup(old(Contents()), key) == if node == null then None else Some(node.value)
      ensures Known() == old(Known()) - {key}
    {
      ghost var s, known := Contents(), Known();
      WillForget(key);
      MapFinds(caches, order, s, key);
      node := null;
      if key in caches {
        node := caches[key];
        Unlink(node, IndexOf(s, key));
      }
      KnownIs(known - {key});
    }

    /** The part of a removal that takes a stored node out of list and map. */
    method Unlink(node: CacheNode<K, V>, ghost i: nat)
      requires Valid() && i < |order| && order[i] == node
      modifies this`head, this`tail, this`order, this`caches, Repr
      ensures Valid() && Contents() == RemoveAt(old(Contents()), i) && node.value == old(node.value)
    {
      ghost var cachesBefore, orderBefore := caches, order;
      UnlinkFromList(node, i);
      caches := caches - {node.key};
      IndexesRemove(cachesBefore, orderBefore, i, caches, order);
    }

    method UnlinkFromList(node: CacheNode<K, V>, ghost i: nat)
      requires ListValid() && i < |order| && order[i] == node
      modifies this`head, this`tail, this`order, Repr
      ensures ListValid() && order == RemoveAt(old(order), i) && node.value == old(node.value)
      ensures Contents() == RemoveAt(old(Contents()), i)
    {
      ghost var rest := RemoveAt(order, i);
      assert LinkedAt(order, i);
      assert i > 0 ==> rest[0] == order[0];
      Bypass(node, Some(i));
      if node == head {
        head := node.next;
      }
      order := rest;
    }

    method Clear()
      requires Valid()
      modifies this`head, this`tail, this`order, this`caches
      ensures Valid() && Contents() == [] && Known() == map[]
    {
      head := null;
      tail := null;
      caches := map[];
      order := [];
    }
  }

  // ---------- Whole runs ----------

  method Perform<K(==), V>(cache: LRU<K, V>, op: Op<K, V>) returns (reply: Reply<V>)
    requires cache.Valid()
    modifies cache, cache.Repr
    ensures cache.Valid() && fresh(cache.Repr - old(cache.Repr))
    ensures cache.Contents() == Apply(old(cache.Contents()), cache.cacheCapacity, op)
    ensures reply == Answer(old(cache.Contents()), cache.cacheCapacity, op)
  {
    reply := Done;
    match op {
      case PutOp(k, v) =>
        var failed := cache.Put(k, v);
        reply := if failed then Failed else Done;
      case GetOp(k) =>
        var value := cache.Get(k);
        reply := Found(value);
      case RemoveOp(k) =>
        var node := cache.Remove(k);
        reply := Found(if node == null then None else Some(node.value));
      case ClearOp => cache.Clear();
    }
  }

  /** The replies so far are those of the recency list at the time. */
  ghost predicate AllAnswered<K, V>(size: nat, ops: seq<Op<K, V>>, replies: seq<Reply<V>>) {
    |replies| <= |ops| &&
    forall i :: 0 <= i < |replies| ==> replies[i] == Answer(RecencyList.Contents(size, ops[..i]), size, ops[i])
  }

  /** Over any run the list from head to tail is the recency list, the map knows its keys,
      and every call answers as the recency list does. */
  method Run<K(==), V>(size: nat, ops: seq<Op<K, V>>) returns (cache: LRU<K, V>, replies: seq<Reply<V>>)
    ensures cache.Valid() && cache.cacheCapacity == size
    ensures cache.Contents() == RecencyList.Contents(size, ops)
    ensures |replies| == |ops| && AllAnswered(size, ops, replies)
    ensures ByRecency(cache.Contents(), History(size, ops)) && |cache.caches| <= size
  {
    cache := new LRU(size);
    replies := [];
    assert ops[..0] == [];
    for i := 0 to |ops|
      invariant cache.Valid() && cache.cacheCapacity == size && fresh(cache) && fresh(cache.Repr)
      invariant cache.Contents() == RecencyList.Contents(size, ops[..i])
      invariant |replies| == i && AllAnswered(size, ops, replies)
    {
      assert ops[..i + 1][..i] == ops[..i];
      var reply := Perform(cache, ops[i]);
      replies := replies + [reply];
    }
    assert ops[..|ops|] == ops;
    RunsAreByRecency(size, ops);
  }
}
