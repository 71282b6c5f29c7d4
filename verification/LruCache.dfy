/** The cache itself: a hash map into a doubly linked list with two sentinels. */
module LruCache {
  import opened Gf256
  import opened LruSpec
  import opened Pigeonhole

  class DLinkedNode {
    const key: string
    var value: Bytes
    var prev: DLinkedNode?
    var next: DLinkedNode?

    constructor (key: string, value: Bytes)
      ensures this.key == key && this.value == value && prev == null && next == null
    {
      this.key := key;
      this.value := value;
      prev, next := null, null;
    }
  }

  /** Neighbours point at each other, and no node occurs twice. */
  ghost predicate IsChain(c: seq<DLinkedNode>)
    reads c`next, c`prev
  {
    && Distinct(c)
    && forall i :: 0 <= i < |c| - 1 ==> AreLinked(c, i)
  }

  ghost predicate AreLinked(c: seq<DLinkedNode>, i: nat)
    requires i < |c| - 1
    reads c`next, c`prev
  {
    c[i].next == c[i + 1] && c[i + 1].prev == c[i]
  }

  lemma DistinctAt<T>(c: seq<T>, i: nat, j: nat)
    requires Distinct(c) && i < |c| && j < |c| && i != j
    ensures c[i] != c[j]
  {
  }

  lemma DistinctRemove<T>(c: seq<T>, k: nat)
    requires Distinct(c) && k < |c|
    ensures Distinct(c[..k] + c[k + 1..])
  {
  }

  lemma DistinctInsert<T>(c: seq<T>, k: nat, n: T)
    requires Distinct(c) && k <= |c| && n !in c
    ensures Distinct(c[..k] + [n] + c[k..])
  {
  }

  ghost function ChainOf(head: DLinkedNode, nodes: seq<DLinkedNode>, tail: DLinkedNode): (c: seq<DLinkedNode>)
    ensures |c| == |nodes| + 2
  {
    [head] + nodes + [tail]
  }

  ghost function Drop<T>(s: seq<T>, k: nat): (r: seq<T>)
    requires k < |s|
    ensures |r| == |s| - 1
    ensures forall x :: x in r ==> x in s
  {
    s[..k] + s[k + 1..]
  }

  /** Which nodes stand around a given one. */
  lemma Neighbours(head: DLinkedNode, nodes: seq<DLinkedNode>, tail: DLinkedNode, k: nat)
    requires k < |nodes|
    ensures var c := ChainOf(head, nodes, tail);
      && c[k] == (if k == 0 then head else nodes[k - 1])
      && c[k + 1] == nodes[k]
      && c[k + 2] == (if k + 1 == |nodes| then tail else nodes[k + 1])
  {
  }

  lemma ChainMembers(head: DLinkedNode, nodes: seq<DLinkedNode>, tail: DLinkedNode)
    ensures forall x :: x in ChainOf(head, nodes, tail) <==> x == head || x in nodes || x == tail
  {
  }

  lemma ChainEnds(head: DLinkedNode, nodes: seq<DLinkedNode>, tail: DLinkedNode)
    ensures var c := ChainOf(head, nodes, tail);
      c[0] == head && c[1] == if nodes == [] then tail else nodes[0]
  {
  }

  lemma DropFromChain(head: DLinkedNode, nodes: seq<DLinkedNode>, tail: DLinkedNode, k: nat)
    requires k < |nodes|
    ensures Drop(ChainOf(head, nodes, tail), k + 1) == ChainOf(head, Drop(nodes, k), tail)
  {
  }

  lemma AddToChain(head: DLinkedNode, nodes: seq<DLinkedNode>, tail: DLinkedNode, node: DLinkedNode)
    ensures [head, node] + ChainOf(head, nodes, tail)[1..] == ChainOf(head, [node] + nodes, tail)
  {
  }

  /** Takes node k out of a chain; the node itself keeps its own links. */
  method RemoveNode(node: DLinkedNode, ghost c: seq<DLinkedNode>, ghost k: nat)
    requires IsChain(c) && 1 <= k < |c| - 1 && c[k] == node
    modifies {c[k - 1]}`next, {c[k + 1]}`prev
    ensures IsChain(Drop(c, k))
  {
    hide Distinct;
    assert AreLinked(c, k - 1) && AreLinked(c, k);
    DistinctAt(c, k - 1, k);
    DistinctAt(c, k + 1, k);
    node.prev.next := node.next;
    node.next.prev := node.prev;
    ghost var d := c[..k] + c[k + 1..];
    DistinctRemove(c, k);
    forall i | 0 <= i < |d| - 1
      ensures AreLinked(d, i)
    {
      var j := if i < k then i else i + 1;
      if i != k - 1 {
        assert d[i] == c[j] && d[i + 1] == c[j + 1];
        assert old(AreLinked(c, j));
        DistinctAt(c, j, k - 1);
        DistinctAt(c, j + 1, k + 1);
      }
    }
  }

  /** Puts a node behind the first one, the head sentinel. */
  method AddToHead(node: DLinkedNode, head: DLinkedNode, ghost c: seq<DLinkedNode>)
    requires IsChain(c) && |c| >= 2 && c[0] == head && node !in c
    modifies head`next, {c[1]}`prev, node`prev, node`next
    ensures IsChain([head, node] + c[1..])
  {
    hide Distinct;
    assert AreLinked(c, 0);
    DistinctAt(c, 0, 1);
    node.prev := head;
    node.next := head.next;
    head.next.prev := node;
    head.next := node;
    ghost var d := [head, node] + c[1..];
    assert d == c[..1] + [node] + c[1..];
    DistinctInsert(c, 1, node);
    forall i | 0 <= i < |d| - 1
      ensures AreLinked(d, i)
    {
      if i >= 2 {
        assert d[i] == c[i - 1] && d[i + 1] == c[i];
        assert old(AreLinked(c, i - 1));
        DistinctAt(c, 0, i - 1);
        DistinctAt(c, 1, i);
      }
    }
  }

  /** The map leads to exactly the nodes of the list, each under its own key. */
  ghost predicate Indexes(cache: map<string, DLinkedNode>, nodes: seq<DLinkedNode>) {
    && (forall n :: n in nodes ==> n.key in cache && cache[n.key] == n)
    && (forall k :: k in cache ==> cache[k] in nodes && cache[k].key == k)
  }

  lemma IndexesMore(cache: map<string, DLinkedNode>, nodes: seq<DLinkedNode>, node: DLinkedNode)
    requires Indexes(cache, nodes) && node.key !in cache
    ensures Indexes(cache[node.key := node], [node] + nodes)
  {
  }

  lemma IndexesLess(cache: map<string, DLinkedNode>, nodes: seq<DLinkedNode>)
    requires Indexes(cache, nodes) && Distinct(nodes) && nodes != []
    ensures nodes[|nodes| - 1].key in cache
    ensures Indexes(cache - {nodes[|nodes| - 1].key}, nodes[..|nodes| - 1])
  {
    LastIsAlone(nodes);
  }

  lemma IndexesMoved(cache: map<string, DLinkedNode>, nodes: seq<DLinkedNode>, k: nat)
    requires Indexes(cache, nodes) && k < |nodes|
    ensures Indexes(cache, [nodes[k]] + Drop(nodes, k))
    ensures forall n :: n in [nodes[k]] + Drop(nodes, k) <==> n in nodes
  {
    DropLaws(nodes, k);
  }

  class Cache {
    var cache: map<string, DLinkedNode>
    const head: DLinkedNode
    const tail: DLinkedNode
    var size: int
    const capacity: int

    /** The nodes between the sentinels, from head to tail. */
    ghost var nodes: seq<DLinkedNode>

    ghost function Chain(): (c: seq<DLinkedNode>)
      reads this`nodes
    {
      ChainOf(head, nodes, tail)
    }

    ghost predicate Linked()
      reads this`nodes, Chain()`next, Chain()`prev
    {
      IsChain(Chain())
    }

    ghost predicate Valid()
      reads this, head, tail, nodes
    {
      Consistent() && (|nodes| <= capacity || nodes == [])
    }

    ghost function Repr(): (r: set<object>)
      reads this
      ensures this in r && head in r && tail in r && forall n :: n in nodes ==> n in r
    {
      {this, head, tail} + set n | n in nodes
    }

    ghost function Contents(): (l: seq<Entry>)
      reads this, nodes
      ensures |l| == |nodes| && forall i :: 0 <= i < |nodes| ==> l[i] == Entry(nodes[i].key, nodes[i].value)
    {
      seq(|nodes|, i requires 0 <= i < |nodes| reads this, nodes => Entry(nodes[i].key, nodes[i].value))
    }

    constructor (capacity: int)
      ensures Valid() && Contents() == [] && this.capacity == capacity
      ensures fresh(Repr())
    {
      this.capacity := capacity;
      size := 0;
      cache := map[];
      var h := new DLinkedNode("", []);
      var t := new DLinkedNode("", []);
      h.next := t;
      t.prev := h;
      head, tail := h, t;
      nodes := [];
    }

    method MoveToHead(node: DLinkedNode) returns (ghost k: nat)
      requires Linked() && node in nodes
      modifies this`nodes, head`next, tail`prev, nodes`prev, nodes`next
      ensures Linked() && k < |old(nodes)| && old(nodes)[k] == node
      ensures nodes == [node] + Drop(old(nodes), k)
    {
      hide IsChain, ChainOf, Drop;
      k :| 0 <= k < |nodes| && nodes[k] == node;
      ghost var rest := Drop(nodes, k);
      Neighbours(head, nodes, tail, k);
      DropFromChain(head, nodes, tail, k);
      ChainEnds(head, rest, tail);
      AddToChain(head, rest, tail, node);
      NodeDropped(Chain(), k + 1);
      assert rest != [] ==> rest[0] in rest;
      RemoveNode(node, Chain(), k + 1);
      AddToHead(node, head, ChainOf(head, rest, tail));
      nodes := [node] + rest;
    }

    method NewToHead(node: DLinkedNode)
      requires Linked() && node !in nodes && node != head && node != tail
      modifies this`nodes, head`next, tail`prev, nodes`prev, node`prev, node`next
      ensures Linked() && nodes == [node] + old(nodes)
    {
      hide IsChain, Drop, Distinct;
      ChainMembers(head, nodes, tail);
      ChainEnds(head, nodes, tail);
      AddToChain(head, nodes, tail, node);
      AddToHead(node, head, Chain());
      nodes := [node] + nodes;
    }

    method RemoveTail() returns (node: DLinkedNode)
      requires Linked() && nodes != []
      modifies this`nodes, head`next, tail`prev, nodes`prev, nodes`next
      ensures Linked() && node == old(nodes)[|old(nodes)| - 1]
      ensures nodes == old(nodes)[..|old(nodes)| - 1]
    {
      hide IsChain, ChainOf, Drop;
      ghost var k := |nodes| - 1;
      Neighbours(head, nodes, tail, k);
      DropFromChain(head, nodes, tail, k);
      LinkAt(Chain(), k + 1);
      DropLast(nodes);
      node := tail.prev;
      RemoveNode(node, Chain(), k + 1);
      nodes := Drop(nodes, k);
    }

    // ----- the map and the list together

    lemma KeysAgree(k: string)
      requires Valid()
      ensures HasKey(Contents(), k) <==> k in cache
      ensures DistinctKeys(Contents())
    {
      hide IsChain, ChainOf;
      if k in cache {
        var i :| 0 <= i < |nodes| && nodes[i] == cache[k];
        assert Contents()[i].key == k;
      }
      NodesDistinct();
    }

    lemma NodesDistinct()
      requires Linked()
      ensures Distinct(nodes)
    {
      var c := Chain();
      forall i, j | 0 <= i < j < |nodes|
        ensures nodes[i] != nodes[j]
      {
        assert c[i + 1] == nodes[i] && c[j + 1] == nodes[j];
      }
    }

    lemma DistinctEntries()
      requires Consistent()
      ensures DistinctKeys(Contents())
    {
      hide IsChain, ChainOf;
      NodesDistinct();
    }

    lemma NodeEntry(node: DLinkedNode)
      requires Consistent() && node in nodes
      ensures Latest(Contents(), node.key) == node.value
    {
      hide IsChain, ChainOf, Latest, Linked;
      DistinctEntries();
      var k :| 0 <= k < |nodes| && nodes[k] == node;
      LatestAt(Contents(), k);
    }

    /** Everything Valid says but the bound on the size. */
    ghost predicate Consistent()
      reads this, head, tail, nodes
    {
      Linked() && Indexes(cache, nodes) && size == |nodes|
    }

    method Insert(key: string, value: Bytes)
      requires Consistent() && key !in cache
      modifies this, head, tail, nodes
      ensures Consistent() && |nodes| == |old(nodes)| + 1 && fresh(nodes[0]) && nodes[1..] == old(nodes)
      ensures Contents() == [Entry(key, value)] + old(Contents())
    {
      hide IsChain, ChainOf, Distinct;
      ghost var c, l := Chain(), Contents();
      ChainMembers(head, nodes, tail);
      assert IsChain(c);
      assert forall x :: x in c ==> allocated(x);
      var node := new DLinkedNode(key, value);
      assert IsChain(c);
      assert Contents() == l;
      InsertNode(node);
    }

    method InsertNode(node: DLinkedNode)
      requires Consistent() && node.key !in cache && node !in nodes && node != head && node != tail
      modifies this`nodes, this`cache, this`size, head`next, tail`prev, nodes`prev, node`prev, node`next
      ensures Consistent() && nodes == [node] + old(nodes)
      ensures Contents() == [Entry(node.key, node.value)] + old(Contents())
    {
      hide IsChain, ChainOf, Distinct, Linked, Indexes;
      IndexesMore(cache, nodes, node);
      cache := cache[node.key := node];
      NewToHead(node);
      size := size + 1;
    }

    /** The node before the tail sentinel goes, from the list and from the map. */
    method Evict()
      requires Consistent() && nodes != []
      modifies this, head, tail, nodes
      ensures Consistent() && nodes == old(nodes)[..|old(nodes)| - 1]
      ensures Contents() == old(Contents())[..|old(nodes)| - 1]
    {
      hide IsChain, ChainOf, Distinct, Linked, Indexes;
      NodesDistinct();
      IndexesLess(cache, nodes);
      var removed := RemoveTail();
      cache := cache - {removed.key};
      size := size - 1;
    }

    lemma ContentsMoved(l: seq<Entry>, before: seq<DLinkedNode>, k: nat)
      requires k < |before| == |l| && nodes == [before[k]] + Drop(before, k)
      requires forall i :: 0 <= i < |l| ==> l[i] == Entry(before[i].key, before[i].value)
      ensures Contents() == [l[k]] + (l[..k] + l[k + 1..])
    {
      hide Drop;
      DropAt(before, k);
    }

    /** The list after a node's entry moved to the front. */
    method Promote(node: DLinkedNode)
      requires Consistent() && node in nodes
      modifies this, head, tail, nodes
      ensures Consistent() && size == old(size) && forall n :: n in nodes <==> n in old(nodes)
      ensures forall n :: n in nodes ==> n.value == old(n.value)
      ensures Contents() == [Entry(node.key, node.value)] + Without(old(Contents()), node.key)
    {
      hide IsChain, ChainOf, Drop, HasKey, Without, Distinct, Indexes, Linked;
      ghost var l := Contents();
      DistinctEntries();
      ghost var k := MoveToHead(node);
      IndexesMoved(cache, old(nodes), k);
      ContentsMoved(l, old(nodes), k);
      WithoutMiddle(l, k);
    }

    method Get(key: string) returns (value: Bytes)
      requires Valid()
      modifies Repr()
      ensures Valid() && fresh(Repr() - old(Repr()))
      ensures value == if HasKey(old(Contents()), key) then Latest(old(Contents()), key) else []
      ensures Contents() == GetList(old(Contents()), key)
      ensures (forall i :: 0 <= i < |old(Contents())| ==> old(Contents())[i].key != key) ==>
        value == [] && Contents() == old(Contents())
      ensures forall i :: 0 <= i < |old(Contents())| && old(Contents())[i].key == key ==>
        && value == old(Contents())[i].value && Contents()[0].key == key
        && Contents() == [old(Contents())[i]] + old(Contents())[..i] + old(Contents())[i + 1..]
    {
      hide IsChain, ChainOf, Latest, HasKey, GetList, Without, Distinct, Linked;
      KeysAgree(key);
      GetListIs(Contents(), key);
      GetListIf(Contents(), key);
      if key !in cache {
        return [];
      }
      var node := cache[key];
      NodeEntry(node);
      Promote(node);
      value := node.value;
    }

    method Put(key: string, value: Bytes)
      requires Valid()
      modifies Repr()
      ensures Valid() && fresh(Repr() - old(Repr()))
      ensures Contents() == PutList(old(Contents()), capacity, key, value)
      ensures (forall i :: 0 <= i < |old(Contents())| ==> old(Contents())[i].key != key) ==>
        Contents() ==
          if |old(Contents())| + 1 > capacity then ([Entry(key, value)] + old(Contents()))[..|old(Contents())|]
          else [Entry(key, value)] + old(Contents())
      ensures forall i :: 0 <= i < |old(Contents())| && old(Contents())[i].key == key ==>
        Contents() == [Entry(key, value)] + old(Contents())[..i] + old(Contents())[i + 1..]
    {
      hide IsChain, ChainOf, Latest, HasKey, Without, Distinct, Linked;
      KeysAgree(key);
      PutListIs(Contents(), capacity, key, value);
      if key !in cache {
        Insert(key, value);
        if size > capacity {
          Evict();
        }
      } else {
        var node := cache[key];
        Overwrite(node, value);
        Promote(node);
      }
    }

    /** A new value in place leaves the other entries as they are. */
    method Overwrite(node: DLinkedNode, value: Bytes)
      requires Consistent() && node in nodes
      modifies node`value
      ensures Consistent() && node.value == value
      ensures Without(Contents(), node.key) == Without(old(Contents()), node.key)
    {
      hide IsChain, ChainOf, Distinct, Without, Indexes;
      DistinctEntries();
      ghost var l := Contents();
      ghost var k :| 0 <= k < |nodes| && nodes[k] == node;
      WithoutMiddle(l, k);
      node.value := value;
      assert Contents() == l[k := Entry(node.key, value)];
      DistinctEntries();
      WithoutMiddle(Contents(), k);
    }
  }

  lemma DropAt<T>(s: seq<T>, k: nat)
    requires k < |s|
    ensures forall i :: 0 <= i < |s| - 1 ==> Drop(s, k)[i] == s[if i < k then i else i + 1]
  {
  }

  lemma DropLaws<T>(s: seq<T>, k: nat)
    requires k < |s|
    ensures forall x :: x in s <==> x == s[k] || x in Drop(s, k)
  {
    forall x | x in s
      ensures x == s[k] || x in Drop(s, k)
    {
      var i :| 0 <= i < |s| && s[i] == x;
      if i != k {
        assert Drop(s, k)[if i < k then i else i - 1] == x;
      }
    }
  }

  lemma LinkAt(c: seq<DLinkedNode>, i: nat)
    requires IsChain(c) && i < |c| - 1
    ensures AreLinked(c, i)
  {
  }

  lemma LastIsAlone<T>(s: seq<T>)
    requires Distinct(s) && s != []
    ensures forall x :: x in s ==> (x in s[..|s| - 1] <==> x != s[|s| - 1])
  {
  }

  lemma DropLast<T>(s: seq<T>)
    requires s != []
    ensures Drop(s, |s| - 1) == s[..|s| - 1]
  {
  }

  lemma NodeDropped(c: seq<DLinkedNode>, k: nat)
    requires IsChain(c) && k < |c|
    ensures c[k] !in Drop(c, k)
  {
  }

  lemma GetListIf(l: seq<Entry>, key: string)
    ensures GetList(l, key) == if HasKey(l, key) then [Entry(key, Latest(l, key))] + Without(l, key) else l
  {
    hide HasKey, Latest, Without;
  }

  /** One operation, on a cache that holds what the history of touches says. */
  method Perform(c: Cache, op: Op, ghost log: seq<Entry>) returns (answer: Bytes)
    requires c.Valid() && c.Contents() == Cached(log, c.capacity)
    modifies c.Repr()
    ensures c.Valid() && fresh(c.Repr() - old(c.Repr()))
    ensures c.Contents() == Cached(RefStep(log, c.capacity, op), c.capacity)
    ensures answer == RefAnswer(log, c.capacity, op)
  {
    hide Cached, PutList, GetList, Latest, HasKey, RefStep, RefAnswer;
    answer := [];
    if op.Get? {
      GetAgrees(log, c.capacity, op.key);
      answer := c.Get(op.key);
    } else {
      PutAgrees(log, c.capacity, op.key, op.value);
      c.Put(op.key, op.value);
    }
  }

  /**
   Any run on a new cache answers and ends as the touch history says: it holds exactly the keys since whose last
   touch fewer than capacity different other keys were touched, newest first, with the values last put.
   */
  method Run(capacity: int, ops: seq<Op>) returns (c: Cache, answers: seq<Bytes>)
    ensures c.Valid() && c.capacity == capacity
    ensures c.Contents() == Cached(RefLog(ops, capacity), capacity)
    ensures answers == RefAnswers(ops, capacity)
    ensures forall k :: HasKey(c.Contents(), k) <==> IsHeld(ops, capacity, k)
    ensures forall x, j :: 0 <= x < |c.Contents()| && IsLastPut(ops, c.Contents()[x].key, j) ==>
      c.Contents()[x].value == ops[j].value
    ensures forall x, y, j :: 0 <= x < y < |c.Contents()| && IsLastTouch(ops, capacity, c.Contents()[y].key, j) ==>
      c.Contents()[x].key in KeysSince(ops, capacity, j)
    ensures forall i :: 0 <= i < |ops| && (ops[i].Put? || !IsHeld(ops[..i], capacity, ops[i].key)) ==> answers[i] == []
    ensures
      forall i, j :: 0 <= i < |ops| && ops[i].Get? && IsHeld(ops[..i], capacity, ops[i].key)
          && IsLastPut(ops[..i], ops[i].key, j)
        ==> answers[i] == ops[j].value
  {
    hide Cached, RefLog, RefAnswers, RefStep, RefAnswer, PutList, GetList, Latest, HasKey, IsHeld, KeysSince, IsTouch;
    c := new Cache(capacity);
    answers := [];
    StartAgrees(capacity);
    for i := 0 to |ops|
      invariant c.Valid() && c.capacity == capacity
      invariant fresh(c.Repr())
      invariant c.Contents() == Cached(RefLog(ops[..i], capacity), capacity)
      invariant answers == RefAnswers(ops[..i], capacity)
    {
      var answer := Perform(c, ops[i], RefLog(ops[..i], capacity));
      RunStep(ops, capacity, i);
      answers := answers + [answer];
    }
    assert ops[..|ops|] == ops;
    RunIsByTouches(ops, capacity);
  }

  /** What the touch history holds and answers, over the operations alone. */
  lemma RunIsByTouches(ops: seq<Op>, capacity: int)
    ensures var l := Cached(RefLog(ops, capacity), capacity);
      && (forall k :: HasKey(l, k) <==> IsHeld(ops, capacity, k))
      && (forall x, j :: 0 <= x < |l| && IsLastPut(ops, l[x].key, j) ==> l[x].value == ops[j].value)
      && (forall x, y, j :: 0 <= x < y < |l| && IsLastTouch(ops, capacity, l[y].key, j) ==>
           l[x].key in KeysSince(ops, capacity, j))
    ensures forall i :: 0 <= i < |ops| ==>
      && RefAnswers(ops, capacity)[i] == RefAnswer(RefLog(ops[..i], capacity), capacity, ops[i])
      && (ops[i].Put? || !IsHeld(ops[..i], capacity, ops[i].key) ==> RefAnswers(ops, capacity)[i] == [])
      && forall j :: ops[i].Get? && IsHeld(ops[..i], capacity, ops[i].key) && IsLastPut(ops[..i], ops[i].key, j) ==>
           RefAnswers(ops, capacity)[i] == ops[j].value
  {
    hide RefLog, Cached, RefAnswers, RefAnswer, IsHeld, KeysSince, HasKey, Latest, LastPut;
    var l := ContentsAfter(ops, capacity);
    forall k
      ensures HasKey(l, k) <==> IsHeld(ops, capacity, k)
    {
      HeldIsCached(ops, capacity, k);
    }
    forall x, j | 0 <= x < |l| && IsLastPut(ops, l[x].key, j)
      ensures l[x].value == ops[j].value
    {
      EntryIsLastPut(ops, capacity, x);
      LastPutIs(ops, l[x].key, j);
    }
    forall x, y, j | 0 <= x < y < |l| && IsLastTouch(ops, capacity, l[y].key, j)
      ensures l[x].key in KeysSince(ops, capacity, j)
    {
      HeldInOrder(ops, capacity, x, y, j);
    }
    forall i | 0 <= i < |ops|
      ensures RefAnswers(ops, capacity)[i] == RefAnswer(RefLog(ops[..i], capacity), capacity, ops[i])
      ensures ops[i].Put? || !IsHeld(ops[..i], capacity, ops[i].key) ==> RefAnswers(ops, capacity)[i] == []
      ensures
        forall j :: ops[i].Get? && IsHeld(ops[..i], capacity, ops[i].key) && IsLastPut(ops[..i], ops[i].key, j)
          ==> RefAnswers(ops, capacity)[i] == ops[j].value
    {
      AnswerAt(ops, capacity, i);
      AnswerByTouches(ops, capacity, i);
    }
  }

  lemma EntryIsLastPut(ops: seq<Op>, capacity: int, x: nat)
    requires x < |ContentsAfter(ops, capacity)|
    ensures ContentsAfter(ops, capacity)[x].value == LastPut(ops, ContentsAfter(ops, capacity)[x].key)
  {
    hide RefLog, LastPut, Recency, Latest;
    var log := RefLog(ops, capacity);
    RecencyLaws(log);
    LatestIsLastPut(ops, capacity, Recency(log)[x].key);
  }

  lemma {:induction false} AnswerAt(ops: seq<Op>, capacity: int, i: nat)
    requires i < |ops|
    ensures RefAnswers(ops, capacity)[i] == RefAnswer(RefLog(ops[..i], capacity), capacity, ops[i])
  {
    hide RefAnswer, RefLog;
    var last := |ops| - 1;
    if i < last {
      AnswerAt(ops[..last], capacity, i);
      assert ops[..last][..i] == ops[..i] && ops[..last][i] == ops[i];
    }
  }

  lemma AnswerByTouches(ops: seq<Op>, capacity: int, i: nat)
    requires i < |ops|
    ensures var a := RefAnswer(RefLog(ops[..i], capacity), capacity, ops[i]);
      && (ops[i].Put? || !IsHeld(ops[..i], capacity, ops[i].key) ==> a == [])
      && forall j :: ops[i].Get? && IsHeld(ops[..i], capacity, ops[i].key) && IsLastPut(ops[..i], ops[i].key, j) ==>
           a == ops[j].value
  {
    hide RefLog, Cached, IsHeld, HasKey, Latest, LastPut;
    var before, k := ops[..i], ops[i].key;
    HeldIsCached(before, capacity, k);
    LatestIsLastPut(before, capacity, k);
    forall j | IsLastPut(before, k, j)
      ensures LastPut(before, k) == ops[j].value
    {
      LastPutIs(before, k, j);
    }
  }

  lemma StartAgrees(capacity: int)
    ensures Cached(RefLog([], capacity), capacity) == []
    ensures RefAnswers([], capacity) == []
  {
  }

  lemma RunStep(ops: seq<Op>, capacity: int, i: nat)
    requires i < |ops|
    ensures var log := RefLog(ops[..i], capacity);
      && RefLog(ops[..i + 1], capacity) == RefStep(log, capacity, ops[i])
      && RefAnswers(ops[..i + 1], capacity) == RefAnswers(ops[..i], capacity) + [RefAnswer(log, capacity, ops[i])]
  {
    hide RefStep, RefAnswer;
    assert ops[..i + 1][..i] == ops[..i];
  }
}
