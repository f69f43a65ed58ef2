/** Circular doubly linked nodes: the shape that both list classes share. */
module Rings {
  import opened Sequences

  /** A node of a circular doubly linked list. */
  class Node<T(0)> {
    var prev: Node?<T>
    var next: Node?<T>
    var value: T
    ghost var owner: object?  // whoever may relink the node: keeps structures apart

    constructor (value: T, ghost owner: object?)
      ensures prev == null && next == null && this.value == value && this.owner == owner
    {
      prev, next, this.value, this.owner := null, null, value, owner;
    }

    /** A base node, linked to itself; its value is never looked at. */
    constructor Base()
      ensures prev == this && next == this
    {
      prev, next := this, this;
    }
  }

  function Succ(i: nat, n: nat): nat
    requires i < n
  {
    if i + 1 == n then 0 else i + 1
  }

  function Pred(i: nat, n: nat): nat
    requires i < n
  {
    if i == 0 then n - 1 else i - 1
  }

  /** The nodes are linked in a circle, forwards and backwards, and all belong to `owner`. */
  ghost predicate IsRing<T(0)>(ring: seq<Node<T>>, owner: object)
    reads ring
  {
    && |ring| > 0
    && Distinct(ring)
    && (forall i {:trigger ring[i].next} :: 0 <= i < |ring| ==> ring[i].next == ring[Succ(i, |ring|)])
    && (forall i {:trigger ring[i].prev} :: 0 <= i < |ring| ==> ring[i].prev == ring[Pred(i, |ring|)])
    && (forall i :: 0 <= i < |ring| ==> ring[i].owner == owner)
  }

  ghost function Objects<T(0)>(ring: seq<Node<T>>): (r: set<object>)
    ensures forall i :: 0 <= i < |ring| ==> ring[i] in r
    ensures forall o :: o in r ==> exists i :: 0 <= i < |ring| && ring[i] == o
  {
    set i | 0 <= i < |ring| :: ring[i] as object
  }

  /** What the nodes after the base node hold. */
  ghost function RingValues<T(0)>(ring: seq<Node<T>>): (s: seq<T>)
    requires |ring| > 0
    reads ring
    ensures |s| == |ring| - 1
  {
    seq(|ring| - 1, i requires 0 <= i < |ring| - 1 reads ring => ring[i + 1].value)
  }

  /** The index of a node: 0 is the base node, the end position, and k + 1 is where the k-th value is. */
  ghost function PositionIn<T(0)>(ring: seq<Node<T>>, n: Node<T>): (k: nat)
    requires n in ring
    ensures k < |ring| && ring[k] == n
  {
    var k :| 0 <= k < |ring| && ring[k] == n;
    k
  }

  lemma RingEnds<T(0)>(ring: seq<Node<T>>, owner: object)
    requires IsRing(ring, owner)
    ensures ring[0].next == ring[Succ(0, |ring|)] && ring[0].prev == ring[|ring| - 1]
  {
    assert ring[0].prev == ring[Pred(0, |ring|)];
  }

  lemma LongerValues<T(0)>(ring: seq<Node<T>>, k: nat, node: Node<T>)
    requires k < |ring|
    ensures RingValues(InsertAt(ring, k + 1, node)) == InsertAt(RingValues(ring), k, node.value)
  {
    var r := InsertAt(ring, k + 1, node);
    forall i | 0 <= i < |ring|
      ensures RingValues(r)[i] == InsertAt(RingValues(ring), k, node.value)[i]
    {
      assert RingValues(r)[i] == r[i + 1].value;
    }
  }

  lemma ShorterValues<T(0)>(ring: seq<Node<T>>, k: nat)
    requires 0 < k < |ring|
    ensures RingValues(RemoveAt(ring, k)) == RemoveAt(RingValues(ring), k - 1)
  {
    var r := RemoveAt(ring, k);
    forall i | 0 <= i < |r| - 1
      ensures RingValues(r)[i] == RemoveAt(RingValues(ring), k - 1)[i]
    {
      assert RingValues(r)[i] == r[i + 1].value;
    }
  }

  /** The links that make `node` the successor of ring[k] are those of a longer ring. */
  lemma LongerRing<T(0)>(ring: seq<Node<T>>, k: nat, node: Node<T>, owner: object)
    requires k < |ring| && Distinct(ring) && node !in ring
    requires node.prev == ring[k] && node.next == ring[Succ(k, |ring|)] && node.owner == owner
    requires forall i {:trigger ring[i].next} :: 0 <= i < |ring| ==>
               ring[i].next == if i == k then node else ring[Succ(i, |ring|)]
    requires forall i {:trigger ring[i].prev} :: 0 <= i < |ring| ==>
               ring[i].prev == if i == Succ(k, |ring|) then node else ring[Pred(i, |ring|)]
    requires forall i :: 0 <= i < |ring| ==> ring[i].owner == owner
    ensures IsRing(InsertAt(ring, k + 1, node), owner)
  {
    var r := InsertAt(ring, k + 1, node);
    forall i | 0 <= i < |r|
      ensures r[i].next == r[Succ(i, |r|)]
    {
      if i <= k {
        assert r[i] == ring[i];
      } else if i > k + 1 {
        assert r[i] == ring[i - 1];
      }
    }
    forall i | 0 <= i < |r|
      ensures r[i].prev == r[Pred(i, |r|)] && r[i].owner == owner
    {
      if i <= k {
        assert r[i] == ring[i];
      } else if i > k + 1 {
        assert r[i] == ring[i - 1];
      }
    }
    DistinctInsert(ring, k + 1, node);
  }

  /** The links that bypass ring[k] are those of a shorter ring. */
  lemma ShorterRing<T(0)>(ring: seq<Node<T>>, k: nat, owner: object)
    requires 0 < k < |ring| && Distinct(ring)
    requires forall i {:trigger ring[i].next} :: 0 <= i < |ring| && i != k ==>
               ring[i].next == ring[Succ(if i == k - 1 then k else i, |ring|)]
    requires forall i {:trigger ring[i].prev} :: 0 <= i < |ring| && i != k ==>
               ring[i].prev == ring[Pred(if i == Succ(k, |ring|) then k else i, |ring|)]
    requires forall i :: 0 <= i < |ring| ==> ring[i].owner == owner
    ensures IsRing(RemoveAt(ring, k), owner)
  {
    var r := RemoveAt(ring, k);
    forall i | 0 <= i < |r|
      ensures r[i].next == r[Succ(i, |r|)] && r[i].prev == r[Pred(i, |r|)] && r[i].owner == owner
    {
      if i < k {
        assert r[i] == ring[i];
      } else {
        assert r[i] == ring[i + 1];
      }
    }
  }

  method LinkAfter<T(0)>(after: Node<T>, node: Node<T>, ghost ring: seq<Node<T>>, ghost k: nat, ghost owner: object)
    requires IsRing(ring, owner) && k < |ring| && ring[k] == after && node !in ring && node.owner == owner
    modifies node`prev, node`next, ring
    ensures IsRing(InsertAt(ring, k + 1, node), owner)
    ensures RingValues(InsertAt(ring, k + 1, node)) == InsertAt(old(RingValues(ring)), k, node.value)
  {
    assert after.next == ring[Succ(k, |ring|)];
    node.prev := after;
    node.next := after.next;
    after.next.prev := node;
    after.next := node;
    assert RingValues(ring) == old(RingValues(ring));
    LongerRing(ring, k, node, owner);
    LongerValues(ring, k, node);
  }

  method Unlink<T(0)>(node: Node<T>, ghost ring: seq<Node<T>>, ghost k: nat, ghost owner: object)
    requires IsRing(ring, owner) && 0 < k < |ring| && ring[k] == node
    modifies ring
    ensures IsRing(RemoveAt(ring, k), owner)
    ensures RingValues(RemoveAt(ring, k)) == RemoveAt(old(RingValues(ring)), k - 1)
    ensures node.next == old(node.next) && node.prev == old(node.prev)
  {
    assert node.prev == ring[k - 1] && node.next == ring[Succ(k, |ring|)];
    node.prev.next := node.next;
    node.next.prev := node.prev;
    assert RingValues(ring) == old(RingValues(ring));
    ShorterRing(ring, k, owner);
    ShorterValues(ring, k);
  }
}
