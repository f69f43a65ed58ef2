/** The untyped linked list (Include/XnList.h): a ring of nodes from a pool, without a stored size. */
module PooledLists {
  import opened Sequences
  import opened Rings
  import opened Statuses

  /** The pool of nodes (Source/OpenNI/XnNodeManager.cpp): how many are in use, by all lists and hashes. */
  class NodePool {
    var taken: nat

    constructor ()
      ensures taken == 0
    {
      taken := 0;
    }

    method Allocate(available: bool) returns (ok: bool)
      modifies this
      ensures ok == available && taken == old(taken) + if ok then 1 else 0
    {
      if available {
        taken := taken + 1;
      }
      ok := available;
    }

    method Deallocate()
      requires taken > 0
      modifies this
      ensures taken == old(taken) - 1
    {
      taken := taken - 1;
    }
  }

  class XnList<T(0, ==)> {
    const base: Node<T>
    const pool: NodePool
    ghost var ring: seq<Node<T>>  // the base node, then the nodes in list order

    ghost predicate Valid()
      reads this, ring
    {
      IsRing(ring, this) && ring[0] == base
    }

    /** The nodes in use that are not of this list: every operation leaves their number alone. */
    ghost function OtherNodes(): int
      reads this, pool
    {
      pool.taken - |ring|
    }

    constructor (pool: NodePool)
      modifies pool
      ensures Valid() && RingValues(ring) == [] && fresh(base) && this.pool == pool && OtherNodes() == old(pool.taken)
    {
      base := new Node<T>.Base();
      this.pool := pool;
      new;
      var ok := pool.Allocate(true);
      base.owner := this;
      ring := [base];
    }

    function IsEmpty(): (empty: bool)
      requires Valid()
      reads this, ring
      ensures empty <==> RingValues(ring) == []
    {
      RingEnds(ring, this);
      base.next == base
    }

    /** Inserts after the k-th node of the ring. */
    method Add(after: Node<T>, value: T, available: bool, ghost k: nat) returns (status: Status)
      requires Valid() && k < |ring| && ring[k] == after
      modifies this, ring, pool
      ensures Valid() && OtherNodes() == old(OtherNodes())
      ensures status == if available then Ok else AllocFailed
      ensures RingValues(ring) == if available then InsertAt(old(RingValues(ring)), k, value) else old(RingValues(ring))
    {
      var ok := pool.Allocate(available);
      if !ok {
        return AllocFailed;
      }
      var node := new Node<T>(value, this);
      LinkAfter(after, node, ring, k, this);
      ring := InsertAt(ring, k + 1, node);
      status := Ok;
    }

    method AddFirst(value: T, available: bool) returns (status: Status)
      requires Valid()
      modifies this, ring, pool
      ensures Valid() && OtherNodes() == old(OtherNodes())
      ensures status == if available then Ok else AllocFailed
      ensures RingValues(ring) == if available then [value] + old(RingValues(ring)) else old(RingValues(ring))
    {
      InsertAtEnds(RingValues(ring), value);
      status := Add(base, value, available, 0);
    }

    method AddLast(value: T, available: bool) returns (status: Status)
      requires Valid()
      modifies this, ring, pool
      ensures Valid() && OtherNodes() == old(OtherNodes())
      ensures status == if available then Ok else AllocFailed
      ensures RingValues(ring) == if available then old(RingValues(ring)) + [value] else old(RingValues(ring))
    {
      InsertAtEnds(RingValues(ring), value);
      RingEnds(ring, this);
      status := Add(base.prev, value, available, |ring| - 1);
    }

    method AddAfter(where: Node<T>, value: T, available: bool) returns (status: Status)
      requires Valid() && where in ring
      modifies this, ring, pool
      ensures Valid() && OtherNodes() == old(OtherNodes())
      ensures status == if where == base then IllegalPosition else if available then Ok else AllocFailed
      ensures RingValues(ring) ==
              if status == Ok then InsertAt(old(RingValues(ring)), PositionIn(old(ring), where), value)
              else old(RingValues(ring))
    {
      if where == base {
        return IllegalPosition;
      }
      status := Add(where, value, available, PositionIn(ring, where));
    }

    method AddBefore(where: Node<T>, value: T, available: bool) returns (status: Status)
      requires Valid() && where in ring
      modifies this, ring, pool
      ensures Valid() && OtherNodes() == old(OtherNodes())
      ensures status == if where == base then IllegalPosition else if available then Ok else AllocFailed
      ensures status == Ok ==>
                && PositionIn(old(ring), where) > 0
                && RingValues(ring) == InsertAt(old(RingValues(ring)), PositionIn(old(ring), where) - 1, value)
      ensures status != Ok ==> RingValues(ring) == old(RingValues(ring))
    {
      if where == base {
        return IllegalPosition;
      }
      ghost var k := PositionIn(ring, where);
      assert k > 0 && where.prev == ring[k - 1];
      status := Add(where.prev, value, available, k - 1);
    }

    /** Unlinks the node, and returns it to the pool. */
    method Remove(where: Node<T>) returns (status: Status)
      requires Valid() && where in ring && OtherNodes() >= 0
      modifies this, ring, pool
      ensures Valid() && OtherNodes() == old(OtherNodes())
      ensures status == if where == base then IllegalPosition else Ok
      ensures status != Ok ==> RingValues(ring) == old(RingValues(ring))
      ensures forall i | 0 <= i < |ring| :: ring[i] in old(ring)
      ensures status == Ok ==>
                && PositionIn(old(ring), where) > 0
                && RingValues(ring) == RemoveAt(old(RingValues(ring)), PositionIn(old(ring), where) - 1)
    {
      if where == base {
        return IllegalPosition;
      }
      ghost var k := PositionIn(ring, where);
      Unlink(where, ring, k, this);
      ring := RemoveAt(ring, k);
      pool.Deallocate();
      status := Ok;
    }

    /** The first node that holds the value, or the end position. */
    method Find(value: T) returns (it: Node<T>)
      requires Valid()
      ensures it in ring
      ensures it == base <==> value !in RingValues(ring)
      ensures it != base ==>
                var i := PositionIn(ring, it) - 1;
                0 <= i && RingValues(ring)[i] == value && forall j :: 0 <= j < i ==> RingValues(ring)[j] != value
    {
      RingEnds(ring, this);
      it := base.next;
      ghost var i := 0;
      while it != base && it.value != value
        invariant 0 <= i < |ring| && it == ring[Succ(i, |ring|)]
        invariant forall j :: 0 <= j < i ==> RingValues(ring)[j] != value
        decreases |ring| - i
      {
        assert it.value == RingValues(ring)[i];
        it := it.next;
        i := i + 1;
      }
      if it != base {
        assert it.value == RingValues(ring)[i];
      }
    }

    method Clear()
      requires Valid() && OtherNodes() >= 0
      modifies this, ring, pool
      ensures Valid() && RingValues(ring) == [] && OtherNodes() == old(OtherNodes())
    {
      while !IsEmpty()
        invariant Valid() && OtherNodes() == old(OtherNodes())
        invariant forall i | 0 <= i < |ring| :: ring[i] in old(ring)
        decreases |ring|
      {
        RingEnds(ring, this);
        var status := Remove(base.next);
      }
    }

    /** Counts the nodes. */
    method Size() returns (n: nat)
      requires Valid()
      ensures n == |RingValues(ring)|
    {
      n := 0;
      RingEnds(ring, this);
      var it := base.next;
      while it != base
        invariant n < |ring| && it == ring[Succ(n, |ring|)]
        decreases |ring| - n
      {
        it := it.next;
        n := n + 1;
      }
    }
  }
}
