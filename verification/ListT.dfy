/** The typed linked list (Include/XnListT.h): an anchored ring of heap nodes that holds a sequence. */
module Lists {
  import opened Sequences
  import opened Rings
  import opened Statuses

  class XnListT<T(0, ==)> {
    const anchor: Node<T>
    var count: nat
    ghost var ring: seq<Node<T>>  // the anchor, then the nodes in list order

    ghost predicate Valid()
      reads this, ring
    {
      IsRing(ring, this) && ring[0] == anchor && count == |ring| - 1
    }

    ghost function Values(): (s: seq<T>)
      requires Valid()
      reads this, ring
      ensures |s| == |ring| - 1
    {
      RingValues(ring)
    }

    ghost function PositionOf(n: Node<T>): (k: nat)
      requires Valid() && n in ring
      reads this, ring
      ensures k < |ring| && ring[k] == n
    {
      PositionIn(ring, n)
    }

    constructor ()
      ensures Valid() && Values() == []
      ensures ring == [anchor] && fresh(anchor)
    {
      anchor := new Node<T>.Base();
      count := 0;
      new;
      anchor.owner := this;
      ring := [anchor];
    }

    function Begin(): (n: Node<T>)
      requires Valid()
      reads this, ring
      ensures n == ring[Succ(0, |ring|)]
    {
      assert ring[0].next == ring[Succ(0, |ring|)];
      anchor.next
    }

    function ReverseBegin(): (n: Node<T>)
      requires Valid()
      reads this, ring
      ensures n == ring[|ring| - 1]
    {
      assert ring[0].prev == ring[Pred(0, |ring|)];
      anchor.prev
    }

    method InsertAfter(after: Node<T>, value: T, canAllocate: bool) returns (status: Status)
      requires Valid() && after in ring
      modifies this, ring
      ensures Valid() && forall i | 0 <= i < |ring| :: ring[i] in old(ring) || fresh(ring[i])
      ensures status == if canAllocate then Ok else AllocFailed
      ensures Values() == if canAllocate then InsertAt(old(Values()), old(PositionOf(after)), value) else old(Values())
    {
      if !canAllocate {
        return AllocFailed;
      }
      var node := new Node<T>(value, this);
      Attach(after, node, PositionOf(after));
      status := Ok;
    }

    /** Connect a new node after the k-th one of the ring. */
    method Attach(after: Node<T>, node: Node<T>, ghost k: nat)
      requires Valid() && k < |ring| && ring[k] == after && node !in ring && node.owner == this
      modifies this, ring, node`prev, node`next
      ensures Valid() && ring == InsertAt(old(ring), k + 1, node)
      ensures Values() == InsertAt(old(Values()), k, node.value)
    {
      LinkAfter(after, node, ring, k, this);
      ring, count := InsertAt(ring, k + 1, node), count + 1;
    }

    lemma PositionIsUnique(n: Node<T>, k: nat)
      requires Valid() && k < |ring| && ring[k] == n
      ensures n in ring && PositionOf(n) == k
    {
    }

    /** Two lists own no node in common. */
    lemma Apart(other: XnListT<T>)
      requires Valid() && other.Valid() && other != this
      ensures forall i | 0 <= i < |other.ring| :: other.ring[i] !in ring
    {
    }

    method AddFirst(value: T, canAllocate: bool) returns (status: Status)
      requires Valid()
      modifies this, ring
      ensures Valid() && forall i | 0 <= i < |ring| :: ring[i] in old(ring) || fresh(ring[i])
      ensures status == if canAllocate then Ok else AllocFailed
      ensures Values() == if canAllocate then [value] + old(Values()) else old(Values())
    {
      PositionIsUnique(anchor, 0);
      InsertAtEnds(Values(), value);
      status := InsertAfter(anchor, value, canAllocate);
    }

    method AddLast(value: T, canAllocate: bool) returns (status: Status)
      requires Valid()
      modifies this, ring
      ensures Valid() && forall i | 0 <= i < |ring| :: ring[i] in old(ring) || fresh(ring[i])
      ensures status == if canAllocate then Ok else AllocFailed
      ensures Values() == if canAllocate then old(Values()) + [value] else old(Values())
    {
      PositionIsUnique(ReverseBegin(), |ring| - 1);
      InsertAtEnds(Values(), value);
      status := InsertAfter(ReverseBegin(), value, canAllocate);
    }

    /** `where` is an iterator on this list: one of its nodes, or the anchor for the end position. */
    method AddAfter(where: Node<T>, value: T, canAllocate: bool) returns (status: Status)
      requires Valid() && where in ring
      modifies this, ring
      ensures Valid() && forall i | 0 <= i < |ring| :: ring[i] in old(ring) || fresh(ring[i])
      ensures status == if where == anchor then IllegalPosition else if canAllocate then Ok else AllocFailed
      ensures Values() ==
              if status == Ok then InsertAt(old(Values()), old(PositionOf(where)), value) else old(Values())
    {
      if where == anchor {
        return IllegalPosition;
      }
      status := InsertAfter(where, value, canAllocate);
    }

    method AddBefore(where: Node<T>, value: T, canAllocate: bool) returns (status: Status)
      requires Valid() && where in ring
      modifies this, ring
      ensures Valid() && forall i | 0 <= i < |ring| :: ring[i] in old(ring) || fresh(ring[i])
      ensures status == if where == anchor then IllegalPosition else if canAllocate then Ok else AllocFailed
      ensures status == Ok ==>
                && old(PositionOf(where)) > 0
                && Values() == InsertAt(old(Values()), old(PositionOf(where)) - 1, value)
      ensures status != Ok ==> Values() == old(Values())
    {
      if where == anchor {
        return IllegalPosition;
      }
      ghost var k := PositionOf(where);
      assert k > 0 && where.prev == ring[k - 1];
      PositionIsUnique(where.prev, k - 1);
      status := InsertAfter(where.prev, value, canAllocate);
    }

    /** The first node that holds the value, or the end position. */
    method Find(value: T) returns (it: Node<T>)
      requires Valid()
      ensures it in ring
      ensures it == anchor <==> value !in Values()
      ensures it != anchor ==>
                var k := PositionOf(it);
                k > 0 && Values()[k - 1] == value && value !in Values()[..k - 1]
    {
      it := Begin();
      ghost var i, k := 0, Succ(0, |ring|);
      while it != anchor && it.value != value
        invariant 0 <= i < |ring| && k == Succ(i, |ring|) && it == ring[k]
        invariant forall j | 0 <= j < i :: Values()[j] != value
        decreases |ring| - i
      {
        assert it.value == Values()[i];
        it := it.next;
        i, k := i + 1, Succ(k, |ring|);
      }
      PositionIsUnique(it, k);
      assert k > 0 ==> Values()[i] == it.value;
    }

    method Remove(where: Node<T>) returns (status: Status)
      requires Valid() && where in ring
      modifies this, ring
      ensures Valid() && forall i | 0 <= i < |ring| :: ring[i] in old(ring)
      ensures status == if where == anchor then IllegalPosition else Ok
      ensures status != Ok ==> ring == old(ring) && Values() == old(Values())
      ensures status == Ok ==>
                && old(PositionOf(where)) > 0
                && ring == RemoveAt(old(ring), old(PositionOf(where)))
                && Values() == RemoveAt(old(Values()), old(PositionOf(where)) - 1)
    {
      if where == anchor {
        return IllegalPosition;
      }
      ghost var k := PositionOf(where);
      Unlink(where, ring, k, this);
      count := count - 1;
      ring := RemoveAt(ring, k);
      status := Ok;
    }

    method RemoveValue(value: T) returns (status: Status)
      requires Valid()
      modifies this, ring
      ensures Valid() && forall i | 0 <= i < |ring| :: ring[i] in old(ring)
      ensures status == if value in old(Values()) then Ok else NoMatch
      ensures Values() == WithoutFirst(old(Values()), value)
    {
      var it := Find(value);
      if it != anchor {
        WithoutFirstAt(Values(), value, PositionOf(it) - 1);
        status := Remove(it);
      } else {
        WithoutFirstAbsent(Values(), value);
        return NoMatch;
      }
    }

    predicate IsEmpty()
      requires Valid()
      reads this, ring
      ensures IsEmpty() <==> Values() == []
    {
      count == 0
    }

    function Size(): (n: nat)
      requires Valid()
      reads this, ring
      ensures n == |Values()|
    {
      count
    }

    method Clear()
      requires Valid()
      modifies this, ring
      ensures Valid() && ring == [anchor] && Values() == []
    {
      while !IsEmpty()
        invariant Valid() && forall i | 0 <= i < |ring| :: ring[i] in old(ring)
        decreases count
      {
        var _ := Remove(Begin());
      }
      assert ring == [anchor];
    }

    /** Writing through an iterator. */
    method Write(where: Node<T>, value: T)
      requires Valid() && where in ring && where != anchor
      modifies where`value
      ensures Valid() && old(PositionOf(where)) > 0
      ensures Values() == old(Values())[old(PositionOf(where)) - 1 := value]
    {
      where.value := value;
    }

    /** Assignment. It clears the target first, so assigning a list to itself empties it. */
    method Assign(other: XnListT<T>)
      requires Valid() && other.Valid()
      modifies this, ring
      ensures Valid() && other.Valid() && forall i | 0 <= i < |ring| :: ring[i] in old(ring) || fresh(ring[i])
      ensures Values() == if other == this then [] else old(other.Values())
      ensures other != this ==> other.Values() == old(other.Values())
    {
      if other == this {
        Clear();  // nothing is left to copy
      } else {
        Apart(other);
        Clear();
        AppendAll(other);
      }
    }

    method AppendAll(other: XnListT<T>)
      requires Valid() && other.Valid() && other != this
      modifies this, ring
      ensures Valid() && other.Valid() && forall i | 0 <= i < |ring| :: ring[i] in old(ring) || fresh(ring[i])
      ensures Values() == old(Values()) + other.Values() && other.Values() == old(other.Values())
    {
      ghost var mine, source := Values(), other.Values();
      var it := other.Begin();
      ghost var i, k := 0, Succ(0, |other.ring|);
      while it != other.anchor
        invariant Valid() && forall i | 0 <= i < |ring| :: ring[i] in old(ring) || fresh(ring[i])
        invariant other.Valid() && other.ring == old(other.ring) && other.Values() == source
        invariant 0 <= i < |other.ring| && k == Succ(i, |other.ring|) && it == other.ring[k]
        invariant Values() == mine + source[..i]
        decreases |other.ring| - i
      {
        Apart(other);
        assert it.value == source[i] && source[..i + 1] == source[..i] + [source[i]];
        var status := AddLast(it.value, true);
        it := it.next;
        i, k := i + 1, Succ(k, |other.ring|);
      }
    }

    method CopyTo(a: array<T>)
      requires Valid() && |Values()| <= a.Length
      modifies a
      ensures a[..] == Values() + old(a[|Values()|..])
    {
      var i := 0;
      var it := Begin();
      ghost var k := Succ(0, |ring|);
      while it != anchor
        invariant 0 <= i <= |ring| - 1 && k == Succ(i, |ring|) && it == ring[k]
        invariant forall j :: 0 <= j < i ==> a[j] == Values()[j]
        invariant forall j :: i <= j < a.Length ==> a[j] == old(a[j])
        decreases |ring| - i
      {
        a[i] := it.value;
        it := it.next;
        i, k := i + 1, Succ(k, |ring|);
      }
    }
  }
}
