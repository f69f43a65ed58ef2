/**
 * The untyped hash (Include/XnHash.h): the bins of XnHashT, with entries of three nodes from a pool and
 * an iterator that also goes backwards.
 */
module PooledHashes {
  import opened Sequences
  import opened Rings
  import opened Statuses
  import opened Flatten
  import opened Tables
  import opened Lists
  import opened Hashes
  import opened PooledLists

  /** The bins that exist among the first n. */
  function Existing<K, V>(bins: seq<Option<seq<Pair<K, V>>>>, n: nat): nat
    requires n <= |bins|
  {
    if n == 0 then 0 else Existing(bins, n - 1) + if bins[n - 1].Some? then 1 else 0
  }

  /**
   * The nodes of a table: the base of every bin's list, and for every entry a list node, a
   * key node and a value node.
   */
  function NodesOf<K, V>(t: Table<K, V>): nat {
    Existing(t.bins, |t.bins|) + 3 * |t.Entries()|
  }

  lemma {:induction false} NoneExisting<K, V>(bins: seq<Option<seq<Pair<K, V>>>>, n: nat)
    requires n <= |bins| && forall b :: 0 <= b < n ==> bins[b].None?
    ensures Existing(bins, n) == 0
  {
    if n == 0 {
    } else {
      NoneExisting(bins, n - 1);
    }
  }

  lemma {:induction false} OneMore<K, V>(
      bins: seq<Option<seq<Pair<K, V>>>>, h: nat, bin: Option<seq<Pair<K, V>>>, n: nat)
    requires h < |bins| && n <= |bins| && bin.Some?
    ensures Existing(bins[h := bin], n) == Existing(bins, n) + if h < n && bins[h].None? then 1 else 0
  {
    if n == 0 {
    } else {
      OneMore(bins, h, bin, n - 1);
    }
  }

  lemma EmptyNodes<K, V>()
    ensures NodesOf(EmptyBins<K, V>()) == 1
  {
    var t := EmptyBins<K, V>();
    NoneExisting(t.bins, LAST_BIN);
    ConcatGap(t.Lists(), 0, |t.Lists()|);
  }

  lemma NodesAfterCreated<K(!new), V>(t: Table<K, V>, h: HashCode)
    ensures NodesOf(Created(t, h)) == NodesOf(t) + if t.bins[h].None? then 1 else 0
  {
    OneMore(t.bins, h, Some([]), |t.bins|);
  }

  lemma NodesAfterPut<K(!new), V>(m: KeyManager<K>, t: Table<K, V>, key: K, value: V)
    requires t.bins[m.hash(key)].Some?
    ensures NodesOf(Put(m, t, key, value)) == NodesOf(t) + if Lookup(m, t, key).None? then 3 else 0
  {
    PutEntries(m, t, key, value);
    OneMore(t.bins, m.hash(key), Put(m, t, key, value).bins[m.hash(key)], |t.bins|);
  }

  lemma NodesAfterDropped<K(!new), V>(t: Table<K, V>, b: nat, i: nat)
    requires b < |t.bins| && i < |t.Lists()[b]|
    ensures NodesOf(t) == NodesOf(Dropped(t, b, i)) + 3
  {
    DropEntries(t, b, i);
    OneMore(t.bins, b, Some(RemoveAt(t.Lists()[b], i)), |t.bins|);
  }

  class XnHash<K(0, ==, !new), V(0, ==)> {
    const core: XnHashT<K, V>
    const pool: NodePool

    ghost predicate Valid()
      reads this, core, core.bins, core.owned
    {
      core.Valid() && pool !in core.owned
    }

    /** The nodes in use that are not of this hash. */
    ghost function OtherNodes(): int
      reads this, pool, core
    {
      pool.taken - NodesOf(core.table)
    }

    constructor (manager: KeyManager<K>, pool: NodePool)
      modifies pool
      ensures Valid() && fresh(core) && fresh(core.bins) && fresh(core.owned)
      ensures this.pool == pool && core.manager == manager && core.table == EmptyBins()
      ensures OtherNodes() == old(pool.taken)
    {
      core := new XnHashT<K, V>(manager);
      this.pool := pool;
      new;
      var ok := pool.Allocate(true);
      EmptyNodes<K, V>();
    }

    lemma PlaceBounds(b: nat, n: Node<Pair<K, V>>)
      requires Valid() && core.EntryPlace(b, n) >= 0
      ensures b <= LAST_BIN && |Concat(core.table.Lists(), b)| <= core.EntryPlace(b, n)
      ensures b < LAST_BIN ==> core.EntryPlace(b, n) < |Concat(core.table.Lists(), b + 1)|
    {
      core.BinIsHeld(b);
    }

    /** An iterator's place determines its bin... */
    lemma SamePlaceSameBin(b: nat, n: Node<Pair<K, V>>, c: nat, m: Node<Pair<K, V>>)
      requires Valid() && core.EntryPlace(b, n) == core.EntryPlace(c, m) >= 0
      ensures c <= b
    {
      PlaceBounds(b, n);
      PlaceBounds(c, m);
      if b < c {
        ConcatPrefix(core.table.Lists(), b + 1, c);
      }
    }

    /** ...and its node. */
    lemma PlaceIsUnique(b: nat, n: Node<Pair<K, V>>, c: nat, m: Node<Pair<K, V>>)
      requires Valid() && core.EntryPlace(b, n) == core.EntryPlace(c, m) >= 0
      ensures b == c && n == m
    {
      SamePlaceSameBin(b, n, c, m);
      SamePlaceSameBin(c, m, b, n);
      core.BinIsHeld(b);
    }

    /** The end of a bin's list is where the next bin starts. */
    lemma Beyond(bin: nat)
      requires Valid() && bin <= LAST_BIN
      ensures bin == LAST_BIN ==> core.bins[bin] != null
      ensures if core.bins[bin] == null then |Concat(core.table.Lists(), bin + 1)| == |Concat(core.table.Lists(), bin)|
              else core.RawPlace(bin, core.bins[bin].anchor) == |Concat(core.table.Lists(), bin + 1)|
    {
      core.BinIsHeld(bin);
    }

    /** The inner loop has no bound of its own: it ends because the last bin always exists. */
    method NextExisting(start: nat) returns (bin: nat)
      requires Valid() && start < LAST_BIN
      ensures start < bin <= LAST_BIN && core.bins[bin] != null
      ensures |Concat(core.table.Lists(), bin)| == |Concat(core.table.Lists(), start + 1)|
    {
      Beyond(LAST_BIN);
      bin := start + 1;
      while core.bins[bin] == null
        invariant start < bin <= LAST_BIN
        invariant |Concat(core.table.Lists(), bin)| == |Concat(core.table.Lists(), start + 1)|
        decreases LAST_BIN - bin
      {
        Beyond(bin);
        bin := bin + 1;
      }
    }

    method FirstOf(bin: nat) returns (node: Node<Pair<K, V>>)
      requires Valid() && bin <= LAST_BIN && core.bins[bin] != null
      ensures core.RawPlace(bin, node) == |Concat(core.table.Lists(), bin)|
    {
      core.BinIsHeld(bin);
      var list := core.bins[bin];
      node := list.Begin();
      list.PositionIsUnique(node, Succ(0, |list.ring|));
    }

    /** Of all the anchors, only the last bin's is a position at rest. */
    lemma OffAnchor(bin: nat, current: Node<Pair<K, V>>)
      requires Valid() && core.RawPlace(bin, current) >= 0
      ensures core.bins[bin] != null && core.bins[LAST_BIN] != null
      ensures core.EntryPlace(bin, current) >= 0 <==>
              current != core.bins[bin].anchor || current == core.bins[LAST_BIN].anchor
      ensures core.EntryPlace(bin, current) >= 0 ==> core.EntryPlace(bin, current) == core.RawPlace(bin, current)
    {
      core.BinIsHeld(bin);
      core.BinIsHeld(LAST_BIN);
      if bin < LAST_BIN {
        core.bins[LAST_BIN].Apart(core.bins[bin]);
      }
    }

    /** Forward to a position at rest, as both the iterator's constructor and operator++ do. */
    method FirstValid(start: nat, node: Node<Pair<K, V>>) returns (bin: nat, current: Node<Pair<K, V>>)
      requires Valid() && core.RawPlace(start, node) >= 0
      ensures core.EntryPlace(bin, current) == core.RawPlace(start, node)
      ensures core.EntryPlace(start, node) >= 0 ==> bin == start && current == node
    {
      ghost var p := core.RawPlace(start, node);
      bin, current := start, node;
      Beyond(LAST_BIN);
      OffAnchor(bin, current);
      while current == core.bins[bin].anchor && current != core.bins[LAST_BIN].anchor
        invariant bin <= LAST_BIN && core.bins[bin] != null && core.RawPlace(bin, current) == p
        invariant core.EntryPlace(start, node) >= 0 ==> bin == start && current == node
        decreases LAST_BIN - bin
      {
        Beyond(bin);
        bin := NextExisting(bin);
        current := FirstOf(bin);
      }
      OffAnchor(bin, current);
    }

    /** The iterator's constructor. */
    method NewIterator(bin: nat, node: Node<Pair<K, V>>) returns (it: HashIterator<K, V>)
      requires Valid() && core.RawPlace(bin, node) >= 0
      ensures fresh(it) && it.hash == core && it.At(core.RawPlace(bin, node))
      ensures core.EntryPlace(bin, node) >= 0 ==> it.bin == bin && it.current == node
    {
      var b, n := FirstValid(bin, node);
      it := new HashIterator.Rest(core, b, n);
    }

    lemma NextPlace(bin: nat, node: Node<Pair<K, V>>, p: nat)
      requires Valid() && core.EntryPlace(bin, node) == p
      ensures node.next != null && core.RawPlace(bin, node.next) == if p == |core.table.Entries()| then p else p + 1
    {
      core.BinIsHeld(bin);
      var list := core.bins[bin];
      var k := list.PositionOf(node);
      assert node.next == list.ring[Succ(k, |list.ring|)];
      list.PositionIsUnique(node.next, Succ(k, |list.ring|));
      if k > 0 {
        ConcatAt(core.table.Lists(), |core.table.Lists()|, bin, k - 1);
      }
    }

    /** operator++: on to the next entry, or to the end position; the end position stays. */
    method Increment(it: HashIterator<K, V>, ghost p: nat)
      requires Valid() && it.hash == core && it.At(p)
      modifies it
      ensures it.At(if p == |core.table.Entries()| then p else p + 1)
    {
      NextPlace(it.bin, it.current, p);
      it.current := it.current.next;
      it.bin, it.current := FirstValid(it.bin, it.current);
    }

    method Begin() returns (it: HashIterator<K, V>)
      requires Valid()
      ensures fresh(it) && it.hash == core && it.At(0)
    {
      ConcatGap(core.table.Lists(), 0, core.minBin);
      core.BinIsHeld(core.minBin);
      var first := FirstOf(core.minBin);
      it := NewIterator(core.minBin, first);
    }

    method End() returns (it: HashIterator<K, V>)
      requires Valid()
      ensures fresh(it) && it.hash == core && it.At(|core.table.Entries()|)
    {
      core.BinIsHeld(LAST_BIN);
      it := NewIterator(LAST_BIN, core.bins[LAST_BIN].anchor);
    }

    method AtEnd(it: HashIterator<K, V>, ghost p: nat) returns (end: bool)
      requires Valid() && it.hash == core && it.At(p)
      ensures p <= |core.table.Entries()|
      ensures end <==> p == |core.table.Entries()|
      ensures !end ==> it.current.value == core.table.Entries()[p]
    {
      var e := End();
      end := it.Equals(e, p);
    }

    method IsEmpty() returns (empty: bool)
      requires Valid()
      ensures empty <==> core.table.Entries() == []
    {
      var it := Begin();
      empty := AtEnd(it, 0);
    }

    /** The iteration ends, and visits each entry once. */
    method Size() returns (n: nat)
      requires Valid()
      ensures n == |core.table.Entries()|
    {
      n := 0;
      var it := Begin();
      var end := AtEnd(it, 0);
      while !end
        invariant it.hash == core && fresh(it) && it.At(n)
        invariant n <= |core.table.Entries()| && (end <==> n == |core.table.Entries()|)
        decreases |core.table.Entries()| - n
      {
        Increment(it, n);
        n := n + 1;
        end := AtEnd(it, n);
      }
    }

    /** The node that going back from the p-th position comes to: the entry before, or a base before which to look. */
    ghost predicate ComesBack(bin: nat, node: Node<Pair<K, V>>, p: nat)
      requires Valid()
      reads this, core, core.bins, core.owned
    {
      && core.RawPlace(bin, node) >= 0
      && if bin == LAST_BIN then p == |core.table.Entries()|
         else
           && p < |core.table.Entries()| && core.bins[bin] != null
           && if node == core.bins[bin].anchor then p == |Concat(core.table.Lists(), bin)|
              else core.RawPlace(bin, node) == p - 1
    }

    lemma PreviousPlace(bin: nat, node: Node<Pair<K, V>>, p: nat)
      requires Valid() && core.EntryPlace(bin, node) == p
      ensures node.prev != null && ComesBack(bin, node.prev, p)
    {
      core.BinIsHeld(bin);
      var list := core.bins[bin];
      var k := list.PositionOf(node);
      assert node.prev == list.ring[Pred(k, |list.ring|)];
      list.PositionIsUnique(node.prev, Pred(k, |list.ring|));
      if k > 0 {
        ConcatAt(core.table.Lists(), |core.table.Lists()|, bin, k - 1);
      }
    }

    /** The inner loop backward; the last bin when there is none before. */
    method PreviousExisting(start: nat) returns (bin: nat)
      requires Valid() && start < LAST_BIN
      ensures bin <= LAST_BIN
      ensures bin == LAST_BIN ==> |Concat(core.table.Lists(), start)| == 0
      ensures bin < LAST_BIN ==>
                && bin < start && core.bins[bin] != null
                && |Concat(core.table.Lists(), bin + 1)| == |Concat(core.table.Lists(), start)|
    {
      bin := start;
      while true
        invariant bin <= start && |Concat(core.table.Lists(), bin)| == |Concat(core.table.Lists(), start)|
        decreases bin
      {
        if bin == 0 {
          return LAST_BIN;
        }
        bin := bin - 1;
        Beyond(bin);
        if core.bins[bin] != null {
          return;
        }
      }
    }

    method LastOf(bin: nat, ghost p: nat) returns (node: Node<Pair<K, V>>)
      requires Valid() && bin < LAST_BIN && core.bins[bin] != null
      requires p == |Concat(core.table.Lists(), bin + 1)| < |core.table.Entries()|
      ensures ComesBack(bin, node, p)
    {
      core.BinIsHeld(bin);
      var list := core.bins[bin];
      node := list.ReverseBegin();
      list.PositionIsUnique(node, |list.ring| - 1);
    }

    /** Backward to a position at rest: the entry before the p-th position, or the end position. */
    method LastValid(start: nat, node: Node<Pair<K, V>>, ghost p: nat)
      returns (bin: nat, current: Node<Pair<K, V>>)
      requires Valid() && ComesBack(start, node, p)
      ensures p == 0 ==> core.EntryPlace(bin, current) == |core.table.Entries()|
      ensures 0 < p < |core.table.Entries()| ==> core.EntryPlace(bin, current) == p - 1
      ensures p == |core.table.Entries()| ==> core.EntryPlace(bin, current) == p
    {
      bin, current := start, node;
      OffAnchor(bin, current);
      while current == core.bins[bin].anchor && current != core.bins[LAST_BIN].anchor
        invariant bin <= LAST_BIN && core.bins[bin] != null && ComesBack(bin, current, p)
        decreases bin
      {
        bin := PreviousExisting(bin);
        if bin == LAST_BIN {
          current := core.bins[LAST_BIN].anchor;
          LastPlace();
          return;
        }
        current := LastOf(bin, p);
      }
      OffAnchor(bin, current);
      LastPlace();
    }

    lemma LastPlace()
      requires Valid()
      ensures core.bins[LAST_BIN] != null
      ensures core.EntryPlace(LAST_BIN, core.bins[LAST_BIN].anchor) == |core.table.Entries()|
    {
      core.BinIsHeld(LAST_BIN);
    }

    /** operator--: back to the previous entry, across all missing and empty bins. */
    method Previous(it: HashIterator<K, V>, ghost p: nat)
      requires Valid() && it.hash == core && it.At(p)
      modifies it
      ensures p == 0 || p == |core.table.Entries()| ==> it.At(|core.table.Entries()|)
      ensures 0 < p < |core.table.Entries()| ==> it.At(p - 1)
    {
      PreviousPlace(it.bin, it.current, p);
      it.current := it.current.prev;
      it.bin, it.current := LastValid(it.bin, it.current, p);
    }

    /** Going on and going back ends on the same node just when there is a next entry. */
    method NextAndPrevious(it: HashIterator<K, V>, ghost p: nat)
      requires Valid() && it.hash == core && it.At(p) && p < |core.table.Entries()|
      modifies it
      ensures it.At(if p + 1 < |core.table.Entries()| then p else p + 1)
      ensures it.bin == old(it.bin) && it.current == old(it.current) <==> p + 1 < |core.table.Entries()|
    {
      ghost var b, n := it.bin, it.current;
      Increment(it, p);
      Previous(it, p + 1);
      if p + 1 < |core.table.Entries()| {
        PlaceIsUnique(b, n, it.bin, it.current);
      }
    }

    /** A client that goes back from the first entry: it is at the end. */
    method BackFromFirst() returns (end: bool)
      requires Valid()
      ensures end
    {
      var it := Begin();
      Previous(it, 0);
      end := AtEnd(it, |core.table.Entries()|);
    }

    /** The two increments of the search: the iterators stay together until the end of the bin. */
    method NextOfBoth(it: HashIterator<K, V>, node: Node<Pair<K, V>>, h: HashCode, ghost i: nat)
      returns (next: Node<Pair<K, V>>)
      requires Valid() && it.hash == core && it.bin == h && it.current == node
      requires core.bins[h] != null && core.bins[h].Valid()
      requires i < |core.table.Lists()[h]| && i + 1 < |core.bins[h].ring| && core.bins[h].ring[i + 1] == node
      requires it.At(|Concat(core.table.Lists(), h)| + i)
      modifies it
      ensures it.At(|Concat(core.table.Lists(), h)| + i + 1)
      ensures next == core.bins[h].ring[Succ(i + 1, |core.bins[h].ring|)]
      ensures i + 1 < |core.table.Lists()[h]| ==> it.bin == h && it.current == next
    {
      core.BinIsHeld(h);
      var list := core.bins[h];
      ConcatAt(core.table.Lists(), |core.table.Lists()|, h, i);
      Increment(it, |Concat(core.table.Lists(), h)| + i);
      next := node.next;
      if i + 1 < |list.Values()| {
        list.PositionIsUnique(next, i + 2);
        PlaceIsUnique(h, next, it.bin, it.current);
      }
    }

    /** The search goes through the bin with two iterators in step, one of the bin's list and one of the hash. */
    method Find(key: K) returns (status: Status, it: HashIterator<K, V>)
      requires Valid()
      ensures status == if Lookup(core.manager, core.table, key).Some? then Ok else NoMatch
      ensures fresh(it) && it.hash == core
      ensures status == Ok ==> it.bin == core.manager.hash(key) && it.At(PlaceOf(core.manager, core.table, key))
    {
      var h := core.manager.hash(key);
      core.BinIsHeld(h);
      var list := core.bins[h];
      if list == null {
        it := End();
        return NoMatch, it;
      }
      ghost var s, p, i := list.Values(), |Concat(core.table.Lists(), h)|, 0;
      var node := list.Begin();
      list.PositionIsUnique(node, Succ(0, |list.ring|));
      it := NewIterator(h, node);
      while node != list.anchor
        invariant 0 <= i <= |s| && node == list.ring[Succ(i, |list.ring|)]
        invariant it.hash == core && fresh(it) && it.At(p + i)
        invariant i < |s| ==> it.bin == h && it.current == node
        invariant forall j :: 0 <= j < i ==> !core.manager.Same(s[j].key, key)
        decreases |s| - i
      {
        assert node.value == s[i];
        if core.manager.compare(key, it.current.value.key) == 0 {
          IndexInIs(core.manager, s, key, i);
          return Ok, it;
        }
        node := NextOfBoth(it, node, h, i);
        i := i + 1;
      }
      IndexInIs(core.manager, s, key, i);
      status := NoMatch;
    }

    method WriteInBin(h: HashCode, node: Node<Pair<K, V>>, ghost i: nat, key: K, value: V)
      requires Valid() && core.bins[h] != null && core.bins[h].Valid() && h == core.manager.hash(key)
      requires node in core.bins[h].ring && core.bins[h].PositionOf(node) == i + 1
      requires i == IndexIn(core.manager, core.table.Lists()[h], key) < |core.table.Lists()[h]|
      modifies core`table, core`owned, core.owned
      ensures Valid() && core.owned == old(core.owned)
      ensures core.table == Put(core.manager, old(core.table), key, value)
    {
      var bin := core.bins[h];
      core.BinIsHeld(h);
      WithBinIsGood(core.manager, core.table, key, value);
      OthersApart(core.bins[..], core.table.bins, core.owned, h);
      ghost var pairs := PutIn(core.manager, bin.Values(), key, value);
      bin.Write(node, Pair(node.value.key, value));
      assert bin.Values() == pairs;
      forall b | 0 <= b <= LAST_BIN && b != h
        ensures Holds(core.bins[b], core.table.bins[b], core.owned)
      {
        assert old(Holds(core.bins[b], core.table.bins[b], core.owned));
        assert core.bins[b] != null ==> core.bins[b].Valid() && core.bins[b].Values() == old(core.bins[b].Values());
      }
      RepresentsChanged(core.bins[..], core.table.bins, h, core.owned);
      assert core.owned + {} == core.owned;
      core.Adopt(h, pairs, {});
    }

    /** Writes the value of an entry in place. */
    method Replace(it: HashIterator<K, V>, key: K, value: V)
      requires Valid() && it.hash == core && it.bin == core.manager.hash(key)
      requires Lookup(core.manager, core.table, key).Some? && it.At(PlaceOf(core.manager, core.table, key))
      modifies core`table, core`owned, core.owned
      ensures Valid() && core.owned == old(core.owned)
      ensures core.table == Put(core.manager, old(core.table), key, value)
    {
      FoundAtPlace(core.manager, core.table, key);
      ghost var i := it.Target(PlaceOf(core.manager, core.table, key));
      WriteInBin(it.bin, it.current, i, key, value);
    }

    /** A new pair goes to the end of its bin. */
    method Append(h: HashCode, key: K, value: V)
      requires Valid() && core.bins[h] != null && core.table.bins[h].Some? && h == core.manager.hash(key)
      requires Lookup(core.manager, core.table, key).None?
      modifies core`table, core`owned, core.owned
      ensures Valid() && fresh(core.owned - old(core.owned))
      ensures core.table == Put(core.manager, old(core.table), key, value)
    {
      var bin := core.bins[h];
      OthersApart(core.bins[..], core.table.bins, core.owned, h);
      WithBinIsGood(core.manager, core.table, key, value);
      ghost var pairs := PutIn(core.manager, bin.Values(), key, value);
      var status := bin.AddLast(Pair(key, value), true);
      assert bin.Values() == pairs;
      ghost var nodes := Objects(bin.ring);
      assert core !in nodes && core.bins !in nodes && fresh(nodes - core.owned);
      ghost var more := core.owned + nodes;
      forall b | 0 <= b <= LAST_BIN && b != h
        ensures Holds(core.bins[b], core.table.bins[b], more)
      {
        assert old(Holds(core.bins[b], core.table.bins[b], core.owned));
        assert core.bins[b] != null ==> core.bins[b].Valid() && core.bins[b].Values() == old(core.bins[b].Values());
      }
      RepresentsChanged(core.bins[..], core.table.bins, h, more);
      core.Adopt(h, pairs, nodes);
    }

    /** The first of Set's allocations: a list for a bin that does not exist, with its base node. */
    method CreateBin(h: HashCode)
      requires Valid() && core.bins[h] == null && core.table.bins[h].None?
      modifies core, core.bins, pool
      ensures Valid() && fresh(core.owned - old(core.owned))
      ensures core.table == Created(old(core.table), h) && core.bins[h] != null && OtherNodes() == old(OtherNodes())
    {
      NodesAfterCreated(core.table, h);
      core.CreateBin(h);
      var ok := pool.Allocate(true);
    }

    /** The three nodes of a new entry; when one is missing, those before it are given back. */
    method AllocateEntry(canKey: bool, canValue: bool, canNode: bool) returns (ok: bool)
      modifies pool
      ensures ok == (canKey && canValue && canNode) && pool.taken == old(pool.taken) + if ok then 3 else 0
    {
      ok := pool.Allocate(canKey);
      if !ok {
        return;
      }
      ok := pool.Allocate(canValue);
      if !ok {
        pool.Deallocate();
        return;
      }
      ok := pool.Allocate(canNode);
      if !ok {
        pool.Deallocate();
        pool.Deallocate();
      }
    }

    /** The rest of Set, when its bin exists and the key is not in it. */
    method Add(h: HashCode, key: K, value: V, canKey: bool, canValue: bool, canNode: bool) returns (status: Status)
      requires Valid() && core.bins[h] != null && core.table.bins[h].Some? && h == core.manager.hash(key)
      requires Lookup(core.manager, core.table, key).None?
      modifies core`table, core`owned, core.owned, pool
      ensures Valid() && fresh(core.owned - old(core.owned))
      ensures status == if canKey && canValue && canNode then Ok else AllocFailed
      ensures core.table == if status == Ok then Put(core.manager, old(core.table), key, value) else old(core.table)
      ensures OtherNodes() == old(OtherNodes())
    {
      NodesAfterPut(core.manager, core.table, key, value);
      var ok := AllocateEntry(canKey, canValue, canNode);
      if !ok {
        return AllocFailed;
      }
      Append(h, key, value);
      status := Ok;
    }

    /** The flags say which of the allocations that Set may ask for would succeed. */
    method Set(key: K, value: V, canCreateBin: bool, canKey: bool, canValue: bool, canNode: bool)
      returns (status: Status)
      requires Valid()
      modifies core, core.bins, core.owned, pool
      ensures Valid() && fresh(core.owned - old(core.owned))
      ensures status == SetStatus(core.manager, old(core.table), key, canCreateBin, canKey && canValue && canNode)
      ensures core.table == if status == Ok then Put(core.manager, old(core.table), key, value)
                            else if canCreateBin then Created(old(core.table), core.manager.hash(key))
                            else old(core.table)
      ensures OtherNodes() == old(OtherNodes())
    {
      var h := core.manager.hash(key);
      core.BinIsHeld(h);
      if core.bins[h] != null {
        var found, it := Find(key);
        if found == Ok {
          NodesAfterPut(core.manager, core.table, key, value);
          Replace(it, key, value);
          return Ok;
        }
      } else if canCreateBin {
        CreateBin(h);
      } else {
        return AllocFailed;
      }
      status := Add(h, key, value, canKey, canValue, canNode);
    }

    /** Gives the three nodes of an entry back. */
    method DeallocateEntry()
      requires pool.taken >= 3
      modifies pool
      ensures pool.taken == old(pool.taken) - 3
    {
      pool.Deallocate();
      pool.Deallocate();
      pool.Deallocate();
    }

    method RemoveEntry(h: HashCode, node: Node<Pair<K, V>>, ghost i: nat)
      requires Valid() && OtherNodes() >= 0 && core.bins[h] != null && core.bins[h].Valid()
      requires node in core.bins[h].ring && core.bins[h].PositionOf(node) == i + 1
      modifies core, core.owned, pool
      ensures Valid() && core.owned == old(core.owned) && OtherNodes() == old(OtherNodes())
      ensures i < |old(core.table).Lists()[h]| && core.table == Dropped(old(core.table), h, i)
    {
      core.BinIsHeld(h);
      NodesAfterDropped(core.table, h, i);
      DeallocateEntry();
      core.RemoveFromBin(h, node, i);
    }

    /** Removes the p-th entry in iteration order. */
    method Remove(it: HashIterator<K, V>, ghost p: nat) returns (status: Status)
      requires Valid() && it.hash == core && it.At(p) && OtherNodes() >= 0
      modifies core, core.owned, pool
      ensures Valid() && core.owned == old(core.owned) && OtherNodes() == old(OtherNodes())
      ensures if p == |old(core.table).Entries()|
              then status == IllegalPosition && core.table == old(core.table)
              else
                && status == Ok
                && p < |old(core.table).Entries()| && core.table.Entries() == RemoveAt(old(core.table).Entries(), p)
                && core.table == WithoutEntry(old(core.table), it.bin, p)
    {
      var end := AtEnd(it, p);
      if end {
        return IllegalPosition;
      }
      ghost var i := it.Target(p);
      DropEntries(core.table, it.bin, i);
      RemoveEntry(it.bin, it.current, i);
      status := Ok;
    }

    method RemoveKey(key: K) returns (status: Status, value: Option<V>)
      requires Valid() && OtherNodes() >= 0
      modifies core, core.owned, pool
      ensures Valid() && core.owned == old(core.owned) && OtherNodes() == old(OtherNodes())
      ensures value == Lookup(core.manager, old(core.table), key)
      ensures status == if value.Some? then Ok else NoMatch
      ensures core.table == Delete(core.manager, old(core.table), key)
    {
      FoundAtPlace(core.manager, core.table, key);
      DeleteIsWithoutEntry(core.manager, core.table, key);
      var it;
      status, it := Find(key);
      if status != Ok {
        return status, None;
      }
      ghost var p := PlaceOf(core.manager, core.table, key);
      it.Shows(p);
      value := Some(it.current.value.value);
      status := Remove(it, p);
    }

    method Get(key: K) returns (status: Status, value: Option<V>)
      requires Valid()
      ensures value == Lookup(core.manager, core.table, key)
      ensures status == if value.Some? then Ok else NoMatch
    {
      FoundAtPlace(core.manager, core.table, key);
      var it;
      status, it := Find(key);
      if status != Ok {
        return status, None;
      }
      it.Shows(PlaceOf(core.manager, core.table, key));
      value := Some(it.current.value.value);
    }

    method RemoveFirst()
      requires Valid() && core.table.Entries() != [] && OtherNodes() >= 0
      modifies core, core.owned, pool
      ensures Valid() && core.owned == old(core.owned) && OtherNodes() == old(OtherNodes())
      ensures |core.table.Entries()| < |old(core.table).Entries()| && Emptied(core.table) == Emptied(old(core.table))
    {
      var it := Begin();
      var status := Remove(it, 0);
    }

    /** Every entry is removed, and gives its nodes back; the bins stay. */
    method Clear()
      requires Valid() && OtherNodes() >= 0
      modifies core, core.owned, pool
      ensures Valid() && core.owned == old(core.owned) && OtherNodes() == old(OtherNodes())
      ensures core.table == Emptied(old(core.table))
    {
      var empty := IsEmpty();
      while !empty
        invariant Valid() && core.owned == old(core.owned) && OtherNodes() == old(OtherNodes())
        invariant Emptied(core.table) == Emptied(old(core.table))
        invariant empty <==> core.table.Entries() == []
        decreases |core.table.Entries()|
      {
        RemoveFirst();
        empty := IsEmpty();
      }
      NoEntriesNoPairs(core.table);
    }
  }
}
