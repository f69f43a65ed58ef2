/** The typed hash table (Include/XnHashT.h): an array of lists that refines a table value. */
module Hashes {
  import opened Sequences
  import opened Rings
  import opened Statuses
  import opened Flatten
  import opened Tables
  import opened Lists

  /** The bin is a valid list, made of owned objects, and holds these pairs. */
  ghost predicate Holds<K(0), V(0)>(
      bin: XnListT?<Pair<K, V>>, pairs: Option<seq<Pair<K, V>>>, owned: set<object>)
    reads owned
  {
    && (bin == null <==> pairs.None?)
    && (bin != null ==>
          && bin in owned && (forall i | 0 <= i < |bin.ring| :: bin.ring[i] in owned)
          && bin.Valid() && bin.Values() == pairs.value)
  }

  /** The lists are the bins of a table, and no list is two of them. */
  ghost predicate Represents<K(0), V(0)>(
      lists: seq<XnListT?<Pair<K, V>>>, bins: seq<Option<seq<Pair<K, V>>>>, owned: set<object>)
    reads owned
  {
    && |lists| == |bins|
    && (lists == [] ||
        var n := |lists| - 1;
        && Represents(lists[..n], bins[..n], owned)
        && Holds(lists[n], bins[n], owned)
        && (lists[n] == null || lists[n] !in lists[..n]))
  }

  ghost predicate Different<K(0), V(0)>(lists: seq<XnListT?<Pair<K, V>>>) {
    forall b, c :: 0 <= b < c < |lists| ==> lists[c] == null || lists[b] != lists[c]
  }

  lemma {:induction false} RepresentsParts<K(0), V(0)>(
      lists: seq<XnListT?<Pair<K, V>>>, bins: seq<Option<seq<Pair<K, V>>>>, owned: set<object>)
    requires Represents(lists, bins, owned)
    ensures Different(lists) && forall b | 0 <= b < |lists| :: Holds(lists[b], bins[b], owned)
  {
    if lists == [] {
    } else {
      var n := |lists| - 1;
      RepresentsParts(lists[..n], bins[..n], owned);
      forall b | 0 <= b < n
        ensures Holds(lists[b], bins[b], owned) && lists[b] in lists[..n]
      {
        assert lists[..n][b] == lists[b] && bins[..n][b] == bins[b];
      }
      forall b, c | 0 <= b < c < n
        ensures lists[c] == null || lists[b] != lists[c]
      {
        assert lists[..n][b] == lists[b] && lists[..n][c] == lists[c];
      }
    }
  }

  lemma {:induction false} RepresentsWhole<K(0), V(0)>(
      lists: seq<XnListT?<Pair<K, V>>>, bins: seq<Option<seq<Pair<K, V>>>>, owned: set<object>)
    requires |lists| == |bins| && Different(lists) && forall b | 0 <= b < |lists| :: Holds(lists[b], bins[b], owned)
    ensures Represents(lists, bins, owned)
  {
    if lists == [] {
    } else {
      RepresentsWhole(lists[..|lists| - 1], bins[..|lists| - 1], owned);
    }
  }

  lemma RepresentsMore<K(0), V(0)>(
      lists: seq<XnListT?<Pair<K, V>>>, bins: seq<Option<seq<Pair<K, V>>>>, owned: set<object>, more: set<object>)
    requires Represents(lists, bins, owned) && owned <= more
    ensures Represents(lists, bins, more)
  {
    RepresentsParts(lists, bins, owned);
    forall b | 0 <= b < |lists|
      ensures Holds(lists[b], bins[b], more)
    {
      assert Holds(lists[b], bins[b], owned);
    }
    RepresentsWhole(lists, bins, more);
  }

  lemma RepresentsCreated<K(0), V(0)>(
      lists: seq<XnListT?<Pair<K, V>>>, bins: seq<Option<seq<Pair<K, V>>>>, owned: set<object>,
      h: nat, bin: XnListT<Pair<K, V>>)
    requires Represents(lists, bins, owned) && h < |lists| && lists[h] == null
    requires bin !in lists && Holds(bin, Some([]), owned)
    ensures Represents(lists[h := bin], bins[h := Some([])], owned)
  {
    RepresentsParts(lists, bins, owned);
    RepresentsWhole(lists[h := bin], bins[h := Some([])], owned);
  }

  /** No other bin has a node of bin h. */
  lemma OthersApart<K(0), V(0)>(
      lists: seq<XnListT?<Pair<K, V>>>, bins: seq<Option<seq<Pair<K, V>>>>, owned: set<object>, h: nat)
    requires Represents(lists, bins, owned) && h < |lists| && lists[h] != null
    ensures Different(lists) && forall b | 0 <= b < |lists| :: Holds(lists[b], bins[b], owned)
    ensures forall b, i | 0 <= b < |lists| && b != h && lists[b] != null && 0 <= i < |lists[b].ring| ::
              lists[b] != lists[h] && lists[b].ring[i] !in lists[h].ring
  {
    RepresentsParts(lists, bins, owned);
    forall b | 0 <= b < |lists| && b != h && lists[b] != null
      ensures lists[b] != lists[h] && forall i | 0 <= i < |lists[b].ring| :: lists[b].ring[i] !in lists[h].ring
    {
      assert Holds(lists[b], bins[b], owned) && Holds(lists[h], bins[h], owned);
      lists[h].Apart(lists[b]);
    }
  }

  /** When only bin h has changed, the lists represent the bins with that one changed. */
  lemma RepresentsChanged<K(0), V(0)>(
      lists: seq<XnListT?<Pair<K, V>>>, bins: seq<Option<seq<Pair<K, V>>>>, h: nat, owned: set<object>)
    requires |lists| == |bins| && h < |lists| && lists[h] != null && Different(lists)
    requires lists[h].Valid() && Holds(lists[h], Some(lists[h].Values()), owned)
    requires forall b | 0 <= b < |lists| && b != h :: Holds(lists[b], bins[b], owned)
    ensures Represents(lists, bins[h := Some(lists[h].Values())], owned)
  {
    RepresentsWhole(lists, bins[h := Some(lists[h].Values())], owned);
  }

  lemma SplitDisjoint(now: set<object>, before: set<object>, theirs: set<object>)
    requires before !! theirs && (now - before) !! theirs
    ensures now !! theirs
  {
  }

  class XnHashT<K(0, ==, !new), V(0, ==)> {
    const manager: KeyManager<K>
    const bins: array<XnListT?<Pair<K, V>>>
    var minBin: nat
    ghost var table: Table<K, V>  // what the bins hold
    ghost var owned: set<object>  // the lists and their nodes

    ghost predicate Valid()
      reads this, bins, owned
    {
      && {this, bins} !! owned
      && Represents(bins[..], table.bins, owned)
      && minBin == table.minBin && Good(manager, table)
    }

    constructor (manager: KeyManager<K>)
      ensures Valid() && fresh(owned) && fresh(bins)
      ensures this.manager == manager && table == EmptyBins()
    {
      this.manager := manager;
      var lastBin := new XnListT<Pair<K, V>>();
      bins := new XnListT?<Pair<K, V>>[LAST_BIN + 1](b => if b == LAST_BIN then lastBin else null);
      minBin := LAST_BIN;
      table := EmptyBins();
      owned := {lastBin, lastBin.anchor};
      new;
      RepresentsWhole(bins[..], table.bins, owned);
    }

    lemma BinIsHeld(b: nat)
      requires Valid() && b <= LAST_BIN
      ensures Holds(bins[b], table.bins[b], owned)
    {
      RepresentsParts(bins[..], table.bins, owned);
    }

    ghost method Own(more: set<object>)
      requires Valid() && this !in more && bins !in more
      modifies this`owned
      ensures Valid() && owned == old(owned) + more
    {
      RepresentsMore(bins[..], table.bins, owned, owned + more);
      owned := owned + more;
    }

    method StoreBin(h: HashCode, bin: XnListT<Pair<K, V>>)
      requires Valid() && bins[h] == null && bin !in bins[..] && Holds(bin, Some([]), owned)
      modifies this`minBin, this`table, bins
      ensures Valid() && table == Created(old(table), h) && bins[h] == bin
    {
      BinIsHeld(h);
      RepresentsCreated(bins[..], table.bins, owned, h, bin);
      bins[h] := bin;
      assert bins[..] == old(bins[..])[h := bin];
      if h < minBin {
        minBin := h;
      }
      table := Created(table, h);
    }

    method CreateBin(h: HashCode)
      requires Valid() && bins[h] == null
      modifies this, bins
      ensures Valid() && fresh(owned - old(owned))
      ensures table == Created(old(table), h) && bins[h] != null
    {
      var bin := new XnListT<Pair<K, V>>();
      Own({bin, bin.anchor});
      StoreBin(h, bin);
    }

    /** The search that Set and Find share: the first pair with an equal key, or the end position. */
    method FindInBin(bin: XnListT<Pair<K, V>>, key: K) returns (it: Node<Pair<K, V>>)
      requires bin.Valid()
      ensures it in bin.ring
      ensures bin.PositionOf(it) ==
              var i := IndexIn(manager, bin.Values(), key);
              if i < |bin.Values()| then i + 1 else 0
    {
      it := bin.Begin();
      ghost var i, k := 0, Succ(0, |bin.ring|);
      while it != bin.anchor && manager.compare(it.value.key, key) != 0
        invariant 0 <= i < |bin.ring| && k == Succ(i, |bin.ring|) && it == bin.ring[k]
        invariant forall j | 0 <= j < i :: !manager.Same(bin.Values()[j].key, key)
        decreases |bin.ring| - i
      {
        assert it.value == bin.Values()[i];
        it := it.next;
        i, k := i + 1, Succ(k, |bin.ring|);
      }
      bin.PositionIsUnique(it, k);
      assert k > 0 ==> it.value == bin.Values()[i];
      IndexInIs(manager, bin.Values(), key, i);
    }

    method PutInBin(bin: XnListT<Pair<K, V>>, key: K, value: V, canAllocate: bool) returns (status: Status)
      requires bin.Valid()
      modifies bin, bin.ring
      ensures bin.Valid() && forall i | 0 <= i < |bin.ring| :: bin.ring[i] in old(bin.ring) || fresh(bin.ring[i])
      ensures var i, s := IndexIn(manager, old(bin.Values()), key), old(bin.Values());
              && status == (if i < |s| || canAllocate then Ok else AllocFailed)
              && bin.Values() == if status == Ok then PutIn(manager, s, key, value) else s
    {
      var it := FindInBin(bin, key);
      if it != bin.anchor {
        bin.Write(it, Pair(it.value.key, value));
        status := Ok;
      } else {
        status := bin.AddLast(Pair(key, value), canAllocate);
      }
    }

    /** canCreateBin and canAllocate say whether the two allocations that Set may ask for would succeed. */
    method Set(key: K, value: V, canCreateBin: bool, canAllocate: bool) returns (status: Status)
      requires Valid()
      modifies this, bins, owned
      ensures Valid() && fresh(owned - old(owned))
      ensures status == SetStatus(manager, old(table), key, canCreateBin, canAllocate)
      ensures table == Step(manager, old(table), SetOp(key, value, canCreateBin, canAllocate))
    {
      var h := manager.hash(key);
      BinIsHeld(h);
      if bins[h] == null {
        if !canCreateBin {
          return AllocFailed;
        }
        CreateBin(h);
      }
      ghost var created := table;
      status := PutInBinAt(h, key, value, canAllocate);
      WithBinIsGood(manager, created, key, value);
    }

    method PutInBinAt(h: HashCode, key: K, value: V, canAllocate: bool) returns (status: Status)
      requires Valid() && bins[h] != null && table.bins[h].Some? && h == manager.hash(key)
      modifies this, owned
      ensures Valid() && fresh(owned - old(owned))
      ensures var s := old(table).Lists()[h];
              && status == (if IndexIn(manager, s, key) < |s| || canAllocate then Ok else AllocFailed)
              && table == WithBin(old(table), h, if status == Ok then PutIn(manager, s, key, value) else s)
    {
      var bin := bins[h];
      OthersApart(bins[..], table.bins, owned, h);
      WithBinIsGood(manager, table, key, value);
      status := PutInBin(bin, key, value, canAllocate);
      ghost var nodes := Objects(bin.ring);
      assert this !in nodes && bins !in nodes && fresh(nodes - owned);
      ghost var more := owned + nodes;
      forall b | 0 <= b <= LAST_BIN && b != h
        ensures Holds(bins[b], table.bins[b], more)
      {
        assert old(Holds(bins[b], table.bins[b], owned));
        assert bins[b] != null ==> bins[b].Valid() && bins[b].Values() == old(bins[b].Values());
      }
      RepresentsChanged(bins[..], table.bins, h, more);
      Adopt(h, bin.Values(), nodes);
    }

    /** The list of bin h is known to hold these pairs and to be made of owned objects and these nodes. */
    ghost method Adopt(h: HashCode, pairs: seq<Pair<K, V>>, nodes: set<object>)
      requires this !in owned + nodes && bins !in owned + nodes && minBin == table.minBin
      requires table.bins[h].Some? && Good(manager, WithBin(table, h, pairs))
      requires Represents(bins[..], table.bins[h := Some(pairs)], owned + nodes)
      modifies this`table, this`owned
      ensures Valid() && owned == old(owned) + nodes
      ensures table == WithBin(old(table), h, pairs)
    {
      table := WithBin(table, h, pairs);
      owned := owned + nodes;
    }

    /** How many entries come before a node of bin b; -1 when the node is not in the bin. */
    ghost function RawPlace(b: nat, n: Node<Pair<K, V>>): (p: int)
      requires Valid()
      reads this, bins, owned
    {
      if b > LAST_BIN then -1
      else
        BinIsHeld(b);
        var list := bins[b];
        if list == null || n !in list.ring then -1
        else |Concat(table.Lists(), b)| + if n == list.anchor then |list.Values()| else list.PositionOf(n) - 1
    }

    /** The same for positions that an iterator rests at: on an entry, or at the end of the last bin. */
    ghost function EntryPlace(b: nat, n: Node<Pair<K, V>>): (p: int)
      requires Valid()
      reads this, bins, owned
    {
      if b >= LAST_BIN then RawPlace(b, n)
      else
        BinIsHeld(b);
        var list := bins[b];
        if list == null || n == list.anchor then -1 else RawPlace(b, n)
    }

    method Begin() returns (it: HashIterator<K, V>)
      requires Valid()
      ensures fresh(it) && it.hash == this && it.At(0)
    {
      BinIsHeld(minBin);
      ghost var list := bins[minBin];
      list.PositionIsUnique(list.Begin(), Succ(0, |list.ring|));
      ConcatGap(table.Lists(), 0, minBin);
      it := new HashIterator(this, minBin, bins[minBin].Begin());
    }

    method End() returns (it: HashIterator<K, V>)
      requires Valid()
      ensures fresh(it) && it.hash == this && it.At(|table.Entries()|)
    {
      BinIsHeld(LAST_BIN);
      it := new HashIterator(this, LAST_BIN, bins[LAST_BIN].Begin());
    }

    method Find(key: K) returns (it: HashIterator<K, V>)
      requires Valid()
      ensures fresh(it) && it.hash == this
      ensures it.At(if Lookup(manager, table, key).Some? then PlaceOf(manager, table, key) else |table.Entries()|)
      ensures Lookup(manager, table, key).Some? ==> it.bin == manager.hash(key)
    {
      var h := manager.hash(key);
      BinIsHeld(h);
      if bins[h] != null {
        var node := FindInBin(bins[h], key);
        if node != bins[h].anchor {
          it := new HashIterator(this, h, node);
          return;
        }
      }
      it := End();
    }

    /** The comparison with End() that every traversal makes. */
    method AtEnd(it: HashIterator<K, V>, ghost p: nat) returns (end: bool)
      requires Valid() && it.hash == this && it.At(p)
      ensures p <= |table.Entries()|
      ensures end <==> p == |table.Entries()|
      ensures !end ==> it.current.value == table.Entries()[p]
    {
      var e := End();
      end := it.Equals(e, p);
    }

    /** How a traversal starts: at Begin(), with a comparison with End(). */
    method Start() returns (it: HashIterator<K, V>, end: bool)
      requires Valid()
      ensures fresh(it) && it.hash == this && it.At(0)
      ensures end <==> table.Entries() == []
      ensures !end ==> it.current.value == table.Entries()[0]
    {
      it := Begin();
      end := AtEnd(it, 0);
    }

    /** One round of a traversal: the increment, then the comparison with End(). */
    method Advance(it: HashIterator<K, V>, ghost p: nat) returns (end: bool)
      requires Valid() && it.hash == this && it.At(p) && p < |table.Entries()|
      modifies it
      ensures it.At(p + 1)
      ensures end <==> p + 1 == |table.Entries()|
      ensures !end ==> it.current.value == table.Entries()[p + 1]
    {
      it.Shows(p);
      it.Next();
      end := AtEnd(it, p + 1);
    }

    method Get(key: K) returns (status: Status, value: Option<V>)
      requires Valid()
      ensures value == Lookup(manager, table, key)
      ensures status == if value.Some? then Ok else NoMatch
    {
      FoundAtPlace(manager, table, key);
      var it := Find(key);
      var end := AtEnd(it, EntryPlace(it.bin, it.current));
      if end {
        return NoMatch, None;
      }
      status, value := Ok, Some(it.current.value.value);
    }

    method IsEmpty() returns (empty: bool)
      requires Valid()
      ensures empty <==> table.Entries() == []
    {
      var it;
      it, empty := Start();
    }

    /** The iteration visits each entry once. */
    method Size() returns (n: nat)
      requires Valid()
      ensures n == |table.Entries()|
    {
      n := 0;
      var it, end := Start();
      while !end
        invariant it.hash == this && fresh(it) && it.At(n)
        invariant n <= |table.Entries()| && (end <==> n == |table.Entries()|)
        decreases |table.Entries()| - n
      {
        end := Advance(it, n);
        n := n + 1;
      }
    }

    method RemoveFromBin(h: HashCode, node: Node<Pair<K, V>>, ghost i: nat)
      requires Valid() && bins[h] != null && bins[h].Valid()
      requires node in bins[h].ring && bins[h].PositionOf(node) == i + 1
      modifies this, owned
      ensures owned == old(owned)
      ensures Valid() && i < |old(table).Lists()[h]| && table == Dropped(old(table), h, i)
    {
      var bin := bins[h];
      BinIsHeld(h);
      DropLookup(manager, table, h, i);
      assert WithBin(table, h, RemoveAt(table.Lists()[h], i)) == Dropped(table, h, i);
      OthersApart(bins[..], table.bins, owned, h);
      var status := bin.Remove(node);
      forall b | 0 <= b <= LAST_BIN && b != h
        ensures Holds(bins[b], table.bins[b], owned)
      {
        assert old(Holds(bins[b], table.bins[b], owned));
        assert bins[b] != null ==> bins[b].Valid() && bins[b].Values() == old(bins[b].Values());
      }
      RepresentsChanged(bins[..], table.bins, h, owned);
      assert owned + {} == owned;
      Adopt(h, bin.Values(), {});
    }

    /** Removing the p-th entry in iteration order. */
    method Remove(it: HashIterator<K, V>, ghost p: nat) returns (status: Status)
      requires Valid() && it.hash == this && it.At(p)
      modifies this, owned
      ensures owned == old(owned)
      ensures Valid()
      ensures if p == |old(table).Entries()|
              then status == IllegalPosition && table == old(table)
              else
                && status == Ok
                && p < |old(table).Entries()| && table.Entries() == RemoveAt(old(table).Entries(), p)
                && table == WithoutEntry(old(table), it.bin, p)
    {
      var end := AtEnd(it, p);
      if end {
        return IllegalPosition;
      }
      ghost var i := it.Target(p);
      DropEntries(table, it.bin, i);
      RemoveFromBin(it.bin, it.current, i);
      status := Ok;
    }

    method RemoveKey(key: K) returns (status: Status)
      requires Valid()
      modifies this, owned
      ensures owned == old(owned)
      ensures Valid()
      ensures status == if Lookup(manager, old(table), key).Some? then Ok else NoMatch
      ensures table == Step(manager, old(table), RemoveOp(key))
    {
      DeleteIsWithoutEntry(manager, table, key);
      var it := Find(key);
      ghost var p := EntryPlace(it.bin, it.current);
      var end := AtEnd(it, p);
      if end {
        return NoMatch;
      }
      status := Remove(it, p);
    }

    method RemoveFirst()
      requires Valid() && table.Entries() != []
      modifies this, owned
      ensures owned == old(owned)
      ensures Valid() && |table.Entries()| < |old(table).Entries()|
      ensures Emptied(table) == Emptied(old(table))
    {
      var it := Begin();
      var status := Remove(it, 0);
    }

    method Clear()
      requires Valid()
      modifies this, owned
      ensures owned == old(owned)
      ensures Valid() && table == Step(manager, old(table), ClearOp)
    {
      var empty := IsEmpty();
      while !empty
        invariant Valid() && owned == old(owned) && Emptied(table) == Emptied(old(table))
        invariant empty <==> table.Entries() == []
        decreases |table.Entries()|
      {
        RemoveFirst();
        empty := IsEmpty();
      }
      NoEntriesNoPairs(table);
    }

    /** operator[]: the value of the key, which is added with the default value when it is missing. */
    method Index(key: K, default: V) returns (value: V)
      requires Valid()
      modifies this, bins, owned
      ensures Valid() && fresh(owned - old(owned))
      ensures table == Step(manager, old(table), IndexOp(key, default))
      ensures value == Lookup(manager, table, key).UnwrapOr(default)
    {
      var status, found := Get(key);
      if status == NoMatch {
        status := Set(key, default, true, true);
        status, found := Get(key);
      }
      value := found.UnwrapOr(default);
    }

    /** What this table and another one must not share. */
    ghost predicate Apart(other: XnHashT<K, V>)
      reads this, other
    {
      && this != other && bins != other.bins && owned !! other.owned
      && this !in other.owned && bins !in other.owned && other !in owned && other.bins !in owned
    }

    /** One round of the copy: set the p-th pair of the other table here, and step to the next. */
    method CopyEntry(other: XnHashT<K, V>, it: HashIterator<K, V>, ghost es: seq<Pair<K, V>>, ghost p: nat)
      returns (end: bool)
      requires Valid() && other.Valid() && Apart(other) && manager == other.manager
      requires it.hash == other && it !in owned && it.At(p)
      requires es == other.table.Entries() && p < |es| && table.Entries() == es[..p]
      modifies this, bins, owned, it
      ensures Valid() && (forall o: object {:trigger o in owned} :: o in owned ==> o in old(owned) || fresh(o))
      ensures other.Valid() && Apart(other) && other.table == old(other.table)
      ensures it !in owned && it.At(p + 1)
      ensures end <==> p + 1 == |es|
      ensures table.Entries() == es[..p + 1]
    {
      it.Shows(p);
      var pair := it.current.value;
      CopyNext(manager, table, other.table, es, p);
      ghost var before := owned;
      var status := Set(pair.key, pair.value, true, true);
      assert (owned - before) !! other.owned && other !in owned - before && other.bins !in owned - before
        && it !in owned - before;
      SplitDisjoint(owned, before, other.owned);
      end := other.Advance(it, p);
    }

    /** Assignment: the same entries in the same order, whatever bins the target had. */
    method Assign(other: XnHashT<K, V>)
      requires Valid() && other.Valid() && Apart(other) && manager == other.manager
      modifies this, bins, owned
      ensures Valid() && other.Valid()
              && (forall o: object {:trigger o in owned} :: o in owned ==> o in old(owned) || fresh(o))
      ensures other.table == old(other.table) && table.Entries() == other.table.Entries()
    {
      EmptiedIsEmpty(manager, table);
      Clear();
      CopyAll(other);
    }

    /** Fills an empty table with the entries of the other one. */
    method CopyAll(other: XnHashT<K, V>)
      requires Valid() && other.Valid() && Apart(other) && manager == other.manager && table.Entries() == []
      modifies this, bins, owned
      ensures Valid() && other.Valid()
              && (forall o: object {:trigger o in owned} :: o in owned ==> o in old(owned) || fresh(o))
      ensures other.table == old(other.table) && table.Entries() == other.table.Entries()
    {
      ghost var es, p := other.table.Entries(), 0;
      var it, end := other.Start();
      while !end
        invariant Valid() && (forall o: object {:trigger o in owned} :: o in owned ==> o in old(owned) || fresh(o))
        invariant other.Valid() && Apart(other) && other.table == old(other.table)
        invariant it.hash == other && fresh(it) && it !in owned && it.At(p)
        invariant p <= |es| && (end <==> p == |es|)
        invariant table.Entries() == es[..p]
        decreases |es| - p
      {
        end := CopyEntry(other, it, es, p);
        p := p + 1;
      }
    }
  }

  /** A position in a table: a bin and a node of that bin's ring. */
  class HashIterator<K(0, ==, !new), V(0, ==)> {
    const hash: XnHashT<K, V>
    var bin: nat
    var current: Node<Pair<K, V>>

    /** At the p-th entry, or at the end position when p is the number of entries. */
    ghost predicate At(p: nat)
      requires hash.Valid()
      reads this, hash, hash.bins, hash.owned
    {
      this !in hash.owned && hash.EntryPlace(bin, current) == p
    }

    /** Positions before the end show the entries in order; the end is the anchor of the last bin. */
    lemma Shows(p: nat)
      requires hash.Valid() && At(p)
      ensures var es := hash.table.Entries();
              && p <= |es| && bin <= LAST_BIN
              && (p == |es| <==> bin == LAST_BIN)
              && (p == |es| <==> hash.bins[LAST_BIN] != null && current == hash.bins[LAST_BIN].anchor)
              && (p < |es| ==> current.value == es[p])
    {
      var ss := hash.table.Lists();
      hash.BinIsHeld(bin);
      hash.BinIsHeld(LAST_BIN);
      if bin < LAST_BIN {
        ConcatAt(ss, |ss|, bin, hash.bins[bin].PositionOf(current) - 1);
        hash.bins[LAST_BIN].Apart(hash.bins[bin]);
      }
    }

    /** The comparison of the p-th position with the end position: they are compared by their nodes. */
    method Equals(e: HashIterator<K, V>, ghost p: nat) returns (end: bool)
      requires hash.Valid() && At(p) && e.hash == hash && e.At(|hash.table.Entries()|)
      ensures p <= |hash.table.Entries()|
      ensures end <==> p == |hash.table.Entries()|
      ensures !end ==> current.value == hash.table.Entries()[p]
    {
      e.Shows(|hash.table.Entries()|);
      Shows(p);
      end := current == e.current;
    }

    /** Which pair of which bin the position is on. */
    lemma Target(p: nat) returns (i: nat)
      requires hash.Valid() && At(p) && p < |hash.table.Entries()|
      ensures bin < LAST_BIN && hash.bins[bin] != null && hash.bins[bin].Valid()
      ensures current in hash.bins[bin].ring && hash.bins[bin].PositionOf(current) == i + 1
      ensures i < |hash.table.Lists()[bin]| && p == |Concat(hash.table.Lists(), bin)| + i
    {
      Shows(p);
      hash.BinIsHeld(bin);
      i := hash.bins[bin].PositionOf(current) - 1;
    }

    /** A position that is not on an entry moves on to the next entry at once. */
    constructor (hash: XnHashT<K, V>, bin: nat, current: Node<Pair<K, V>>)
      requires hash.Valid() && hash.RawPlace(bin, current) >= 0
      ensures this.hash == hash && At(hash.RawPlace(bin, current))
      ensures hash.EntryPlace(bin, current) >= 0 ==> this.bin == bin
    {
      this.hash, this.bin, this.current := hash, bin, current;
      new;
      hash.BinIsHeld(bin);
      if bin != LAST_BIN && current == hash.bins[bin].anchor {
        Next();
      }
    }

    /** A position at rest: on an entry, or at the end. */
    constructor Rest(hash: XnHashT<K, V>, bin: nat, current: Node<Pair<K, V>>)
      requires hash.Valid() && hash.EntryPlace(bin, current) >= 0
      ensures this.hash == hash && this.bin == bin && this.current == current
      ensures At(hash.EntryPlace(bin, current))
    {
      this.hash, this.bin, this.current := hash, bin, current;
    }

    method Next()
      requires hash.Valid() && this !in hash.owned && hash.RawPlace(bin, current) >= 0 && bin != LAST_BIN
      modifies this
      ensures At(old(hash.RawPlace(bin, current)) + if old(hash.EntryPlace(bin, current)) >= 0 then 1 else 0)
    {
      hash.BinIsHeld(bin);
      var list := hash.bins[bin];
      if current != list.anchor {
        ghost var k := list.PositionOf(current);
        current := current.next;
        list.PositionIsUnique(current, Succ(k, |list.ring|));
      }
      if current == list.anchor {
        NextBin();
      }
    }

    /** Forward through the bins, to the next one that is not empty, or to the last one. */
    method NextBin()
      requires hash.Valid() && this !in hash.owned && hash.RawPlace(bin, current) >= 0 && bin != LAST_BIN
      requires hash.EntryPlace(bin, current) < 0
      modifies this
      ensures At(old(hash.RawPlace(bin, current)))
    {
      ghost var p, ss := hash.RawPlace(bin, current), hash.table.Lists();
      hash.BinIsHeld(bin);
      var next := bin + 1;
      hash.BinIsHeld(next);
      while next < LAST_BIN && (hash.bins[next] == null || hash.bins[next].IsEmpty())
        invariant next <= LAST_BIN && p == |Concat(ss, next)|
        invariant Holds(hash.bins[next], hash.table.bins[next], hash.owned)
      {
        assert ss[next] == [];
        next := next + 1;
        hash.BinIsHeld(next);
      }
      var list := hash.bins[next];
      bin, current := next, list.Begin();
      list.PositionIsUnique(current, Succ(0, |list.ring|));
    }
  }
}
