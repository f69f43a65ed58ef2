/** What a hash table holds, as a value: bins of pairs, and the map they stand for. */
module Tables {
  import opened Sequences
  import opened Statuses
  import opened Flatten

  datatype Pair<+K, +V> = Pair(key: K, value: V)

  type HashCode = h: nat | h < LAST_BIN

  const LAST_BIN: nat := 256

  /** The two functions that a key manager supplies. */
  datatype KeyFunctions<!K> = KeyFunctions(hash: K -> HashCode, compare: (K, K) -> int) {
    predicate Same(a: K, b: K) {
      compare(a, b) == 0
    }
  }

  /** What the tables ask of a key manager: comparing equal is an equivalence that the hash respects. */
  ghost predicate Sound<K(!new)>(m: KeyFunctions<K>) {
    && (forall a :: m.Same(a, a))
    && (forall a, b :: m.Same(a, b) ==> m.Same(b, a) && m.hash(a) == m.hash(b))
    && (forall a, b, c :: m.Same(a, b) && m.Same(b, c) ==> m.Same(a, c))
  }

  type KeyManager<!K(!new)> = m: KeyFunctions<K> | Sound(m) ghost witness KeyFunctions((_: K) => 0, (_: K, _: K) => 0)

  /** A bin that was never created is None. The last bin is a permanent empty one. */
  datatype Bins<K, V> = Bins(bins: seq<Option<seq<Pair<K, V>>>>, minBin: nat) {
    function Lists(): (ss: seq<seq<Pair<K, V>>>)
      ensures |ss| == |bins|
    {
      seq(|bins|, b requires 0 <= b < |bins| => if bins[b].Some? then bins[b].value else [])
    }

    /** The pairs in iteration order: ascending bin, then insertion order. */
    function Entries(): seq<Pair<K, V>> {
      Concat(Lists(), |bins|)
    }
  }

  ghost predicate GoodBin<K(!new), V>(m: KeyManager<K>, h: nat, s: seq<Pair<K, V>>) {
    && (forall i :: 0 <= i < |s| ==> m.hash(s[i].key) == h)
    && (forall i, j :: 0 <= i < j < |s| ==> !m.Same(s[i].key, s[j].key))
  }

  ghost predicate Shaped<K, V>(t: Bins<K, V>) {
    && |t.bins| == LAST_BIN + 1
    && t.bins[LAST_BIN] == Some([])
    && t.minBin <= LAST_BIN
    && t.bins[t.minBin].Some?
    && (forall b :: 0 <= b < t.minBin ==> t.bins[b].None?)
  }

  ghost predicate Good<K(!new), V>(m: KeyManager<K>, t: Table<K, V>) {
    forall h :: 0 <= h < LAST_BIN ==> GoodBin(m, h, t.Lists()[h])
  }

  type Table<K, V> = t: Bins<K, V> | Shaped(t) ghost witness EmptyBins<K, V>()

  function EmptyBins<K, V>(): Bins<K, V> {
    Bins(seq(LAST_BIN + 1, b => if b == LAST_BIN then Some([]) else None), LAST_BIN)
  }

  /** Where the first pair with an equal key is, or the length. */
  function IndexIn<K(!new), V>(m: KeyManager<K>, s: seq<Pair<K, V>>, key: K): (i: nat)
    ensures i <= |s|
    ensures i < |s| ==> m.Same(s[i].key, key)
    ensures forall j :: 0 <= j < i ==> !m.Same(s[j].key, key)
  {
    if s == [] || m.Same(s[0].key, key) then 0 else 1 + IndexIn(m, s[1..], key)
  }

  /** The value of the key, as Find and Get see it. */
  function Lookup<K(!new), V>(m: KeyManager<K>, t: Table<K, V>, key: K): Option<V>
  {
    var s := t.Lists()[m.hash(key)];
    var i := IndexIn(m, s, key);
    if i < |s| then Some(s[i].value) else None
  }

  function Created<K(!new), V>(t: Table<K, V>, h: HashCode): (r: Table<K, V>)
    ensures r.Lists() == t.Lists()
  {
    if t.bins[h].Some? then t else Bins(t.bins[h := Some([])], if h < t.minBin then h else t.minBin)
  }

  /** An equal key keeps its place and its own spelling; a new one goes to the end of its bin. */
  function PutIn<K(!new), V>(m: KeyManager<K>, s: seq<Pair<K, V>>, key: K, value: V): seq<Pair<K, V>> {
    var i := IndexIn(m, s, key);
    if i < |s| then s[i := Pair(s[i].key, value)] else s + [Pair(key, value)]
  }

  function Put<K(!new), V>(m: KeyManager<K>, t: Table<K, V>, key: K, value: V): Table<K, V>
  {
    var h := m.hash(key);
    var t1 := Created(t, h);
    Bins(t1.bins[h := Some(PutIn(m, t1.Lists()[h], key, value))], t1.minBin)
  }

  /** The table with an existing bin's pairs replaced. */
  function WithBin<K(!new), V>(t: Table<K, V>, h: HashCode, pairs: seq<Pair<K, V>>): Table<K, V>
    requires t.bins[h].Some?
  {
    Bins(t.bins[h := Some(pairs)], t.minBin)
  }

  /** The table without the i-th pair of bin b. */
  function Dropped<K(!new), V>(t: Table<K, V>, b: nat, i: nat): Table<K, V>
    requires b < |t.bins| && i < |t.Lists()[b]|
  {
    Bins(t.bins[b := Some(RemoveAt(t.Lists()[b], i))], t.minBin)
  }

  /** The table without the p-th entry, which is in bin b. */
  function WithoutEntry<K(!new), V>(t: Table<K, V>, b: nat, p: nat): Table<K, V> {
    if b < |t.bins| && 0 <= p - |Concat(t.Lists(), b)| < |t.Lists()[b]|
    then Dropped(t, b, p - |Concat(t.Lists(), b)|)
    else t
  }

  function Delete<K(!new), V>(m: KeyManager<K>, t: Table<K, V>, key: K): Table<K, V>
  {
    var h := m.hash(key);
    var i := IndexIn(m, t.Lists()[h], key);
    if i < |t.Lists()[h]| then Dropped(t, h, i) else t
  }

  lemma IndexInUnique<K(!new), V>(m: KeyManager<K>, h: nat, s: seq<Pair<K, V>>, key: K, i: nat)
    requires GoodBin(m, h, s) && i < |s| && m.Same(s[i].key, key)
    ensures IndexIn(m, s, key) == i
  {
    var j := IndexIn(m, s, key);
    assert m.Same(key, s[i].key);
    assert j <= i;
  }

  lemma IndexInIs<K(!new), V>(m: KeyManager<K>, s: seq<Pair<K, V>>, key: K, i: nat)
    requires i <= |s| && (i < |s| ==> m.Same(s[i].key, key))
    requires forall j :: 0 <= j < i ==> !m.Same(s[j].key, key)
    ensures IndexIn(m, s, key) == i
  {
  }

  // ---------- bins ----------

  lemma PutInBin<K(!new), V>(m: KeyManager<K>, h: nat, s: seq<Pair<K, V>>, key: K, value: V, k: K)
    requires GoodBin(m, h, s) && m.hash(key) == h
    ensures GoodBin(m, h, PutIn(m, s, key, value))
    ensures IndexIn(m, PutIn(m, s, key, value), k) ==
            if IndexIn(m, s, key) == |s| == IndexIn(m, s, k) && !m.Same(key, k) then |s| + 1 else IndexIn(m, s, k)
  {
    var i, j, s' := IndexIn(m, s, key), IndexIn(m, s, k), PutIn(m, s, key, value);
    assert GoodBin(m, h, s');
    if j < |s| {
      IndexInUnique(m, h, s', k, j);
    } else if i == |s| && m.Same(key, k) {
      IndexInUnique(m, h, s', k, |s|);
    } else {
      assert forall a :: 0 <= a < |s'| ==> !m.Same(s'[a].key, k);
    }
  }

  // ---------- the table as a map ----------

  /** After Put the key has the value, and every key that is not equal to it has what it had. */
  lemma PutLookup<K(!new), V>(m: KeyManager<K>, t: Table<K, V>, key: K, value: V)
    requires Good(m, t)
    ensures Good(m, Put(m, t, key, value))
    ensures forall k :: Lookup(m, Put(m, t, key, value), k) == if m.Same(key, k) then Some(value) else Lookup(m, t, k)
  {
    var h, t' := m.hash(key), Put(m, t, key, value);
    var s := t.Lists()[h];
    PutInBin(m, h, s, key, value, key);
    assert Created(t, h).Lists()[h] == s;
    assert forall b :: 0 <= b < |t.bins| ==> t'.Lists()[b] == if b == h then PutIn(m, s, key, value) else t.Lists()[b];
    forall k
      ensures Lookup(m, t', k) == if m.Same(key, k) then Some(value) else Lookup(m, t, k)
    {
      var i, j := IndexIn(m, s, key), IndexIn(m, s, k);
      PutInBin(m, h, s, key, value, k);
      if m.hash(k) == h && i == j < |s| {
        assert m.Same(key, s[i].key) && m.Same(s[i].key, k);
      }
    }
  }

  lemma WithBinIsGood<K(!new), V>(m: KeyManager<K>, t: Table<K, V>, key: K, value: V)
    requires Good(m, t) && t.bins[m.hash(key)].Some?
    ensures var h := m.hash(key); var s := t.Lists()[h];
            && WithBin(t, h, s) == t
            && WithBin(t, h, PutIn(m, s, key, value)) == Put(m, t, key, value)
            && Good(m, WithBin(t, h, PutIn(m, s, key, value)))
  {
    PutLookup(m, t, key, value);
    assert t.bins[m.hash(key) := Some(t.Lists()[m.hash(key)])] == t.bins;
  }

  lemma DropInBin<K(!new), V>(m: KeyManager<K>, h: nat, s: seq<Pair<K, V>>, i: nat, k: K)
    requires GoodBin(m, h, s) && i < |s|
    ensures GoodBin(m, h, RemoveAt(s, i))
    ensures var j, j' := IndexIn(m, s, k), IndexIn(m, RemoveAt(s, i), k);
            if j == i || j == |s| then j' == |s| - 1 else j' < |s| - 1 && RemoveAt(s, i)[j'] == s[j]
  {
    var s' := RemoveAt(s, i);
    assert GoodBin(m, h, s');
    var j, j' := IndexIn(m, s, k), IndexIn(m, s', k);
    assert j < |s| && j != i ==> s'[if j < i then j else j - 1] == s[j];
    if j' < |s'| {
      IndexInUnique(m, h, s, k, if j' < i then j' else j' + 1);
    }
  }

  /** After a removal the removed pair's key has no value, and no other key is affected. */
  lemma DropLookup<K(!new), V>(m: KeyManager<K>, t: Table<K, V>, b: nat, i: nat)
    requires Good(m, t) && b < LAST_BIN && i < |t.Lists()[b]|
    ensures Good(m, Dropped(t, b, i))
    ensures forall k :: Lookup(m, Dropped(t, b, i), k) ==
                        if m.Same(t.Lists()[b][i].key, k) then None else Lookup(m, t, k)
  {
    var s, t' := t.Lists()[b], Dropped(t, b, i);
    assert forall c :: 0 <= c < |t.bins| ==> t'.Lists()[c] == if c == b then RemoveAt(s, i) else t.Lists()[c];
    forall k
      ensures Lookup(m, t', k) == if m.Same(s[i].key, k) then None else Lookup(m, t, k)
    {
      DropInBin(m, b, s, i, k);
      if m.Same(s[i].key, k) {
        IndexInUnique(m, b, s, k, i);
      }
    }
    DropInBin(m, b, s, i, s[i].key);
  }

  lemma DeleteLookup<K(!new), V>(m: KeyManager<K>, t: Table<K, V>, key: K)
    requires Good(m, t)
    ensures Good(m, Delete(m, t, key))
    ensures forall k :: Lookup(m, Delete(m, t, key), k) == if m.Same(key, k) then None else Lookup(m, t, k)
  {
    var h := m.hash(key);
    var s := t.Lists()[h];
    var i := IndexIn(m, s, key);
    if i < |s| {
      DropLookup(m, t, h, i);
      forall k
        ensures m.Same(s[i].key, k) <==> m.Same(key, k)
      {
        assert m.Same(key, s[i].key);
      }
    } else {
      forall k | m.Same(key, k)
        ensures Lookup(m, t, k) == None
      {
        var j := IndexIn(m, s, k);
        assert m.Same(k, key);
      }
    }
  }

  // ---------- the entries in iteration order ----------

  /** Two entries in iteration order: by ascending bin, with different keys. */
  lemma EntriesOrder<K(!new), V>(m: KeyManager<K>, t: Table<K, V>, p: nat, q: nat)
    requires Good(m, t) && p < q < |t.Entries()|
    ensures !m.Same(t.Entries()[p].key, t.Entries()[q].key)
    ensures m.hash(t.Entries()[p].key) <= m.hash(t.Entries()[q].key)
  {
    var ss := t.Lists();
    var b, i, c, j := ConcatOrder(ss, |ss|, p, q);
    InOrder(m, b, ss[b], i, c, ss[c], j);
  }

  lemma InOrder<K(!new), V>(m: KeyManager<K>, b: nat, s: seq<Pair<K, V>>, i: nat, c: nat, t: seq<Pair<K, V>>, j: nat)
    requires GoodBin(m, b, s) && GoodBin(m, c, t) && i < |s| && j < |t|
    requires b < c || (b == c && s == t && i < j)
    ensures !m.Same(s[i].key, t[j].key) && m.hash(s[i].key) <= m.hash(t[j].key)
  {
  }

  /** Lookup finds every entry... */
  lemma EntryIsFound<K(!new), V>(m: KeyManager<K>, t: Table<K, V>, p: nat, k: K)
    requires Good(m, t) && p < |t.Entries()| && m.Same(t.Entries()[p].key, k)
    ensures Lookup(m, t, k) == Some(t.Entries()[p].value)
  {
    var b, i := ConcatLocate(t.Lists(), |t.bins|, p);
    IndexInUnique(m, b, t.Lists()[b], k, i);
  }

  /** Iteration goes by ascending bin, meets every key once, and shows exactly what Lookup finds. */
  lemma EntriesAreTheMap<K(!new), V>(m: KeyManager<K>, t: Table<K, V>)
    requires Good(m, t)
    ensures forall p, q :: 0 <= p < q < |t.Entries()| ==> !m.Same(t.Entries()[p].key, t.Entries()[q].key)
    ensures forall p, q :: 0 <= p < q < |t.Entries()| ==> m.hash(t.Entries()[p].key) <= m.hash(t.Entries()[q].key)
    ensures forall k, v :: Lookup(m, t, k) == Some(v) <==>
                           exists p :: 0 <= p < |t.Entries()| && m.Same(t.Entries()[p].key, k)
                             && t.Entries()[p].value == v
  {
    var es := t.Entries();
    forall p, q | 0 <= p < q < |es|
      ensures !m.Same(es[p].key, es[q].key) && m.hash(es[p].key) <= m.hash(es[q].key)
    {
      EntriesOrder(m, t, p, q);
    }
    forall k, v
      ensures Lookup(m, t, k) == Some(v) <==> exists p :: 0 <= p < |es| && m.Same(es[p].key, k) && es[p].value == v
    {
      if Lookup(m, t, k) == Some(v) {
        FoundAtPlace(m, t, k);
        var p := PlaceOf(m, t, k);
        EntryIsFound(m, t, p, k);
      }
      if p :| 0 <= p < |es| && m.Same(es[p].key, k) && es[p].value == v {
        EntryIsFound(m, t, p, k);
      }
    }
  }

  lemma ListsAfterPut<K(!new), V>(m: KeyManager<K>, t: Table<K, V>, key: K, value: V)
    ensures Put(m, t, key, value).Lists() == t.Lists()[m.hash(key) := PutIn(m, t.Lists()[m.hash(key)], key, value)]
  {
  }

  /** The place of a key in the iteration order: of its entry, or of the entry that Put would add. */
  function PlaceOf<K(!new), V>(m: KeyManager<K>, t: Table<K, V>, key: K): nat
  {
    |Concat(t.Lists(), m.hash(key))| + IndexIn(m, t.Lists()[m.hash(key)], key)
  }

  lemma FoundAtPlace<K(!new), V>(m: KeyManager<K>, t: Table<K, V>, key: K)
    ensures Lookup(m, t, key).Some? ==>
              && PlaceOf(m, t, key) < |t.Entries()|
              && Lookup(m, t, key) == Some(t.Entries()[PlaceOf(m, t, key)].value)
              && m.Same(t.Entries()[PlaceOf(m, t, key)].key, key)
  {
    var h, ss := m.hash(key), t.Lists();
    if Lookup(m, t, key).Some? {
      ConcatAt(ss, |ss|, h, IndexIn(m, ss[h], key));
    }
  }

  lemma DeleteIsWithoutEntry<K(!new), V>(m: KeyManager<K>, t: Table<K, V>, key: K)
    ensures if Lookup(m, t, key).Some?
            then PlaceOf(m, t, key) < |t.Entries()| &&
                 Delete(m, t, key) == WithoutEntry(t, m.hash(key), PlaceOf(m, t, key))
            else Delete(m, t, key) == t
  {
    FoundAtPlace(m, t, key);
  }

  lemma DroppedIsDelete<K(!new), V>(m: KeyManager<K>, t: Table<K, V>, b: nat, i: nat, key: K)
    requires b < LAST_BIN && GoodBin(m, b, t.Lists()[b])
    requires i < |t.Lists()[b]| && key == t.Lists()[b][i].key
    ensures Delete(m, t, key) == Dropped(t, b, i)
  {
    IndexInUnique(m, b, t.Lists()[b], key, i);
  }

  lemma EntryInBin<K(!new), V>(t: Table<K, V>, b: nat, i: nat, p: nat)
    requires b < |t.bins| && i < |t.Lists()[b]| && p == |Concat(t.Lists(), b)| + i
    ensures p < |t.Entries()| && t.Entries()[p] == t.Lists()[b][i]
  {
    ConcatAt(t.Lists(), |t.Lists()|, b, i);
  }

  /** The removal by iterator is that of the entry's key. */
  lemma WithoutEntryIsDelete<K(!new), V>(m: KeyManager<K>, t: Table<K, V>, b: nat, i: nat, p: nat)
    requires Good(m, t)
    requires b < LAST_BIN && i < |t.Lists()[b]| && p == |Concat(t.Lists(), b)| + i
    ensures p < |t.Entries()| && WithoutEntry(t, b, p) == Delete(m, t, t.Entries()[p].key)
  {
    EntryInBin(t, b, i, p);
    assert WithoutEntry(t, b, p) == Dropped(t, b, i);
    DroppedIsDelete(m, t, b, i, t.Entries()[p].key);
  }

  /** Put changes one entry's value, or inserts one entry at the end of the key's bin. */
  lemma PutEntries<K(!new), V>(m: KeyManager<K>, t: Table<K, V>, key: K, value: V)
    ensures var es, p := t.Entries(), PlaceOf(m, t, key);
            if Lookup(m, t, key).Some?
            then p < |es| && Put(m, t, key, value).Entries() == es[p := Pair(es[p].key, value)]
            else p <= |es| && Put(m, t, key, value).Entries() == InsertAt(es, p, Pair(key, value))
  {
    var h, ss := m.hash(key), t.Lists();
    var s, i := ss[h], IndexIn(m, ss[h], key);
    var rest := ConcatSplit(ss, h, |ss|);
    ListsAfterPut(m, t, key, value);
    if i < |s| {
      UpdateInMiddle(Concat(ss, h), s, rest, i, Pair(s[i].key, value));
      ConcatAt(ss, |ss|, h, i);
    } else {
      InsertInMiddle(Concat(ss, h), s, rest, i, Pair(key, value));
      assert InsertAt(s, i, Pair(key, value)) == s + [Pair(key, value)];
    }
  }

  lemma DropEntries<K(!new), V>(t: Table<K, V>, b: nat, i: nat)
    requires b < |t.bins| && i < |t.Lists()[b]|
    ensures |Concat(t.Lists(), b)| + i < |t.Entries()|
    ensures Dropped(t, b, i).Entries() == RemoveAt(t.Entries(), |Concat(t.Lists(), b)| + i)
  {
    var ss := t.Lists();
    var rest := ConcatSplit(ss, b, |ss|);
    RemoveInMiddle(Concat(ss, b), ss[b], rest, i);
    assert Dropped(t, b, i).Lists() == ss[b := RemoveAt(ss[b], i)];
  }

  // ---------- removing everything, copying ----------

  function Emptied<K(!new), V>(t: Table<K, V>): Table<K, V> {
    Bins(seq(|t.bins|, b requires 0 <= b < |t.bins| => if t.bins[b].Some? then Some([]) else None), t.minBin)
  }

  lemma EmptiedIsEmpty<K(!new), V>(m: KeyManager<K>, t: Table<K, V>)
    requires Good(m, t)
    ensures Good(m, Emptied(t)) && Emptied(t).Entries() == []
    ensures forall k :: Lookup(m, Emptied(t), k) == None
  {
    var ss := Emptied(t).Lists();
    assert forall b :: 0 <= b < |ss| ==> ss[b] == [];
    ConcatGap(ss, 0, |ss|);
  }

  lemma NoEntriesNoPairs<K(!new), V>(t: Table<K, V>)
    requires t.Entries() == []
    ensures t == Emptied(t)
  {
    forall b | 0 <= b < |t.bins|
      ensures t.Lists()[b] == []
    {
      if t.Lists()[b] != [] {
        ConcatAt(t.Lists(), |t.bins|, b, 0);
      }
    }
    forall b | 0 <= b < |t.bins|
      ensures t.bins[b] == Emptied(t).bins[b]
    {
      assert t.bins[b].Some? ==> t.bins[b].value == t.Lists()[b];
    }
  }

  /** Putting the next entry of another table where the earlier ones are extends the copy by that entry. */
  lemma CopyNext<K(!new), V>(
      m: KeyManager<K>, r: Table<K, V>, source: Table<K, V>, es: seq<Pair<K, V>>, n: nat)
    requires Good(m, r) && Good(m, source) && es == source.Entries() && n < |es|
    requires r.Entries() == es[..n]
    ensures Put(m, r, es[n].key, es[n].value).Entries() == es[..n + 1]
  {
    var e := es[n];
    PutEntries(m, r, e.key, e.value);
    if Lookup(m, r, e.key).Some? {
      FoundAtPlace(m, r, e.key);
      EntriesOrder(m, source, PlaceOf(m, r, e.key), n);
    } else {
      NothingAfter(m, r, source, n);
      assert PlaceOf(m, r, e.key) == n;
    }
  }

  lemma NothingAfter<K(!new), V>(m: KeyManager<K>, r: Table<K, V>, source: Table<K, V>, n: nat)
    requires Good(m, r) && Good(m, source) && n < |source.Entries()|
    requires r.Entries() == source.Entries()[..n]
    ensures |Concat(r.Lists(), m.hash(source.Entries()[n].key) + 1)| == n
  {
    var ss, h := r.Lists(), m.hash(source.Entries()[n].key);
    forall b | h < b < |ss|
      ensures ss[b] == []
    {
      if ss[b] != [] {
        assert GoodBin(m, b, ss[b]);
        ConcatAt(ss, |ss|, b, 0);
        EntriesOrder(m, source, |Concat(ss, b)|, n);
      }
    }
    ConcatGap(ss, h + 1, |ss|);
  }

  /** Tables with the same entries are the same map. */
  lemma SameEntriesSameMap<K(!new), V>(m: KeyManager<K>, t: Table<K, V>, u: Table<K, V>)
    requires Good(m, t) && Good(m, u) && t.Entries() == u.Entries()
    ensures forall k :: Lookup(m, t, k) == Lookup(m, u, k)
  {
    forall k
      ensures Lookup(m, t, k) == Lookup(m, u, k)
    {
      if Lookup(m, t, k).Some? {
        FoundAtPlace(m, t, k);
        var p := PlaceOf(m, t, k);
        EntryIsFound(m, t, p, k);
        EntryIsFound(m, u, p, k);
      } else if Lookup(m, u, k).Some? {
        FoundAtPlace(m, u, k);
        var p := PlaceOf(m, u, k);
        EntryIsFound(m, t, p, k);
      }
    }
  }

  /** The entries as a finite map on the stored keys. */
  function MapOf<K(!new), V>(es: seq<Pair<K, V>>): map<K, V> {
    if es == [] then map[] else MapOf(es[..|es| - 1])[es[|es| - 1].key := es[|es| - 1].value]
  }

  lemma {:induction false} MapKeyIsEntry<K(!new), V>(es: seq<Pair<K, V>>, k: K) returns (p: nat)
    requires k in MapOf(es)
    ensures p < |es| && es[p].key == k
  {
    p := |es| - 1;
    if es[p].key != k {
      p := MapKeyIsEntry(es[..p], k);
    }
  }

  /** Each entry is one key of the finite map, so there are as many entries as keys. */
  lemma {:induction false} EntriesCountKeys<K(!new), V>(m: KeyManager<K>, es: seq<Pair<K, V>>)
    requires forall p, q :: 0 <= p < q < |es| ==> !m.Same(es[p].key, es[q].key)
    ensures |MapOf(es)| == |es|
    ensures forall p :: 0 <= p < |es| ==> es[p].key in MapOf(es) && MapOf(es)[es[p].key] == es[p].value
  {
    if es == [] {
    } else {
      var n := |es| - 1;
      var before, e := es[..n], es[n];
      EntriesCountKeys(m, before);
      assert m.Same(e.key, e.key);
      assert forall p :: 0 <= p < n ==> before[p] == es[p] && !m.Same(es[p].key, e.key);
      if e.key in MapOf(before) {
        var p := MapKeyIsEntry(before, e.key);
      }
    }
  }

  // ---------- whole runs ----------

  /** Set fails when the bin is missing and cannot be created, or a new pair cannot be allocated. */
  function SetStatus<K(!new), V>(
      m: KeyManager<K>, t: Table<K, V>, key: K, canCreateBin: bool, canAllocate: bool): (status: Status)
    ensures Lookup(m, t, key).Some? || (canAllocate && (canCreateBin || t.bins[m.hash(key)].Some?)) <==> status == Ok
    ensures status != Ok ==> status == AllocFailed
  {
    if t.bins[m.hash(key)].None? && !canCreateBin then AllocFailed
    else if Lookup(m, t, key).None? && !canAllocate then AllocFailed
    else Ok
  }

  /** The flags of SetOp say which allocations would succeed; RemoveAtOp removes by iterator. */
  datatype Op<K, V> =
    | SetOp(key: K, value: V, canCreateBin: bool, canAllocate: bool)
    | IndexOp(key: K, default: V)
    | RemoveOp(key: K)
    | RemoveAtOp(place: nat)
    | ClearOp

  function Step<K(!new), V>(m: KeyManager<K>, t: Table<K, V>, op: Op<K, V>): (r: Table<K, V>)
  {
    match op
    case SetOp(key, value, canCreateBin, canAllocate) =>
      if SetStatus(m, t, key, canCreateBin, canAllocate) == Ok then Put(m, t, key, value)
      else if canCreateBin then Created(t, m.hash(key))
      else t
    case IndexOp(key, default) => if Lookup(m, t, key).Some? then t else Put(m, t, key, default)
    case RemoveOp(key) => Delete(m, t, key)
    case RemoveAtOp(place) => if place < |t.Entries()| then Delete(m, t, t.Entries()[place].key) else t
    case ClearOp => Emptied(t)
  }

  function Run<K(!new), V>(m: KeyManager<K>, ops: seq<Op<K, V>>): (t: Table<K, V>)
  {
    if ops == [] then EmptyBins() else Step(m, Run(m, ops[..|ops| - 1]), ops[|ops| - 1])
  }

  /** Whether a history has created a bin; nothing takes a bin away. */
  predicate HasBin<K(!new), V>(m: KeyManager<K>, ops: seq<Op<K, V>>, h: HashCode) {
    ops != [] &&
    var op := ops[|ops| - 1];
    || HasBin(m, ops[..|ops| - 1], h)
    || (op.SetOp? && m.hash(op.key) == h && op.canCreateBin)
    || (op.IndexOp? && m.hash(op.key) == h)
  }

  /** What one operation does to the map; hasBin says whether the bin of k exists. */
  function Affected<K(!new), V>(
      m: KeyManager<K>, es: seq<Pair<K, V>>, op: Op<K, V>, k: K, was: Option<V>, hasBin: bool): Option<V>
  {
    match op
    case SetOp(key, value, canCreateBin, canAllocate) =>
      if m.Same(key, k) && (was.Some? || (canAllocate && (canCreateBin || hasBin))) then Some(value) else was
    case IndexOp(key, default) => if m.Same(key, k) then Some(was.UnwrapOr(default)) else was
    case RemoveOp(key) => if m.Same(key, k) then None else was
    case RemoveAtOp(place) => if place < |es| && m.Same(es[place].key, k) then None else was
    case ClearOp => None
  }

  /** What a key should have after a history: the last operation that concerns it, and succeeds, decides. */
  function History<K(!new), V>(m: KeyManager<K>, ops: seq<Op<K, V>>, k: K): Option<V> {
    if ops == [] then None
    else
      var before := ops[..|ops| - 1];
      Affected(m, Run(m, before).Entries(), ops[|ops| - 1], k, History(m, before, k), HasBin(m, before, m.hash(k)))
  }

  lemma StepBins<K(!new), V>(m: KeyManager<K>, t: Table<K, V>, op: Op<K, V>, h: HashCode)
    ensures Step(m, t, op).bins[h].Some? <==>
            || t.bins[h].Some?
            || (op.SetOp? && m.hash(op.key) == h && op.canCreateBin)
            || (op.IndexOp? && m.hash(op.key) == h)
  {
  }

  lemma CreatedLookup<K(!new), V>(m: KeyManager<K>, t: Table<K, V>, h: HashCode)
    ensures Good(m, t) ==> Good(m, Created(t, h))
    ensures forall k :: Lookup(m, Created(t, h), k) == Lookup(m, t, k)
  {
  }

  /** Set, whether it succeeds or not. */
  lemma SetLookup<K(!new), V>(m: KeyManager<K>, t: Table<K, V>, op: Op<K, V>)
    requires Good(m, t) && op.SetOp?
    ensures Good(m, Step(m, t, op))
    ensures forall k :: Lookup(m, Step(m, t, op), k) ==
                        if m.Same(op.key, k) && SetStatus(m, t, op.key, op.canCreateBin, op.canAllocate) == Ok
                        then Some(op.value) else Lookup(m, t, k)
  {
    PutLookup(m, t, op.key, op.value);
    CreatedLookup(m, t, m.hash(op.key));
  }

  /** Equal keys are set with the same outcome. */
  lemma SameKeySameStatus<K(!new), V>(m: KeyManager<K>, t: Table<K, V>, key: K, canCreateBin: bool, canAllocate: bool)
    requires Good(m, t)
    ensures forall k :: m.Same(key, k) ==>
                        && SetStatus(m, t, k, canCreateBin, canAllocate) ==
                          SetStatus(m, t, key, canCreateBin, canAllocate)
                        && m.hash(k) == m.hash(key)
  {
    SameKeySameLookup(m, t, key);
  }

  lemma StepIsGood<K(!new), V>(m: KeyManager<K>, t: Table<K, V>, op: Op<K, V>)
    requires Good(m, t)
    ensures Good(m, Step(m, t, op))
  {
    match op
    case SetOp(key, value, canCreateBin, canAllocate) => SetLookup(m, t, op);
    case IndexOp(key, default) => PutLookup(m, t, key, default);
    case RemoveOp(key) => DeleteLookup(m, t, key);
    case RemoveAtOp(place) =>
      if place < |t.Entries()| {
        DeleteLookup(m, t, t.Entries()[place].key);
      }
    case ClearOp => EmptiedIsEmpty(m, t);
  }

  lemma StepLookup<K(!new), V>(m: KeyManager<K>, t: Table<K, V>, op: Op<K, V>, k: K)
    requires Good(m, t)
    ensures Lookup(m, Step(m, t, op), k) ==
            Affected(m, t.Entries(), op, k, Lookup(m, t, k), t.bins[m.hash(k)].Some?)
  {
    match op
    case SetOp(key, value, canCreateBin, canAllocate) =>
      SetLookup(m, t, op);
      SameKeySameStatus(m, t, key, canCreateBin, canAllocate);
    case IndexOp(key, default) =>
      PutLookup(m, t, key, default);
      SameKeySameLookup(m, t, key);
    case RemoveOp(key) => DeleteLookup(m, t, key);
    case RemoveAtOp(place) =>
      if place < |t.Entries()| {
        DeleteLookup(m, t, t.Entries()[place].key);
      }
    case ClearOp => EmptiedIsEmpty(m, t);
  }

  /** In every run the table is well formed and is the map that the history describes, entry by entry. */
  lemma {:induction false} RunIsHistory<K(!new), V>(m: KeyManager<K>, ops: seq<Op<K, V>>)
    ensures Good(m, Run(m, ops))
    ensures forall h: HashCode :: Run(m, ops).bins[h].Some? <==> HasBin(m, ops, h)
    ensures forall k :: Lookup(m, Run(m, ops), k) == History(m, ops, k)
  {
    if ops == [] {
    } else {
      var before, op := ops[..|ops| - 1], ops[|ops| - 1];
      RunIsHistory(m, before);
      StepIsGood(m, Run(m, before), op);
      forall h: HashCode
        ensures Run(m, ops).bins[h].Some? <==> HasBin(m, ops, h)
      {
        StepBins(m, Run(m, before), op, h);
      }
      forall k
        ensures Lookup(m, Run(m, ops), k) == History(m, ops, k)
      {
        StepLookup(m, Run(m, before), op, k);
      }
    }
  }

  lemma SameKeySameLookup<K(!new), V>(m: KeyManager<K>, t: Table<K, V>, key: K)
    requires Good(m, t)
    ensures forall k :: m.Same(key, k) ==> Lookup(m, t, k) == Lookup(m, t, key)
  {
    forall k | m.Same(key, k)
      ensures Lookup(m, t, k) == Lookup(m, t, key)
    {
      var s := t.Lists()[m.hash(key)];
      var i, j := IndexIn(m, s, key), IndexIn(m, s, k);
      assert m.Same(k, key);
      assert i < |s| ==> m.Same(s[i].key, k);
      assert j < |s| ==> m.Same(s[j].key, key);
    }
  }
}
