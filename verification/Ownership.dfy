/**
 * Who owns what: the callers, the wrappers and the nodes that refer to others, and the shutdown callbacks
 * of the wrappers (Source/OpenNI/XnOpenNI.cpp, Include/XnCppWrapper.h). W is the identity of a wrapper.
 */
module Ownership {
  import opened References
  import opened Shutdowns

  datatype Wrapper = Wrapper(handle: Handle, callback: nat)

  /** Where a shutdown callback is registered. */
  datatype Slot = Slot(context: nat, callback: nat)

  /**
   * References that are neither a wrapper's nor a node's belong to the callers, who also hold those that
   * the running code has taken and not yet given away.
   */
  datatype State<!W> = State(
    books: Books,
    registered: map<Slot, W>,
    wrappers: map<W, Wrapper>,
    callers: multiset<Handle>)

  function Holders<W>(wrappers: map<W, Wrapper>, h: Handle): set<W> {
    set w | w in wrappers && wrappers[w].handle == h
  }

  function SlotOf(nodes: map<nat, Links>, w: Wrapper): Slot {
    match w.handle
    case Nothing => Slot(0, w.callback)
    case Node(n) => Slot(if n in nodes then nodes[n].parent else 0, w.callback)
    case Context(c) => Slot(c, w.callback)
  }

  // ---------- the invariant ----------

  /** The owners of a thing other than nodes. */
  function Outside<W>(callers: multiset<Handle>, wrappers: map<W, Wrapper>, h: Handle): nat {
    callers[h] + |Holders(wrappers, h)|
  }

  /** The references that are not nodes' are those of the callers and the wrappers. */
  ghost predicate Accounted<W>(books: Books, callers: multiset<Handle>, wrappers: map<W, Wrapper>) {
    && callers[Nothing] == 0
    && forall h {:trigger Outside(callers, wrappers, h)} ::
         h != Nothing ==> Extra(books, h) == Outside(callers, wrappers, h)
  }

  /** The registrations are those of the wrappers that hold something, one for each. */
  ghost predicate Registered<W>(registered: map<Slot, W>, wrappers: map<W, Wrapper>, nodes: map<nat, Links>) {
    && (forall w :: w in wrappers && wrappers[w].handle != Nothing ==>
          SlotOf(nodes, wrappers[w]) in registered && registered[SlotOf(nodes, wrappers[w])] == w)
    && (forall slot :: slot in registered ==>
          && registered[slot] in wrappers && wrappers[registered[slot]].handle != Nothing
          && SlotOf(nodes, wrappers[registered[slot]]) == slot)
  }

  ghost predicate Good<W>(s: State<W>) {
    && Kept(s.books)
    && Accounted(s.books, s.callers, s.wrappers)
    && Registered(s.registered, s.wrappers, s.books.nodes)
  }

  type World<!W> = s: State<W> | Good(s) witness NoState()

  function NoState<W>(): State<W> {
    State(Books(map[], map[]), map[], map[], multiset{})
  }

  // ---------- what follows for one handle ----------

  /** A count is the number of owners: callers, wrappers and nodes. */
  lemma Count<W>(s: World<W>, h: Handle)
    requires h in s.books.refs
    ensures s.books.refs[h] == s.callers[h] + |Holders(s.wrappers, h)| + |Uses(s.books.nodes, h)| > 0
  {
    assert Outside(s.callers, s.wrappers, h) == Extra(s.books, h);
  }

  lemma OwnedExists<W>(s: World<W>, h: Handle)
    requires h in s.callers || (h != Nothing && exists w :: w in s.wrappers && s.wrappers[w].handle == h)
    ensures h != Nothing && h in s.books.refs && Extra(s.books, h) >= 1
  {
    if h !in s.callers {
      var w :| w in s.wrappers && s.wrappers[w].handle == h;
      assert w in Holders(s.wrappers, h);
    }
    assert Outside(s.callers, s.wrappers, h) >= 1;
  }

  lemma HeldExists<W>(s: World<W>, w: W)
    requires w in s.wrappers && s.wrappers[w].handle != Nothing
    ensures s.wrappers[w].handle in s.books.refs
  {
    OwnedExists(s, s.wrappers[w].handle);
  }

  /** What does not exist has no owner. */
  lemma Unowned<W>(s: World<W>, h: Handle)
    requires h != Nothing && h !in s.books.refs
    ensures s.callers[h] == 0 && Holders(s.wrappers, h) == {}
  {
    assert Outside(s.callers, s.wrappers, h) == 0;
  }

  /** Callbacks stay where they are when nodes come and go that no wrapper holds. */
  lemma RegisteredStays<W>(
      registered: map<Slot, W>, wrappers: map<W, Wrapper>, before: map<nat, Links>, after: map<nat, Links>)
    requires Registered(registered, wrappers, before)
    requires forall w :: w in wrappers ==> SlotOf(after, wrappers[w]) == SlotOf(before, wrappers[w])
    ensures Registered(registered, wrappers, after)
  {
  }

  // ---------- steps of the C library ----------

  function AddRef<W>(s: World<W>, h: Handle): World<W>
    requires h in s.books.refs
  {
    RaisedIsGood(s, h);
    s.(books := Raised(s.books, h), callers := s.callers + multiset{h})
  }

  lemma RaisedIsGood<W>(s: World<W>, h: Handle)
    requires h in s.books.refs
    ensures Good(s.(books := Raised(s.books, h), callers := s.callers + multiset{h}))
  {
    RaisedIsKept(s.books, h);
    forall x
      ensures Outside(s.callers + multiset{h}, s.wrappers, x) ==
              Outside(s.callers, s.wrappers, x) + if x == h then 1 else 0
    {
    }
  }

  /** Gives up a caller's reference; what nobody owns any more is destroyed, and gives up its own references. */
  function Release<W>(s: World<W>, h: Handle): (t: World<W>)
    requires h in s.callers
    ensures t.wrappers == s.wrappers && t.registered == s.registered && t.callers == s.callers - multiset{h}
    ensures Part(t.books.nodes, s.books.nodes)
  {
    OwnedExists(s, h);
    ReleasedIsGood(s, h);
    s.(books := Drop(s.books, h), callers := s.callers - multiset{h})
  }

  lemma ReleasedIsGood<W>(s: World<W>, h: Handle)
    requires h in s.callers && Extra(s.books, h) >= 1
    ensures Good(s.(books := Drop(s.books, h), callers := s.callers - multiset{h}))
  {
    var b := Drop(s.books, h);
    forall x
      ensures Outside(s.callers - multiset{h}, s.wrappers, x) ==
              Outside(s.callers, s.wrappers, x) - if x == h then 1 else 0
    {
    }
    forall w | w in s.wrappers
      ensures SlotOf(b.nodes, s.wrappers[w]) == SlotOf(s.books.nodes, s.wrappers[w])
    {
      HeldStays(s, h, w);
    }
    RegisteredStays(s.registered, s.wrappers, s.books.nodes, b.nodes);
  }

  lemma HeldStays<W>(s: World<W>, h: Handle, w: W)
    requires h in s.callers && Extra(s.books, h) >= 1 && w in s.wrappers
    ensures SlotOf(Drop(s.books, h).nodes, s.wrappers[w]) == SlotOf(s.books.nodes, s.wrappers[w])
  {
    if s.wrappers[w].handle.Node? {
      HeldNodeStays(s, h, w, s.wrappers[w].handle.node);
    }
  }

  lemma HeldNodeStays<W>(s: World<W>, h: Handle, w: W, n: nat)
    requires h in s.callers && Extra(s.books, h) >= 1 && w in s.wrappers && s.wrappers[w].handle == Node(n)
    ensures n in Drop(s.books, h).nodes
  {
    HeldMore(s, w);
    assert Extra(Drop(s.books, h), Node(n)) == Extra(s.books, Node(n)) - if Node(n) == h then 1 else 0;
  }

  /** What a wrapper holds has one owner more than the callers. */
  lemma HeldMore<W>(s: World<W>, w: W)
    requires w in s.wrappers && s.wrappers[w].handle != Nothing
    ensures Extra(s.books, s.wrappers[w].handle) >= s.callers[s.wrappers[w].handle] + 1
  {
    var x := s.wrappers[w].handle;
    assert w in Holders(s.wrappers, x);
    assert Extra(s.books, x) == Outside(s.callers, s.wrappers, x);
  }

  // ---------- steps of the wrappers ----------

  /** The wrapper registers its callback, and takes over a caller's reference. */
  function Attached<W>(s: State<W>, w: W, h: Handle, k: nat): State<W> {
    s.(callers := s.callers - multiset{h},
       wrappers := s.wrappers[w := Wrapper(h, k)],
       registered := s.registered[SlotOf(s.books.nodes, Wrapper(h, k)) := w])
  }

  /** The wrapper unregisters its callback; its reference is left to the running code. */
  function Detached<W>(s: State<W>, w: W): State<W>
    requires w in s.wrappers
  {
    s.(callers := s.callers + multiset{s.wrappers[w].handle},
       wrappers := s.wrappers[w := s.wrappers[w].(handle := Nothing)],
       registered := s.registered - {SlotOf(s.books.nodes, s.wrappers[w])})
  }

  lemma HoldersAfter<W>(wrappers: map<W, Wrapper>, w: W, x: Wrapper, h: Handle)
    requires w in wrappers
    ensures |Holders(wrappers[w := x], h)| + (if wrappers[w].handle == h then 1 else 0) ==
            |Holders(wrappers, h)| + if x.handle == h then 1 else 0
  {
    var others := Holders(wrappers, h) - {w};
    assert Holders(wrappers, h) == if wrappers[w].handle == h then others + {w} else others;
    assert Holders(wrappers[w := x], h) == if x.handle == h then others + {w} else others;
  }

  predicate IsEmpty<W>(s: State<W>, w: W) {
    w in s.wrappers && s.wrappers[w].handle == Nothing
  }

  predicate IsFree<W>(s: State<W>, h: Handle, k: nat) {
    SlotOf(s.books.nodes, Wrapper(h, k)) !in s.registered
  }

  lemma AttachedIsGood<W>(s: World<W>, w: W, h: Handle, k: nat)
    requires IsEmpty(s, w) && h in s.callers && IsFree(s, h, k)
    ensures Good(Attached(s, w, h, k))
  {
    var t := Attached(s, w, h, k);
    forall x | x != Nothing
      ensures Outside(t.callers, t.wrappers, x) == Outside(s.callers, s.wrappers, x)
    {
      HoldersAfter(s.wrappers, w, Wrapper(h, k), x);
    }
    AttachedRegistered(s, w, h, k);
  }

  lemma AttachedRegistered<W>(s: World<W>, w: W, h: Handle, k: nat)
    requires IsEmpty(s, w) && h in s.callers && IsFree(s, h, k)
    ensures var t := Attached(s, w, h, k); Registered(t.registered, t.wrappers, t.books.nodes)
  {
  }

  lemma DetachedIsGood<W>(s: World<W>, w: W)
    requires w in s.wrappers && s.wrappers[w].handle != Nothing
    ensures Good(Detached(s, w))
  {
    var t := Detached(s, w);
    forall x | x != Nothing
      ensures Outside(t.callers, t.wrappers, x) == Outside(s.callers, s.wrappers, x)
    {
      HoldersAfter(s.wrappers, w, s.wrappers[w].(handle := Nothing), x);
    }
    DetachedRegistered(s, w);
  }

  lemma DetachedRegistered<W>(s: World<W>, w: W)
    requires w in s.wrappers && s.wrappers[w].handle != Nothing
    ensures var t := Detached(s, w); Registered(t.registered, t.wrappers, t.books.nodes)
  {
  }

  function Attach<W>(s: World<W>, w: W, h: Handle, k: nat): World<W>
    requires IsEmpty(s, w) && h in s.callers && IsFree(s, h, k)
  {
    AttachedIsGood(s, w, h, k);
    Attached(s, w, h, k)
  }

  function Detach<W>(s: World<W>, w: W): World<W>
    requires w in s.wrappers && s.wrappers[w].handle != Nothing
  {
    DetachedIsGood(s, w);
    Detached(s, w)
  }

  function LetGo<W>(s: World<W>, w: W): (t: World<W>)
    requires w in s.wrappers
    ensures Part(t.books.nodes, s.books.nodes) && t.callers == s.callers
    ensures t.wrappers == s.wrappers[w := s.wrappers[w].(handle := Nothing)]
    ensures t.registered ==
            if s.wrappers[w].handle == Nothing then s.registered
            else s.registered - {SlotOf(s.books.nodes, s.wrappers[w])}
  {
    if s.wrappers[w].handle == Nothing then s else Release(Detach(s, w), s.wrappers[w].handle)
  }

  /** The wrapper registers its callback, and has a reference of its own. */
  function Taken<W>(s: State<W>, w: W, h: Handle, k: nat): State<W>
    requires h in s.books.refs
  {
    s.(books := Raised(s.books, h),
       wrappers := s.wrappers[w := Wrapper(h, k)],
       registered := s.registered[SlotOf(s.books.nodes, Wrapper(h, k)) := w])
  }

  lemma TakenIs<W>(s: World<W>, w: W, h: Handle, k: nat)
    requires IsEmpty(s, w) && h in s.books.refs && IsFree(s, h, k)
    ensures Taken(s, w, h, k) == Attach(AddRef(s, h), w, h, k)
  {
    assert s.callers + multiset{h} - multiset{h} == s.callers;
  }

  function TakeHold<W>(s: World<W>, w: W, h: Handle, k: nat): World<W>
    requires IsEmpty(s, w) && h in s.books.refs && IsFree(s, h, k)
  {
    TakenIs(s, w, h, k);
    Taken(s, w, h, k)
  }

  function Settled<W>(s: World<W>, w: W, h: Handle, k: nat): World<W>
    requires IsEmpty(s, w) && (h != Nothing ==> h in s.books.refs && IsFree(s, h, k))
  {
    if h == Nothing then s else TakeHold(s, w, h, k)
  }

  /** What is to be held must still exist after what was held is released. */
  predicate CanSet<W>(s: World<W>, w: W, h: Handle, k: nat) {
    && w in s.wrappers
    && (s.wrappers[w].handle == h || h == Nothing || (h in LetGo(s, w).books.refs && IsFree(LetGo(s, w), h, k)))
  }

  function SetHandle<W>(s: World<W>, w: W, h: Handle, k: nat): World<W>
    requires CanSet(s, w, h, k)
  {
    if s.wrappers[w].handle == h then s else Settled(LetGo(s, w), w, h, k)
  }

  // ---------- ownership without counts ----------

  /** The nodes that exist and what they refer to, what each wrapper holds, and the callers' references. */
  datatype Plain<!W> = Plain(nodes: map<nat, Links>, holds: map<W, Handle>, callers: multiset<Handle>)

  function Holds<W>(wrappers: map<W, Wrapper>): map<W, Handle> {
    map w | w in wrappers :: wrappers[w].handle
  }

  function Abstract<W>(s: State<W>): Plain<W> {
    Plain(s.books.nodes, Holds(s.wrappers), s.callers)
  }

  predicate IsOwned<W>(p: Plain<W>, h: Handle) {
    h in p.callers || h in p.holds.Values
  }

  /** The path starts at a node that a caller or a wrapper owns, and goes on from each node to one that it needs. */
  predicate IsPath<W>(p: Plain<W>, path: seq<nat>) {
    && path != [] && IsOwned(p, Node(path[0]))
    && (forall i :: 0 <= i < |path| ==> path[i] in p.nodes)
    && (forall i :: 0 <= i < |path| - 1 ==> path[i + 1] in p.nodes[path[i]].needs)
  }

  ghost predicate Reached<W>(p: Plain<W>, n: nat) {
    exists path :: IsPath(p, path) && path[|path| - 1] == n
  }

  /** A caller or a wrapper owns it, directly or through nodes. */
  ghost predicate Alive<W>(p: Plain<W>, h: Handle) {
    match h
    case Nothing => false
    case Node(n) => Reached(p, n)
    case Context(c) => IsOwned(p, h) || exists n :: n in p.nodes && Reached(p, n) && p.nodes[n].parent == c
  }

  /** Only the nodes that are reached stay. */
  ghost function Collected<W>(p: Plain<W>): Plain<W> {
    p.(nodes := map n | n in p.nodes && Reached(p, n) :: p.nodes[n])
  }

  lemma OwnedIsHeld<W>(s: World<W>, h: Handle)
    requires h != Nothing && IsOwned(Abstract(s), h)
    ensures h in s.books.refs
  {
    if h !in s.callers {
      var w :| w in s.wrappers && Holds(s.wrappers)[w] == h;
    }
    OwnedExists(s, h);
  }

  /** Everything on a path exists. */
  lemma {:induction false} PathExists<W>(p: Plain<W>, t: World<W>, path: seq<nat>, i: nat)
    requires Part(t.books.nodes, p.nodes) && p.holds == Holds(t.wrappers) && p.callers == t.callers
    requires IsPath(p, path) && i < |path|
    ensures path[i] in t.books.nodes
  {
    if i == 0 {
      OwnedIsHeld(t, Node(path[0]));
    } else {
      PathExists(p, t, path, i - 1);
      var n := path[i - 1];
      assert Linked(t.books.refs, t.books.nodes, n);
      var j :| 0 <= j < |t.books.nodes[n].needs| && t.books.nodes[n].needs[j] == path[i];
      assert Needed(t.books.nodes[n])[j] == Node(path[i]);
      assert Targets(t.books.nodes[n])[j] == Node(path[i]);
      assert Node(path[i]) in t.books.refs;
    }
  }

  function Younger(nodes: map<nat, Links>, n: nat): set<nat> {
    set k | k in nodes && k > n
  }

  lemma OwnedIsReached<W>(s: World<W>, n: nat)
    requires n in s.books.nodes && (Node(n) in s.callers || Holders(s.wrappers, Node(n)) != {})
    ensures Reached(Abstract(s), n)
  {
    var p := Abstract(s);
    if w :| w in Holders(s.wrappers, Node(n)) {
      assert p.holds[w] == Node(n);
    }
    assert IsPath(p, [n]);
  }

  lemma NeededIsReached<W>(p: Plain<W>, k: nat, n: nat)
    requires Reached(p, k) && k in p.nodes && n in p.nodes && n in p.nodes[k].needs
    ensures Reached(p, n)
  {
    var path :| IsPath(p, path) && path[|path| - 1] == k;
    assert IsPath(p, path + [n]);
  }

  /** Everything that exists is on a path: its owners are callers or wrappers, or younger nodes. */
  lemma {:induction false} HasPath<W>(s: World<W>, n: nat)
    requires n in s.books.nodes
    ensures Reached(Abstract(s), n)
    decreases Younger(s.books.nodes, n)
  {
    Count(s, Node(n));
    if Node(n) in s.callers || Holders(s.wrappers, Node(n)) != {} {
      OwnedIsReached(s, n);
    } else {
      var use :| use in Uses(s.books.nodes, Node(n));
      NeedsOlder(s.books, use.0, use.1, n);
      assert use.0 in Younger(s.books.nodes, n) && use.0 !in Younger(s.books.nodes, use.0);
      HasPath(s, use.0);
      NeededIsReached(Abstract(s), use.0, n);
    }
  }

  lemma NeedsOlder(b: Ledger, k: nat, i: nat, n: nat)
    requires k in b.nodes && i < |Targets(b.nodes[k])| && Targets(b.nodes[k])[i] == Node(n)
    ensures n in b.nodes && n < k && n in b.nodes[k].needs
  {
    assert Linked(b.refs, b.nodes, k);
    assert Node(n) in b.refs;
    assert i < |b.nodes[k].needs|;
  }

  /** What exists is exactly what is alive. */
  lemma ExistsIfAlive<W>(s: World<W>, h: Handle)
    ensures h in s.books.refs <==> Alive(Abstract(s), h)
  {
    var p := Abstract(s);
    match h
    case Nothing =>
    case Node(n) =>
      if n in s.books.nodes {
        HasPath(s, n);
      }
      if path :| IsPath(p, path) && path[|path| - 1] == n {
        PathExists(p, s, path, |path| - 1);
      }
    case Context(c) => ContextExistsIfAlive(s, c);
  }

  lemma ContextExistsIfAlive<W>(s: World<W>, c: nat)
    ensures Context(c) in s.books.refs <==> Alive(Abstract(s), Context(c))
  {
    var p := Abstract(s);
    if Context(c) in s.books.refs {
      Count(s, Context(c));
      if w :| w in Holders(s.wrappers, Context(c)) {
        assert p.holds[w] == Context(c);
      } else if use :| use in Uses(s.books.nodes, Context(c)) {
        HasPath(s, use.0);
        assert Targets(s.books.nodes[use.0])[use.1] == Context(c);
      }
    } else if IsOwned(p, Context(c)) {
      OwnedIsHeld(s, Context(c));
    } else if n :| n in p.nodes && Reached(p, n) && p.nodes[n].parent == c {
      ParentExists(s.books, n);
    }
  }

  lemma StillPath<W>(p: Plain<W>, q: Plain<W>, path: seq<nat>)
    requires IsPath(p, path) && Part(p.nodes, q.nodes) && p.holds == q.holds && p.callers == q.callers
    ensures IsPath(q, path)
  {
  }

  /** Of the nodes that there were, a good state has kept those that are alive. */
  lemma KeptAreAlive<W>(p: Plain<W>, t: World<W>)
    requires Part(t.books.nodes, p.nodes) && p.holds == Holds(t.wrappers) && p.callers == t.callers
    ensures Abstract(t) == Collected(p)
  {
    forall n
      ensures n in t.books.nodes <==> n in p.nodes && Reached(p, n)
    {
      if n in t.books.nodes {
        HasPath(t, n);
        var path :| IsPath(Abstract(t), path) && path[|path| - 1] == n;
        StillPath(Abstract(t), p, path);
      }
      if path :| n in p.nodes && IsPath(p, path) && path[|path| - 1] == n {
        PathExists(p, t, path, |path| - 1);
      }
    }
    assert forall n :: n in t.books.nodes ==> t.books.nodes[n] == p.nodes[n];
  }

  /** Whether something is alive does not depend on nodes that are not. */
  lemma AliveInCollected<W>(p: Plain<W>, t: World<W>, h: Handle)
    requires Part(t.books.nodes, p.nodes) && p.holds == Holds(t.wrappers) && p.callers == t.callers
    ensures h in t.books.refs <==> Alive(p, h)
  {
    KeptAreAlive(p, t);
    ExistsIfAlive(t, h);
    match h
    case Nothing =>
    case Node(n) => ReachedIsCollected(p, t, n);
    case Context(c) =>
      forall n | n in p.nodes
        ensures Reached(p, n) <==> n in t.books.nodes
      {
        ReachedIsCollected(p, t, n);
      }
      forall n | n in t.books.nodes
        ensures Reached(Abstract(t), n)
      {
        HasPath(t, n);
      }
  }

  lemma ReachedIsCollected<W>(p: Plain<W>, t: World<W>, n: nat)
    requires Part(t.books.nodes, p.nodes) && p.holds == Holds(t.wrappers) && p.callers == t.callers
    ensures Reached(p, n) <==> n in t.books.nodes
  {
    KeptAreAlive(p, t);
    if path :| IsPath(p, path) && path[|path| - 1] == n {
      assert n in p.nodes && n in Collected(p).nodes;
    }
  }

  /** The counts of a good state follow from who owns what. */
  lemma CountsAreDetermined<W>(s: World<W>, t: World<W>)
    requires Abstract(s) == Abstract(t)
    ensures s.books.refs == t.books.refs
  {
    forall h
      ensures h in s.books.refs <==> h in t.books.refs
      ensures h in s.books.refs ==> s.books.refs[h] == t.books.refs[h]
    {
      ExistsIfAlive(s, h);
      ExistsIfAlive(t, h);
      SameHolders(s.wrappers, t.wrappers, h);
      if h in s.books.refs {
        Count(s, h);
        Count(t, h);
      }
    }
  }

  lemma SameHolders<W>(ws: map<W, Wrapper>, vs: map<W, Wrapper>, h: Handle)
    requires Holds(ws) == Holds(vs)
    ensures Holders(ws, h) == Holders(vs, h)
  {
    assert ws.Keys == Holds(ws).Keys == vs.Keys;
    assert forall w :: w in ws ==> ws[w].handle == Holds(ws)[w] == Holds(vs)[w] == vs[w].handle;
  }

  // ---------- what SetHandle does ----------

  lemma HoldsAfter<W>(wrappers: map<W, Wrapper>, w: W, x: Wrapper)
    ensures Holds(wrappers[w := x]) == Holds(wrappers)[w := x.handle]
    ensures w in wrappers && wrappers[w].handle == x.handle ==> Holds(wrappers)[w := x.handle] == Holds(wrappers)
  {
  }

  lemma LastUpdateCounts<W>(holds: map<W, Handle>, w: W, first: Handle, last: Handle)
    ensures holds[w := first][w := last] == holds[w := last]
  {
  }

  lemma SetHandleCallers<W>(s: World<W>, w: W, h: Handle, k: nat)
    requires CanSet(s, w, h, k)
    ensures SetHandle(s, w, h, k).callers == s.callers
  {
  }

  lemma SetHandleHolds<W>(s: World<W>, w: W, h: Handle, k: nat)
    requires CanSet(s, w, h, k)
    ensures var t := SetHandle(s, w, h, k); Part(t.books.nodes, s.books.nodes) && t.callers == s.callers
    ensures Holds(SetHandle(s, w, h, k).wrappers) == Holds(s.wrappers)[w := h]
  {
    HoldsAfter(s.wrappers, w, s.wrappers[w].(handle := Nothing));
    HoldsAfter(s.wrappers, w, s.wrappers[w]);
    LastUpdateCounts(Holds(s.wrappers), w, Nothing, h);
    if s.wrappers[w].handle != h {
      HoldsAfter(LetGo(s, w).wrappers, w, Wrapper(h, k));
    }
  }

  /** SetHandle makes the wrapper hold the new handle, and destroys exactly the nodes that nothing reaches then. */
  lemma SetHandleIs<W>(s: World<W>, w: W, h: Handle, k: nat)
    requires CanSet(s, w, h, k)
    ensures var p := Abstract(s); Abstract(SetHandle(s, w, h, k)) == Collected(p.(holds := p.holds[w := h]))
  {
    var p := Abstract(s);
    SetHandleHolds(s, w, h, k);
    KeptAreAlive(p.(holds := p.holds[w := h]), SetHandle(s, w, h, k));
  }

  lemma ReleaseIs<W>(s: World<W>, h: Handle)
    requires h in s.callers
    ensures var p := Abstract(s); Abstract(Release(s, h)) == Collected(p.(callers := p.callers - multiset{h}))
  {
    var p := Abstract(s);
    KeptAreAlive(p.(callers := p.callers - multiset{h}), Release(s, h));
  }

  /** Setting what is held already is always possible, even by the only owner, and changes nothing. */
  lemma SetToSame<W>(s: World<W>, w: W, k: nat)
    requires w in s.wrappers
    ensures CanSet(s, w, s.wrappers[w].handle, k) && SetHandle(s, w, s.wrappers[w].handle, k) == s
  {
  }

  // ---------- when SetHandle is safe ----------

  /** What is alive without the wrapper. */
  ghost predicate AliveWithout<W>(s: State<W>, w: W, h: Handle) {
    var p := Abstract(s);
    Alive(p.(holds := p.holds[w := Nothing]), h)
  }

  /**
   * A handle still exists after the wrapper has let go of what it held if and only if it is alive without the
   * wrapper: owned by a caller or another wrapper, directly or through nodes that they own.
   */
  lemma SafeIfAliveWithout<W>(s: World<W>, w: W, h: Handle)
    requires w in s.wrappers
    ensures h in LetGo(s, w).books.refs <==> AliveWithout(s, w, h)
  {
    var p := Abstract(s);
    HoldsAfter(s.wrappers, w, s.wrappers[w].(handle := Nothing));
    AliveInCollected(p.(holds := p.holds[w := Nothing]), LetGo(s, w), h);
  }

  /** A caller's own reference is enough, and so is another wrapper that holds it. */
  lemma OwnedElsewhereIsSafe<W>(s: World<W>, w: W, h: Handle)
    requires w in s.wrappers && h != Nothing
    requires h in s.callers || exists v :: v in s.wrappers && v != w && s.wrappers[v].handle == h
    ensures h in LetGo(s, w).books.refs
  {
    if v :| v in s.wrappers && v != w && s.wrappers[v].handle == h {
      assert LetGo(s, w).wrappers[v].handle == h;
    }
    OwnedExists(LetGo(s, w), h);
  }

  /** What another wrapper holds can be taken from it, also when it is the same wrapper. */
  lemma HeldByOther<W>(s: World<W>, w: W, other: W)
    requires w in s.wrappers && other in s.wrappers
    ensures var h := s.wrappers[other].handle; h == Nothing || s.wrappers[w].handle == h || h in LetGo(s, w).books.refs
  {
    var h := s.wrappers[other].handle;
    if h != Nothing && s.wrappers[w].handle != h {
      OwnedElsewhereIsSafe(s, w, h);
    }
  }

  lemma OtherHolders<W>(ws: map<W, Wrapper>, vs: map<W, Wrapper>, w: W, h: Handle, x: Handle)
    requires w in ws && Holds(vs) == Holds(ws)[w := h] && ws[w].handle != x && h != x
    ensures Holders(vs, x) == Holders(ws, x)
  {
    assert vs.Keys == Holds(vs).Keys == Holds(ws).Keys == ws.Keys;
    assert forall v :: v in ws && v != w ==> vs[v].handle == Holds(vs)[v] == ws[v].handle;
    assert vs[w].handle == Holds(vs)[w];
  }

  /**
   * When a node wrapper changes what it holds, the count of every context that stays falls by the number of its
   * nodes that are destroyed, and by no more: it is unchanged if none is.
   */
  lemma ContextCountsStay<W>(s: World<W>, w: W, h: Handle, k: nat, c: nat)
    requires CanSet(s, w, h, k) && IsBetweenNodes(s.wrappers, w, h)
    ensures SetKeepsCount(s, SetHandle(s, w, h, k), c)
  {
    SetHandleHolds(s, w, h, k);
    ContextCountFollows(s, SetHandle(s, w, h, k), w, h, c);
  }

  predicate IsBetweenNodes<W>(wrappers: map<W, Wrapper>, w: W, h: Handle) {
    w in wrappers && !h.Context? && !wrappers[w].handle.Context?
  }

  /** A context that stays loses one reference for each of its nodes that goes. */
  predicate SetKeepsCount<W>(s: State<W>, t: State<W>, c: nat) {
    Context(c) in s.books.refs && Context(c) in t.books.refs ==>
      s.books.refs[Context(c)] + |Children(t.books.nodes, c)| == t.books.refs[Context(c)] + |Children(s.books.nodes, c)|
  }

  lemma ContextCountFollows<W>(s: World<W>, t: World<W>, w: W, h: Handle, c: nat)
    requires IsBetweenNodes(s.wrappers, w, h)
    requires Holds(t.wrappers) == Holds(s.wrappers)[w := h] && t.callers == s.callers
    ensures SetKeepsCount(s, t, c)
  {
    if Context(c) in s.books.refs && Context(c) in t.books.refs {
      Count(s, Context(c));
      Count(t, Context(c));
      OtherHolders(s.wrappers, t.wrappers, w, h, Context(c));
      UsesAreChildren(s.books.nodes, c);
      UsesAreChildren(t.books.nodes, c);
    }
  }

  // ---------- new things ----------

  function NewContextState<W>(s: State<W>, c: nat): State<W> {
    s.(books := WithContext(s.books, c), callers := s.callers + multiset{Context(c)})
  }

  lemma NewContextIsGood<W>(s: World<W>, c: nat)
    requires Context(c) !in s.books.refs
    ensures Good(NewContextState(s, c))
  {
    WithContextIsKept(s.books, c);
    forall h
      ensures Outside(s.callers + multiset{Context(c)}, s.wrappers, h) ==
              Outside(s.callers, s.wrappers, h) + if h == Context(c) then 1 else 0
    {
    }
  }

  /** A new node takes over the callers' references to what it needs, and takes one to its context. */
  function NewNodeState<W>(s: State<W>, n: nat, l: Links): State<W>
    requires CanLink(s.books, n, l)
  {
    s.(books := WithNode(s.books, n, l), callers := s.callers - multiset(Needed(l)) + multiset{Node(n)})
  }

  lemma NeededIsOwed<W>(s: World<W>, l: Links)
    requires multiset(Needed(l)) <= s.callers
    ensures Owes(s.books, multiset(Needed(l)))
  {
    forall x {:trigger Extra(s.books, x)}
      ensures multiset(Needed(l))[x] <= Extra(s.books, x)
    {
      if x != Nothing {
        assert Outside(s.callers, s.wrappers, x) >= s.callers[x];
      } else {
        assert x !in Needed(l);
      }
    }
  }

  lemma NewNodeAccounted<W>(s: World<W>, n: nat, l: Links)
    requires CanLink(s.books, n, l) && multiset(Needed(l)) <= s.callers
    ensures var t := NewNodeState(s, n, l); Accounted(t.books, t.callers, t.wrappers)
  {
    var t := NewNodeState(s, n, l);
    forall x | x != Nothing
      ensures Extra(t.books, x) == Outside(t.callers, t.wrappers, x)
    {
      NewNodeAccounts(s, n, l, x);
    }
  }

  lemma NewNodeAccounts<W>(s: World<W>, n: nat, l: Links, x: Handle)
    requires CanLink(s.books, n, l) && multiset(Needed(l)) <= s.callers && x != Nothing
    ensures var t := NewNodeState(s, n, l); Extra(t.books, x) == Outside(t.callers, t.wrappers, x)
  {
    WithNodeExtra(s.books, n, l, x);
    assert Extra(s.books, x) == Outside(s.callers, s.wrappers, x);
  }

  lemma NewNodeRegistered<W>(s: World<W>, n: nat, l: Links)
    requires Node(n) !in s.books.refs
    ensures Registered(s.registered, s.wrappers, s.books.nodes[n := l])
  {
    Unowned(s, Node(n));
    forall w | w in s.wrappers
      ensures SlotOf(s.books.nodes[n := l], s.wrappers[w]) == SlotOf(s.books.nodes, s.wrappers[w])
    {
      assert w in Holders(s.wrappers, s.wrappers[w].handle);
    }
    RegisteredStays(s.registered, s.wrappers, s.books.nodes, s.books.nodes[n := l]);
  }

  lemma NewNodeIsGood<W>(s: World<W>, n: nat, l: Links)
    requires CanLink(s.books, n, l) && multiset(Needed(l)) <= s.callers
    ensures Good(NewNodeState(s, n, l))
  {
    NeededIsOwed(s, l);
    WithNodeIsKept(s.books, n, l);
    NewNodeAccounted(s, n, l);
    NewNodeRegistered(s, n, l);
  }

  function NewContext<W>(s: World<W>, c: nat): World<W>
    requires Context(c) !in s.books.refs
  {
    NewContextIsGood(s, c);
    NewContextState(s, c)
  }

  function NewNode<W>(s: World<W>, n: nat, l: Links): World<W>
    requires CanLink(s.books, n, l) && multiset(Needed(l)) <= s.callers
  {
    NewNodeIsGood(s, n, l);
    NewNodeState(s, n, l)
  }

  function WithWrapper<W>(s: State<W>, w: W): State<W> {
    s.(wrappers := s.wrappers[w := Wrapper(Nothing, 0)])
  }

  function WithoutWrapper<W>(s: State<W>, w: W): State<W> {
    s.(wrappers := s.wrappers - {w})
  }

  lemma WithWrapperIsGood<W>(s: World<W>, w: W)
    requires w !in s.wrappers
    ensures Good(WithWrapper(s, w))
  {
    forall h | h != Nothing
      ensures Outside(s.callers, WithWrapper(s, w).wrappers, h) == Outside(s.callers, s.wrappers, h)
    {
      assert Holders(WithWrapper(s, w).wrappers, h) == Holders(s.wrappers, h);
    }
  }

  lemma WithoutWrapperIsGood<W>(s: World<W>, w: W)
    requires IsEmpty(s, w)
    ensures Good(WithoutWrapper(s, w))
  {
    forall h | h != Nothing
      ensures Outside(s.callers, WithoutWrapper(s, w).wrappers, h) == Outside(s.callers, s.wrappers, h)
    {
      assert Holders(WithoutWrapper(s, w).wrappers, h) == Holders(s.wrappers, h);
    }
  }

  // ---------- forced shutdown ----------

  function Belongings(nodes: map<nat, Links>, c: nat): set<Handle> {
    {Context(c)} + set n | n in nodes && nodes[n].parent == c :: Node(n)
  }

  ghost function Voided(callers: multiset<Handle>, gone: set<Handle>): multiset<Handle> {
    if gone == {} then callers else
      var h :| h in gone;
      Voided(callers[h := 0], gone - {h})
  }

  lemma {:induction false} VoidedIs(callers: multiset<Handle>, gone: set<Handle>, h: Handle)
    ensures Voided(callers, gone)[h] == if h in gone then 0 else callers[h]
    decreases gone
  {
    if gone == {} {
    } else {
      var x :| x in gone && Voided(callers, gone) == Voided(callers[x := 0], gone - {x});
      VoidedIs(callers[x := 0], gone - {x}, h);
    }
  }

  function Emptied<W>(wrappers: map<W, Wrapper>, nodes: map<nat, Links>, c: nat): map<W, Wrapper> {
    map w | w in wrappers ::
      if Belongs(nodes, wrappers[w].handle, c) then wrappers[w].(handle := Nothing) else wrappers[w]
  }

  /**
   * The context and its nodes are destroyed whoever owns them; the shutdown event empties the wrappers
   * registered with it, and the callers' references to what was destroyed are void.
   */
  ghost function ShutState<W>(s: World<W>, c: nat): State<W> {
    State(
      Elsewhere(s.books, c),
      map slot | slot in s.registered && slot.context != c :: s.registered[slot],
      Emptied(s.wrappers, s.books.nodes, c),
      Voided(s.callers, Belongings(s.books.nodes, c)))
  }

  lemma ShutHolders<W>(wrappers: map<W, Wrapper>, nodes: map<nat, Links>, c: nat, h: Handle)
    requires h != Nothing
    ensures Holders(Emptied(wrappers, nodes, c), h) == if Belongs(nodes, h, c) then {} else Holders(wrappers, h)
  {
  }

  lemma ShutAccounted<W>(s: World<W>, c: nat)
    ensures var t := ShutState(s, c); Accounted(t.books, t.callers, t.wrappers)
  {
    var t := ShutState(s, c);
    VoidedIs(s.callers, Belongings(s.books.nodes, c), Nothing);
    forall h
      ensures h != Nothing ==> Extra(t.books, h) == Outside(t.callers, t.wrappers, h)
    {
      ShutAccounts(s, c, h);
    }
  }

  lemma ShutAccounts<W>(s: World<W>, c: nat, h: Handle)
    ensures var t := ShutState(s, c); h != Nothing ==> Extra(t.books, h) == Outside(t.callers, t.wrappers, h)
  {
    ElsewhereIsKept(s.books, c);
    VoidedIs(s.callers, Belongings(s.books.nodes, c), h);
    if h != Nothing {
      ShutHolders(s.wrappers, s.books.nodes, c, h);
      assert Extra(s.books, h) == Outside(s.callers, s.wrappers, h);
    }
  }

  lemma ShutRegistered<W>(s: World<W>, c: nat)
    ensures var t := ShutState(s, c); Registered(t.registered, t.wrappers, t.books.nodes)
  {
    forall w | w in s.wrappers && s.wrappers[w].handle != Nothing
      ensures s.wrappers[w].handle in s.books.refs
    {
      HeldExists(s, w);
    }
  }

  lemma ShutIsGood<W>(s: World<W>, c: nat)
    ensures Good(ShutState(s, c))
  {
    ElsewhereIsKept(s.books, c);
    ShutAccounted(s, c);
    ShutRegistered(s, c);
  }

  /**
   * A forced shutdown of a context that has more references than nodes: those that have only as many are
   * destroyed by the loop over their nodes, before the event.
   */
  ghost function Shutdown<W>(s: World<W>, c: nat): World<W>
    requires CanShutDown(s.books, c)
  {
    ShutIsGood(s, c);
    ShutState(s, c)
  }

  predicate CanShutDown(b: Books, c: nat) {
    Context(c) in b.refs && b.refs[Context(c)] > |Children(b.nodes, c)|
  }

  /** In the owners' terms: a caller or a wrapper of the context itself owns it. */
  lemma CanShutDownIfOwned<W>(s: World<W>, c: nat)
    ensures CanShutDown(s.books, c) <==> IsOwned(Abstract(s), Context(c))
  {
    var p := Abstract(s);
    UsesAreChildren(s.books.nodes, c);
    if Context(c) in s.books.refs {
      Count(s, Context(c));
    } else {
      Unowned(s, Context(c));
    }
    if w :| w in Holders(s.wrappers, Context(c)) {
      assert p.holds[w] == Context(c);
    }
    if w :| w in p.holds && p.holds[w] == Context(c) {
      assert w in Holders(s.wrappers, Context(c));
    }
  }

  /**
   * What the code does, node by node, in whatever order: the context outlives its nodes if and only if it can be
   * shut down, and then the counts that are left are those of the state above.
   */
  lemma ShutdownIsLoop<W>(s: World<W>, c: nat, picks: seq<nat>)
    requires Context(c) in s.books.refs && Forcible(s.books, c, picks)
             && Children(Destroyed(s.books, c, picks).nodes, c) == {}
    ensures Context(c) in Destroyed(s.books, c, picks).refs <==> CanShutDown(s.books, c)
    ensures CanShutDown(s.books, c) ==>
            References.WithoutContext(Destroyed(s.books, c, picks), c) == Shutdown(s, c).books
  {
    ContextSurvives(s.books, c, picks);
    DestroyedIsElsewhere(s.books, c, picks);
  }

  /** After a forced shutdown no wrapper refers to the context or a node of it, and no callback is registered there. */
  lemma ShutdownLeavesNothing<W>(s: World<W>, c: nat)
    requires CanShutDown(s.books, c)
    ensures var t := Shutdown(s, c); forall w :: w in t.wrappers ==> !Belongs(s.books.nodes, t.wrappers[w].handle, c)
    ensures var t := Shutdown(s, c); forall h :: h in t.books.refs ==> !Belongs(t.books.nodes, h, c)
    ensures forall slot :: slot in Shutdown(s, c).registered ==> slot.context != c
  {
  }

  /** The wrappers whose callbacks are registered with a context are those that hold something of it. */
  lemma RegisteredAreHolders<W>(s: World<W>, c: nat, w: W)
    ensures (exists slot :: slot in s.registered && slot.context == c && s.registered[slot] == w) <==>
            w in s.wrappers && Belongs(s.books.nodes, s.wrappers[w].handle, c)
  {
    forall v | v in s.wrappers && s.wrappers[v].handle != Nothing
      ensures s.wrappers[v].handle in s.books.refs
    {
      HeldExists(s, v);
    }
    if w in s.wrappers && Belongs(s.books.nodes, s.wrappers[w].handle, c) {
      var slot := SlotOf(s.books.nodes, s.wrappers[w]);
      assert slot in s.registered && slot.context == c;
    }
  }

  lemma ShutdownEmpties<W>(s: World<W>, c: nat, called: set<W>)
    requires CanShutDown(s.books, c)
    requires called == set slot | slot in s.registered && slot.context == c :: s.registered[slot]
    ensures var t := Shutdown(s, c);
            forall w :: w in s.wrappers ==>
              && w in t.wrappers
              && t.wrappers[w] == if w in called then s.wrappers[w].(handle := Nothing) else s.wrappers[w]
  {
    forall w
      ensures w in called <==> w in s.wrappers && Belongs(s.books.nodes, s.wrappers[w].handle, c)
    {
      RegisteredAreHolders(s, c, w);
    }
  }

  /** The callback that a wrapper has registered is its only one, and it is at the context of what it holds. */
  lemma OneRegistration<W>(s: World<W>, w: W)
    requires w in s.wrappers
    ensures (set slot | slot in s.registered && s.registered[slot] == w) ==
            if s.wrappers[w].handle == Nothing then {} else {SlotOf(s.books.nodes, s.wrappers[w])}
  {
  }

  /** Where a callback is registered, the context exists. */
  lemma RegisteredExists<W>(s: World<W>)
    ensures forall slot :: slot in s.registered ==> Context(slot.context) in s.books.refs
  {
    forall slot | slot in s.registered
      ensures Context(slot.context) in s.books.refs
    {
      var w := s.registered[slot];
      HeldExists(s, w);
      if s.wrappers[w].handle.Node? {
        ParentExists(s.books, s.wrappers[w].handle.node);
      }
    }
  }

  // ---------- two states that go wrong ----------

  /** A context, two nodes of which the second needs the first, and a wrapper that alone owns the second. */
  function NeededByOne<W>(w: W, k: nat): State<W> {
    State(
      Books(map[Context(0) := 3, Node(0) := 1, Node(1) := 1], map[0 := Links([], 0), 1 := Links([0], 0)]),
      map[Slot(0, k) := w],
      map[w := Wrapper(Node(1), k)],
      multiset{Context(0)})
  }

  /** A context and a node, both owned by the callers. */
  function OneNode<W>(): State<W> {
    State(
      Books(map[Context(0) := 2, Node(0) := 1], map[0 := Links([], 0)]),
      map[],
      map[],
      multiset{Context(0), Node(0)})
  }

  lemma OneNodeBooks()
    ensures var b := WithContext(Books(map[], map[]), 0); var l := Links([], 0);
            CanLink(b, 0, l) && Needed(l) == [] && WithNode(b, 0, l) == OneNode<nat>().books
  {
    assert WithContext(Books(map[], map[]), 0).refs == map[Context(0) := 1];
  }

  lemma OneNodeIsGood<W>()
    ensures Good(OneNode<W>())
  {
    OneNodeBooks();
    var s := NewContext(NoState<W>(), 0);
    assert s.callers == multiset{Context(0)};
    assert multiset{Context(0)} - multiset([]) + multiset{Node(0)} == multiset{Context(0), Node(0)};
    NewNodeIsGood(s, 0, Links([], 0));
  }

  lemma TwoNodesBooks()
    ensures var b := OneNode<nat>().books; var l := Links([0], 0);
            CanLink(b, 1, l) && Needed(l) == [Node(0)] && WithNode(b, 1, l) == NeededByOne<nat>(0, 0).books
  {
  }

  /** Both nodes, of which the callers own the second. */
  function TwoNodes<W>(): State<W> {
    State(NeededByOne<nat>(0, 0).books, map[], map[], multiset{Context(0), Node(1)})
  }

  lemma TwoNodesIsGood<W>()
    ensures Good(TwoNodes<W>())
  {
    OneNodeIsGood<W>();
    TwoNodesBooks();
    var l := Links([0], 0);
    assert multiset{Context(0), Node(0)} - multiset(Needed(l)) + multiset{Node(1)} == multiset{Context(0), Node(1)};
    NewNodeIsGood(OneNode<W>(), 1, l);
  }

  lemma NeededByOneIsGood<W>(w: W, k: nat)
    ensures Good(NeededByOne(w, k))
  {
    TwoNodesIsGood<W>();
    assert TwoNodes<W>().callers - multiset{Node(1)} == multiset{Context(0)};
    GivenIsGood(TwoNodes<W>(), w, Node(1), k);
  }

  /** A new wrapper takes over a caller's reference. */
  lemma GivenIsGood<W>(s: World<W>, w: W, h: Handle, k: nat)
    requires s.wrappers == map[] && s.registered == map[] && h in s.callers
    ensures var slot := SlotOf(s.books.nodes, Wrapper(h, k));
            Good(State(s.books, map[slot := w], map[w := Wrapper(h, k)], s.callers - multiset{h}))
  {
    var t := Construct(s, w);
    assert t.wrappers == map[w := Wrapper(Nothing, 0)];
    assert Attach(t, w, h, k).wrappers == map[w := Wrapper(h, k)];
    assert Attach(t, w, h, k).registered == map[SlotOf(s.books.nodes, Wrapper(h, k)) := w];
  }

  /**
   * Setting that wrapper to the first node goes wrong: the node exists, but it is destroyed with the second one
   * before it gets a new reference.
   */
  lemma NeededGoesToo<W>(w: W, k: nat)
    ensures var s := NeededByOne(w, k);
            Good(s) && Node(0) in s.books.refs && Node(0) !in LetGo(s, w).books.refs && !AliveWithout(s, w, Node(0))
  {
    NeededByOneIsGood(w, k);
    NothingReached(w, k);
    SafeIfAliveWithout(NeededByOne(w, k), w, Node(0));
  }

  lemma NothingReached<W>(w: W, k: nat)
    ensures !AliveWithout(NeededByOne(w, k), w, Node(0))
  {
    var p := Abstract(NeededByOne(w, k));
    var q := p.(holds := p.holds[w := Nothing]);
    assert forall v :: v in q.holds ==> q.holds[v] == Nothing;
    assert forall path :: path != [] ==> !IsOwned(q, Node(path[0]));
  }

  /** A context that only its node keeps, and a wrapper that alone owns the node. */
  function KeptByNode<W>(w: W, k: nat): State<W> {
    State(
      Books(map[Context(0) := 1, Node(0) := 1], map[0 := Links([], 0)]),
      map[Slot(0, k) := w],
      map[w := Wrapper(Node(0), k)],
      multiset{})
  }

  lemma KeptByNodeBooks()
    ensures Lowered(OneNode<nat>().books, Context(0)) == KeptByNode<nat>(0, 0).books
  {
  }

  lemma KeptByNodeIsGood<W>(w: W, k: nat)
    ensures Good(KeptByNode(w, k))
  {
    OneNodeIsGood<W>();
    KeptByNodeBooks();
    OwnedExists(OneNode<W>(), Context(0));
    assert OneNode<W>().callers - multiset{Context(0)} == multiset{Node(0)};
    var s := Release(OneNode<W>(), Context(0));
    assert s.callers - multiset{Node(0)} == multiset{};
    GivenIsGood(s, w, Node(0), k);
  }

  /**
   * A forced shutdown of that context goes wrong: the context is gone when its only node has been destroyed, while
   * the wrapper is still registered and would have had to be told.
   */
  lemma ShutdownTooEarly<W>(w: W, k: nat)
    ensures var s := KeptByNode(w, k);
            && Good(s) && Context(0) in s.books.refs && !CanShutDown(s.books, 0) && s.registered[Slot(0, k)] == w
            && Forcible(s.books, 0, [0]) && Children(Destroyed(s.books, 0, [0]).nodes, 0) == {}
            && Context(0) !in Destroyed(s.books, 0, [0]).refs
  {
    KeptByNodeIsGood(w, k);
    var s := KeptByNode(w, k);
    assert Children(s.books.nodes, 0) == {0};
    assert Uses(s.books.nodes, Node(0)) == {};
    assert [0][1..] == [];
    ContextSurvives(s.books, 0, [0]);
  }

  // ---------- runs ----------

  function Construct<W>(s: World<W>, w: W): World<W>
    requires w !in s.wrappers
  {
    WithWrapperIsGood(s, w);
    WithWrapper(s, w)
  }

  function Destroy<W>(s: World<W>, w: W): World<W>
    requires w in s.wrappers
  {
    var t := LetGo(s, w);
    WithoutWrapperIsGood(t, w);
    WithoutWrapper(t, w)
  }

  function TakeOwnership<W>(s: World<W>, w: W, h: Handle, k: nat): World<W>
    requires CanSet(s, w, h, k) && (h == Nothing || h in s.callers)
  {
    SetHandleCallers(s, w, h, k);
    GiveUp(SetHandle(s, w, h, k), h)
  }

  /** Releases a caller's reference, if it is one to anything. */
  function GiveUp<W>(s: World<W>, h: Handle): World<W>
    requires h == Nothing || h in s.callers
  {
    if h == Nothing then s else Release(s, h)
  }

  /** TakeOwnership uses up one caller's reference, also when the wrapper holds the node already. */
  lemma TakeOwnershipIs<W>(s: World<W>, w: W, h: Handle, k: nat)
    requires CanSet(s, w, h, k) && (h == Nothing || h in s.callers)
    ensures var p := Abstract(s);
            Abstract(TakeOwnership(s, w, h, k)) ==
            var callers := if h == Nothing then p.callers else p.callers - multiset{h};
            Collected(p.(holds := p.holds[w := h], callers := callers))
  {
    var p := Abstract(s);
    SetHandleHolds(s, w, h, k);
    KeptAreAlive(p.(holds := p.holds[w := h], callers := if h == Nothing then p.callers else p.callers - multiset{h}),
                 TakeOwnership(s, w, h, k));
  }

  lemma HoldsWithout<W>(wrappers: map<W, Wrapper>, w: W, x: Wrapper)
    ensures Holds(wrappers[w := x] - {w}) == Holds(wrappers) - {w}
  {
  }

  lemma DestroyIs<W>(s: World<W>, w: W)
    requires w in s.wrappers
    ensures var p := Abstract(s); Abstract(Destroy(s, w)) == Collected(p.(holds := p.holds - {w}))
  {
    var p := Abstract(s);
    HoldsWithout(s.wrappers, w, s.wrappers[w].(handle := Nothing));
    KeptAreAlive(p.(holds := p.holds - {w}), Destroy(s, w));
  }

  ghost function PlainShutdown<W>(p: Plain<W>, c: nat): Plain<W> {
    Plain(
      NodesElsewhere(p.nodes, c),
      map w | w in p.holds :: if Belongs(p.nodes, p.holds[w], c) then Nothing else p.holds[w],
      Voided(p.callers, Belongings(p.nodes, c)))
  }

  /** k is where the library puts the callback, if one is registered. */
  datatype Op<!W> =
    | Init(context: nat)
    | CreateNode(node: nat, links: Links)
    | CallerAddRef(handle: Handle)
    | CallerRelease(handle: Handle)
    | Declare(wrapper: W)
    | Discard(wrapper: W)
    | Set(wrapper: W, handle: Handle, k: nat)
    | Assign(wrapper: W, from: W, k: nat)
    | Take(wrapper: W, handle: Handle, k: nat)
    | ForceShutdown(context: nat)

  /** What each operation may be given. Copying constructs a wrapper and assigns to it. */
  predicate Legal<W>(s: World<W>, op: Op<W>) {
    match op
    case Init(c) => Context(c) !in s.books.refs
    case CreateNode(n, l) => CanLink(s.books, n, l) && multiset(Needed(l)) <= s.callers
    case CallerAddRef(h) => h in s.books.refs
    case CallerRelease(h) => h in s.callers
    case Declare(w) => w !in s.wrappers
    case Discard(w) => w in s.wrappers
    case Set(w, h, k) => CanSet(s, w, h, k)
    case Assign(w, from, k) => from in s.wrappers && CanSet(s, w, s.wrappers[from].handle, k)
    case Take(w, h, k) => CanSet(s, w, h, k) && (h == Nothing || h in s.callers)
    case ForceShutdown(c) => IsOwned(Abstract(s), Context(c))
  }

  ghost function Step<W>(s: World<W>, op: Op<W>): World<W>
    requires Legal(s, op)
  {
    match op
    case Init(c) => NewContext(s, c)
    case CreateNode(n, l) => NewNode(s, n, l)
    case CallerAddRef(h) => AddRef(s, h)
    case CallerRelease(h) => Release(s, h)
    case Declare(w) => Construct(s, w)
    case Discard(w) => Destroy(s, w)
    case Set(w, h, k) => SetHandle(s, w, h, k)
    case Assign(w, from, k) => SetHandle(s, w, s.wrappers[from].handle, k)
    case Take(w, h, k) => TakeOwnership(s, w, h, k)
    case ForceShutdown(c) =>
      CanShutDownIfOwned(s, c);
      Shutdown(s, c)
  }

  ghost predicate Runs<W>(s: World<W>, ops: seq<Op<W>>)
    decreases |ops|
  {
    ops != [] ==> Legal(s, ops[0]) && Runs(Step(s, ops[0]), ops[1..])
  }

  ghost function After<W>(s: World<W>, ops: seq<Op<W>>): World<W>
    requires Runs(s, ops)
    decreases |ops|
  {
    if ops == [] then s else After(Step(s, ops[0]), ops[1..])
  }

  /** What the operations mean when nothing is counted: references change hands, and what nothing reaches vanishes. */
  ghost function Meaning<W>(p: Plain<W>, op: Op<W>): Plain<W> {
    match op
    case Init(c) => p.(callers := p.callers + multiset{Context(c)})
    case CreateNode(n, l) =>
      p.(nodes := p.nodes[n := l], callers := p.callers - multiset(Needed(l)) + multiset{Node(n)})
    case CallerAddRef(h) => p.(callers := p.callers + multiset{h})
    case CallerRelease(h) => Collected(p.(callers := p.callers - multiset{h}))
    case Declare(w) => p.(holds := p.holds[w := Nothing])
    case Discard(w) => Collected(p.(holds := p.holds - {w}))
    case Set(w, h, _) => Collected(p.(holds := p.holds[w := h]))
    case Assign(w, from, _) => Collected(p.(holds := p.holds[w := if from in p.holds then p.holds[from] else Nothing]))
    case Take(w, h, _) =>
      Collected(p.(holds := p.holds[w := h], callers := if h == Nothing then p.callers else p.callers - multiset{h}))
    case ForceShutdown(c) => PlainShutdown(p, c)
  }

  ghost function MeaningOf<W>(p: Plain<W>, ops: seq<Op<W>>): Plain<W>
    decreases |ops|
  {
    if ops == [] then p else MeaningOf(Meaning(p, ops[0]), ops[1..])
  }

  lemma SettingIsMeaning<W>(s: World<W>, op: Op<W>)
    requires Legal(s, op) && (op.Set? || op.Assign? || op.Take?)
    ensures Abstract(Step(s, op)) == Meaning(Abstract(s), op)
  {
    match op
    case Set(w, h, k) => SetHandleIs(s, w, h, k);
    case Assign(w, from, k) => SetHandleIs(s, w, s.wrappers[from].handle, k);
    case Take(w, h, k) => TakeOwnershipIs(s, w, h, k);
  }

  lemma ReleasingIsMeaning<W>(s: World<W>, op: Op<W>)
    requires Legal(s, op) && (op.CallerRelease? || op.Discard?)
    ensures Abstract(Step(s, op)) == Meaning(Abstract(s), op)
  {
    match op
    case CallerRelease(h) => ReleaseIs(s, h);
    case Discard(w) => DestroyIs(s, w);
  }

  lemma AddingIsMeaning<W>(s: World<W>, op: Op<W>)
    requires Legal(s, op) && (op.Init? || op.CreateNode? || op.CallerAddRef? || op.Declare?)
    ensures Abstract(Step(s, op)) == Meaning(Abstract(s), op)
  {
    if op.Declare? {
      HoldsAfter(s.wrappers, op.wrapper, Wrapper(Nothing, 0));
    }
  }

  lemma ShutdownIsMeaning<W>(s: World<W>, c: nat)
    requires CanShutDown(s.books, c)
    ensures Abstract(Shutdown(s, c)) == PlainShutdown(Abstract(s), c)
  {
  }

  lemma StepIsMeaning<W>(s: World<W>, op: Op<W>)
    requires Legal(s, op)
    ensures Abstract(Step(s, op)) == Meaning(Abstract(s), op)
  {
    match op
    case Set(_, _, _) | Assign(_, _, _) | Take(_, _, _) => SettingIsMeaning(s, op);
    case CallerRelease(_) | Discard(_) => ReleasingIsMeaning(s, op);
    case Init(_) | CreateNode(_, _) | CallerAddRef(_) | Declare(_) => AddingIsMeaning(s, op);
    case ForceShutdown(c) =>
      CanShutDownIfOwned(s, c);
      ShutdownIsMeaning(s, c);
  }

  /**
   * In every run, counting references keeps exactly the nodes that callers and wrappers reach, and every count
   * is the number of owners: the state is a good one throughout.
   */
  lemma {:induction false} RunIsMeaning<W>(s: World<W>, ops: seq<Op<W>>)
    requires Runs(s, ops)
    ensures Abstract(After(s, ops)) == MeaningOf(Abstract(s), ops)
    decreases |ops|
  {
    if ops == [] {
    } else {
      StepIsMeaning(s, ops[0]);
      RunIsMeaning(Step(s, ops[0]), ops[1..]);
    }
  }

  // ---------- the context is kept while a wrapper works ----------

  lemma RaisedThenLowered(refs: map<Handle, nat>, h: Handle)
    requires h in refs
    ensures refs[h := refs[h] + 1][h := refs[h]] == refs
  {
  }

  lemma DropAfterRaise(b: Ledger, h: Handle)
    requires h in b.refs
    ensures Extra(Raised(b, h), h) >= 1 && Kept(Raised(b, h)) && Drop(Raised(b, h), h) == b
  {
    RaisedIsKept(b, h);
    RaisedThenLowered(b.refs, h);
    assert Extra(b, h) >= 0;
  }

  lemma CancelReferences(callers: multiset<Handle>, taken: Handle, other: Handle)
    ensures callers + multiset{taken} + multiset{other} - multiset{taken} == callers + multiset{other}
    ensures other in callers ==>
            callers + multiset{taken} - multiset{other} - multiset{taken} == callers - multiset{other}
  {
  }

  /** Taking a reference to the context while the callback is unregistered changes nothing in the end. */
  lemma DetachMeanwhile<W>(s: World<W>, w: W, c: nat)
    requires w in s.wrappers && s.wrappers[w].handle != Nothing && Context(c) in s.books.refs
    ensures Release(Detach(AddRef(s, Context(c)), w), Context(c)) == Detach(s, w)
  {
    CancelReferences(s.callers, Context(c), s.wrappers[w].handle);
    DropAfterRaise(s.books, Context(c));
  }

  lemma AttachMeanwhile<W>(s: World<W>, w: W, h: Handle, k: nat, c: nat)
    requires IsEmpty(s, w) && Context(c) in s.books.refs && h in s.callers && IsFree(s, h, k)
    ensures Release(Attach(AddRef(s, Context(c)), w, h, k), Context(c)) == Attach(s, w, h, k)
  {
    CancelReferences(s.callers, Context(c), h);
    DropAfterRaise(s.books, Context(c));
  }
}
