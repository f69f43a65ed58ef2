/**
 * The smart handles (Include/XnCppWrapper.h) over the reference counts of the C library
 * (Source/OpenNI/XnOpenNI.cpp).
 */
module Wrappers {
  import opened References
  import opened Shutdowns
  import opened Ownership

  datatype Holder = OfNode(node: NodeWrapper) | OfContext(context: ContextWrapper)

  /** The wrappers that are registered with a context. */
  function CalledBack(registered: map<Slot, Holder>, c: nat): set<Holder> {
    set slot | slot in registered && slot.context == c :: registered[slot]
  }

  function NodesCalled(registered: map<Slot, Holder>, c: nat): set<NodeWrapper> {
    set slot | slot in registered && slot.context == c && registered[slot].OfNode? :: registered[slot].node
  }

  function ContextsCalled(registered: map<Slot, Holder>, c: nat): set<ContextWrapper> {
    set slot | slot in registered && slot.context == c && registered[slot].OfContext? :: registered[slot].context
  }

  /** The part of the C library that counts references and keeps the shutdown callbacks. */
  class Library {
    var refs: map<Handle, nat>
    var nodes: map<nat, Links>
    var registered: map<Slot, Holder>
    var next: nat
    ghost var world: World<Holder>

    ghost function Now(): Books
      reads this
    {
      Books(refs, nodes)
    }

    /** The counts are those of a good state; every callback that is registered has been given out before. */
    ghost predicate Sane()
      reads this
    {
      && (Now(), registered) == (world.books, world.registered)
      && forall slot :: slot in registered ==> slot.callback < next
    }

    constructor ()
      ensures Sane() && world == NoState()
    {
      refs, nodes, registered, next := map[], map[], map[], 0;
      world := NoState();
    }

    // ---------- counts ----------

    /** A context whose count falls to zero is destroyed. */
    method DropContext(c: nat, ghost b: Ledger)
      requires Now() == b && Extra(b, Context(c)) >= 1
      modifies this`refs
      ensures Now() == Drop(b, Context(c))
    {
      var count := refs[Context(c)] - 1;
      if count == 0 {
        DestroyContext(c, b);
      } else {
        refs := refs[Context(c) := count];
      }
    }

    method DestroyContext(c: nat, ghost b: Ledger)
      requires Now() == b && Context(c) in b.refs && Uses(nodes, Context(c)) == {}
      modifies this`refs
      ensures Now() == WithoutContext(b, c)
    {
      refs := refs - {Context(c)};
    }

    /** So is a node. */
    method DropNode(n: nat, ghost b: Ledger)
      requires Now() == b && Extra(b, Node(n)) >= 1
      modifies this`refs, this`nodes
      ensures Now() == Drop(b, Node(n))
      decreases |b.nodes|, 1
    {
      var count := refs[Node(n)] - 1;
      if count == 0 {
        DestroyNode(n, b);
      } else {
        refs := refs[Node(n) := count];
      }
    }

    /** A node that is destroyed gives up what it needs, and then its context. */
    method DestroyNode(n: nat, ghost b: Ledger)
      requires Now() == b && n in nodes && Uses(nodes, Node(n)) == {}
      modifies this`refs, this`nodes
      ensures Now() == Gone(b, n)
      decreases |b.nodes|, 0
    {
      WithoutNodeIsKept(b, n);
      TargetsAreOwed(b, n);
      var l := nodes[n];
      refs, nodes := refs - {Node(n)}, nodes - {n};
      DropTargets(l, WithoutNode(b, n));
    }

    method DropTargets(l: Links, ghost b: Ledger)
      requires Now() == b && Owes(b, multiset(Targets(l)))
      modifies this`refs, this`nodes
      ensures Now() == DropAll(b, Targets(l))
      decreases |b.nodes|, 3
    {
      OwedAtFirst(b, Targets(l), |l.needs|);
      LastTarget(l);
      DropNeeded(l, b, Targets(l));
      DropContext(l.parent, DropAll(b, Targets(l)[..|l.needs|]));
    }

    method DropNeeded(l: Links, ghost b: Ledger, ghost hs: seq<Handle>)
      requires Now() == b && Owes(b, multiset(hs)) && hs == Targets(l)
      modifies this`refs, this`nodes
      ensures Owes(b, multiset(hs[..|l.needs|])) && Now() == DropAll(b, hs[..|l.needs|])
      decreases |b.nodes|, 2
    {
      OwedAtFirst(b, hs, 0);
      for i := 0 to |l.needs|
        invariant Owes(b, multiset(hs[..i])) && Now() == DropAll(b, hs[..i])
      {
        OwedAtFirst(b, hs, i);
        DropNode(l.needs[i], DropAll(b, hs[..i]));
      }
    }

    // ---------- what the wrappers call ----------

    method AddRef(h: Handle)
      requires Sane() && h in refs
      modifies this`refs, this`world
      ensures Sane() && world == Ownership.AddRef(old(world), h)
    {
      refs := refs[h := refs[h] + 1];
      world := Ownership.AddRef(world, h);
    }

    /** A context that is destroyed at its last reference has no callbacks left. */
    method ReleaseContext(c: nat)
      requires Sane() && Context(c) in world.callers
      modifies this`refs, this`world
      ensures Sane() && world == Release(old(world), Context(c))
      ensures Context(c) !in refs ==> forall slot :: slot in registered ==> slot.context != c
    {
      OwnedExists(world, Context(c));
      DropContext(c, world.books);
      world := Release(world, Context(c));
      RegisteredExists(world);
    }

    method ReleaseNode(n: nat)
      requires Sane() && Node(n) in world.callers
      modifies this`refs, this`nodes, this`world
      ensures Sane() && world == Release(old(world), Node(n))
    {
      OwnedExists(world, Node(n));
      DropNode(n, world.books);
      world := Release(world, Node(n));
    }

    method CreateContext(c: nat)
      requires Sane() && Context(c) !in refs
      modifies this`refs, this`world
      ensures Sane() && world == NewContext(old(world), c)
    {
      refs := refs[Context(c) := 1];
      world := NewContext(world, c);
    }

    method LinkNode(n: nat, l: Links, ghost b: Ledger)
      requires Now() == b && CanLink(b, n, l)
      modifies this`refs, this`nodes
      ensures Now() == WithNode(b, n, l)
    {
      refs := refs[Context(l.parent) := refs[Context(l.parent)] + 1];
      refs, nodes := refs[Node(n) := 1], nodes[n := l];
    }

    /** The new node keeps the references that the callers took to the nodes it needs. */
    method CreateNode(n: nat, l: Links)
      requires Sane() && CanLink(world.books, n, l) && multiset(Needed(l)) <= world.callers
      modifies this`refs, this`nodes, this`world
      ensures Sane() && world == NewNode(old(world), n, l)
    {
      LinkNode(n, l, world.books);
      NoteNode(n, l);
    }

    ghost method NoteNode(n: nat, l: Links)
      requires CanLink(world.books, n, l) && multiset(Needed(l)) <= world.callers
      requires (Now(), registered) == (WithNode(world.books, n, l), world.registered)
      requires forall slot :: slot in registered ==> slot.callback < next
      modifies this`world
      ensures Sane() && world == NewNode(old(world), n, l)
    {
      world := NewNode(world, n, l);
    }

    method GetRefContext(n: nat) returns (c: nat)
      requires Sane() && Node(n) in refs
      modifies this`refs, this`world
      ensures Sane() && n in nodes && c == nodes[n].parent && Context(c) in old(refs)
      ensures world == Ownership.AddRef(old(world), Context(c))
    {
      ParentExists(world.books, n);
      c := nodes[n].parent;
      AddRef(Context(c));
    }

    /** The wrapper takes over one of the callers' references. */
    method Register(c: nat, x: Holder, ghost h: Handle) returns (k: nat)
      requires Sane() && IsEmpty(world, x) && h in world.callers
      requires forall j :: SlotOf(nodes, Wrapper(h, j)) == Slot(c, j)
      modifies this`registered, this`next, this`world
      ensures Sane() && k == old(next) && IsFree(old(world), h, k) && world == Attach(old(world), x, h, k)
    {
      k := next;
      assert SlotOf(nodes, Wrapper(h, k)) == Slot(c, k);
      registered, next := registered[Slot(c, k) := x], next + 1;
      world := Attach(world, x, h, k);
    }

    /** The wrapper leaves its reference to the running code. */
    method Unregister(c: nat, k: nat, ghost x: Holder)
      requires Sane() && x in world.wrappers && world.wrappers[x].handle != Nothing
      requires SlotOf(nodes, world.wrappers[x]) == Slot(c, k)
      modifies this`registered, this`world
      ensures Sane() && world == Detach(old(world), x)
    {
      registered := registered - {Slot(c, k)};
      world := Detach(world, x);
    }

    // ---------- forced shutdown ----------

    /** Whether another node of the context needs it. */
    method IsNeeded(n: nat) returns (needed: bool)
      requires n in nodes
      ensures needed <==> exists m :: m in nodes && n in nodes[m].needs
    {
      var left := nodes.Keys;
      while left != {}
        invariant left <= nodes.Keys
        invariant forall m :: m in nodes && m !in left ==> n !in nodes[m].needs
        decreases left
      {
        var m :| m in left;
        left := left - {m};
        if n in nodes[m].needs {
          return true;
        }
      }
      needed := false;
    }

    /** The inner loop: it always finds a node that no other needs. */
    method FindUnneeded(c: nat, ghost b: Ledger) returns (n: nat)
      requires Now() == b && Children(nodes, c) != {}
      ensures Unneeded(b, c, n)
    {
      ghost var some := SomeUnneeded(b, c);
      NeededIsUsed(nodes, some);
      var left := Children(nodes, c);
      while true
        invariant some in left && left <= Children(nodes, c)
        decreases left
      {
        n :| n in left;
        left := left - {n};
        NeededIsUsed(nodes, n);
        var needed := IsNeeded(n);
        if !needed {
          return;
        }
      }
    }

    /** All nodes of the context are destroyed, each when no other needs it; the context outlives them. */
    method DestroyNodes(c: nat, ghost b: Ledger)
      requires Now() == b && CanShutDown(b, c)
      modifies this`refs, this`nodes
      ensures Context(c) in refs && WithoutContext(Now(), c) == Elsewhere(b, c)
    {
      ghost var now, picks: seq<nat> := b, [];
      while Children(nodes, c) != {}
        invariant Now() == now && Forcible(b, c, picks) && Destroyed(b, c, picks) == now
        decreases |now.nodes|
      {
        var n := FindUnneeded(c, now);
        ContextMeanwhile(b, c, picks);
        OneMorePick(b, c, picks, n);
        DestroyNode(n, now);
        now, picks := Gone(now, n), picks + [n];
      }
      ContextSurvives(b, c, picks);
      DestroyedIsElsewhere(b, c, picks);
    }

    /** The shutdown event calls back the wrappers that are registered with the context. */
    method RaiseShutdown(c: nat)
      modifies NodesCalled(registered, c), ContextsCalled(registered, c)
      ensures unchanged(this)
      ensures forall w :: w in NodesCalled(registered, c) ==> w.handle == Nothing && w.callback == old(w.callback)
      ensures forall w :: w in ContextsCalled(registered, c) ==> w.handle == Nothing && w.callback == old(w.callback)
    {
      var called := CalledBack(registered, c);
      var left := called;
      while left != {}
        invariant unchanged(this) && left <= called
        invariant forall w :: OfNode(w) in called ==>
                  (OfNode(w) !in left ==> w.handle == Nothing) && w.callback == old(w.callback)
        invariant forall w :: OfContext(w) in called ==>
                  (OfContext(w) !in left ==> w.handle == Nothing) && w.callback == old(w.callback)
        decreases left
      {
        var x :| x in left;
        left := left - {x};
        match x {
          case OfNode(w) => w.handle := Nothing;
          case OfContext(w) => w.handle := Nothing;
        }
      }
    }

    /** The last step of a shutdown: what is left belongs to other contexts. */
    method EraseContext(c: nat)
      requires CanShutDown(world.books, c) && WithoutContext(Now(), c) == Elsewhere(world.books, c)
      requires registered == world.registered && forall slot :: slot in registered ==> slot.callback < next
      modifies this`refs, this`registered, this`world
      ensures Sane() && world == Shutdown(old(world), c)
    {
      refs := refs - {Context(c)};
      registered := map slot | slot in registered && slot.context != c :: registered[slot];
      world := Shutdown(world, c);
    }

    /** Destroys a context with its nodes, and tells the wrappers. */
    method ForceDestroy(c: nat)
      requires Sane() && CanShutDown(world.books, c)
      modifies this`refs, this`nodes, this`registered, this`world
      modifies NodesCalled(registered, c), ContextsCalled(registered, c)
      ensures Sane() && world == Shutdown(old(world), c)
      ensures forall w :: w in NodesCalled(old(registered), c) ==> w.handle == Nothing && w.callback == old(w.callback)
      ensures forall w :: w in ContextsCalled(old(registered), c) ==>
              w.handle == Nothing && w.callback == old(w.callback)
    {
      DestroyNodes(c, world.books);
      RaiseShutdown(c);
      EraseContext(c);
    }

    /** What the library has noted of the wrappers stays true of them, whether they were called back or not. */
    method ForceShutdown(c: nat)
      requires Sane() && CanShutDown(world.books, c)
      modifies this`refs, this`nodes, this`registered, this`world
      modifies NodesCalled(registered, c), ContextsCalled(registered, c)
      ensures Sane() && world == Shutdown(old(world), c)
      ensures forall w: NodeWrapper :: old(allocated(w) && Notes(w)) ==> Notes(w)
      ensures forall w: ContextWrapper :: old(allocated(w) && NotesContext(w)) ==> NotesContext(w)
      ensures forall w: NodeWrapper :: old(allocated(w) && Notes(w)) ==> !Belongs(old(nodes), w.handle, c)
      ensures forall w: ContextWrapper :: old(allocated(w) && NotesContext(w)) ==> !Belongs(old(nodes), w.handle, c)
    {
      ghost var s, called := world, CalledBack(registered, c);
      ForceDestroy(c);
      ShutdownEmpties(s, c, called);
      ShutdownLeavesNothing(s, c);
      forall w: NodeWrapper | old(allocated(w) && Notes(w))
        ensures Notes(w)
      {
        assert OfNode(w) in called <==> w in NodesCalled(old(registered), c);
        assert OfNode(w) in called || (w.handle == old(w.handle) && w.callback == old(w.callback));
      }
      forall w: ContextWrapper | old(allocated(w) && NotesContext(w))
        ensures NotesContext(w)
      {
        assert OfContext(w) in called <==> w in ContextsCalled(old(registered), c);
        assert OfContext(w) in called || (w.handle == old(w.handle) && w.callback == old(w.callback));
      }
    }

    ghost method Enroll(x: Holder)
      requires Sane() && x !in world.wrappers
      modifies this`world
      ensures Sane() && world == Construct(old(world), x)
    {
      world := Construct(world, x);
    }

    ghost method Dismiss(x: Holder)
      requires Sane() && x in world.wrappers && world.wrappers[x].handle == Nothing
      modifies this`world
      ensures Sane() && world == Destroy(old(world), x)
    {
      world := Destroy(world, x);
    }

    ghost predicate Holds(x: Holder, h: Handle, k: nat)
      reads this
    {
      x in world.wrappers && world.wrappers[x] == Wrapper(h, k)
    }

    /** The library has noted what a wrapper holds. */
    ghost predicate Notes(w: NodeWrapper)
      reads this, w
    {
      Holds(OfNode(w), w.handle, w.callback)
    }

    ghost predicate NotesContext(w: ContextWrapper)
      reads this, w
    {
      Holds(OfContext(w), w.handle, w.callback)
    }
  }

  class NodeWrapper {
    var handle: Handle
    var callback: nat

    /** The wrapper unregisters from its context, and releases its node. */
    method LetGo(lib: Library)
      requires lib.Sane() && lib.Notes(this) && !handle.Context?
      modifies lib`refs, lib`nodes, lib`registered, lib`world
      ensures lib.Sane() && lib.world == Ownership.LetGo(old(lib.world), OfNode(this))
      ensures lib.Holds(OfNode(this), Nothing, callback)
    {
      if handle != Nothing {
        ghost var s := lib.world;
        HeldExists(s, OfNode(this));
        var c := lib.GetRefContext(handle.node);
        lib.Unregister(c, callback, OfNode(this));
        lib.ReleaseContext(c);
        DetachMeanwhile(s, OfNode(this), c);
        lib.ReleaseNode(handle.node);
      }
    }

    /** The wrapper takes a reference to a node, and registers with its context. */
    method Hold(lib: Library, h: Handle)
      requires lib.Sane() && lib.Holds(OfNode(this), Nothing, callback)
      requires !h.Context? && (h == Nothing || h in lib.refs)
      modifies this`callback, lib`refs, lib`registered, lib`next, lib`world
      ensures lib.Sane() && (h != Nothing ==> IsFree(old(lib.world), h, callback))
      ensures lib.world == Settled(old(lib.world), OfNode(this), h, callback)
      ensures lib.Holds(OfNode(this), h, callback)
    {
      if h != Nothing {
        lib.AddRef(h);
        ghost var s := lib.world;
        var c := lib.GetRefContext(h.node);
        callback := lib.Register(c, OfNode(this), h);
        lib.ReleaseContext(c);
        AttachMeanwhile(s, OfNode(this), h, callback, c);
        TakenIs(old(lib.world), OfNode(this), h, callback);
      }
    }

    /** Replaces what the wrapper holds. By SafeIfAliveWithout the condition is that h is alive without it. */
    method SetHandle(lib: Library, h: Handle)
      requires lib.Sane() && lib.Notes(this) && !h.Context? && !handle.Context?
      requires h == Nothing || handle == h || h in Ownership.LetGo(lib.world, OfNode(this)).books.refs
      modifies this, lib`refs, lib`nodes, lib`registered, lib`next, lib`world
      ensures lib.Sane() && lib.Notes(this) && handle == h && CanSet(old(lib.world), OfNode(this), h, callback)
      ensures lib.world == Ownership.SetHandle(old(lib.world), OfNode(this), h, callback)
    {
      if handle != h {
        LetGo(lib);
        Hold(lib, h);
        handle := h;
      }
    }

    method GiveUp(lib: Library, h: Handle)
      requires lib.Sane() && !h.Context? && (h == Nothing || h in lib.world.callers)
      modifies lib`refs, lib`nodes, lib`world
      ensures lib.Sane() && lib.world == Ownership.GiveUp(old(lib.world), h)
              && lib.world.wrappers == old(lib.world.wrappers)
    {
      if h != Nothing {
        lib.ReleaseNode(h.node);
      }
    }

    /** Uses up one of the callers' references to the node. */
    method TakeOwnership(lib: Library, h: Handle)
      requires lib.Sane() && lib.Notes(this) && !h.Context? && !handle.Context?
      requires h == Nothing || h in lib.world.callers
      modifies this, lib`refs, lib`nodes, lib`registered, lib`next, lib`world
      ensures lib.Sane() && lib.Notes(this) && handle == h && CanSet(old(lib.world), OfNode(this), h, callback)
      ensures lib.world == Ownership.TakeOwnership(old(lib.world), OfNode(this), h, callback)
    {
      if h != Nothing {
        OwnedElsewhereIsSafe(lib.world, OfNode(this), h);
      }
      SetHandle(lib, h);
      SetHandleCallers(old(lib.world), OfNode(this), h, callback);
      GiveUp(lib, h);
    }

    constructor (lib: Library, h: Handle)
      requires lib.Sane() && !h.Context? && (h == Nothing || h in lib.refs)
      modifies lib`refs, lib`nodes, lib`registered, lib`next, lib`world
      ensures lib.Sane() && lib.Notes(this) && handle == h && OfNode(this) !in old(lib.world).wrappers
      ensures var s := Construct(old(lib.world), OfNode(this));
              CanSet(s, OfNode(this), h, callback) && lib.world == Ownership.SetHandle(s, OfNode(this), h, callback)
    {
      handle, callback := Nothing, 0;
      new;
      lib.Enroll(OfNode(this));
      SetHandle(lib, h);
    }

    constructor Copy(lib: Library, other: NodeWrapper)
      requires lib.Sane() && lib.Notes(other) && !other.handle.Context?
      modifies lib`refs, lib`nodes, lib`registered, lib`next, lib`world
      ensures lib.Sane() && lib.Notes(this) && handle == other.handle && OfNode(this) !in old(lib.world).wrappers
      ensures var s := Construct(old(lib.world), OfNode(this));
              && CanSet(s, OfNode(this), handle, callback)
              && lib.world == Ownership.SetHandle(s, OfNode(this), handle, callback)
    {
      handle, callback := Nothing, 0;
      new;
      lib.Enroll(OfNode(this));
      HeldByOther(lib.world, OfNode(this), OfNode(other));
      SetHandle(lib, other.handle);
    }

    /** The destructor. */
    method Destroy(lib: Library)
      requires lib.Sane() && lib.Notes(this) && !handle.Context?
      modifies this, lib`refs, lib`nodes, lib`registered, lib`next, lib`world
      ensures lib.Sane() && lib.world == Ownership.Destroy(old(lib.world), OfNode(this))
    {
      SetHandle(lib, Nothing);
      lib.Dismiss(OfNode(this));
    }

    method Assign(lib: Library, other: NodeWrapper)
      requires lib.Sane() && lib.Notes(this) && lib.Notes(other) && !handle.Context? && !other.handle.Context?
      modifies this, lib`refs, lib`nodes, lib`registered, lib`next, lib`world
      ensures lib.Sane() && lib.Notes(this) && handle == old(other.handle)
              && CanSet(old(lib.world), OfNode(this), handle, callback)
      ensures lib.world == Ownership.SetHandle(old(lib.world), OfNode(this), handle, callback)
    {
      HeldByOther(lib.world, OfNode(this), OfNode(other));
      SetHandle(lib, other.handle);
    }
  }

  /** The class Context, without its deprecated ways. */
  class ContextWrapper {
    var handle: Handle
    var callback: nat

    method LetGo(lib: Library)
      requires lib.Sane() && lib.NotesContext(this) && !handle.Node?
      modifies lib`refs, lib`registered, lib`world
      ensures lib.Sane() && lib.world == Ownership.LetGo(old(lib.world), OfContext(this))
      ensures lib.Holds(OfContext(this), Nothing, callback)
    {
      if handle != Nothing {
        lib.Unregister(handle.context, callback, OfContext(this));
        lib.ReleaseContext(handle.context);
      }
    }

    method Hold(lib: Library, h: Handle)
      requires lib.Sane() && lib.Holds(OfContext(this), Nothing, callback)
      requires !h.Node? && (h == Nothing || h in lib.refs)
      modifies this`callback, lib`refs, lib`registered, lib`next, lib`world
      ensures lib.Sane() && (h != Nothing ==> IsFree(old(lib.world), h, callback))
      ensures lib.world == Settled(old(lib.world), OfContext(this), h, callback)
      ensures lib.Holds(OfContext(this), h, callback)
    {
      if h != Nothing {
        lib.AddRef(h);
        callback := lib.Register(h.context, OfContext(this), h);
        TakenIs(old(lib.world), OfContext(this), h, callback);
      }
    }

    /** The condition is the same for contexts. */
    method SetHandle(lib: Library, h: Handle)
      requires lib.Sane() && lib.NotesContext(this) && !h.Node? && !handle.Node?
      requires h == Nothing || handle == h || h in Ownership.LetGo(lib.world, OfContext(this)).books.refs
      modifies this, lib`refs, lib`registered, lib`next, lib`world
      ensures lib.Sane() && lib.NotesContext(this) && handle == h
              && CanSet(old(lib.world), OfContext(this), h, callback)
      ensures lib.world == Ownership.SetHandle(old(lib.world), OfContext(this), h, callback)
    {
      if handle != h {
        LetGo(lib);
        Hold(lib, h);
        handle := h;
      }
    }

    method GiveUp(lib: Library, h: Handle)
      requires lib.Sane() && !h.Node? && (h == Nothing || h in lib.world.callers)
      modifies lib`refs, lib`world
      ensures lib.Sane() && lib.world == Ownership.GiveUp(old(lib.world), h)
              && lib.world.wrappers == old(lib.world.wrappers)
    {
      if h != Nothing {
        lib.ReleaseContext(h.context);
      }
    }

    method TakeOwnership(lib: Library, h: Handle)
      requires lib.Sane() && lib.NotesContext(this) && !h.Node? && !handle.Node?
      requires h == Nothing || h in lib.world.callers
      modifies this, lib`refs, lib`registered, lib`next, lib`world
      ensures lib.Sane() && lib.NotesContext(this) && handle == h
              && CanSet(old(lib.world), OfContext(this), h, callback)
      ensures lib.world == Ownership.TakeOwnership(old(lib.world), OfContext(this), h, callback)
    {
      if h != Nothing {
        OwnedElsewhereIsSafe(lib.world, OfContext(this), h);
      }
      SetHandle(lib, h);
      SetHandleCallers(old(lib.world), OfContext(this), h, callback);
      GiveUp(lib, h);
    }

    constructor (lib: Library, h: Handle)
      requires lib.Sane() && !h.Node? && (h == Nothing || h in lib.refs)
      modifies lib`refs, lib`registered, lib`next, lib`world
      ensures lib.Sane() && lib.NotesContext(this) && handle == h && OfContext(this) !in old(lib.world).wrappers
      ensures var s := Construct(old(lib.world), OfContext(this));
              && CanSet(s, OfContext(this), h, callback)
              && lib.world == Ownership.SetHandle(s, OfContext(this), h, callback)
    {
      handle, callback := Nothing, 0;
      new;
      lib.Enroll(OfContext(this));
      SetHandle(lib, h);
    }

    constructor Copy(lib: Library, other: ContextWrapper)
      requires lib.Sane() && lib.NotesContext(other) && !other.handle.Node?
      modifies lib`refs, lib`registered, lib`next, lib`world
      ensures lib.Sane() && lib.NotesContext(this) && handle == other.handle
              && OfContext(this) !in old(lib.world).wrappers
      ensures var s := Construct(old(lib.world), OfContext(this));
              && CanSet(s, OfContext(this), handle, callback)
              && lib.world == Ownership.SetHandle(s, OfContext(this), handle, callback)
    {
      handle, callback := Nothing, 0;
      new;
      lib.Enroll(OfContext(this));
      HeldByOther(lib.world, OfContext(this), OfContext(other));
      SetHandle(lib, other.handle);
    }

    method Assign(lib: Library, other: ContextWrapper)
      requires lib.Sane() && lib.NotesContext(this) && lib.NotesContext(other) && !handle.Node? && !other.handle.Node?
      modifies this, lib`refs, lib`registered, lib`next, lib`world
      ensures lib.Sane() && lib.NotesContext(this) && handle == old(other.handle)
              && CanSet(old(lib.world), OfContext(this), handle, callback)
      ensures lib.world == Ownership.SetHandle(old(lib.world), OfContext(this), handle, callback)
    {
      HeldByOther(lib.world, OfContext(this), OfContext(other));
      SetHandle(lib, other.handle);
    }

    /** The destructor. */
    method Destroy(lib: Library)
      requires lib.Sane() && lib.NotesContext(this) && !handle.Node?
      modifies this, lib`refs, lib`registered, lib`next, lib`world
      ensures lib.Sane() && lib.world == Ownership.Destroy(old(lib.world), OfContext(this))
    {
      SetHandle(lib, Nothing);
      lib.Dismiss(OfContext(this));
    }
  }
}
