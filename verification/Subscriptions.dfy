/**
 * What an event with deferred updates means, as a value: registrations and removals that wait, and
 * the plain list of subscribers that they stand for.
 */
module Subscriptions {
  import opened Sequences
  import opened Statuses

  /** A callback object, named by the order of its allocation: addresses are taken not to be reused. */
  type Handle = nat

  datatype Event = Event(
    active: seq<Handle>,
    toAdd: seq<Handle>,
    toRemove: seq<Handle>,
    next: Handle,  // the next object to be allocated
    freed: seq<Handle>  // the objects deleted so far, in order
  )

  const NO_EVENT := Event([], [], [], 0, [])

  /** In how many owning lists, or deletions, an object is. */
  ghost function Count(e: Event, h: Handle): nat {
    multiset(e.active)[h] + multiset(e.toAdd)[h] + multiset(e.freed)[h]
  }

  /** Every allocated object is either owned by one list, once, or was deleted, once. */
  ghost predicate Good(e: Event) {
    && (forall h: Handle :: Count(e, h) == if h < e.next then 1 else 0)
    && (forall h :: h in e.toRemove ==> h < e.next && h !in e.toAdd)
  }

  function Without(s: seq<Handle>, gone: seq<Handle>): seq<Handle> {
    if s == [] then []
    else if s[0] in gone then Without(s[1..], gone)
    else [s[0]] + Without(s[1..], gone)
  }

  /** Who would be called by a raise that started now. */
  function Subscribers(e: Event): seq<Handle> {
    Without(e.active + e.toAdd, e.toRemove)
  }

  // ---------- the operations ----------

  /** What a client or a handler may call. The flags say which allocations would succeed. */
  datatype Call =
    | Register(hasHandler: bool, canAllocateCallback: bool, canAllocateNode: bool)
    | Unregister(handle: Handle, canAllocateNode: bool)

  function StatusOf(e: Event, c: Call): Status {
    match c
    case Register(hasHandler, canAllocateCallback, canAllocateNode) =>
      if !hasHandler then NullInputPtr
      else if canAllocateCallback && canAllocateNode then Ok else AllocFailed
    case Unregister(handle, canAllocateNode) =>
      if handle in e.toAdd || canAllocateNode then Ok else AllocFailed
  }

  function Made(e: Event, c: Call): (r: Event)
    ensures r.active == e.active
  {
    match c
    case Register(hasHandler, canAllocateCallback, canAllocateNode) =>
      if !hasHandler || !canAllocateCallback then e
      else if canAllocateNode then e.(toAdd := e.toAdd + [e.next], next := e.next + 1)
      else e.(next := e.next + 1, freed := e.freed + [e.next])
    case Unregister(handle, canAllocateNode) =>
      if handle in e.toAdd then e.(toAdd := WithoutFirst(e.toAdd, handle), freed := e.freed + [handle])
      else if canAllocateNode then e.(toRemove := e.toRemove + [handle])
      else e
  }

  /** RemoveCallback on the active list: the first occurrence is unlinked and deleted. */
  function Dismissed(e: Event, h: Handle): Event {
    if h in e.active then e.(active := WithoutFirst(e.active, h), freed := e.freed + [h]) else e
  }

  function DismissedAll(e: Event, hs: seq<Handle>): Event {
    if hs == [] then e else Dismissed(DismissedAll(e, hs[..|hs| - 1]), hs[|hs| - 1])
  }

  function Applied(e: Event): Event {
    DismissedAll(e.(active := e.active + e.toAdd, toAdd := []), e.toRemove).(toRemove := [])
  }

  function Cleared(e: Event): Event {
    var a := Applied(e);
    a.(active := [], toAdd := [], toRemove := [], freed := a.freed + a.active)
  }

  // ---------- what each operation keeps ----------

  /** A handle may be given back only if it was issued. */
  predicate Issued(e: Event, c: Call) {
    c.Unregister? ==> c.handle < e.next
  }

  lemma {:induction false} WithoutIs(s: seq<Handle>, gone: seq<Handle>)
    ensures forall h :: multiset(Without(s, gone))[h] == if h in gone then 0 else multiset(s)[h]
    ensures forall h :: h in Without(s, gone) <==> h in s && h !in gone
  {
    if s == [] {
    } else {
      WithoutIs(s[1..], gone);
      assert s == [s[0]] + s[1..];
    }
  }

  lemma {:induction false} WithoutSplit(s: seq<Handle>, t: seq<Handle>, gone: seq<Handle>)
    ensures Without(s + t, gone) == Without(s, gone) + Without(t, gone)
  {
    if s == [] {
      assert s + t == t;
    } else {
      assert (s + t)[1..] == s[1..] + t;
      WithoutSplit(s[1..], t, gone);
    }
  }

  lemma {:induction false} WithoutMore(s: seq<Handle>, gone: seq<Handle>, h: Handle)
    ensures Without(s, gone + [h]) == Without(Without(s, gone), [h])
  {
    if s == [] {
    } else {
      WithoutMore(s[1..], gone, h);
      assert ([s[0]] + Without(s[1..], gone))[1..] == Without(s[1..], gone);
    }
  }

  lemma {:induction false} WithoutCommute(s: seq<Handle>, a: seq<Handle>, b: seq<Handle>)
    ensures Without(Without(s, a), b) == Without(Without(s, b), a)
  {
    if s == [] {
    } else {
      WithoutCommute(s[1..], a, b);
      assert ([s[0]] + Without(s[1..], a))[1..] == Without(s[1..], a);
      assert ([s[0]] + Without(s[1..], b))[1..] == Without(s[1..], b);
    }
  }

  lemma {:induction false} WithoutNone(s: seq<Handle>, gone: seq<Handle>)
    requires forall h :: h in s ==> h !in gone
    ensures Without(s, gone) == s
  {
    if s == [] {
    } else {
      WithoutNone(s[1..], gone);
    }
  }

  /** When a handle is at most once in a sequence, dropping its first occurrence drops it. */
  lemma {:induction false} WithoutOne(s: seq<Handle>, h: Handle)
    requires multiset(s)[h] <= 1
    ensures WithoutFirst(s, h) == Without(s, [h])
  {
    if s == [] {
    } else {
      assert s == [s[0]] + s[1..];
      if s[0] == h {
        WithoutNone(s[1..], [h]);
      } else {
        WithoutOne(s[1..], h);
      }
    }
  }

  /** What happened to the plain list of subscribers. */
  datatype Change = Joined(handle: Handle) | Left(handle: Handle)

  function ChangesOf(e: Event, c: Call): seq<Change> {
    if StatusOf(e, c) != Ok then []
    else if c.Register? then [Joined(e.next)]
    else [Left(c.handle)]
  }

  function Changed(subscribers: seq<Handle>, c: Change): seq<Handle> {
    if c.Joined? then subscribers + [c.handle] else Without(subscribers, [c.handle])
  }

  /** The reference meaning of a history: every change takes effect at once. */
  function Replay(subscribers: seq<Handle>, cs: seq<Change>): seq<Handle>
    decreases cs
  {
    if cs == [] then subscribers else Replay(Changed(subscribers, cs[0]), cs[1..])
  }

  lemma {:induction false} ReplaySplit(subscribers: seq<Handle>, cs: seq<Change>, ds: seq<Change>)
    ensures Replay(subscribers, cs + ds) == Replay(Replay(subscribers, cs), ds)
    decreases cs
  {
    if cs == [] {
      assert cs + ds == ds;
    } else {
      assert (cs + ds)[1..] == cs[1..] + ds;
      ReplaySplit(Changed(subscribers, cs[0]), cs[1..], ds);
    }
  }

  lemma ReplayOne(subscribers: seq<Handle>, c: Change)
    ensures Replay(subscribers, [c]) == Changed(subscribers, c)
  {
  }

  lemma RegisterKeeps(e: Event, c: Call)
    requires Good(e) && c.Register?
    ensures Good(Made(e, c))
    ensures Subscribers(Made(e, c)) == Replay(Subscribers(e), ChangesOf(e, c))
  {
    var e' := Made(e, c);
    ReplayOne(Subscribers(e), Joined(e.next));
    assert forall h: Handle :: Count(e', h) == Count(e, h) + if e'.next > e.next && h == e.next then 1 else 0;
    if StatusOf(e, c) == Ok {
      assert e'.active + e'.toAdd == (e.active + e.toAdd) + [e.next];
      WithoutSplit(e.active + e.toAdd, [e.next], e.toRemove);
      WithoutNone([e.next], e.toRemove);
    }
  }

  lemma UnregisterPendingIsGood(e: Event, h: Handle, e': Event)
    requires Good(e) && h in e.toAdd
    requires e' == e.(toAdd := Without(e.toAdd, [h]), freed := e.freed + [h])
    ensures Good(e')
  {
    WithoutIs(e.toAdd, [h]);
    forall k: Handle
      ensures Count(e', k) == Count(e, k)
    {
      assert k == h ==> Count(e, k) == 1;
    }
  }

  lemma UnregisterPendingDrops(e: Event, h: Handle)
    requires Good(e) && h in e.toAdd
    ensures Subscribers(e.(toAdd := Without(e.toAdd, [h]))) == Without(Subscribers(e), [h])
  {
    assert Count(e, h) == 1;
    WithoutSplit(e.active, e.toAdd, [h]);
    WithoutNone(e.active, [h]);
    WithoutCommute(e.active + e.toAdd, [h], e.toRemove);
  }

  /** Register extends the subscribers, Unregister takes one away, and neither touches the active list. */
  lemma MadeKeeps(e: Event, c: Call)
    requires Good(e) && Issued(e, c)
    ensures Good(Made(e, c))
    ensures Subscribers(Made(e, c)) == Replay(Subscribers(e), ChangesOf(e, c))
  {
    if c.Register? {
      RegisterKeeps(e, c);
      return;
    }
    ReplayOne(Subscribers(e), Left(c.handle));
    if c.handle in e.toAdd {
      assert Count(e, c.handle) == 1;
      WithoutOne(e.toAdd, c.handle);
      UnregisterPendingIsGood(e, c.handle, Made(e, c));
      UnregisterPendingDrops(e, c.handle);
    } else {
      assert forall k: Handle :: Count(Made(e, c), k) == Count(e, k);
      WithoutMore(e.active + e.toAdd, e.toRemove, c.handle);
    }
  }

  lemma RemovalInRest(s: seq<Handle>, k: nat)
    requires k + 1 < |s|
    ensures [s[0]] + (s[1..][..k] + s[1..][k + 1..]) == s[..k + 1] + s[k + 2..]
  {
  }

  lemma {:induction false} WithoutIsRemoval(s: seq<Handle>, h: Handle)
    requires h in s && multiset(s)[h] <= 1
    ensures exists k :: 0 <= k < |s| && s[k] == h && Without(s, [h]) == s[..k] + s[k + 1..]
  {
    var rest := s[1..];
    assert s == [s[0]] + rest;
    if s[0] == h {
      WithoutNone(rest, [h]);
      assert Without(s, [h]) == s[..0] + s[1..];
    } else {
      WithoutIsRemoval(rest, h);
      var k :| 0 <= k < |rest| && rest[k] == h && Without(rest, [h]) == rest[..k] + rest[k + 1..];
      RemovalInRest(s, k);
      assert s[k + 1] == h;
    }
  }

  /** Who subscribes after a registration, in the order of registration, and what became of the new object. */
  lemma RegisterIs(e: Event, hasHandler: bool, canAllocateCallback: bool, canAllocateNode: bool)
    requires Good(e)
    ensures var t := Made(e, Register(hasHandler, canAllocateCallback, canAllocateNode));
            && Subscribers(t) ==
               Subscribers(e) + (if hasHandler && canAllocateCallback && canAllocateNode then [e.next] else [])
            && t.next == (if hasHandler && canAllocateCallback then e.next + 1 else e.next)
            && t.freed ==
               e.freed + (if hasHandler && canAllocateCallback && !canAllocateNode then [e.next] else [])
  {
    RegisterKeeps(e, Register(hasHandler, canAllocateCallback, canAllocateNode));
    assert Subscribers(e) + [] == Subscribers(e) && e.freed + [] == e.freed;
  }

  /** Who subscribes after an unregistration that succeeds: all but the one, in the same order. */
  lemma UnregisterIs(e: Event, h: Handle, canAllocateNode: bool)
    requires Good(e) && h < e.next
    ensures var s, t := Subscribers(e), Subscribers(Made(e, Unregister(h, canAllocateNode)));
            if h in s && (h in e.toAdd || canAllocateNode)
            then exists k :: 0 <= k < |s| && s[k] == h && t == s[..k] + s[k + 1..]
            else t == s
  {
    var c := Unregister(h, canAllocateNode);
    var s := Subscribers(e);
    MadeKeeps(e, c);
    assert Count(e, h) == 1;
    WithoutIs(e.active + e.toAdd, e.toRemove);
    ReplayOne(s, Left(h));
    if h in s {
      WithoutIsRemoval(s, h);
    } else {
      WithoutNone(s, [h]);
    }
  }

  lemma DismissedIs(e: Event, h: Handle)
    requires Good(e) && h < e.next
    ensures Good(Dismissed(e, h)) && Dismissed(e, h).active == Without(e.active, [h])
    ensures Dismissed(e, h).toAdd == e.toAdd && Dismissed(e, h).toRemove == e.toRemove && Dismissed(e, h).next == e.next
  {
    var e' := Dismissed(e, h);
    assert Count(e, h) == 1;
    WithoutOne(e.active, h);
    WithoutIs(e.active, [h]);
    if h !in e.active {
      WithoutNone(e.active, [h]);
    }
    forall k: Handle
      ensures Count(e', k) == Count(e, k)
    {
    }
  }

  lemma {:induction false} DismissedAllIs(e: Event, hs: seq<Handle>)
    requires Good(e) && forall i :: 0 <= i < |hs| ==> hs[i] < e.next
    ensures var r := DismissedAll(e, hs);
            && Good(r) && r.active == Without(e.active, hs)
            && r.toAdd == e.toAdd && r.toRemove == e.toRemove && r.next == e.next
  {
    if hs == [] {
      WithoutNone(e.active, []);
    } else {
      var n := |hs| - 1;
      assert hs == hs[..n] + [hs[n]];
      DismissedAllIs(e, hs[..n]);
      DismissedIs(DismissedAll(e, hs[..n]), hs[n]);
      WithoutMore(e.active, hs[..n], hs[n]);
    }
  }

  /** Applying the changes makes the subscribers the active list, and leaves them what they were. */
  lemma AppliedKeeps(e: Event)
    requires Good(e)
    ensures Good(Applied(e)) && Applied(e).next == e.next
    ensures Applied(e).active == Subscribers(e) && Applied(e).toAdd == [] && Applied(e).toRemove == []
    ensures Subscribers(Applied(e)) == Subscribers(e)
  {
    var b := e.(active := e.active + e.toAdd, toAdd := []);
    assert forall k: Handle :: Count(b, k) == Count(e, k);
    assert forall i :: 0 <= i < |e.toRemove| ==> e.toRemove[i] in e.toRemove;
    DismissedAllIs(b, e.toRemove);
    assert forall k: Handle :: Count(Applied(e), k) == Count(DismissedAll(b, e.toRemove), k);
    assert Applied(e).active + [] == Subscribers(e);
    WithoutNone(Applied(e).active, []);
  }

  /** After Clear nobody subscribes, and every object that was ever allocated has been deleted once. */
  lemma ClearedFreesAll(e: Event)
    requires Good(e)
    ensures Good(Cleared(e)) && Cleared(e).next == e.next && Subscribers(Cleared(e)) == []
    ensures forall h: Handle :: multiset(Cleared(e).freed)[h] == if h < e.next then 1 else 0
  {
    AppliedKeeps(e);
    var a, c := Applied(e), Cleared(e);
    forall h: Handle
      ensures Count(c, h) == Count(a, h)
      ensures multiset(c.freed)[h] == Count(a, h)
    {
    }
  }

  // ---------- raising ----------

  /** What a handler did while it was being called: the calls it made, and what it returned. */
  datatype Reply = Reply(calls: seq<Call>, status: Status)

  function ReplyAt(replies: seq<Reply>, i: nat): Reply {
    if i < |replies| then replies[i] else Reply([], Ok)
  }

  function MadeAll(e: Event, calls: seq<Call>): (r: Event)
    decreases calls
    ensures r.active == e.active
  {
    if calls == [] then e else MadeAll(Made(e, calls[0]), calls[1..])
  }

  function ChangesOfAll(e: Event, calls: seq<Call>): seq<Change>
    decreases calls
  {
    if calls == [] then [] else ChangesOf(e, calls[0]) + ChangesOfAll(Made(e, calls[0]), calls[1..])
  }

  predicate IssuedAll(e: Event, calls: seq<Call>)
    decreases calls
  {
    calls == [] || (Issued(e, calls[0]) && IssuedAll(Made(e, calls[0]), calls[1..]))
  }

  datatype Raised = Raised(event: Event, called: seq<Handle>, status: Status, changes: seq<Change>)

  /**
   * The loop of a raise, from the i-th active handler on. Only some kinds of event stop at a handler
   * that fails. Every way out applies the list changes.
   */
  function RaiseFrom(e: Event, i: nat, replies: seq<Reply>, stops: bool): Raised
    decreases |e.active| - i
  {
    if i >= |e.active| then Raised(Applied(e), [], Ok, [])
    else
      var reply := ReplyAt(replies, i);
      var e' := MadeAll(e, reply.calls);
      var changes := ChangesOfAll(e, reply.calls);
      if stops && reply.status != Ok then Raised(Applied(e'), [e.active[i]], reply.status, changes)
      else
        var rest := RaiseFrom(e', i + 1, replies, stops);
        Raised(rest.event, [e.active[i]] + rest.called, rest.status, changes + rest.changes)
  }

  predicate IssuedFrom(e: Event, i: nat, replies: seq<Reply>, stops: bool)
    decreases |e.active| - i
  {
    i >= |e.active| ||
    (var reply := ReplyAt(replies, i);
     && IssuedAll(e, reply.calls)
     && ((stops && reply.status != Ok) || IssuedFrom(MadeAll(e, reply.calls), i + 1, replies, stops)))
  }

  function RaiseEvent(e: Event, replies: seq<Reply>, stops: bool): Raised {
    RaiseFrom(Applied(e), 0, replies, stops)
  }

  predicate IssuedByHandlers(e: Event, replies: seq<Reply>, stops: bool) {
    IssuedFrom(Applied(e), 0, replies, stops)
  }

  /** The first handler from the i-th on that ends a raise over n handlers; n when none does. */
  function Failing(i: nat, n: nat, replies: seq<Reply>, stops: bool): (k: nat)
    requires i <= n
    ensures i <= k <= n
    decreases n - i
  {
    if i == n || (stops && ReplyAt(replies, i).status != Ok) then i else Failing(i + 1, n, replies, stops)
  }

  lemma {:induction false} FailingIsFirst(i: nat, n: nat, replies: seq<Reply>, stops: bool)
    requires i <= n
    ensures var k := Failing(i, n, replies, stops);
            && (forall j :: i <= j < k ==> !(stops && ReplyAt(replies, j).status != Ok))
            && (k < n ==> stops && ReplyAt(replies, k).status != Ok)
    decreases n - i
  {
    if i == n || (stops && ReplyAt(replies, i).status != Ok) {
    } else {
      FailingIsFirst(i + 1, n, replies, stops);
    }
  }

  lemma {:induction false} MadeAllKeeps(e: Event, calls: seq<Call>)
    requires Good(e) && IssuedAll(e, calls)
    ensures Good(MadeAll(e, calls))
    ensures Subscribers(MadeAll(e, calls)) == Replay(Subscribers(e), ChangesOfAll(e, calls))
    decreases calls
  {
    if calls == [] {
    } else {
      MadeKeeps(e, calls[0]);
      MadeAllKeeps(Made(e, calls[0]), calls[1..]);
      ReplaySplit(Subscribers(e), ChangesOf(e, calls[0]), ChangesOfAll(Made(e, calls[0]), calls[1..]));
    }
  }

  lemma SliceFirst(s: seq<Handle>, i: nat, k: nat)
    requires i < k <= |s|
    ensures s[i..k] == [s[i]] + s[i + 1..k]
  {
  }

  /** The handlers called from the i-th on, when the list is walked up to the first that ends the raise. */
  function Walked(active: seq<Handle>, i: nat, replies: seq<Reply>, stops: bool): seq<Handle>
    decreases |active| - i
  {
    if i >= |active| then []
    else if stops && ReplyAt(replies, i).status != Ok then [active[i]]
    else [active[i]] + Walked(active, i + 1, replies, stops)
  }

  lemma {:induction false} WalkedIsSlice(active: seq<Handle>, i: nat, replies: seq<Reply>, stops: bool)
    requires i <= |active|
    ensures var n := |active|;
            var k := Failing(i, n, replies, stops);
            Walked(active, i, replies, stops) == active[i..if k < n then k + 1 else n]
    decreases |active| - i
  {
    var n := |active|;
    if i == n {
    } else {
      var k := Failing(i, n, replies, stops);
      SliceFirst(active, i, if k < n then k + 1 else n);
      if !(stops && ReplyAt(replies, i).status != Ok) {
        WalkedIsSlice(active, i + 1, replies, stops);
      }
    }
  }

  /** The list that is walked is the active one at the start, whatever the handlers do. */
  lemma {:induction false} RaiseFromWalks(e: Event, i: nat, replies: seq<Reply>, stops: bool)
    ensures RaiseFrom(e, i, replies, stops).called == Walked(e.active, i, replies, stops)
    decreases |e.active| - i
  {
    if i >= |e.active| || (stops && ReplyAt(replies, i).status != Ok) {
    } else {
      RaiseFromWalks(MadeAll(e, ReplyAt(replies, i).calls), i + 1, replies, stops);
    }
  }

  /** Whom the rest of a raise calls, from the i-th active handler on. */
  lemma RaiseFromCalls(e: Event, i: nat, replies: seq<Reply>, stops: bool)
    requires i <= |e.active|
    ensures var n := |e.active|;
            var k := Failing(i, n, replies, stops);
            RaiseFrom(e, i, replies, stops).called == e.active[i..if k < n then k + 1 else n]
  {
    RaiseFromWalks(e, i, replies, stops);
    WalkedIsSlice(e.active, i, replies, stops);
  }

  /** What it returns. */
  lemma {:induction false} RaiseFromReturns(e: Event, i: nat, replies: seq<Reply>, stops: bool)
    requires i <= |e.active|
    ensures var n := |e.active|;
            var k := Failing(i, n, replies, stops);
            RaiseFrom(e, i, replies, stops).status == if k < n then ReplyAt(replies, k).status else Ok
    decreases |e.active| - i
  {
    if i >= |e.active| || (stops && ReplyAt(replies, i).status != Ok) {
    } else {
      RaiseFromReturns(MadeAll(e, ReplyAt(replies, i).calls), i + 1, replies, stops);
    }
  }

  /** The state when the last handler has acted. */
  function LastFrom(e: Event, i: nat, replies: seq<Reply>, stops: bool): Event
    decreases |e.active| - i
  {
    if i >= |e.active| then e
    else
      var e' := MadeAll(e, ReplyAt(replies, i).calls);
      if stops && ReplyAt(replies, i).status != Ok then e' else LastFrom(e', i + 1, replies, stops)
  }

  /** What all the handlers that acted have asked for. */
  function ChangesFrom(e: Event, i: nat, replies: seq<Reply>, stops: bool): seq<Change>
    decreases |e.active| - i
  {
    if i >= |e.active| then []
    else
      var calls := ReplyAt(replies, i).calls;
      var changes := ChangesOfAll(e, calls);
      if stops && ReplyAt(replies, i).status != Ok then changes
      else changes + ChangesFrom(MadeAll(e, calls), i + 1, replies, stops)
  }

  /** How a raise ends: as the list changes of that state are applied. */
  lemma {:induction false} RaiseFromEnds(e: Event, i: nat, replies: seq<Reply>, stops: bool)
    ensures RaiseFrom(e, i, replies, stops).event == Applied(LastFrom(e, i, replies, stops))
    ensures RaiseFrom(e, i, replies, stops).changes == ChangesFrom(e, i, replies, stops)
    decreases |e.active| - i
  {
    if i >= |e.active| {
    } else {
      RaiseFromEnds(MadeAll(e, ReplyAt(replies, i).calls), i + 1, replies, stops);
    }
  }

  lemma {:induction false} LastFromIsGood(e: Event, i: nat, replies: seq<Reply>, stops: bool)
    requires Good(e) && IssuedFrom(e, i, replies, stops)
    ensures Good(LastFrom(e, i, replies, stops))
    decreases |e.active| - i
  {
    if i < |e.active| {
      var reply := ReplyAt(replies, i);
      MadeAllKeeps(e, reply.calls);
      if !(stops && reply.status != Ok) {
        LastFromIsGood(MadeAll(e, reply.calls), i + 1, replies, stops);
      }
    }
  }

  lemma OneHandlerMore(e: Event, next: Event, i: nat, replies: seq<Reply>, stops: bool)
    requires i < |e.active| && next == MadeAll(e, ReplyAt(replies, i).calls)
    ensures var first := ChangesOfAll(e, ReplyAt(replies, i).calls);
            if stops && ReplyAt(replies, i).status != Ok
            then LastFrom(e, i, replies, stops) == next && ChangesFrom(e, i, replies, stops) == first
            else
              && LastFrom(e, i, replies, stops) == LastFrom(next, i + 1, replies, stops)
              && ChangesFrom(e, i, replies, stops) == first + ChangesFrom(next, i + 1, replies, stops)
  {
  }

  /** When the handlers from the i-th on have acted, the plain list has changed as they asked for. */
  lemma {:induction false} LastFromSubscribers(e: Event, i: nat, replies: seq<Reply>, stops: bool)
    requires Good(e) && IssuedFrom(e, i, replies, stops)
    ensures Subscribers(LastFrom(e, i, replies, stops)) == Replay(Subscribers(e), ChangesFrom(e, i, replies, stops))
    decreases |e.active| - i
  {
    if i >= |e.active| {
    } else {
      var reply := ReplyAt(replies, i);
      var next, all := MadeAll(e, reply.calls), ChangesFrom(e, i, replies, stops);
      MadeAllKeeps(e, reply.calls);
      OneHandlerMore(e, next, i, replies, stops);
      if stops && reply.status != Ok {
      } else {
        var first, rest := ChangesOfAll(e, reply.calls), ChangesFrom(next, i + 1, replies, stops);
        LastFromSubscribers(next, i + 1, replies, stops);
        ReplaySplit(Subscribers(e), first, rest);
        assert all == first + rest;
        assert Replay(Subscribers(e), all) == Replay(Subscribers(next), rest);
      }
    }
  }

  /**
   * A raise calls exactly those who subscribed when it started, in order of registration and once each,
   * whatever the handlers register and unregister meanwhile; a status-returning event stops after the
   * first handler that fails, and returns its status. What the handlers asked for is then in effect.
   */
  lemma RaiseCallsSubscribers(e: Event, replies: seq<Reply>, stops: bool)
    requires Good(e) && IssuedByHandlers(e, replies, stops)
    ensures var r, s := RaiseEvent(e, replies, stops), Subscribers(e);
            var k := Failing(0, |s|, replies, stops);
            && Good(r.event)
            && r.called == s[..if k < |s| then k + 1 else |s|]
            && r.status == (if k < |s| then ReplyAt(replies, k).status else Ok)
            && r.event.active == Replay(s, r.changes) && r.event.toAdd == [] && r.event.toRemove == []
  {
    AppliedKeeps(e);
    RaiseFromCalls(Applied(e), 0, replies, stops);
    RaiseFromReturns(Applied(e), 0, replies, stops);
    RaiseFromEnds(Applied(e), 0, replies, stops);
    LastFromIsGood(Applied(e), 0, replies, stops);
    LastFromSubscribers(Applied(e), 0, replies, stops);
    AppliedKeeps(LastFrom(Applied(e), 0, replies, stops));
  }

  /** The state when the j-th active handler is called, in a raise whose i-th is called in e. */
  function WhenCalled(e: Event, i: nat, j: nat, replies: seq<Reply>): (r: Event)
    ensures r.active == e.active
    decreases j - i
  {
    if i >= j then e else WhenCalled(MadeAll(e, ReplyAt(replies, i).calls), i + 1, j, replies)
  }

  lemma {:induction false} WhenCalledIsGood(e: Event, i: nat, j: nat, replies: seq<Reply>, stops: bool)
    requires Good(e) && IssuedFrom(e, i, replies, stops)
    requires i <= j < |e.active| && j <= Failing(i, |e.active|, replies, stops)
    ensures Good(WhenCalled(e, i, j, replies))
    decreases j - i
  {
    if i < j {
      MadeAllKeeps(e, ReplyAt(replies, i).calls);
      WhenCalledIsGood(MadeAll(e, ReplyAt(replies, i).calls), i + 1, j, replies, stops);
    }
  }

  /** The raise ends as it would from there. */
  lemma {:induction false} WhenCalledGoesOn(e: Event, i: nat, j: nat, replies: seq<Reply>, stops: bool)
    requires i <= j <= |e.active| && j <= Failing(i, |e.active|, replies, stops)
    ensures RaiseFrom(e, i, replies, stops).event == RaiseFrom(WhenCalled(e, i, j, replies), j, replies, stops).event
    decreases j - i
  {
    if i == j {
    } else {
      WhenCalledGoesOn(MadeAll(e, ReplyAt(replies, i).calls), i + 1, j, replies, stops);
    }
  }

  lemma ActiveIsAlive(e: Event, h: Handle)
    requires Good(e) && h in e.active
    ensures h !in e.freed
  {
    assert Count(e, h) == 1;
  }

  /** Whatever the handlers before it have done, a handler has not been deleted when it is called. */
  lemma CalledAreAlive(e: Event, replies: seq<Reply>, stops: bool, j: nat)
    requires Good(e) && IssuedByHandlers(e, replies, stops) && j < |RaiseEvent(e, replies, stops).called|
    ensures var h, now := RaiseEvent(e, replies, stops).called[j], WhenCalled(Applied(e), 0, j, replies);
            h in now.active && h !in now.freed
  {
    AppliedKeeps(e);
    RaiseFromCalls(Applied(e), 0, replies, stops);
    WhenCalledIsGood(Applied(e), 0, j, replies, stops);
    ActiveIsAlive(WhenCalled(Applied(e), 0, j, replies), RaiseEvent(e, replies, stops).called[j]);
  }

  // ---------- what the replies decide ----------

  /** A handler's calls are made one after the other... */
  lemma {:induction false} MadeAllLast(e: Event, calls: seq<Call>, c: Call)
    ensures MadeAll(e, calls + [c]) == Made(MadeAll(e, calls), c)
    ensures ChangesOfAll(e, calls + [c]) == ChangesOfAll(e, calls) + ChangesOf(MadeAll(e, calls), c)
    decreases calls
  {
    if calls == [] {
      assert calls + [c] == [c] && [c][1..] == [];
    } else {
      assert (calls + [c])[1..] == calls[1..] + [c];
      MadeAllLast(Made(e, calls[0]), calls[1..], c);
    }
  }

  /** ...and those of the j-th reply by the j-th handler; one without a reply does nothing. */
  lemma {:induction false} WhenCalledNext(e: Event, i: nat, j: nat, replies: seq<Reply>)
    requires i <= j
    ensures WhenCalled(e, i, i, replies) == e
    ensures WhenCalled(e, i, j + 1, replies) ==
            var before := WhenCalled(e, i, j, replies);
            if j < |replies| then MadeAll(before, replies[j].calls) else before
    decreases j - i
  {
    if i < j {
      WhenCalledNext(MadeAll(e, ReplyAt(replies, i).calls), i + 1, j, replies);
    }
  }

  lemma {:induction false} LastIsWhenCalled(e: Event, i: nat, replies: seq<Reply>, stops: bool)
    requires i <= |e.active|
    ensures var n := |e.active|;
            var k := Failing(i, n, replies, stops);
            LastFrom(e, i, replies, stops) == WhenCalled(e, i, if k < n then k + 1 else n, replies)
    decreases |e.active| - i
  {
    if i < |e.active| && !(stops && ReplyAt(replies, i).status != Ok) {
      LastIsWhenCalled(MadeAll(e, ReplyAt(replies, i).calls), i + 1, replies, stops);
    }
  }

  /** A raise leaves what its handlers have done, all that were called and no other, with the changes applied. */
  lemma RaiseLeaves(e: Event, replies: seq<Reply>, stops: bool)
    ensures var r := RaiseEvent(e, replies, stops);
            r.event == Applied(WhenCalled(Applied(e), 0, |r.called|, replies))
  {
    RaiseFromEnds(Applied(e), 0, replies, stops);
    RaiseFromCalls(Applied(e), 0, replies, stops);
    LastIsWhenCalled(Applied(e), 0, replies, stops);
  }

  /** What a handler asks for is what the calls of its own reply ask for, and comes before the rest. */
  lemma ChangesInTurn(e: Event, i: nat, replies: seq<Reply>, stops: bool)
    requires i < |e.active| && i < |replies|
    ensures RaiseFrom(e, i, replies, stops).changes ==
            ChangesOfAll(e, replies[i].calls) +
            if stops && replies[i].status != Ok then []
            else RaiseFrom(MadeAll(e, replies[i].calls), i + 1, replies, stops).changes
  {
  }

  lemma {:induction false} FailingAt(i: nat, n: nat, j: nat, replies: seq<Reply>)
    requires i <= j < n && j < |replies| && replies[j].status != Ok
    requires forall k :: i <= k < j ==> replies[k].status == Ok
    ensures Failing(i, n, replies, true) == j
    decreases j - i
  {
    if i == j {
    } else {
      assert replies[i].status == Ok;
      FailingAt(i + 1, n, j, replies);
    }
  }

  lemma {:induction false} FailingNowhere(i: nat, n: nat, replies: seq<Reply>, stops: bool)
    requires i <= n && (!stops || forall k :: 0 <= k < |replies| ==> replies[k].status == Ok)
    ensures Failing(i, n, replies, stops) == n
    decreases n - i
  {
    if i == n {
    } else {
      FailingNowhere(i + 1, n, replies, stops);
    }
  }

  /** In an event that stops, the first reply that is a failure is returned, and its handler is the last called. */
  lemma FirstFailureIsReturned(e: Event, replies: seq<Reply>, j: nat)
    requires Good(e) && j < |Subscribers(e)| && j < |replies| && replies[j].status != Ok
    requires forall k :: 0 <= k < j ==> replies[k].status == Ok
    ensures var r := RaiseEvent(e, replies, true);
            r.status == replies[j].status && r.called == Subscribers(e)[..j + 1]
  {
    AppliedKeeps(e);
    FailingAt(0, |Subscribers(e)|, j, replies);
    RaiseFromCalls(Applied(e), 0, replies, true);
    RaiseFromReturns(Applied(e), 0, replies, true);
  }

  /** When no reply is a failure, or the event does not stop, all are called. */
  lemma NoFailureCallsAll(e: Event, replies: seq<Reply>, stops: bool)
    requires Good(e) && (!stops || forall k :: 0 <= k < |replies| ==> replies[k].status == Ok)
    ensures var r := RaiseEvent(e, replies, stops); r.status == Ok && r.called == Subscribers(e)
  {
    AppliedKeeps(e);
    FailingNowhere(0, |Subscribers(e)|, replies, stops);
    RaiseFromCalls(Applied(e), 0, replies, stops);
    RaiseFromReturns(Applied(e), 0, replies, stops);
  }

  // ---------- whole runs ----------

  datatype Action = Do(call: Call) | Raise(replies: seq<Reply>, stops: bool) | Clear

  function Acted(e: Event, a: Action): Event {
    match a
    case Do(call) => Made(e, call)
    case Raise(replies, stops) => RaiseEvent(e, replies, stops).event
    case Clear => Cleared(e)
  }

  predicate IssuedAction(e: Event, a: Action) {
    match a
    case Do(call) => Issued(e, call)
    case Raise(replies, stops) => IssuedByHandlers(e, replies, stops)
    case Clear => true
  }

  /** The subscribers that the plain list has after an action. */
  function Expected(subscribers: seq<Handle>, e: Event, a: Action): seq<Handle> {
    match a
    case Do(call) => Replay(subscribers, ChangesOf(e, call))
    case Raise(replies, stops) => Replay(subscribers, RaiseEvent(e, replies, stops).changes)
    case Clear => []
  }

  ghost predicate Run(actions: seq<Action>, e: Event, subscribers: seq<Handle>)
    decreases |actions|
  {
    if actions == [] then e == NO_EVENT && subscribers == []
    else
      var n := |actions| - 1;
      exists e0, s0 ::
        && Run(actions[..n], e0, s0) && IssuedAction(e0, actions[n])
        && e == Acted(e0, actions[n]) && subscribers == Expected(s0, e0, actions[n])
  }

  /** In every run the deferred lists stand for the plain list, and no object is lost or deleted twice. */
  lemma {:induction false} RunIsPlain(actions: seq<Action>, e: Event, subscribers: seq<Handle>)
    requires Run(actions, e, subscribers)
    ensures Good(e) && Subscribers(e) == subscribers
    decreases |actions|
  {
    if actions == [] {
    } else {
      var n := |actions| - 1;
      var e0, s0 :| && Run(actions[..n], e0, s0) && IssuedAction(e0, actions[n])
                    && e == Acted(e0, actions[n]) && subscribers == Expected(s0, e0, actions[n]);
      RunIsPlain(actions[..n], e0, s0);
      match actions[n]
      case Do(call) => MadeKeeps(e0, call);
      case Clear => ClearedFreesAll(e0);
      case Raise(replies, stops) =>
        AppliedKeeps(e0);
        RaiseFromEnds(Applied(e0), 0, replies, stops);
        LastFromIsGood(Applied(e0), 0, replies, stops);
        LastFromSubscribers(Applied(e0), 0, replies, stops);
        AppliedKeeps(LastFrom(Applied(e0), 0, replies, stops));
    }
  }
}
