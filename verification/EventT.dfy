/** The event classes (Include/XnEventT.h, Include/XnEvent.h): what their methods do to the three lists. */
module Events {
  import opened Sequences
  import opened Statuses
  import opened Subscriptions

  /** Deletes a callback that the list holds; the list then no longer holds it. */
  method RemoveCallback(list: seq<Handle>, handle: Handle) returns (found: bool, rest: seq<Handle>)
    ensures found <==> handle in list
    ensures rest == WithoutFirst(list, handle)
  {
    var i := 0;
    while i < |list| && list[i] != handle
      invariant 0 <= i <= |list| && handle !in list[..i]
    {
      i := i + 1;
    }
    if i == |list| {
      WithoutFirstAbsent(list, handle);
      return false, list;
    }
    WithoutFirstAt(list, handle, i);
    return true, list[..i] + list[i + 1..];
  }

  class XnEventT {
    var callbacks: seq<Handle>
    var toAdd: seq<Handle>
    var toRemove: seq<Handle>
    var next: Handle
    var freed: seq<Handle>

    ghost function AsEvent(): Event
      reads this
    {
      Event(callbacks, toAdd, toRemove, next, freed)
    }

    constructor ()
      ensures AsEvent() == NO_EVENT
    {
      callbacks, toAdd, toRemove, next, freed := [], [], [], 0, [];
    }

    /** A handle is given out only when the registration succeeds. */
    method Register(hasHandler: bool, canAllocateCallback: bool, canAllocateNode: bool)
      returns (status: Status, handle: Option<Handle>)
      modifies this`toAdd, this`next, this`freed
      ensures var c := Call.Register(hasHandler, canAllocateCallback, canAllocateNode);
              AsEvent() == Made(old(AsEvent()), c) && status == StatusOf(old(AsEvent()), c)
      ensures status == if !hasHandler then NullInputPtr
                        else if canAllocateCallback && canAllocateNode then Ok
                        else AllocFailed
      ensures handle == if status == Ok then Some(old(next)) else None
    {
      if !hasHandler {
        return NullInputPtr, None;
      }
      if !canAllocateCallback {
        return AllocFailed, None;
      }
      var callback := next;
      next := next + 1;
      if !canAllocateNode {
        freed := freed + [callback];
        return AllocFailed, None;
      }
      toAdd := toAdd + [callback];
      status, handle := Ok, Some(callback);
    }

    method Unregister(handle: Handle, canAllocateNode: bool) returns (status: Status)
      modifies this`toAdd, this`toRemove, this`freed
      ensures status == if handle in old(toAdd) || canAllocateNode then Ok else AllocFailed
      ensures var c := Call.Unregister(handle, canAllocateNode);
              AsEvent() == Made(old(AsEvent()), c) && status == StatusOf(old(AsEvent()), c)
    {
      var found, rest := RemoveCallback(toAdd, handle);
      if found {
        toAdd, freed := rest, freed + [handle];
      } else if canAllocateNode {
        toRemove := toRemove + [handle];
      } else {
        return AllocFailed;
      }
      status := Ok;
    }

    method ApplyListChanges()
      modifies this`callbacks, this`toAdd, this`toRemove, this`freed
      ensures AsEvent() == Applied(old(AsEvent()))
    {
      var i := 0;
      while i < |toAdd|
        invariant 0 <= i <= |toAdd|
        invariant AsEvent() == old(AsEvent()).(active := old(callbacks) + toAdd[..i])
      {
        callbacks := callbacks + [toAdd[i]];
        i := i + 1;
      }
      assert toAdd[..i] == toAdd;
      toAdd := [];
      ghost var added := AsEvent();
      i := 0;
      while i < |toRemove|
        invariant 0 <= i <= |toRemove| && toRemove == old(toRemove)
        invariant AsEvent() == DismissedAll(added, toRemove[..i])
      {
        var found, rest := RemoveCallback(callbacks, toRemove[i]);
        if found {
          callbacks, freed := rest, freed + [toRemove[i]];
        }
        assert toRemove[..i + 1][..i] == toRemove[..i];
        i := i + 1;
      }
      assert toRemove[..i] == toRemove;
      toRemove := [];
    }

    method Clear()
      modifies this
      ensures AsEvent() == Cleared(old(AsEvent()))
    {
      ApplyListChanges();
      var i := 0;
      while i < |callbacks|
        invariant 0 <= i <= |callbacks|
        invariant AsEvent() == Applied(old(AsEvent())).(freed := Applied(old(AsEvent())).freed + callbacks[..i])
      {
        freed := freed + [callbacks[i]];
        i := i + 1;
      }
      assert callbacks[..i] == callbacks;
      callbacks, toRemove, toAdd := [], [], [];
    }

    /** A handler's calls, one after the other. */
    method Answer(calls: seq<Call>)
      modifies this`toAdd, this`toRemove, this`next, this`freed
      ensures AsEvent() == MadeAll(old(AsEvent()), calls)
      decreases calls
    {
      if calls != [] {
        match calls[0] {
          case Register(hasHandler, canAllocateCallback, canAllocateNode) =>
            var _, _ := Register(hasHandler, canAllocateCallback, canAllocateNode);
          case Unregister(handle, canAllocateNode) =>
            var _ := Unregister(handle, canAllocateNode);
        }
        Answer(calls[1..]);
      }
    }

    /**
     * Calls the active handlers; replies says what each of them does meanwhile. A void event ignores
     * the handlers' status, a status-returning one stops at the first that fails.
     */
    method Raise(replies: seq<Reply>, stops: bool) returns (status: Status, called: seq<Handle>)
      modifies this
      ensures var r := RaiseEvent(old(AsEvent()), replies, stops);
              AsEvent() == r.event && status == r.status && called == r.called
    {
      ApplyListChanges();
      ghost var start := AsEvent();
      called := [];
      var i := 0;
      while i < |callbacks|
        invariant 0 <= i <= |callbacks|
        invariant var all, rest := RaiseFrom(start, 0, replies, stops), RaiseFrom(AsEvent(), i, replies, stops);
                  all.event == rest.event && all.status == rest.status && all.called == called + rest.called
        decreases |callbacks| - i
      {
        called := called + [callbacks[i]];
        var reply := ReplyAt(replies, i);
        Answer(reply.calls);
        if stops && reply.status != Ok {
          ApplyListChanges();
          return reply.status, called;
        }
        i := i + 1;
      }
      ApplyListChanges();
      status := Ok;
    }
  }
}
