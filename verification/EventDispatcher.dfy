/** The event dispatcher: which handlers may receive events, which wait to be deleted, and the
    shadow of the kernel's event masks. */
module EventDispatching {

  /** An event mask: interest in reading and in writing. */
  datatype Mask = Mask(read: bool, write: bool)

  const EPOLLIN := Mask(true, false)
  const NOTHING := Mask(false, false)

  class IEventHandler {
    const fd: int
    /** The shadow of the mask registered with the kernel. */
    var registeredEvents: Mask
    /** How many times this object has been deleted. */
    ghost var deletions: nat
    /** How many events have reached this object. */
    ghost var handled: nat

    constructor (fd: int)
      ensures this.fd == fd && registeredEvents == NOTHING && deletions == 0 && handled == 0
    {
      this.fd, registeredEvents, deletions, handled := fd, NOTHING, 0, 0;
    }

    ghost method Delete()
      requires deletions == 0
      modifies `deletions
      ensures deletions == 1
    {
      deletions := 1;
    }
  }

  /** What the kernel holds for a descriptor. */
  datatype Registration = Registration(handler: IEventHandler, mask: Mask)

  /** The elements marked as taken, in order. */
  function Chosen<T>(xs: seq<T>, taken: seq<bool>): seq<T>
    requires |taken| == |xs|
  {
    if xs == [] then []
    else
      var n := |xs| - 1;
      Chosen(xs[..n], taken[..n]) + if taken[n] then [xs[n]] else []
  }

  /** Some of the elements were added, in their order. */
  ghost predicate AddedInOrder<T>(before: seq<T>, after: seq<T>, xs: seq<T>) {
    exists taken: seq<bool> :: |taken| == |xs| && after == before + Chosen(xs, taken)
  }

  lemma AddedOneMore<T>(before: seq<T>, after: seq<T>, xs: seq<T>, x: T)
    requires AddedInOrder(before, after, xs)
    ensures AddedInOrder(before, after, xs + [x]) && AddedInOrder(before, after + [x], xs + [x])
  {
    var taken: seq<bool> :| |taken| == |xs| && after == before + Chosen(xs, taken);
    ChosenAppend(xs, taken, x, true);
    ChosenAppend(xs, taken, x, false);
    assert Chosen(xs, taken) + [] == Chosen(xs, taken);
    assert after + [x] == before + (Chosen(xs, taken) + [x]);
  }

  lemma ChosenAppend<T>(xs: seq<T>, taken: seq<bool>, x: T, take: bool)
    requires |taken| == |xs|
    ensures |taken + [take]| == |xs + [x]|
    ensures Chosen(xs + [x], taken + [take]) == Chosen(xs, taken) + if take then [x] else []
  {
    assert (xs + [x])[..|xs|] == xs && (taken + [take])[..|xs|] == taken;
  }

  lemma NoneAdded<T>(before: seq<T>)
    ensures AddedInOrder(before, before, [])
  {
    assert before == before + Chosen<T>([], []);
  }

  class EventDispatcher {
    var handlers: map<int, IEventHandler>
    var pendingRemovals: set<IEventHandler>
    var activeHandlers: set<IEventHandler>
    /** The kernel's interest list. */
    ghost var epoll: map<int, Registration>
    /** The handlers that events have reached, in order. */
    ghost var reached: seq<IEventHandler>

    /** The handlers that have been registered and not deleted. */
    ghost function Live(): set<IEventHandler>
      reads this
    {
      activeHandlers + pendingRemovals
    }

    ghost predicate Valid()
      reads this, activeHandlers, pendingRemovals
    {
      && activeHandlers !! pendingRemovals
      && (forall h :: h in activeHandlers ==> h.deletions == 0 && h.fd >= 0)
      && (forall h :: h in pendingRemovals ==> h.deletions == 0 && h.fd >= 0)
      && (forall h :: h in activeHandlers ==> h.fd in handlers && handlers[h.fd] == h)
      && (forall fd :: fd in handlers ==> handlers[fd] in activeHandlers && handlers[fd].fd == fd)
      && (forall h :: h in activeHandlers ==> h.fd in epoll && epoll[h.fd] == Registration(h, h.registeredEvents))
    }

    /** A live handler whose descriptor has not passed to another: it is in service, or waits to be
        deleted and no handler in service has its number. */
    ghost predicate Holds(handler: IEventHandler)
      reads this
    {
      handler in activeHandlers || (handler in pendingRemovals && handler.fd !in handlers)
    }

    constructor ()
      ensures Valid() && activeHandlers == {} && pendingRemovals == {}
    {
      handlers, pendingRemovals, activeHandlers, epoll, reached := map[], {}, {}, map[], [];
    }

    /** Registers a new handler for reading, on a descriptor that no handler in service has. One that
        waits to be deleted may have had that number: its descriptor was closed before it. */
    method RegisterHandler(handler: IEventHandler?)
      requires Valid()
      requires handler != null ==>
        handler.deletions == 0 && handler !in Live() && handler.fd !in handlers
      modifies this, handler
      ensures handler != null ==> unchanged(handler`deletions) && unchanged(handler`handled)
      ensures Valid() && pendingRemovals == old(pendingRemovals)
      ensures if handler == null || handler.fd < 0 then activeHandlers == old(activeHandlers)
              else activeHandlers == old(activeHandlers) + {handler} && handler.registeredEvents == Mask(true, false)
      ensures reached == old(reached)
    {
      if handler == null || handler.fd < 0 {
        return;
      }
      activeHandlers := activeHandlers + {handler};
      handlers := handlers[handler.fd := handler];
      handler.registeredEvents := EPOLLIN;
      epoll := epoll[handler.fd := Registration(handler, EPOLLIN)];
    }

    /** Takes a live handler out of service, once or again; its deletion is left for later. The kernel
        is taken to accept the change of mask, so the descriptor to be open. */
    method RemoveHandler(handler: IEventHandler?)
      requires Valid() && (handler != null ==> Holds(handler))
      modifies this
      ensures Valid()
      ensures if handler == null then activeHandlers == old(activeHandlers) && pendingRemovals == old(pendingRemovals)
              else
                && activeHandlers == old(activeHandlers) - {handler}
                && pendingRemovals == old(pendingRemovals) + {handler}
      ensures handler != null ==> epoll == old(epoll)[handler.fd := Registration(handler, Mask(false, false))]
      ensures reached == old(reached)
    {
      if handler == null {
        return;
      }
      activeHandlers := activeHandlers - {handler};
      if handler.fd >= 0 {
        epoll := epoll[handler.fd := Registration(handler, NOTHING)];
        handlers := map fd | fd in handlers && fd != handler.fd :: handlers[fd];
      }
      pendingRemovals := pendingRemovals + {handler};
    }

    /** Tells the kernel about a mask only when it differs from the shadow. */
    method UpdateEventMask(handler: IEventHandler, newMask: Mask)
      requires Valid() && Holds(handler)
      modifies `epoll, handler`registeredEvents
      ensures Valid() && handler.registeredEvents == newMask
      ensures epoll == if old(handler.registeredEvents) == newMask then old(epoll)
                       else old(epoll)[handler.fd := Registration(handler, newMask)]
    {
      if handler.registeredEvents == newMask {
        return;
      }
      epoll := epoll[handler.fd := Registration(handler, newMask)];
      handler.registeredEvents := newMask;
    }

    method EnableRead(handler: IEventHandler?)
      requires Valid() && (handler != null ==> Holds(handler))
      modifies `epoll, handler
      ensures handler != null ==> unchanged(handler`deletions) && unchanged(handler`handled)
      ensures Valid()
      ensures handler != null ==> handler.registeredEvents == old(handler.registeredEvents).(read := true)
    {
      if handler == null {
        return;
      }
      UpdateEventMask(handler, handler.registeredEvents.(read := true));
    }

    method EnableWrite(handler: IEventHandler?)
      requires Valid() && (handler != null ==> Holds(handler))
      modifies `epoll, handler
      ensures handler != null ==> unchanged(handler`deletions) && unchanged(handler`handled)
      ensures Valid()
      ensures handler != null ==> handler.registeredEvents == old(handler.registeredEvents).(write := true)
    {
      if handler == null {
        return;
      }
      UpdateEventMask(handler, handler.registeredEvents.(write := true));
    }

    method DisableRead(handler: IEventHandler?)
      requires Valid() && (handler != null ==> Holds(handler))
      modifies `epoll, handler
      ensures handler != null ==> unchanged(handler`deletions) && unchanged(handler`handled)
      ensures Valid()
      ensures handler != null ==> handler.registeredEvents == old(handler.registeredEvents).(read := false)
    {
      if handler == null {
        return;
      }
      UpdateEventMask(handler, handler.registeredEvents.(read := false));
    }

    method DisableWrite(handler: IEventHandler?)
      requires Valid() && (handler != null ==> Holds(handler))
      modifies `epoll, handler
      ensures handler != null ==> unchanged(handler`deletions) && unchanged(handler`handled)
      ensures Valid()
      ensures handler != null ==> handler.registeredEvents == old(handler.registeredEvents).(write := false)
    {
      if handler == null {
        return;
      }
      UpdateEventMask(handler, handler.registeredEvents.(write := false));
    }

    /** Deletes every handler that waits for it, once. What the kernel still holds for it goes with
        its descriptor. */
    method CleanUpGarbage()
      requires Valid()
      modifies this, pendingRemovals`deletions
      ensures Valid() && pendingRemovals == {}
      ensures activeHandlers == old(activeHandlers) && handlers == old(handlers) && reached == old(reached)
      ensures forall h :: h in old(pendingRemovals) ==> h.deletions == 1
    {
      ghost var gone := pendingRemovals;
      var todo := pendingRemovals;
      while todo != {}
        invariant todo <= gone
        invariant forall h :: h in todo ==> h.deletions == 0
        invariant forall h :: h in gone && h !in todo ==> h.deletions == 1
        invariant forall h :: h in activeHandlers ==> h.deletions == 0
        invariant unchanged(this) && forall h :: h in activeHandlers ==> unchanged(h)
        decreases todo
      {
        var h :| h in todo;
        h.Delete();
        todo := todo - {h};
      }
      epoll := map fd | fd in epoll && epoll[fd].handler !in gone :: epoll[fd];
      pendingRemovals := {};
    }

    /** What the dispatcher can count on across anything handlers do: live handlers stay live
        and undeleted, none comes back into service, and whatever else is live is new. */
    twostate predicate Progress()
      reads this, Live()
    {
      && old(Live()) <= Live() && old(pendingRemovals) <= pendingRemovals
      && fresh(Live() - old(Live()))
    }

    /** What a handler may do when an event reaches it: register new handlers, remove and remask
        live ones, in any order and number, itself included. It must be in service, and so not
        deleted. If it throws, it has not passed its descriptor on to another handler. */
    method HandleEvent(handler: IEventHandler) returns (threw: bool)
      requires Valid() && handler in activeHandlers
      modifies this, Live()
      ensures Valid() && Progress()
      ensures forall h :: h in old(Live()) ==> h.handled == old(h.handled) + if h == handler then 1 else 0
      ensures reached == old(reached) + [handler]
      ensures threw ==> Holds(handler)
    {
      assert handler.deletions == 0;
      handler.handled := handler.handled + 1;
      reached := reached + [handler];
      var steps: nat := *;
      while steps > 0
        invariant Valid() && Progress() && reached == old(reached) + [handler]
        invariant forall h :: h in old(Live()) ==> h.handled == old(h.handled) + if h == handler then 1 else 0
        decreases steps
      {
        Act();
        steps := steps - 1;
      }
      threw := *;
      threw := threw && (handler in activeHandlers || handler.fd !in handlers);
    }

    method Act()
      requires Valid()
      modifies this, Live()
      ensures Valid() && Progress()
      ensures forall h :: h in old(Live()) ==> h.handled == old(h.handled)
      ensures reached == old(reached)
    {
      var choice: int := *;
      if choice == 0 {
        var fd: int := *;
        if fd !in handlers {
          var h := new IEventHandler(fd);
          RegisterHandler(h);
        }
      } else if activeHandlers + pendingRemovals != {} {
        var h :| h in activeHandlers + pendingRemovals;
        if h in pendingRemovals && h.fd in handlers {
          return;
        }
        if
        case true => RemoveHandler(h);
        case true => EnableRead(h);
        case true => EnableWrite(h);
        case true => DisableRead(h);
        case true => DisableWrite(h);
      }
    }

    /** One batch of events. Whatever the handlers do, each event reaches only a handler that
        is then in service and not deleted, and reaches every handler that stays in service;
        no handler is deleted before the batch is over; then exactly those taken out of service
        are deleted, each once; and the shadow masks of those in service are the kernel's. */
    method HandleBatch(events: seq<IEventHandler>)
      requires Valid()
      modifies this, Live()
      ensures Valid() && pendingRemovals == {}
      ensures forall h :: h in old(Live()) ==> (h in activeHandlers <==> h.deletions == 0)
      ensures forall h :: h in old(Live()) && h !in activeHandlers ==> h.deletions == 1
      ensures forall h :: h in old(pendingRemovals) ==> h !in activeHandlers
      ensures fresh(activeHandlers - old(Live()))
      ensures forall h :: h in old(Live()) && h in activeHandlers ==>
        h.handled == old(h.handled) + multiset(events)[h]
      ensures AddedInOrder(old(reached), reached, events)
    {
      Dispatch(events);
      CleanUpGarbage();
    }

    /** The loop over the batch. */
    method Dispatch(events: seq<IEventHandler>)
      requires Valid()
      modifies this, Live()
      ensures Valid() && Progress()
      ensures forall h :: h in old(Live()) && h in activeHandlers ==>
        h.handled == old(h.handled) + multiset(events)[h]
      ensures AddedInOrder(old(reached), reached, events)
    {
      hide Valid;
      hide AddedInOrder;
      assert events[..0] == [];
      NoneAdded(reached);
      for i := 0 to |events|
        invariant Valid() && Progress()
        invariant forall h :: h in old(Live()) && h in activeHandlers ==>
          h.handled == old(h.handled) + multiset(events[..i])[h]
        invariant AddedInOrder(old(reached), reached, events[..i])
      {
        assert events[..i + 1] == events[..i] + [events[i]];
        AddedOneMore(old(reached), reached, events[..i], events[i]);
        DispatchOne(events[i]);
      }
      assert events[..|events|] == events;
    }

    /** One event: it reaches its handler if that is in service, and a handler that throws is taken out
        of service. */
    method DispatchOne(handler: IEventHandler)
      requires Valid()
      modifies this, Live()
      ensures Valid() && Progress()
      ensures reached == if old(handler in activeHandlers) then old(reached) + [handler] else old(reached)
      ensures forall h :: h in old(Live()) && h in activeHandlers ==>
        h.handled == old(h.handled) + if h == handler then 1 else 0
    {
      if handler !in activeHandlers {
        return;
      }
      var threw := HandleEvent(handler);
      if threw {
        RemoveHandler(handler);
      }
    }

    /** Shutting down deletes every handler, in service or not, exactly once. */
    method Destroy()
      requires Valid()
      modifies this, Live()
      ensures forall h :: h in old(Live()) ==> h.deletions == 1
      ensures handlers == map[] && pendingRemovals == {}
    {
      ghost var all, served := Live(), activeHandlers;
      var todo := set fd | fd in handlers :: handlers[fd];
      assert todo == activeHandlers by {
        forall h | h in activeHandlers
          ensures h in todo
        {
          assert h.fd in handlers && handlers[h.fd] == h;
        }
      }
      while todo != {}
        invariant todo <= served && unchanged(this)
        invariant forall h :: h in todo ==> h.deletions == 0
        invariant forall h :: h in served && h !in todo ==> h.deletions == 1
        invariant forall h :: h in pendingRemovals ==> h.deletions == 0
        decreases todo
      {
        var h :| h in todo;
        h.Delete();
        todo := todo - {h};
      }
      handlers, activeHandlers := map[], {};
      CleanUpGarbage();
    }
  }
}
