/**
 * The socket registry (core/src/socket.rs).
 *
 * The registry owns a table from handles to live sockets and one incoming
 * channel on which the navigator backend reports what happened to each
 * connection.  Each socket has an outgoing channel of its own, here the
 * sequence of byte strings sent into it.  Each frame, `update_sockets`
 * drains the incoming channel and turns every action on a still-live handle
 * into an event on the socket's ActionScript object; these events are
 * recorded in an append-only log.  The calls into the backend that open a
 * connection are recorded in a log of requests.
 */
module Sockets {
  import opened Wrappers
  import opened Strings
  import opened XmlSocketObjects

  /** An ActionScript `Socket` object, with the state the registry reads and writes. */
  class SocketObject {
    var handle: Option<SocketHandle>
    var timeout: nat
    var readBuffer: seq<byte>

    constructor ()
      ensures handle == None && timeout == 0 && readBuffer == []
    {
      handle := None;
      timeout := 0;
      readBuffer := [];
    }

    /** `set_handle`: the new handle replaces the old one, which is returned. */
    method SetHandle(h: SocketHandle) returns (previous: Option<SocketHandle>)
      modifies this
      ensures previous == old(handle) && handle == Some(h)
      ensures timeout == old(timeout) && readBuffer == old(readBuffer)
    {
      previous := handle;
      handle := Some(h);
    }
  }

  /** The ActionScript object a socket reports to. */
  datatype SocketKind = Avm2Socket(socket: SocketObject) | Avm2XmlSocket(xmlSocket: XmlSocketObject)

  /** A live socket: its object and what has been sent into its outgoing channel. */
  datatype Socket = Socket(target: SocketKind, outgoing: seq<seq<byte>>)

  datatype ConnectionState = Connected | Failed | TimedOut

  datatype SocketAction =
    | Connect(handle: SocketHandle, state: ConnectionState)
    | Data(handle: SocketHandle, data: seq<byte>)
    | Close(handle: SocketHandle)

  /** The events `update_sockets` dispatches. */
  datatype EventKind =
    | ConnectEvent
    | IoErrorEvent(text: string, errorId: nat)
    | SocketDataEvent(bytesLoaded: nat, bytesTotal: nat)
    | CloseEvent

  datatype Event = Event(target: SocketKind, kind: EventKind)

  /** A call of the backend's `connect_socket`. */
  datatype ConnectRequest = ConnectRequest(host: string, port: nat, timeout: nat, handle: SocketHandle)

  /** The text and id of the I/O error a failed connection reports. */
  const SocketErrorText: string := "Error #2031: Socket Error."
  const SocketErrorId: nat := 2031

  /** A channel of socket actions: the sending ends are cloned, the registry holds the receiving end. */
  class ActionChannel {
    var queue: seq<SocketAction>

    constructor ()
      ensures queue == []
    {
      queue := [];
    }

    /** The `try_recv` loop: every queued action is taken out, oldest first. */
    method Drain() returns (actions: seq<SocketAction>)
      modifies this
      ensures actions == old(queue) && queue == []
    {
      actions := [];
      while queue != []
        invariant actions + queue == old(queue)
        decreases |queue|
      {
        assert actions + queue == actions + [queue[0]] + queue[1..];
        actions := actions + [queue[0]];
        queue := queue[1..];
      }
      assert actions + queue == actions;
    }

    /** `send`: the action joins the back of the queue. */
    method Send(a: SocketAction)
      modifies this
      ensures queue == old(queue) + [a]
    {
      queue := queue + [a];
    }
  }

  // ---------------------------------------------------------------------
  // What one drained queue of actions does

  /**
   * The actions `update_sockets` cannot handle: a failed connection or
   * incoming data for a live XMLSocket (those arms are unfinished).
   */
  predicate Unfinished(table: map<SocketHandle, Socket>, a: SocketAction)
  {
    !a.Close? && !(a.Connect? && a.state == Connected) &&
    a.handle in table && table[a.handle].target.Avm2XmlSocket?
  }

  predicate NoneUnfinished(table: map<SocketHandle, Socket>, actions: seq<SocketAction>)
  {
    forall i :: 0 <= i < |actions| ==> !Unfinished(table, actions[i])
  }

  /** The event one action dispatches: none when its handle is no longer live. */
  function EventFor(table: map<SocketHandle, Socket>, a: SocketAction): (r: Option<Event>)
    requires !Unfinished(table, a)
    ensures r.None? <==> a.handle !in table
    ensures r.Some? ==> r.value.target == table[a.handle].target
    ensures r.Some? && a.Data? ==> r.value.kind == SocketDataEvent(|a.data|, 0)
    ensures r.Some? && a.Connect? && a.state != Connected ==> r.value.kind == IoErrorEvent(SocketErrorText, SocketErrorId)
  {
    if a.handle !in table then None
    else
      var target := table[a.handle].target;
      match a
      case Connect(_, Connected) => Some(Event(target, ConnectEvent))
      case Connect(_, _) => Some(Event(target, IoErrorEvent(SocketErrorText, SocketErrorId)))
      case Data(_, data) => Some(Event(target, SocketDataEvent(|data|, 0)))
      case Close(_) => Some(Event(target, CloseEvent))
  }

  /** The events a queue of actions dispatches, in queue order. */
  function EventsOf(table: map<SocketHandle, Socket>, actions: seq<SocketAction>): seq<Event>
    requires NoneUnfinished(table, actions)
  {
    if actions == [] then []
    else
      var last := EventFor(table, actions[|actions| - 1]);
      EventsOf(table, actions[..|actions| - 1]) + (if last.Some? then [last.value] else [])
  }

  /** The bytes a queue of actions delivers to socket `s`, in queue order. */
  function Received(table: map<SocketHandle, Socket>, actions: seq<SocketAction>, s: SocketObject): seq<byte>
  {
    if actions == [] then []
    else
      var a := actions[|actions| - 1];
      Received(table, actions[..|actions| - 1], s) + Delivered(table, a, s)
  }

  /** The bytes one action delivers to socket `s`: its data when it is incoming data for `s`'s live handle. */
  function Delivered(table: map<SocketHandle, Socket>, a: SocketAction, s: SocketObject): seq<byte>
  {
    if a.Data? && a.handle in table && table[a.handle].target == Avm2Socket(s) then a.data else []
  }

  /** The `Socket` objects of the live sockets: the read buffers `update_sockets` may extend. */
  function SocketObjects(table: map<SocketHandle, Socket>): set<SocketObject>
  {
    set h | h in table && table[h].target.Avm2Socket? :: table[h].target.socket
  }

  /** Handling a queue in two parts handles the first part, then the second: the log is in FIFO order. */
  lemma {:induction false} EventsOfAppend(table: map<SocketHandle, Socket>, a: seq<SocketAction>, b: seq<SocketAction>)
    requires NoneUnfinished(table, a) && NoneUnfinished(table, b)
    ensures NoneUnfinished(table, a + b)
    ensures EventsOf(table, a + b) == EventsOf(table, a) + EventsOf(table, b)
  {
    assert NoneUnfinished(table, a + b) by {
      forall i | 0 <= i < |a + b| ensures !Unfinished(table, (a + b)[i]) {
        if i >= |a| { assert (a + b)[i] == b[i - |a|]; }
      }
    }
    if b == [] {
      assert a + b == a;
    } else {
      var b0 := b[..|b| - 1];
      assert (a + b)[..|a + b| - 1] == a + b0;
      assert (a + b)[|a + b| - 1] == b[|b| - 1];
      assert NoneUnfinished(table, b0) by {
        forall i | 0 <= i < |b0| ensures !Unfinished(table, b0[i]) {
          assert b0[i] == b[i];
        }
      }
      EventsOfAppend(table, a, b0);
    }
  }

  /** Only actions on live handles dispatch, one event each, on that socket's object. */
  lemma {:induction false} EventsOnlyForLive(table: map<SocketHandle, Socket>, actions: seq<SocketAction>)
    requires NoneUnfinished(table, actions)
    ensures |EventsOf(table, actions)| == |LiveActions(table, actions)|
    ensures forall i :: 0 <= i < |EventsOf(table, actions)| ==>
              EventsOf(table, actions)[i].target == table[LiveActions(table, actions)[i].handle].target
  {
    if actions != [] {
      var init := actions[..|actions| - 1];
      assert NoneUnfinished(table, init) by {
        forall i | 0 <= i < |init| ensures !Unfinished(table, init[i]) {
          assert init[i] == actions[i];
        }
      }
      EventsOnlyForLive(table, init);
    }
  }

  /** The actions whose handle is live, in queue order. */
  function LiveActions(table: map<SocketHandle, Socket>, actions: seq<SocketAction>): (r: seq<SocketAction>)
    ensures forall i :: 0 <= i < |r| ==> r[i].handle in table
  {
    if actions == [] then []
    else
      var a := actions[|actions| - 1];
      LiveActions(table, actions[..|actions| - 1]) + (if a.handle in table then [a] else [])
  }

  /** Data is delivered to a socket only through its own live handle: nothing reaches a socket absent from the table. */
  lemma {:induction false} NothingReceivedWhenAbsent(table: map<SocketHandle, Socket>, actions: seq<SocketAction>, s: SocketObject)
    requires s !in SocketObjects(table)
    ensures Received(table, actions, s) == []
  {
    if actions != [] {
      NothingReceivedWhenAbsent(table, actions[..|actions| - 1], s);
      assert forall h :: h in table && table[h].target.Avm2Socket? ==> table[h].target.socket in SocketObjects(table);
    }
  }

  // ---------------------------------------------------------------------
  // The registry

  class Sockets {
    var table: map<SocketHandle, Socket>
    var next: SocketHandle
    const channel: ActionChannel
    var requests: seq<ConnectRequest>
    var events: seq<Event>

    /** Every live handle was handed out before. */
    ghost predicate Valid()
      reads this
    {
      forall h :: h in table ==> h < next
    }

    /** `Sockets::empty`: no sockets, an empty channel, nothing requested or dispatched. */
    constructor Empty()
      ensures Valid() && table == map[] && fresh(channel) && channel.queue == []
      ensures requests == [] && events == []
    {
      table := map[];
      next := 0;
      channel := new ActionChannel();
      requests := [];
      events := [];
    }

    /** `is_connected`: the handle is live. */
    predicate IsConnected(h: SocketHandle)
      reads this
    {
      h in table
    }

    /**
     * `connect_avm2`: a new socket for `target` under a handle never used
     * before, a connection request to the backend with the object's
     * timeout, and the object's previous connection, if any, closed.
     */
    method ConnectAvm2(target: SocketObject, host: string, port: nat)
      requires Valid()
      requires target.handle.Some? ==> target.handle.value < next
      modifies this, target
      ensures Valid() && next == old(next) + 1
      ensures target.handle == Some(old(next)) && target.timeout == old(target.timeout)
      ensures target.readBuffer == old(target.readBuffer)
      ensures IsConnected(old(next)) && !old(IsConnected(next))
      ensures old(target.handle).Some? ==> !IsConnected(old(target.handle).value)
      ensures table == (if old(target.handle).Some? then old(table) - {old(target.handle).value} else old(table))
                         [old(next) := Socket(Avm2Socket(target), [])]
      ensures requests == old(requests) + [ConnectRequest(host, port, old(target.timeout), old(next))]
      ensures events == old(events)
    {
      var h := next;
      table := table[h := Socket(Avm2Socket(target), [])];
      next := next + 1;
      requests := requests + [ConnectRequest(host, port, target.timeout, h)];
      var existing := target.SetHandle(h);
      if existing.Some? {
        Close(existing.value);
      }
    }

    /** `send`: the data joins the outgoing channel of a live socket; otherwise nothing happens. */
    method Send(h: SocketHandle, data: seq<byte>)
      modifies this
      ensures h in old(table) ==> table == old(table)[h := old(table[h]).(outgoing := old(table[h].outgoing) + [data])]
      ensures h !in old(table) ==> table == old(table)
      ensures next == old(next) && requests == old(requests) && events == old(events)
    {
      if h in table {
        table := table[h := table[h].(outgoing := table[h].outgoing + [data])];
      }
    }

    /** `close`: the handle is no longer live; every other socket is untouched. */
    method Close(h: SocketHandle)
      modifies this
      ensures !IsConnected(h)
      ensures forall k :: k != h ==> (k in table <==> k in old(table)) && (k in table ==> table[k] == old(table[k]))
      ensures next == old(next) && requests == old(requests) && events == old(events)
    {
      table := table - {h};
    }

    /**
     * `update_sockets`: the whole incoming queue is drained first, then its
     * actions are handled in order.  The table is not changed; actions on
     * handles no longer live are skipped; data extends the socket's read
     * buffer.
     */
    method UpdateSockets()
      requires Valid()
      requires NoneUnfinished(table, channel.queue)
      modifies this, channel, SocketObjects(table)
      ensures table == old(table) && next == old(next) && requests == old(requests)
      ensures channel.queue == []
      ensures events == old(events) + EventsOf(old(table), old(channel.queue))
      ensures forall s :: s in SocketObjects(old(table)) ==>
                s.readBuffer == old(s.readBuffer) + Received(old(table), old(channel.queue), s)
    {
      var actions := channel.Drain();
      ghost var targets := SocketObjects(table);
      for i := 0 to |actions|
        invariant table == old(table) && next == old(next) && requests == old(requests) && channel.queue == []
        invariant events == old(events) + EventsOf(table, actions[..i])
        invariant forall s :: s in targets ==> s.readBuffer == old(s.readBuffer) + Received(table, actions[..i], s)
      {
        assert actions[..i + 1][..i] == actions[..i] && actions[..i + 1][i] == actions[i];
        Dispatch(actions[i]);
      }
      assert actions[..|actions|] == actions;
    }

    /**
     * One action of `update_sockets`: nothing for a handle no longer live;
     * otherwise the event for the socket's object, and for incoming data
     * the bytes appended to the socket's read buffer.
     */
    method Dispatch(a: SocketAction)
      requires !Unfinished(table, a)
      modifies this, SocketObjects(table)
      ensures table == old(table) && next == old(next) && requests == old(requests)
      ensures events == old(events) + (if EventFor(table, a).Some? then [EventFor(table, a).value] else [])
      ensures forall s :: s in SocketObjects(table) ==> s.readBuffer == old(s.readBuffer) + Delivered(table, a, s)
    {
      if a.handle !in table {
        return;
      }
      var target := table[a.handle].target;
      match a {
        case Connect(_, Connected) =>
          events := events + [Event(target, ConnectEvent)];
        case Connect(_, _) =>
          if target.Avm2XmlSocket? {
            assert false;
          }
          events := events + [Event(target, IoErrorEvent(SocketErrorText, SocketErrorId))];
        case Data(_, data) =>
          if target.Avm2XmlSocket? {
            assert false;
          }
          var s := target.socket;
          s.readBuffer := s.readBuffer + data;
          events := events + [Event(target, SocketDataEvent(|data|, 0))];
        case Close(_) =>
          events := events + [Event(target, CloseEvent)];
      }
    }
  }
}
