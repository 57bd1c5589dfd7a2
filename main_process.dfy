/**
 * MainProcess: the console's main process between the robot's WebSocket
 * endpoints and the renderer window.
 *
 * The map relay forwards at most one map frame per 200 ms timer, always
 * the most recent one.  Each channel (commands and map) keeps at most one
 * socket handle, which connect, send, close and the socket's own error
 * and close events read and reset.  Timers, sockets and the window are
 * replaced by the events that drive the handlers.
 */
module MainProcess {
  import opened Common

  /** JavaScript truthiness of a string-or-null: null and "" are falsy. */
  predicate Truthy(s: Option<string>)
  {
    s.Some? && s.value != ""
  }

  // ---------------------------------------------------------------------
  // Map relay (sendGraymapDataThrottled)
  // ---------------------------------------------------------------------

  /** lastMapData, mapUpdatePending, the number of timers scheduled and not
      yet fired, the number ever scheduled, and the frames emitted to the
      window. */
  datatype Relay = Relay(last: Option<string>, pending: bool, timers: nat, scheduled: nat, emitted: seq<string>)

  const InitialRelay := Relay(None, false, 0, 0, [])

  /** A frame arrives. */
  function OnPush(r: Relay, data: string): Relay
  {
    if !r.pending then r.(last := Some(data), pending := true, timers := r.timers + 1, scheduled := r.scheduled + 1)
    else r.(last := Some(data))
  }

  /** The map socket's message event: the frame reaches the relay only
      while mainWindow is set. */
  function OnMessage(r: Relay, data: string, windowAlive: bool): Relay
  {
    if windowAlive then OnPush(r, data) else r
  }

  /** The scheduled timer fires; `windowAlive` is whether mainWindow is set. */
  function OnFire(r: Relay, windowAlive: bool): Relay
    requires r.timers > 0
  {
    var fired := r.(timers := r.timers - 1);
    if windowAlive && Truthy(r.last) then fired.(emitted := r.emitted + [r.last.value], pending := false)
    else fired
  }

  /** At most one timer is outstanding, only while a frame is pending; a
      pending frame is stored; every emission used up its own timer. */
  ghost predicate RelayInv(r: Relay)
  {
    && r.timers <= 1
    && (r.timers == 1 ==> r.pending)
    && (r.pending ==> r.last.Some?)
    && |r.emitted| + r.timers <= r.scheduled
  }

  lemma InitialRelayInv()
    ensures RelayInv(InitialRelay)
  {
  }

  /** Pushes and timer fires keep the relay invariant, so there is never
      more than one timer and never more emissions than timers. */
  lemma RelayInvPreserved(r: Relay, data: string, windowAlive: bool)
    requires RelayInv(r)
    ensures RelayInv(OnPush(r, data))
    ensures RelayInv(OnMessage(r, data, windowAlive))
    ensures r.timers > 0 ==> RelayInv(OnFire(r, windowAlive))
  {
  }

  /** A push schedules a timer exactly when none is pending, and always
      replaces the stored frame. */
  lemma PushSchedulesOnlyWhenIdle(r: Relay, data: string)
    ensures OnPush(r, data).last == Some(data)
    ensures OnPush(r, data).pending
    ensures OnPush(r, data).scheduled == r.scheduled + (if r.pending then 0 else 1)
    ensures OnPush(r, data).emitted == r.emitted
  {
  }

  /** The relay after a run of pushes. */
  function Pushes(r: Relay, ds: seq<string>): Relay
    decreases |ds|
  {
    if ds == [] then r else Pushes(OnPush(r, ds[0]), ds[1..])
  }

  /** Latest value wins: after pushes, the stored frame is the last one
      pushed, at most one timer more is scheduled, and nothing is emitted. */
  lemma {:induction false} PushesKeepLatest(r: Relay, ds: seq<string>)
    requires RelayInv(r)
    ensures var p := Pushes(r, ds);
      && RelayInv(p)
      && (ds != [] ==> p.last == Some(ds[|ds| - 1]) && p.pending)
      && (ds == [] ==> p == r)
      && p.emitted == r.emitted
      && p.scheduled <= r.scheduled + 1
      && (r.pending ==> p.scheduled == r.scheduled && p.timers == r.timers)
    decreases |ds|
  {
    if ds != [] {
      RelayInvPreserved(r, ds[0], true);
      PushesKeepLatest(OnPush(r, ds[0]), ds[1..]);
      if |ds| > 1 {
        assert ds[1..][|ds[1..]| - 1] == ds[|ds| - 1];
      }
    }
  }

  /** A timer that fires with the window alive emits exactly the last
      frame pushed before it (unless that frame is the empty string) and
      clears pending. */
  lemma FireEmitsLatest(r: Relay, ds: seq<string>)
    requires RelayInv(r) && ds != []
    requires Pushes(r, ds).timers > 0
    ensures var f := OnFire(Pushes(r, ds), true);
      ds[|ds| - 1] != "" ==> f.emitted == r.emitted + [ds[|ds| - 1]] && !f.pending
    ensures ds[|ds| - 1] == "" ==> OnFire(Pushes(r, ds), true).emitted == r.emitted
  {
    PushesKeepLatest(r, ds);
  }

  /** Pending is cleared only by an emission: a timer that fires with the
      window gone (or an empty frame) leaves the relay pending with no
      timer, and from then on pushes schedule nothing and emit nothing. */
  lemma StallsWithoutEmission(r: Relay, windowAlive: bool, ds: seq<string>)
    requires RelayInv(r) && r.timers > 0
    requires !windowAlive || !Truthy(r.last)
    ensures var f := OnFire(r, windowAlive);
      && f.pending && f.timers == 0 && f.emitted == r.emitted
      && Pushes(f, ds).timers == 0
      && Pushes(f, ds).scheduled == r.scheduled
      && Pushes(f, ds).emitted == r.emitted
  {
    RelayInvPreserved(r, "", windowAlive);
    PushesKeepLatest(OnFire(r, windowAlive), ds);
  }

  /** The relay's module state in the main process. */
  class MapRelay {
    var last: Option<string>
    var pending: bool
    var timers: nat
    var scheduled: nat
    var emitted: seq<string>

    function State(): Relay
      reads this
    {
      Relay(last, pending, timers, scheduled, emitted)
    }

    constructor ()
      ensures State() == InitialRelay
    {
      last, pending, timers, scheduled, emitted := None, false, 0, 0, [];
    }

    /** sendGraymapDataThrottled(data). */
    method Push(data: string)
      modifies this
      ensures State() == OnPush(old(State()), data)
    {
      if !pending {
        last := Some(data);
        pending := true;
        timers := timers + 1;
        scheduled := scheduled + 1;
      } else {
        last := Some(data);
      }
    }

    /** The map socket's message handler, which calls
        sendGraymapDataThrottled only while the window exists. */
    method Message(data: string, windowAlive: bool)
      modifies this
      ensures State() == OnMessage(old(State()), data, windowAlive)
    {
      if windowAlive {
        Push(data);
      }
    }

    /** The 200 ms timer callback. */
    method Fire(windowAlive: bool)
      requires timers > 0
      modifies this
      ensures State() == OnFire(old(State()), windowAlive)
    {
      timers := timers - 1;
      if windowAlive && last.Some? && last.value != "" {
        emitted := emitted + [last.value];
        pending := false;
      }
    }
  }

  // ---------------------------------------------------------------------
  // Socket handle of one channel (wsClient / graymapWsClient)
  // ---------------------------------------------------------------------

  /** WebSocket readyState. */
  datatype SocketState = Connecting | Open | Closing | Closed

  predicate Live(s: SocketState)
  {
    s == Connecting || s == Open
  }

  /** Sockets are numbered in creation order.  `handle` is the channel
      variable; `sent` holds each forwarded message with its socket. */
  datatype Channel = Channel(handle: Option<nat>, sockets: seq<SocketState>, sent: seq<(nat, string)>)

  const InitialChannel := Channel(None, [], [])

  /** What drives a channel: the renderer's connect, send and close
      requests, and the socket's own open, error and close events. */
  datatype Event =
    | Connect
    | SendMessage(msg: string)
    | CloseChannel(terminateThrows: bool)
    | SocketOpened(id: nat)
    | SocketError(id: nat)
    | SocketClosed(id: nat)

  /** ws.close(): a closing handshake starts unless the socket is closed. */
  function CloseSocket(st: SocketState): SocketState
  {
    if st == Closed then Closed else Closing
  }

  /** connect: close the socket held, if any, then hold a new one. */
  function OnConnect(c: Channel): (r: Channel)
    ensures r.handle == Some(|c.sockets|) && |r.sockets| == |c.sockets| + 1
  {
    var sockets := if c.handle.Some? && c.handle.value < |c.sockets|
      then c.sockets[c.handle.value := CloseSocket(c.sockets[c.handle.value])]
      else c.sockets;
    c.(handle := Some(|c.sockets|), sockets := sockets + [Connecting])
  }

  /** send-message: forward only through a held socket that is open. */
  function OnSend(c: Channel, msg: string): Channel
  {
    if c.handle.Some? && c.handle.value < |c.sockets| && c.sockets[c.handle.value] == Open
    then c.(sent := c.sent + [(c.handle.value, msg)])
    else c
  }

  /** close-websocket: terminate the held socket and always drop the
      handle.  ws.terminate() leaves the socket closing, its close event
      still to come; a terminate that throws leaves the socket as it
      was. */
  function OnCloseChannel(c: Channel, terminateThrows: bool): (r: Channel)
    ensures r.handle == None
    ensures c.handle.None? ==> r == c
    ensures r.sent == c.sent && |r.sockets| == |c.sockets|
    ensures forall i :: 0 <= i < |c.sockets| && c.handle != Some(i) ==> r.sockets[i] == c.sockets[i]
  {
    if c.handle.None? then c
    else
      var sockets := if !terminateThrows && c.handle.value < |c.sockets|
        then c.sockets[c.handle.value := CloseSocket(c.sockets[c.handle.value])] else c.sockets;
      c.(handle := None, sockets := sockets)
  }

  /** The socket's error or close event as the handlers are written: the
      channel variable is reset whichever socket raised the event. */
  function OnSocketEndAsWritten(c: Channel, id: nat, closed: bool): (r: Channel)
    requires id < |c.sockets|
    ensures r.handle == None
  {
    c.(handle := None, sockets := c.sockets[id := if closed then Closed else Closing])
  }

  /** The socket's error or close event, resetting the channel variable
      only when it still holds the socket that raised the event. */
  function OnSocketEnd(c: Channel, id: nat, closed: bool): (r: Channel)
    requires id < |c.sockets|
    ensures r.handle == (if c.handle == Some(id) then None else c.handle)
  {
    c.(handle := if c.handle == Some(id) then None else c.handle,
       sockets := c.sockets[id := if closed then Closed else Closing])
  }

  /** Events the environment can deliver: sockets that exist raise events;
      open only from connecting, nothing after closed. */
  predicate Enabled(c: Channel, e: Event)
  {
    match e
    case SocketOpened(id) => id < |c.sockets| && c.sockets[id] == Connecting
    case SocketError(id) => id < |c.sockets| && c.sockets[id] != Closed
    case SocketClosed(id) => id < |c.sockets| && c.sockets[id] != Closed
    case _ => true
  }

  function Step(c: Channel, e: Event): Channel
    requires Enabled(c, e)
  {
    match e
    case Connect => OnConnect(c)
    case SendMessage(msg) => OnSend(c, msg)
    case CloseChannel(throws) => OnCloseChannel(c, throws)
    case SocketOpened(id) => c.(sockets := c.sockets[id := Open])
    case SocketError(id) => OnSocketEnd(c, id, false)
    case SocketClosed(id) => OnSocketEnd(c, id, true)
  }

  function StepAsWritten(c: Channel, e: Event): Channel
    requires Enabled(c, e)
  {
    match e
    case SocketError(id) => OnSocketEndAsWritten(c, id, false)
    case SocketClosed(id) => OnSocketEndAsWritten(c, id, true)
    case _ => Step(c, e)
  }

  /** The channel's only live socket is the one it holds: every other
      socket is closing or closed, and the handle names an existing
      socket. */
  ghost predicate Tidy(c: Channel)
  {
    && (c.handle.Some? ==> c.handle.value < |c.sockets|)
    && forall i :: 0 <= i < |c.sockets| && c.handle != Some(i) ==> !Live(c.sockets[i])
  }

  /** A tidy channel never has two live sockets. */
  lemma TidyHasOneLiveSocket(c: Channel, i: nat, j: nat)
    requires Tidy(c)
    requires i < |c.sockets| && j < |c.sockets| && Live(c.sockets[i]) && Live(c.sockets[j])
    ensures i == j && c.handle == Some(i)
  {
  }

  /** Every event keeps a channel tidy, except a terminate that throws. */
  lemma StepKeepsTidy(c: Channel, e: Event)
    requires Tidy(c) && Enabled(c, e)
    requires !(e.CloseChannel? && e.terminateThrows)
    ensures Tidy(Step(c, e))
  {
  }

  /** A message is forwarded exactly when the held socket is open, and then
      through that socket. */
  lemma SendOnlyWhenOpen(c: Channel, msg: string)
    requires Tidy(c)
    ensures var r := OnSend(c, msg);
      && (r.sent != c.sent <==> c.handle.Some? && c.sockets[c.handle.value] == Open)
      && (r.sent != c.sent ==> r.sent == c.sent + [(c.handle.value, msg)])
      && r.handle == c.handle && r.sockets == c.sockets
  {
    if c.handle.Some? && c.sockets[c.handle.value] == Open {
      assert |OnSend(c, msg).sent| == |c.sent| + 1;
    }
  }

  function RunEvents(c: Channel, es: seq<Event>, asWritten: bool): Channel
    decreases |es|
  {
    if es == [] || !Enabled(c, es[0]) then c
    else RunEvents(if asWritten then StepAsWritten(c, es[0]) else Step(c, es[0]), es[1..], asWritten)
  }

  /** Reconnecting while connected: the old socket's close event arrives
      after the new socket is held and open.  As written it drops the new
      handle, so the open socket is orphaned and a message is dropped;
      with the check, the message goes out on the new socket. */
  lemma ReconnectOrphansSocket()
    ensures var es := [Connect, SocketOpened(0), Connect, SocketOpened(1), SocketClosed(0), SendMessage("stop")];
      && RunEvents(InitialChannel, es, true).handle == None
      && RunEvents(InitialChannel, es, true).sockets == [Closed, Open]
      && RunEvents(InitialChannel, es, true).sent == []
      && !Tidy(RunEvents(InitialChannel, es, true))
      && RunEvents(InitialChannel, es, false).handle == Some(1)
      && RunEvents(InitialChannel, es, false).sent == [(1, "stop")]
  {
    var es := [Connect, SocketOpened(0), Connect, SocketOpened(1), SocketClosed(0), SendMessage("stop")];
    ReconnectPrefix(true);
    ReconnectPrefix(false);
    ReconnectLast(true);
    ReconnectLast(false);
    var w5 := RunEvents(InitialChannel, es, true);
    assert w5.handle != Some(1) && Live(w5.sockets[1]);
  }

  /** The last two events of ReconnectOrphansSocket: the first socket's
      close event, then a message. */
  lemma ReconnectLast(asWritten: bool)
    ensures RunEvents(Channel(Some(1), [Closing, Open], []), [SocketClosed(0), SendMessage("stop")], asWritten)
         == if asWritten then Channel(None, [Closed, Open], []) else Channel(Some(1), [Closed, Open], [(1, "stop")])
  {
    var c4 := Channel(Some(1), [Closing, Open], []);
    var e5: seq<Event> := [SendMessage("stop")];
    var c5 := if asWritten then Channel(None, [Closed, Open], []) else Channel(Some(1), [Closed, Open], []);
    assert [SocketClosed(0)] + e5 == [SocketClosed(0), SendMessage("stop")];
    RunOne(c4, SocketClosed(0), e5, asWritten);
    assert (if asWritten then StepAsWritten(c4, SocketClosed(0)) else Step(c4, SocketClosed(0))) == c5;
    assert e5 == [SendMessage("stop")] + [];
    RunOne(c5, SendMessage("stop"), [], asWritten);
  }

  /** The first four events of ReconnectOrphansSocket: both sockets opened,
      the first one closing, the second one held. */
  lemma ReconnectPrefix(asWritten: bool)
    ensures RunEvents(InitialChannel, [Connect, SocketOpened(0), Connect, SocketOpened(1), SocketClosed(0), SendMessage("stop")], asWritten)
         == RunEvents(Channel(Some(1), [Closing, Open], []), [SocketClosed(0), SendMessage("stop")], asWritten)
  {
    var c1 := Channel(Some(0), [Connecting], []);
    var e1: seq<Event> := [SocketOpened(0), Connect, SocketOpened(1), SocketClosed(0), SendMessage("stop")];
    assert [Connect] + e1 == [Connect, SocketOpened(0), Connect, SocketOpened(1), SocketClosed(0), SendMessage("stop")];
    RunOne(InitialChannel, Connect, e1, asWritten);
    assert Step(InitialChannel, Connect) == c1;
    var c2 := Channel(Some(0), [Open], []);
    var e2: seq<Event> := [Connect, SocketOpened(1), SocketClosed(0), SendMessage("stop")];
    assert e1 == [SocketOpened(0)] + e2;
    RunOne(c1, SocketOpened(0), e2, asWritten);
    assert Step(c1, SocketOpened(0)) == c2;
    ReconnectSecond(asWritten);
  }

  /** The second connect of ReconnectOrphansSocket, and its socket opening. */
  lemma ReconnectSecond(asWritten: bool)
    ensures RunEvents(Channel(Some(0), [Open], []), [Connect, SocketOpened(1), SocketClosed(0), SendMessage("stop")], asWritten)
         == RunEvents(Channel(Some(1), [Closing, Open], []), [SocketClosed(0), SendMessage("stop")], asWritten)
  {
    var c2 := Channel(Some(0), [Open], []);
    var c3 := Channel(Some(1), [Closing, Connecting], []);
    var c4 := Channel(Some(1), [Closing, Open], []);
    var e4: seq<Event> := [SocketClosed(0), SendMessage("stop")];
    var e3 := [SocketOpened(1)] + e4;
    assert [Connect] + e3 == [Connect, SocketOpened(1), SocketClosed(0), SendMessage("stop")];
    RunOne(c2, Connect, e3, asWritten);
    assert Step(c2, Connect) == c3;
    RunOne(c3, SocketOpened(1), e4, asWritten);
    assert Step(c3, SocketOpened(1)) == c4;
  }

  /** Closing the channel, then connecting again: the terminated socket's
      close event still arrives, after the new socket is held and open.
      As written it drops the new handle here too; with the check, the
      message goes out on the new socket. */
  lemma CloseThenReconnectOrphansSocket()
    ensures var es := [Connect, SocketOpened(0), CloseChannel(false), Connect, SocketOpened(1), SocketClosed(0), SendMessage("stop")];
      && RunEvents(InitialChannel, es, true) == Channel(None, [Closed, Open], [])
      && !Tidy(RunEvents(InitialChannel, es, true))
      && RunEvents(InitialChannel, es, false) == Channel(Some(1), [Closed, Open], [(1, "stop")])
  {
    CloseReconnectPrefix(true);
    CloseReconnectPrefix(false);
    ReconnectLast(true);
    ReconnectLast(false);
    var w := Channel(None, [Closed, Open], []);
    assert w.handle != Some(1) && Live(w.sockets[1]);
  }

  /** The first five events of CloseThenReconnectOrphansSocket: the first
      socket terminated and closing, the second one held and open. */
  lemma CloseReconnectPrefix(asWritten: bool)
    ensures RunEvents(InitialChannel, [Connect, SocketOpened(0), CloseChannel(false), Connect, SocketOpened(1), SocketClosed(0), SendMessage("stop")], asWritten)
         == RunEvents(Channel(Some(1), [Closing, Open], []), [SocketClosed(0), SendMessage("stop")], asWritten)
  {
    var tail: seq<Event> := [SocketClosed(0), SendMessage("stop")];
    var e4 := [SocketOpened(1)] + tail;
    var e3 := [Connect] + e4;
    var e2 := [CloseChannel(false)] + e3;
    var e1 := [SocketOpened(0)] + e2;
    assert [Connect] + e1 == [Connect, SocketOpened(0), CloseChannel(false), Connect, SocketOpened(1), SocketClosed(0), SendMessage("stop")];
    var c1 := Channel(Some(0), [Connecting], []);
    var c2 := Channel(Some(0), [Open], []);
    var c3 := Channel(None, [Closing], []);
    var c4 := Channel(Some(1), [Closing, Connecting], []);
    RunOne(InitialChannel, Connect, e1, asWritten);
    assert Step(InitialChannel, Connect) == c1;
    RunOne(c1, SocketOpened(0), e2, asWritten);
    assert Step(c1, SocketOpened(0)) == c2;
    RunOne(c2, CloseChannel(false), e3, asWritten);
    assert Step(c2, CloseChannel(false)) == c3;
    RunOne(c3, Connect, e4, asWritten);
    assert Step(c3, Connect) == c4;
    RunOne(c4, SocketOpened(1), tail, asWritten);
    assert Step(c4, SocketOpened(1)) == Channel(Some(1), [Closing, Open], []);
  }

  /** RunEvents on an enabled first event takes that step. */
  lemma RunOne(c: Channel, e: Event, rest: seq<Event>, asWritten: bool)
    requires Enabled(c, e)
    ensures RunEvents(c, [e] + rest, asWritten) ==
            RunEvents(if asWritten then StepAsWritten(c, e) else Step(c, e), rest, asWritten)
  {
    assert ([e] + rest)[0] == e && ([e] + rest)[1..] == rest;
  }

  /** One channel of the main process, with the corrected event handlers. */
  class ChannelHandle {
    var handle: Option<nat>
    var sockets: seq<SocketState>
    var sent: seq<(nat, string)>

    function State(): Channel
      reads this
    {
      Channel(handle, sockets, sent)
    }

    constructor ()
      ensures State() == InitialChannel
    {
      handle, sockets, sent := None, [], [];
    }

    /** connect-websocket / connect-graymap-websocket. */
    method Connect()
      modifies this
      ensures State() == OnConnect(old(State()))
    {
      if handle.Some? && handle.value < |sockets| {
        sockets := sockets[handle.value := CloseSocket(sockets[handle.value])];
      }
      var id := |sockets|;
      sockets := sockets + [Connecting];
      handle := Some(id);
    }

    /** send-message. */
    method SendMessage(msg: string)
      modifies this
      ensures State() == OnSend(old(State()), msg)
    {
      if handle.Some? && handle.value < |sockets| && sockets[handle.value] == Open {
        sent := sent + [(handle.value, msg)];
      }
    }

    /** close-websocket / close-graymap-websocket. */
    method Close(terminateThrows: bool)
      modifies this
      ensures State() == OnCloseChannel(old(State()), terminateThrows)
      ensures handle == None
    {
      if handle.Some? {
        if !terminateThrows && handle.value < |sockets| {
          sockets := sockets[handle.value := CloseSocket(sockets[handle.value])];
        }
        handle := None;
      }
    }

    /** The socket's 'open' event. */
    method SocketOpened(id: nat)
      requires Enabled(State(), Event.SocketOpened(id))
      modifies this
      ensures State() == Step(old(State()), Event.SocketOpened(id))
    {
      sockets := sockets[id := Open];
    }

    /** The socket's 'error' (closed false) or 'close' (closed true) event. */
    method SocketEnded(id: nat, closed: bool)
      requires id < |sockets| && sockets[id] != Closed
      modifies this
      ensures State() == OnSocketEnd(old(State()), id, closed)
    {
      sockets := sockets[id := if closed then Closed else Closing];
      if handle == Some(id) {
        handle := None;
      }
    }
  }
}
