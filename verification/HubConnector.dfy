/** The WebSocket connections to the BACnet/SC hubs (sc/ScHubConnector.cpp). libwebsockets is the
    environment: it gives each attempt a socket of its own, known here by the attempt's number, and calls
    back about any socket at any time. */
module HubConnector {
  import opened Octets

  const MAX_RECEIVED_FRAME_OCTETS := 1600
  const MAX_QUEUED_FRAMES := 64

  type Uri = string

  datatype Status = Connected | Disconnected | Error

  datatype StatusEvent = StatusEvent(uri: Uri, status: Status)

  datatype ReceivedFrame = ReceivedFrame(uri: Uri, data: Bytes)

  /** `socket` is the number of the attempt that owns the connection, if one does. */
  datatype Connection = Connection(socket: Option<nat>, open: bool, closeRequested: bool, sendQueue: seq<Bytes>,
                                   receiveAssembly: Bytes, receiveOverflow: bool)

  const NEW_CONNECTION := Connection(None, false, false, [], [], false)

  datatype Callback =
    | Established
    | ConnectionError
    | Closed
    | Receive(binary: bool, data: Bytes, final: bool)
    | Writeable(written: bool)

  /** What happened on a connection since its current attempt began: fragments received, frames handed up,
      frames Send accepted and frames written. */
  datatype History = History(heard: seq<Callback>, handedUp: seq<Bytes>, accepted: seq<Bytes>, written: seq<Bytes>)

  const NO_HISTORY := History([], [], [], [])

  /** The module's globals, and what has happened: which connection each attempt was for, every status in
      order with its attempt and how many were taken, every frame handed up and how many were taken, and the
      connections' histories. */
  datatype Hub = Hub(context: bool, reloading: bool, connections: map<Uri, Connection>, statuses: seq<StatusEvent>,
                     received: seq<ReceivedFrame>,
                     owners: seq<Uri>, log: seq<(nat, Status)>, taken: nat,
                     frames: seq<ReceivedFrame>, framesTaken: nat, histories: map<Uri, History>)

  function Put(h: Hub, uri: Uri, c: Connection): (g: Hub) {
    h.(connections := h.connections[uri := c])
  }

  function Recorded(h: Hub, uri: Uri, y: History): (g: Hub) {
    h.(histories := h.histories[uri := y])
  }

  function Queued(h: Hub, attempt: nat, uri: Uri, status: Status): (g: Hub) {
    h.(statuses := h.statuses + [StatusEvent(uri, status)], log := h.log + [(attempt, status)])
  }

  // ---------------------------------------------------------------------------
  // One callback
  // ---------------------------------------------------------------------------

  /** The connection after one more fragment, and the frame it completes, if any. */
  function Assembled(c: Connection, f: Callback): (r: (Connection, Option<Bytes>))
    requires f.Receive?
    ensures r.0 == c.(receiveAssembly := r.0.receiveAssembly, receiveOverflow := r.0.receiveOverflow)
  {
    if !f.binary then (c, None)
    else
      var overflow := c.receiveOverflow || |c.receiveAssembly| + |f.data| > MAX_RECEIVED_FRAME_OCTETS;
      var assembly := if overflow then [] else c.receiveAssembly + f.data;
      var assembly' := if c.receiveOverflow then c.receiveAssembly else assembly;
      if !f.final then (c.(receiveAssembly := assembly', receiveOverflow := overflow), None)
      else (c.(receiveAssembly := [], receiveOverflow := false),
            if !overflow && assembly' != [] then Some(assembly') else None)
  }

  function AfterFragment(y: History, f: Callback, frame: Option<Bytes>): (z: History) {
    y.(heard := y.heard + [f], handedUp := y.handedUp + if frame.Some? then [frame.value] else [])
  }

  /** A finished frame is queued for the stack. */
  function HandedUp(h: Hub, uri: Uri, frame: Option<Bytes>): (g: Hub) {
    if frame.None? then h
    else
      var received := ReceivedFrame(uri, frame.value);
      h.(received := h.received + [received], frames := h.frames + [received])
  }

  function AfterReceive(h: Hub, uri: Uri, f: Callback): (g: Hub)
    requires uri in h.connections && uri in h.histories && f.Receive?
  {
    var (c, frame) := Assembled(h.connections[uri], f);
    var y := h.histories[uri];
    HandedUp(Recorded(Put(h, uri, c), uri, AfterFragment(y, f, frame)), uri, frame)
  }

  /** A callback of the current attempt `a` of `uri`; true closes the socket. */
  function AfterCurrent(h: Hub, a: nat, uri: Uri, e: Callback): (r: (Hub, bool))
    requires uri in h.connections && uri in h.histories
  {
    var c, y := h.connections[uri], h.histories[uri];
    match e
    case Established => (Queued(Put(h, uri, c.(open := true)), a, uri, Connected), false)
    case ConnectionError => (Queued(Put(h, uri, c.(open := false, socket := None, sendQueue := [])), a, uri, Error),
        false)
    case Closed => (Queued(Put(h, uri, c.(open := false, socket := None, sendQueue := [])), a, uri, Disconnected),
        false)
    case Receive(_, _, _) => (AfterReceive(h, uri, e), false)
    case Writeable(written) =>
      if c.closeRequested then (h, true)
      else if c.sendQueue == [] then (h, false)
      else if !written then (h, true)
      else (Recorded(Put(h, uri, c.(sendQueue := c.sendQueue[1..])), uri,
          y.(written := y.written + [c.sendQueue[0]])), false)
  }

  predicate IsCurrent(h: Hub, a: nat) {
    a < |h.owners| && h.owners[a] in h.connections && h.owners[a] in h.histories &&
        h.connections[h.owners[a]].socket == Some(a)
  }

  /** HubProtocolCallback for the socket of attempt `a`. */
  function AfterCallback(h: Hub, a: nat, e: Callback): (r: (Hub, bool))
    ensures r.0.connections.Keys == h.connections.Keys
  {
    if a >= |h.owners| || h.reloading then (h, false)
    else if IsCurrent(h, a) then AfterCurrent(h, a, h.owners[a], e)
    else (h, e.Established? || e.Receive? || e.Writeable?)
  }

  function AfterCallbacks(h: Hub, events: seq<(nat, Callback)>): (g: Hub)
    ensures g.connections.Keys == h.connections.Keys
  {
    if events == [] then h
    else
      var last := events[|events| - 1];
      AfterCallback(AfterCallbacks(h, events[..|events| - 1]), last.0, last.1).0
  }

  // ---------------------------------------------------------------------------
  // The calls
  // ---------------------------------------------------------------------------

  /** A new attempt, before libwebsockets is asked to connect. */
  function Attempted(h: Hub, uri: Uri): (g: Hub) {
    Recorded(Put(h, uri, NEW_CONNECTION), uri, NO_HISTORY).(owners := h.owners + [uri])
  }

  predicate LastStatusIsFor(h: Hub, uri: Uri) { h.statuses != [] && h.statuses[|h.statuses| - 1].uri == uri }

  /** libwebsockets' answer: a socket for attempt `a`, or none. */
  function Answered(h: Hub, a: nat, uri: Uri, connected: bool): (g: Hub)
    requires uri in h.connections
  {
    var answered := Put(h, uri, h.connections[uri].(socket := if connected then Some(a) else None));
    if connected || LastStatusIsFor(h, uri) then answered else Queued(answered, a, uri, Error)
  }

  /** Connect; `during` are the callbacks libwebsockets makes before it answers. */
  function AfterConnect(h: Hub, uri: Uri, isHubUri: bool, during: seq<(nat, Callback)>, connected: bool): (g: Hub) {
    if !h.context || !isHubUri then h
    else Answered(AfterCallbacks(Attempted(h, uri), during), |h.owners|, uri, connected)
  }

  function AfterDisconnect(h: Hub, uri: Uri): (g: Hub) {
    if uri !in h.connections || h.connections[uri].socket.None? then h
    else Put(h, uri, h.connections[uri].(closeRequested := true))
  }

  predicate CanSend(h: Hub, uri: Uri) {
    && uri in h.connections && uri in h.histories && h.connections[uri].open && h.connections[uri].socket.Some?
    && |h.connections[uri].sendQueue| < MAX_QUEUED_FRAMES
  }

  function AfterSend(h: Hub, uri: Uri, data: Bytes): (g: Hub) {
    if !CanSend(h, uri) then h
    else
      var c, y := h.connections[uri], h.histories[uri];
      Recorded(Put(h, uri, c.(sendQueue := c.sendQueue + [data])), uri, y.(accepted := y.accepted + [data]))
  }

  function AfterPopStatus(h: Hub): (g: Hub) {
    if h.statuses == [] then h else h.(statuses := h.statuses[1..], taken := h.taken + 1)
  }

  function AfterPopReceived(h: Hub): (g: Hub) {
    if h.received == [] then h else h.(received := h.received[1..], framesTaken := h.framesTaken + 1)
  }

  /** A reload reports a connection that is up, or coming up, and forgets its socket. */
  function Dropped(h: Hub, uri: Uri): (g: Hub) {
    if uri !in h.connections || (h.connections[uri].socket.None? && !h.connections[uri].open) then h
    else
      var c := h.connections[uri];
      var down := Put(h, uri, c.(open := false, socket := None, sendQueue := []));
      if c.socket.Some? then Queued(down, c.socket.value, uri, Disconnected)
      else down.(statuses := down.statuses + [StatusEvent(uri, Disconnected)])
  }

  function AllDropped(h: Hub, uris: seq<Uri>): (g: Hub) {
    if uris == [] then h else Dropped(AllDropped(h, uris[..|uris| - 1]), uris[|uris| - 1])
  }

  /** ReloadCredentials over the connections in map order; the callbacks of the old context's destruction
      find `reloading` set. */
  function AfterReload(h: Hub, uris: seq<Uri>, created: bool): (g: Hub) {
    AllDropped(h, uris).(context := created)
  }

  datatype Event =
    | Called(attempt: nat, callback: Callback)
    | Connect(uri: Uri, isHubUri: bool, during: seq<(nat, Callback)>, connected: bool)
    | Disconnect(uri: Uri)
    | Send(uri: Uri, data: Bytes)
    | PopStatus
    | PopReceived
    | Reload(uris: seq<Uri>, created: bool)

  function Next(h: Hub, e: Event): (g: Hub) {
    match e
    case Called(attempt, callback) => AfterCallback(h, attempt, callback).0
    case Connect(uri, isHubUri, during, connected) => AfterConnect(h, uri, isHubUri, during, connected)
    case Disconnect(uri) => AfterDisconnect(h, uri)
    case Send(uri, data) => AfterSend(h, uri, data)
    case PopStatus => AfterPopStatus(h)
    case PopReceived => AfterPopReceived(h)
    case Reload(uris, created) => AfterReload(h, uris, created)
  }

  function Run(h: Hub, events: seq<Event>): (g: Hub) {
    if events == [] then h else Next(Run(h, events[..|events| - 1]), events[|events| - 1])
  }

  const STARTED := Hub(true, false, map[], [], [], [], [], 0, [], 0, map[])

  // ---------------------------------------------------------------------------
  // Statuses
  // ---------------------------------------------------------------------------

  predicate Ended(log: seq<(nat, Status)>, a: nat) {
    exists i | 0 <= i < |log| :: log[i].0 == a && log[i].1 != Connected
  }

  predicate Logged(log: seq<(nat, Status)>, a: nat, status: Status) { (a, status) in log }

  /** Nothing follows an attempt's Error or Disconnected: so there is at most one, and no Connected after it. */
  predicate EndsAreLast(log: seq<(nat, Status)>) {
    forall i, j | 0 <= i < j < |log| && log[i].0 == log[j].0 :: log[i].1 == Connected
  }

  /** The statuses still queued are the ones of the log not yet taken, in order. */
  predicate QueueIsLog(h: Hub) {
    && h.taken + |h.statuses| == |h.log|
    && forall i | 0 <= i < |h.statuses| ::
         var entry := h.log[h.taken + i];
         entry.0 < |h.owners| && h.statuses[i] == StatusEvent(h.owners[entry.0], entry.1)
  }

  /** A connection's socket is that of an attempt for it that has not ended, and the open ones are those whose
      attempt has reported Connected. */
  predicate ConnectionSound(h: Hub, uri: Uri)
    requires uri in h.connections
  {
    var c := h.connections[uri];
    && (c.open <==> c.socket.Some? && Logged(h.log, c.socket.value, Connected))
    && (c.socket.Some? ==>
          c.socket.value < |h.owners| && h.owners[c.socket.value] == uri && !Ended(h.log, c.socket.value))
  }

  predicate StatusesSound(h: Hub) {
    && h.connections.Keys == h.histories.Keys && (forall u | u in h.connections :: ConnectionSound(h, u))
    && (forall i | 0 <= i < |h.log| :: h.log[i].0 < |h.owners|)
    && EndsAreLast(h.log) && QueueIsLog(h)
  }

  // ---------------------------------------------------------------------------
  // Frames
  // ---------------------------------------------------------------------------

  /** The messages of a stream of fragments: the octets of each finished binary message, and of the one
      being received. Text fragments are no part of any. */
  function Cut(heard: seq<Callback>): (r: (seq<Bytes>, Bytes))
    requires forall f <- heard :: f.Receive?
  {
    if heard == [] then ([], [])
    else
      var last, (done, current) := heard[|heard| - 1], Cut(heard[..|heard| - 1]);
      if !last.binary then (done, current)
      else if last.final then (done + [current + last.data], [])
      else (done, current + last.data)
  }

  /** The messages of a size the stack takes, in order. */
  function Acceptable(messages: seq<Bytes>): (frames: seq<Bytes>) {
    if messages == [] then []
    else
      var last := messages[|messages| - 1];
      Acceptable(messages[..|messages| - 1]) + if 1 <= |last| <= MAX_RECEIVED_FRAME_OCTETS then [last] else []
  }

  /** Handed up: exactly the acceptable messages. Being assembled: the current one, unless it is too big. */
  predicate FramesSound(c: Connection, y: History) {
    && (forall f <- y.heard :: f.Receive?)
    && y.handedUp == Acceptable(Cut(y.heard).0)
    && c.receiveOverflow == (|Cut(y.heard).1| > MAX_RECEIVED_FRAME_OCTETS)
    && c.receiveAssembly == if c.receiveOverflow then [] else Cut(y.heard).1
  }

  /** While the connection lives, what was written and what is queued is what Send accepted. */
  predicate SendsSound(c: Connection, y: History) {
    && |c.sendQueue| <= MAX_QUEUED_FRAMES && y.written <= y.accepted
    && (c.socket.Some? ==> y.written + c.sendQueue == y.accepted)
    && (c.socket.None? ==> c.sendQueue == [])
  }

  predicate ConnectionTrafficSound(c: Connection, y: History) { FramesSound(c, y) && SendsSound(c, y) }

  predicate TrafficSound(h: Hub) {
    && h.connections.Keys == h.histories.Keys
    && forall u | u in h.connections :: ConnectionTrafficSound(h.connections[u], h.histories[u])
  }

  /** The frames handed up for a connection, over all its attempts. */
  function FramesOf(frames: seq<ReceivedFrame>, uri: Uri): (octets: seq<Bytes>) {
    if frames == [] then []
    else
      var last := frames[|frames| - 1];
      FramesOf(frames[..|frames| - 1], uri) + if last.uri == uri then [last.data] else []
  }

  predicate EndsWith<T(==)>(s: seq<T>, end: seq<T>) { |end| <= |s| && s[|s| - |end|..] == end }

  /** What PopReceived gives: the queue is the frames handed up and not yet taken, in order, and what a
      connection's current attempt handed up are the last of its frames. */
  predicate QueueIsFrames(h: Hub) {
    && h.connections.Keys == h.histories.Keys
    && h.framesTaken + |h.received| == |h.frames| && h.received == h.frames[h.framesTaken..]
    && forall u | u in h.histories :: EndsWith(FramesOf(h.frames, u), h.histories[u].handedUp)
  }

  predicate Sound(h: Hub) { StatusesSound(h) && TrafficSound(h) && QueueIsFrames(h) && !h.reloading }

  // ---------------------------------------------------------------------------
  // The connector
  // ---------------------------------------------------------------------------

  class HubConnector {
    var context: bool
    var reloading: bool
    var connections: map<Uri, Connection>
    var statusEvents: seq<StatusEvent>
    var receivedFrames: seq<ReceivedFrame>
    var owners: seq<Uri>    // libwebsockets' opaque user data: the connection of each attempt's socket
    ghost var log: seq<(nat, Status)>
    ghost var taken: nat
    ghost var frames: seq<ReceivedFrame>
    ghost var framesTaken: nat
    ghost var histories: map<Uri, History>

    constructor ()
      ensures View() == STARTED
    {
      context, reloading, connections, statusEvents, receivedFrames, owners := true, false, map[], [], [], [];
      log, taken, frames, framesTaken, histories := [], 0, [], 0, map[];
    }

    ghost function View(): (h: Hub)
      reads this
    {
      Hub(context, reloading, connections, statusEvents, receivedFrames, owners, log, taken, frames, framesTaken,
          histories)
    }

    ghost predicate Valid()
      reads this
    {
      connections.Keys == histories.Keys && forall a | 0 <= a < |owners| :: owners[a] in connections
    }

    method QueueStatus(attempt: nat, uri: Uri, status: Status)
      modifies this`statusEvents, this`log
      ensures View() == Queued(old(View()), attempt, uri, status)
    {
      statusEvents := statusEvents + [StatusEvent(uri, status)];
      log := log + [(attempt, status)];
    }

    /** A fragment of the current attempt's stream. */
    method ReceiveFragment(uri: Uri, binary: bool, data: Bytes, final: bool)
      requires Valid() && uri in connections
      modifies this`connections, this`receivedFrames, this`frames, this`histories
      ensures Valid() && View() == AfterReceive(old(View()), uri, Receive(binary, data, final))
    {
      ghost var f, y := Receive(binary, data, final), histories[uri];
      var c := connections[uri];
      ghost var frame := Assembled(c, f).1;
      histories := histories[uri := AfterFragment(y, f, frame)];
      if !binary {
        assert connections == connections[uri := c];
        return;
      }
      if !c.receiveOverflow {
        if |c.receiveAssembly| + |data| > MAX_RECEIVED_FRAME_OCTETS {
          c := c.(receiveOverflow := true, receiveAssembly := []);
        } else {
          c := c.(receiveAssembly := c.receiveAssembly + data);
        }
      }
      if final {
        if !c.receiveOverflow && c.receiveAssembly != [] {
          receivedFrames := receivedFrames + [ReceivedFrame(uri, c.receiveAssembly)];
          frames := frames + [ReceivedFrame(uri, c.receiveAssembly)];
        }
        c := c.(receiveAssembly := [], receiveOverflow := false);
      }
      connections := connections[uri := c];
    }

    /** libwebsockets' callback for the socket of attempt `a`; true closes that socket. */
    method HubProtocolCallback(a: nat, e: Callback) returns (close: bool)
      requires Valid() && a < |owners|
      modifies this`connections, this`statusEvents, this`receivedFrames, this`log, this`frames, this`histories
      ensures Valid() && (View(), close) == AfterCallback(old(View()), a, e)
    {
      if reloading {
        return false;
      }
      var uri := owners[a];
      var c := connections[uri];
      if c.socket != Some(a) {
        return e.Established? || e.Receive? || e.Writeable?;
      }
      close := false;
      match e
      case Established =>
        connections := connections[uri := c.(open := true)];
        QueueStatus(a, uri, Connected);
      case ConnectionError =>
        connections := connections[uri := c.(open := false, socket := None, sendQueue := [])];
        QueueStatus(a, uri, Error);
      case Closed =>
        connections := connections[uri := c.(open := false, socket := None, sendQueue := [])];
        QueueStatus(a, uri, Disconnected);
      case Receive(binary, data, final) =>
        ReceiveFragment(uri, binary, data, final);
      case Writeable(written) =>
        if c.closeRequested {
          return true;
        }
        if c.sendQueue == [] {
          return false;
        }
        if !written {
          return true;
        }
        connections := connections[uri := c.(sendQueue := c.sendQueue[1..])];
        histories := histories[uri := histories[uri].(written := histories[uri].written + [c.sendQueue[0]])];
    }

    /** The callbacks libwebsockets makes inside one of our calls to it. */
    method CallBack(events: seq<(nat, Callback)>)
      requires Valid() && forall i | 0 <= i < |events| :: events[i].0 < |owners|
      modifies this`connections, this`statusEvents, this`receivedFrames, this`log, this`frames, this`histories
      ensures Valid() && View() == AfterCallbacks(old(View()), events)
    {
      hide AfterCallback;
      for i := 0 to |events|
        invariant Valid() && owners == old(owners) && View() == AfterCallbacks(old(View()), events[..i])
      {
        assert events[..i + 1][..i] == events[..i];
        var close := HubProtocolCallback(events[i].0, events[i].1);
      }
      assert events[..|events|] == events;
    }

    /** A fresh start for a connection. */
    method StartAttempt(uri: Uri)
      requires Valid()
      modifies this`owners, this`connections, this`histories
      ensures Valid() && View() == Attempted(old(View()), uri)
    {
      owners := owners + [uri];
      connections := connections[uri := NEW_CONNECTION];
      histories := histories[uri := NO_HISTORY];
    }

    method Connect(uri: Uri, isHubUri: bool, during: seq<(nat, Callback)>, connected: bool) returns (made: bool)
      requires Valid() && forall i | 0 <= i < |during| :: during[i].0 <= |owners|
      modifies this
      ensures Valid() && View() == AfterConnect(old(View()), uri, isHubUri, during, connected)
      ensures made == (old(context) && isHubUri)
    {
      hide AfterCallbacks, AfterCallback;
      if !context || !isHubUri {
        return false;
      }
      var attempt := |owners|;
      StartAttempt(uri);
      CallBack(during);
      connections := connections[uri := connections[uri].(socket := if connected then Some(attempt) else None)];
      if !connected {
        if statusEvents == [] || statusEvents[|statusEvents| - 1].uri != uri {
          QueueStatus(attempt, uri, Error);
        }
      }
      return true;
    }

    method Disconnect(uri: Uri)
      requires Valid()
      modifies this`connections
      ensures Valid() && View() == AfterDisconnect(old(View()), uri)
    {
      if uri !in connections || connections[uri].socket.None? {
        return;
      }
      connections := connections[uri := connections[uri].(closeRequested := true)];
    }

    method Send(uri: Uri, data: Bytes) returns (queued: bool)
      requires Valid()
      modifies this`connections, this`histories
      ensures Valid() && View() == AfterSend(old(View()), uri, data) && queued == CanSend(old(View()), uri)
    {
      if uri !in connections || !connections[uri].open || connections[uri].socket.None? ||
         |connections[uri].sendQueue| >= MAX_QUEUED_FRAMES {
        return false;
      }
      connections := connections[uri := connections[uri].(sendQueue := connections[uri].sendQueue + [data])];
      histories := histories[uri := histories[uri].(accepted := histories[uri].accepted + [data])];
      return true;
    }

    method PopStatusEvent() returns (event: Option<StatusEvent>)
      requires Valid()
      modifies this`statusEvents, this`taken
      ensures Valid() && View() == AfterPopStatus(old(View()))
      ensures event == if old(statusEvents) == [] then None else Some(old(statusEvents)[0])
    {
      if statusEvents == [] {
        return None;
      }
      event := Some(statusEvents[0]);
      statusEvents, taken := statusEvents[1..], taken + 1;
    }

    method PopReceived() returns (frame: Option<ReceivedFrame>)
      requires Valid()
      modifies this`receivedFrames, this`framesTaken
      ensures Valid() && View() == AfterPopReceived(old(View()))
      ensures frame == if old(receivedFrames) == [] then None else Some(old(receivedFrames)[0])
    {
      if receivedFrames == [] {
        return None;
      }
      frame := Some(receivedFrames[0]);
      receivedFrames, framesTaken := receivedFrames[1..], framesTaken + 1;
    }

    /** The reload's report of one connection. */
    method Drop(uri: Uri)
      requires Valid()
      modifies this`connections, this`statusEvents, this`log
      ensures Valid() && View() == Dropped(old(View()), uri)
    {
      if uri in connections && (connections[uri].socket.Some? || connections[uri].open) {
        var c := connections[uri];
        connections := connections[uri := c.(open := false, socket := None, sendQueue := [])];
        if c.socket.Some? {
          QueueStatus(c.socket.value, uri, Disconnected);
        } else {
          statusEvents := statusEvents + [StatusEvent(uri, Disconnected)];
        }
      }
    }

    /** `uris` are the connections in map order; `during` the callbacks of the old context's destruction. */
    method ReloadCredentials(uris: seq<Uri>, during: seq<(nat, Callback)>, created: bool)
      requires Valid() && !reloading && forall i | 0 <= i < |during| :: during[i].0 < |owners|
      modifies this
      ensures Valid() && View() == AfterReload(old(View()), uris, created)
    {
      hide AfterCallbacks;
      for i := 0 to |uris|
        invariant Valid() && owners == old(owners) && reloading == old(reloading) &&
            View() == AllDropped(old(View()), uris[..i])
      {
        assert uris[..i + 1][..i] == uris[..i];
        Drop(uris[i]);
      }
      assert uris[..|uris|] == uris;
      if context {
        reloading := true;
        IgnoredWhileReloading(View(), during);
        CallBack(during);
        reloading := false;
        context := false;
      }
      context := created;
    }
  }

  lemma {:induction false} IgnoredWhileReloading(h: Hub, events: seq<(nat, Callback)>)
    requires h.reloading
    ensures AfterCallbacks(h, events) == h
  {
    if events != [] {
      IgnoredWhileReloading(h, events[..|events| - 1]);
    }
  }
}
