/** Why each status of a hub connection is reported, and what a connected, closing or reloaded connection does
    (sc/ScHubConnector.cpp). */
module HubReports {
  import opened Octets
  import opened HubConnector
  import opened HubRuns

  // ---------------------------------------------------------------------------
  // Why a status is reported
  // ---------------------------------------------------------------------------

  /** libwebsockets makes this callback about attempt `a` in the step. */
  predicate Calls(e: Event, a: nat, callback: Callback) {
    (e.Called? && e.attempt == a && e.callback == callback) || (e.Connect? && (a, callback) in e.during)
  }

  /** What may be reported as what: an attempt up as Connected; one that failed, or was refused, as Error; one closed,
      or dropped by a reload, as Disconnected. */
  predicate HasCause(h: Hub, e: Event, a: nat, status: Status) {
    match status
    case Connected => Calls(e, a, Established)
    case Error => Calls(e, a, ConnectionError) || (e.Connect? && !e.connected && a == |h.owners|)
    case Disconnected => Calls(e, a, Closed) || e.Reload?
  }

  lemma CallbackExplained(h: Hub, b: nat, e: Callback, a: nat, status: Status)
    requires (a, status) in AfterCallback(h, b, e).0.log && (a, status) !in h.log
    ensures a == b && e == match status case Connected => Established case Error => ConnectionError
                           case Disconnected => Closed
  {
    hide Assembled;
  }

  lemma {:induction false} CallbacksExplained(h: Hub, events: seq<(nat, Callback)>, a: nat, status: Status)
    requires (a, status) in AfterCallbacks(h, events).log && (a, status) !in h.log
    ensures (a, match status case Connected => Established case Error => ConnectionError
                case Disconnected => Closed) in events
  {
    hide AfterCallback;
    var init, last := events[..|events| - 1], events[|events| - 1];
    if (a, status) in AfterCallbacks(h, init).log {
      CallbacksExplained(h, init, a, status);
    } else {
      CallbackExplained(AfterCallbacks(h, init), last.0, last.1, a, status);
    }
  }

  lemma {:induction false} DropsExplained(h: Hub, uris: seq<Uri>, a: nat, status: Status)
    requires (a, status) in AllDropped(h, uris).log && (a, status) !in h.log
    ensures status == Disconnected
  {
    var init := uris[..|uris| - 1];
    if (a, status) in AllDropped(h, init).log {
      DropsExplained(h, init, a, status);
    }
  }

  lemma StepExplained(h: Hub, e: Event, a: nat, status: Status)
    requires (a, status) in Next(h, e).log && (a, status) !in h.log
    ensures HasCause(h, e, a, status)
  {
    hide AfterCallback, AfterCallbacks, AllDropped;
    match e
    case Called(b, callback) => CallbackExplained(h, b, callback, a, status);
    case Connect(uri, isHubUri, during, connected) =>
      if (a, status) in AfterCallbacks(Attempted(h, uri), during).log {
        CallbacksExplained(Attempted(h, uri), during, a, status);
      }
    case Reload(uris, created) => DropsExplained(h, uris, a, status);
    case _ =>
  }

  /** In every run, each status reported of an attempt has such a cause in it. */
  lemma {:induction false} StatusHasCause(events: seq<Event>, a: nat, status: Status) returns (k: nat)
    requires (a, status) in Run(STARTED, events).log
    ensures k < |events| && HasCause(Run(STARTED, events[..k]), events[k], a, status)
  {
    hide Next, HasCause;
    var n := |events| - 1;
    var h := Run(STARTED, events[..n]);
    if (a, status) in h.log {
      k := StatusHasCause(events[..n], a, status);
      assert events[..n][..k] == events[..k];
    } else {
      StepExplained(h, events[n], a, status);
      k := n;
    }
  }

  // ---------------------------------------------------------------------------
  // What is reported, and what is sent
  // ---------------------------------------------------------------------------

  /** A current attempt's callbacks are all reported: it opens, or ends with nothing left to send. */
  lemma CurrentIsReported(h: Hub, a: nat, e: Callback)
    requires Sound(h) && IsCurrent(h, a) && e in {Established, ConnectionError, Closed}
    ensures var g, uri := Next(h, Called(a, e)), h.owners[a];
      var status := if e == Established then Connected else if e == Closed then Disconnected else Error;
      && g.log == h.log + [(a, status)] && g.statuses == h.statuses + [StatusEvent(uri, status)]
      && uri in g.connections && g.connections[uri].open == (e == Established)
      && g.connections[uri].socket == (if e == Established then Some(a) else None)
      && g.connections[uri].sendQueue == (if e == Established then h.connections[uri].sendQueue else [])
  {
    hide Sound;
    assert !h.reloading by { SoundIsUp(h); }
  }

  lemma SoundIsUp(h: Hub)
    requires Sound(h)
    ensures !h.reloading
  {
    hide StatusesSound, TrafficSound, QueueIsFrames;
  }

  /** In every run, Send queues a frame exactly when the connection's own attempt has reported Connected and fewer
      than 64 are queued; and then the frame is the last of the queue. Otherwise it changes nothing. */
  lemma ConnectedCanSend(events: seq<Event>, uri: Uri, data: Bytes)
    ensures var h := Run(STARTED, events);
      var g := Next(h, Send(uri, data));
      if uri in h.connections && h.connections[uri].socket.Some? &&
         (h.connections[uri].socket.value, Connected) in h.log && |h.connections[uri].sendQueue| < 64
      then
        CanSend(h, uri) && g.connections == h.connections[uri := h.connections[uri].(
          sendQueue := h.connections[uri].sendQueue + [data])]
      else !CanSend(h, uri) && g == h
  {
    hide Run, TrafficSound, QueueIsFrames, EndsAreLast, QueueIsLog;
    RunKeepsSound(events);
    var h := Run(STARTED, events);
    if uri in h.connections {
      assert ConnectionSound(h, uri);
    }
  }

  /** A connection that is made, comes up and can be written to sends what it is given. */
  lemma ConnectThenSend(h: Hub, uri: Uri, during: seq<(nat, Callback)>, data: Bytes)
    requires Sound(h) && h.context
    ensures var a := |h.owners|;
      var up := Run(h, [Connect(uri, true, during, true), Called(a, Established)]);
      var sent := Next(up, Send(uri, data));
      var written := Next(sent, Called(a, Writeable(true)));
      && up.statuses != [] && up.statuses[|up.statuses| - 1] == StatusEvent(uri, Connected)
      && uri in sent.connections && sent.connections[uri].sendQueue == [data]
      && uri in written.connections && written.connections[uri].sendQueue == []
      && uri in written.histories && written.histories[uri].written == [data]
  {
    hide Sound, AfterCallbacks, Attempted, Unanswered, LastStatusIsFor;
    var a := |h.owners|;
    var connect := Connect(uri, true, during, true);
    TwoSteps(h, connect, Called(a, Established));
    SoundIsUp(h);
    ReloadingEnds(h, connect);
    AttemptAnswered(h, uri, during);
  }

  lemma TwoSteps(h: Hub, first: Event, second: Event)
    ensures Run(h, [first, second]) == Next(Next(h, first), second)
  {
    assert [first, second][..1] == [first] && [first][..0] == [];
    assert Run(h, []) == h;
    assert Run(h, [first]) == Next(h, first);
  }

  lemma AttemptAnswered(h: Hub, uri: Uri, during: seq<(nat, Callback)>)
    requires Sound(h) && h.context
    ensures var g := Next(h, Connect(uri, true, during, true));
      && |h.owners| < |g.owners| && g.owners[|h.owners|] == uri && uri in g.connections && uri in g.histories
      && g.connections[uri] == NEW_CONNECTION.(socket := Some(|h.owners|)) && g.histories[uri] == NO_HISTORY
  {
    hide StatusesSound, TrafficSound, QueueIsFrames, AfterCallbacks, Attempted;
    AttemptIsUnanswered(h, uri);
    CallbacksLeaveUnanswered(Attempted(h, uri), during, |h.owners|, uri);
  }

  /** A connection asked to close writes nothing more: the next time it could, it closes; and so it stays until its
      attempt ends or is superseded. */
  lemma ClosingWritesNothing(h: Hub, uri: Uri, e: Event, written: bool)
    requires Sound(h) && uri in h.connections && h.connections[uri].socket.Some?
    ensures var a := h.connections[uri].socket.value;
      var g := Next(h, Disconnect(uri));
      && IsClosing(g, uri, a) && AfterCallback(g, a, Writeable(written)) == (g, true)
    ensures var a := h.connections[uri].socket.value;
      IsClosing(h, uri, a) && IsCurrent(Next(h, e), a) ==>
        IsClosing(Next(h, e), uri, a) && Next(h, e).histories[uri].written == h.histories[uri].written
  {
    hide TrafficSound, QueueIsFrames, EndsAreLast, QueueIsLog, Assembled;
    var a := h.connections[uri].socket.value;
    assert ConnectionSound(h, uri);
    if IsClosing(h, uri, a) && IsCurrent(Next(h, e), a) {
      StepKeepsClosing(h, uri, a, e);
    }
  }

  /** Otherwise it writes the first frame of its queue, if there is one, and keeps the rest; or, when the write fails,
      keeps them all and closes. */
  lemma WritesFirst(h: Hub, uri: Uri, a: nat, written: bool)
    requires Sound(h) && IsCurrent(h, a) && h.owners[a] == uri && !h.connections[uri].closeRequested
    ensures var (g, close) := AfterCallback(h, a, Writeable(written));
      var c, y := h.connections[uri], h.histories[uri];
      && g.connections.Keys == h.connections.Keys && uri in g.histories
      && (close <==> c.sendQueue != [] && !written)
      && (if c.sendQueue != [] && written
          then [c.sendQueue[0]] + g.connections[uri].sendQueue == c.sendQueue &&
               g.histories[uri].written == y.written + [c.sendQueue[0]]
          else g == h)
  {
    hide Sound;
    SoundIsUp(h);
  }

  predicate IsClosing(h: Hub, uri: Uri, a: nat) {
    IsCurrent(h, a) && h.owners[a] == uri && h.connections[uri].closeRequested
  }

  lemma StepKeepsClosing(h: Hub, uri: Uri, a: nat, e: Event)
    requires IsClosing(h, uri, a) && IsCurrent(Next(h, e), a)
    ensures IsClosing(Next(h, e), uri, a) && Next(h, e).histories[uri].written == h.histories[uri].written
  {
    hide AfterCallback, AfterCallbacks, AllDropped;
    match e
    case Called(b, callback) => CallbackKeepsClosing(h, uri, a, b, callback);
    case Connect(u, isHubUri, during, connected) =>
      if u != uri && h.context && isHubUri {
        CallbacksKeepClosing(Attempted(h, u), uri, a, during);
      } else if h.context && isHubUri {
        OwnersStay(Attempted(h, u), during);
      }
    case Reload(uris, created) => DropsKeepClosing(h, uri, a, uris);
    case _ =>
  }

  lemma CallbackKeepsClosing(h: Hub, uri: Uri, a: nat, b: nat, e: Callback)
    requires IsClosing(h, uri, a)
    ensures var g := AfterCallback(h, b, e).0;
      g.owners == h.owners && (IsCurrent(g, a) ==>
        IsClosing(g, uri, a) && g.histories[uri].written == h.histories[uri].written)
  {
    hide Assembled;
  }

  lemma {:induction false} OwnersStay(h: Hub, events: seq<(nat, Callback)>)
    ensures AfterCallbacks(h, events).owners == h.owners
  {
    hide Assembled;
    if events != [] {
      OwnersStay(h, events[..|events| - 1]);
    }
  }

  lemma {:induction false} CallbacksKeepClosing(h: Hub, uri: Uri, a: nat, events: seq<(nat, Callback)>)
    requires IsClosing(h, uri, a)
    ensures var g := AfterCallbacks(h, events);
      g.owners == h.owners && (IsCurrent(g, a) ==>
        IsClosing(g, uri, a) && g.histories[uri].written == h.histories[uri].written)
  {
    hide AfterCallback;
    OwnersStay(h, events);
    if events != [] {
      var init, last := events[..|events| - 1], events[|events| - 1];
      CallbacksKeepClosing(h, uri, a, init);
      var g := AfterCallbacks(h, init);
      if IsCurrent(g, a) {
        CallbackKeepsClosing(g, uri, a, last.0, last.1);
      } else {
        CallbackLeavesSuperseded(g, last.0, last.1, a);
      }
    }
  }

  lemma {:induction false} DropsKeepClosing(h: Hub, uri: Uri, a: nat, uris: seq<Uri>)
    requires IsClosing(h, uri, a)
    ensures var g := AllDropped(h, uris);
      g.owners == h.owners && (IsCurrent(g, a) ==>
        IsClosing(g, uri, a) && g.histories[uri].written == h.histories[uri].written)
  {
    if uris != [] {
      DropsKeepClosing(h, uri, a, uris[..|uris| - 1]);
    }
  }

  /** A reload leaves no connection up, and reports every attempt that was. */
  lemma ReloadReportsAll(h: Hub, uris: seq<Uri>, created: bool)
    requires Sound(h) && Enumerates(uris, h.connections.Keys)
    ensures var g := Next(h, Reload(uris, created));
      && g.context == created && g.connections.Keys == h.connections.Keys
      && forall u | u in h.connections ::
           && !g.connections[u].open && g.connections[u].socket == None && g.connections[u].sendQueue == []
           && (h.connections[u].socket.Some? ==> (h.connections[u].socket.value, Disconnected) in g.log)
  {
    hide TrafficSound, QueueIsFrames, StatusesSound, AllDropped;
    SocketlessAreDown(h);
    DropsReport(h, uris);
  }

  lemma SocketlessAreDown(h: Hub)
    requires Sound(h)
    ensures forall u | u in h.connections && h.connections[u].socket.None? ::
              !h.connections[u].open && h.connections[u].sendQueue == []
  {
    hide FramesSound, QueueIsFrames, EndsAreLast, QueueIsLog;
    forall u | u in h.connections && h.connections[u].socket.None?
      ensures !h.connections[u].open && h.connections[u].sendQueue == []
    {
      assert ConnectionSound(h, u);
      assert ConnectionTrafficSound(h.connections[u], h.histories[u]);
    }
  }

  lemma {:induction false} DropsReport(h: Hub, uris: seq<Uri>)
    requires forall u | u in h.connections && h.connections[u].socket.None? ::
               !h.connections[u].open && h.connections[u].sendQueue == []
    ensures var g := AllDropped(h, uris);
      && g.connections.Keys == h.connections.Keys && h.log <= g.log
      && (forall u | u in h.connections && u !in uris :: g.connections[u] == h.connections[u])
      && forall u | u in h.connections && u in uris ::
           && !g.connections[u].open && g.connections[u].socket == None && g.connections[u].sendQueue == []
           && (h.connections[u].socket.Some? ==> (h.connections[u].socket.value, Disconnected) in g.log)
  {
    if uris != [] {
      var init, last := uris[..|uris| - 1], uris[|uris| - 1];
      assert uris == init + [last];
      DropsReport(h, init);
    }
  }
}
