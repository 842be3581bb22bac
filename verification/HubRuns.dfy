/** What every run of the hub connections keeps (sc/ScHubConnector.cpp). */
module HubRuns {
  import opened Octets
  import opened HubConnector

  // ---------------------------------------------------------------------------
  // Statuses
  // ---------------------------------------------------------------------------

  predicate Reported(log: seq<(nat, Status)>, a: nat) {
    exists i | 0 <= i < |log| :: log[i].0 == a
  }

  predicate LogSound(h: Hub) {
    && (forall i | 0 <= i < |h.log| :: h.log[i].0 < |h.owners|)
    && EndsAreLast(h.log) && QueueIsLog(h)
  }

  /** A status of an attempt that has not ended keeps the log sound, and only it can be what ends it. */
  lemma QueuedKeepsLogSound(h: Hub, a: nat, uri: Uri, status: Status)
    requires LogSound(h) && a < |h.owners| && h.owners[a] == uri && !Ended(h.log, a)
    ensures var g := Queued(h, a, uri, status); 
      && LogSound(g)
      && (forall b: nat :: Ended(g.log, b) <==> Ended(h.log, b) || (b == a && status != Connected))
      && (forall b: nat :: Reported(g.log, b) <==> Reported(h.log, b) || b == a)
      && (forall b: nat :: Logged(g.log, b, Connected) <==>
            Logged(h.log, b, Connected) || (b == a && status == Connected))
  {
    var g := Queued(h, a, uri, status);
    var n := |h.log|;
    assert forall b: nat :: Logged(g.log, b, Connected) <==>
      Logged(h.log, b, Connected) || (b == a && status == Connected);
    forall b: nat
      ensures Ended(g.log, b) <==> Ended(h.log, b) || (b == a && status != Connected)
      ensures Reported(g.log, b) <==> Reported(h.log, b) || b == a
    {
      assert g.log[n] == (a, status);
      if Ended(h.log, b) {
        var i :| 0 <= i < n && h.log[i].0 == b && h.log[i].1 != Connected;
        assert g.log[i] == h.log[i];
      }
      if Reported(h.log, b) {
        var i :| 0 <= i < n && h.log[i].0 == b;
        assert g.log[i] == h.log[i];
      }
    }
  }

  lemma CurrentKeepsStatusesSound(h: Hub, a: nat, e: Callback)
    requires StatusesSound(h) && IsCurrent(h, a)
    ensures StatusesSound(AfterCurrent(h, a, h.owners[a], e).0)
  {
    hide EndsAreLast, QueueIsLog, AfterReceive, StatusesSound;
    var uri := h.owners[a];
    match e
    case Established => StatusKeepsSound(h, a, uri, h.connections[uri].(open := true), Connected);
    case ConnectionError =>
      StatusKeepsSound(h, a, uri, h.connections[uri].(open := false, socket := None, sendQueue := []), Error);
    case Closed =>
      StatusKeepsSound(h, a, uri, h.connections[uri].(open := false, socket := None, sendQueue := []), Disconnected);
    case Receive(_, _, _) => ReceiveKeepsStatusesSound(h, uri, e);
    case Writeable(_) => WriteKeepsStatusesSound(h, a, e);
  }

  lemma ReceiveKeepsStatusesSound(h: Hub, uri: Uri, e: Callback)
    requires StatusesSound(h) && uri in h.connections && uri in h.histories && e.Receive?
    ensures StatusesSound(AfterReceive(h, uri, e))
  {
    hide ConnectionSound, EndsAreLast, QueueIsLog, Assembled;
    SilentKeepsSound(h, AfterReceive(h, uri, e), uri);
  }

  lemma WriteKeepsStatusesSound(h: Hub, a: nat, e: Callback)
    requires StatusesSound(h) && IsCurrent(h, a) && e.Writeable?
    ensures StatusesSound(AfterCurrent(h, a, h.owners[a], e).0)
  {
    hide ConnectionSound, EndsAreLast, QueueIsLog, Assembled;
    SilentKeepsSound(h, AfterCurrent(h, a, h.owners[a], e).0, h.owners[a]);
  }

  /** A step of one connection that reports nothing and leaves its socket alone. */
  lemma SilentKeepsSound(h: Hub, g: Hub, uri: Uri)
    requires StatusesSound(h) && uri in h.connections
    requires g.owners == h.owners && g.log == h.log && g.statuses == h.statuses && g.taken == h.taken
    requires g.connections.Keys == g.histories.Keys == h.connections.Keys
    requires g.connections[uri].open == h.connections[uri].open &&
              g.connections[uri].socket == h.connections[uri].socket
    requires forall u | u in h.connections && u != uri :: g.connections[u] == h.connections[u]
    ensures StatusesSound(g)
  {
    hide EndsAreLast, Ended;
    forall u | u in g.connections ensures ConnectionSound(g, u) {
      assert ConnectionSound(h, u);
    }
  }

  /** A step that reports a status of the current attempt, and forgets the socket if that ends it. */
  lemma StatusKeepsSound(h: Hub, a: nat, uri: Uri, c: Connection, status: Status)
    requires StatusesSound(h) && a < |h.owners| && h.owners[a] == uri && uri in h.connections
    requires h.connections[uri].socket == Some(a)
    requires if status == Connected then c.socket == Some(a) && c.open else !c.open && c.socket.None?
    ensures StatusesSound(Queued(Put(h, uri, c), a, uri, status))
  {
    hide EndsAreLast, QueueIsLog, Ended;
    assert ConnectionSound(h, uri);
    var put := Put(h, uri, c);
    assert QueueIsLog(put) by { PutKeepsQueue(h, uri, c); }
    QueuedKeepsLogSound(put, a, uri, status);
    var g := Queued(put, a, uri, status);
    forall u | u in g.connections ensures ConnectionSound(g, u) {
      assert ConnectionSound(h, u);
    }
  }

  lemma PutKeepsQueue(h: Hub, uri: Uri, c: Connection)
    requires QueueIsLog(h)
    ensures QueueIsLog(Put(h, uri, c))
  {}

  lemma CallbackKeepsStatusesSound(h: Hub, a: nat, e: Callback)
    requires StatusesSound(h)
    ensures StatusesSound(AfterCallback(h, a, e).0)
  {
    hide StatusesSound, AfterCurrent;
    if a < |h.owners| && !h.reloading && IsCurrent(h, a) {
      CurrentKeepsStatusesSound(h, a, e);
    }
  }

  /** A new attempt, not yet answered: nothing current, nothing reported. */
  predicate Unanswered(h: Hub, a: nat, uri: Uri) {
    && a < |h.owners| && h.owners[a] == uri && uri in h.connections && h.connections[uri] == NEW_CONNECTION
    && uri in h.histories && h.histories[uri] == NO_HISTORY && !Reported(h.log, a)
  }

  /** No callback libwebsockets makes before it answers is the new attempt's, whatever it says. */
  lemma {:induction false} CallbacksLeaveUnanswered(h: Hub, during: seq<(nat, Callback)>, a: nat, uri: Uri)
    requires StatusesSound(h) && Unanswered(h, a, uri)
    ensures var g := AfterCallbacks(h, during); StatusesSound(g) && Unanswered(g, a, uri)
  {
    hide StatusesSound, AfterCallback;
    if during != [] {
      var init, last := during[..|during| - 1], during[|during| - 1];
      CallbacksLeaveUnanswered(h, init, a, uri);
      var g := AfterCallbacks(h, init);
      CallbackKeepsStatusesSound(g, last.0, last.1);
      CallbackElsewhere(g, last.0, last.1, a, uri);
    }
  }

  lemma CallbackElsewhere(h: Hub, b: nat, e: Callback, a: nat, uri: Uri)
    requires Unanswered(h, a, uri)
    ensures Unanswered(AfterCallback(h, b, e).0, a, uri)
  {
    hide Assembled;
    if IsCurrent(h, b) && !h.reloading {
      assert h.owners[b] != uri;
      OnlyItsOwnReport(h, b, e);
    }
  }

  lemma OnlyItsOwnReport(h: Hub, a: nat, e: Callback)
    requires IsCurrent(h, a)
    ensures var g := AfterCurrent(h, a, h.owners[a], e).0;
      && h.log <= g.log && |g.log| <= |h.log| + 1
      && forall b: nat | b != a :: Reported(g.log, b) <==> Reported(h.log, b)
  {
    hide Assembled;
    var g := AfterCurrent(h, a, h.owners[a], e).0;
    forall b: nat | b != a
      ensures Reported(g.log, b) <==> Reported(h.log, b)
    {
      if Reported(h.log, b) {
        var i :| 0 <= i < |h.log| && h.log[i].0 == b;
        assert g.log[i] == h.log[i];
      }
    }
  }

  lemma AttemptIsUnanswered(h: Hub, uri: Uri)
    requires StatusesSound(h)
    ensures StatusesSound(Attempted(h, uri)) && Unanswered(Attempted(h, uri), |h.owners|, uri)
  {
    hide EndsAreLast, Ended;
    var g := Attempted(h, uri);
    forall u | u in g.connections ensures ConnectionSound(g, u) {
      if u != uri {
        assert ConnectionSound(h, u);
      }
    }
  }

  lemma AnswerKeepsStatusesSound(h: Hub, a: nat, uri: Uri, connected: bool)
    requires StatusesSound(h) && Unanswered(h, a, uri)
    ensures StatusesSound(Answered(h, a, uri, connected))
    ensures Reported(Answered(h, a, uri, connected).log, a) <==> !connected && !LastStatusIsFor(h, uri)
  {
    hide EndsAreLast, QueueIsLog, LastStatusIsFor;
    var answered := Put(h, uri, h.connections[uri].(socket := if connected then Some(a) else None));
    assert !Ended(h.log, a);
    PutKeepsQueue(h, uri, answered.connections[uri]);
    assert LogSound(answered);
    forall u | u in h.connections ensures ConnectionSound(answered, u) {
      assert ConnectionSound(h, u);
    }
    if !connected && !LastStatusIsFor(h, uri) {
      QueuedKeepsLogSound(answered, a, uri, Error);
      var g := Queued(answered, a, uri, Error);
      forall u | u in h.connections ensures ConnectionSound(g, u) {
        assert ConnectionSound(answered, u);
      }
    }
  }

  lemma ConnectKeepsStatusesSound(h: Hub, uri: Uri, isHubUri: bool, during: seq<(nat, Callback)>, connected: bool)
    requires StatusesSound(h)
    ensures StatusesSound(AfterConnect(h, uri, isHubUri, during, connected))
  {
    hide StatusesSound, Unanswered, Attempted, Answered, AfterCallbacks;
    AttemptIsUnanswered(h, uri);
    CallbacksLeaveUnanswered(Attempted(h, uri), during, |h.owners|, uri);
    AnswerKeepsStatusesSound(AfterCallbacks(Attempted(h, uri), during), |h.owners|, uri, connected);
  }

  lemma DropKeepsStatusesSound(h: Hub, uri: Uri)
    requires StatusesSound(h)
    ensures StatusesSound(Dropped(h, uri)) && Dropped(h, uri).context == h.context
  {
    hide EndsAreLast, QueueIsLog;
    if uri in h.connections {
      assert ConnectionSound(h, uri);
      if h.connections[uri].socket.Some? {
        StatusKeepsSound(h, h.connections[uri].socket.value, uri,
                         h.connections[uri].(open := false, socket := None, sendQueue := []), Disconnected);
      }
    }
  }

  lemma {:induction false} DropsKeepStatusesSound(h: Hub, uris: seq<Uri>)
    requires StatusesSound(h)
    ensures StatusesSound(AllDropped(h, uris))
  {
    hide StatusesSound, Dropped;
    if uris != [] {
      DropsKeepStatusesSound(h, uris[..|uris| - 1]);
      DropKeepsStatusesSound(AllDropped(h, uris[..|uris| - 1]), uris[|uris| - 1]);
    }
  }

  lemma PopKeepsStatusesSound(h: Hub)
    requires StatusesSound(h)
    ensures StatusesSound(AfterPopStatus(h))
  {
    hide EndsAreLast, Ended;
    var g := AfterPopStatus(h);
    forall u | u in g.connections ensures ConnectionSound(g, u) {
      assert ConnectionSound(h, u);
    }
    if h.statuses != [] {
      forall i | 0 <= i < |g.statuses|
        ensures var entry := g.log[g.taken + i];
                  entry.0 < |g.owners| && g.statuses[i] == StatusEvent(g.owners[entry.0], entry.1)
      {
        assert g.statuses[i] == h.statuses[i + 1];
      }
    }
  }

  lemma NextKeepsStatusesSound(h: Hub, e: Event)
    requires StatusesSound(h)
    ensures StatusesSound(Next(h, e))
  {
    hide ConnectionSound, EndsAreLast, QueueIsLog, AfterCallback, AfterConnect, AfterPopStatus, AllDropped;
    match e
    case Called(attempt, callback) => CallbackKeepsStatusesSound(h, attempt, callback);
    case Connect(uri, isHubUri, during, connected) => ConnectKeepsStatusesSound(h, uri, isHubUri, during, connected);
    case Disconnect(uri) =>
      if uri in h.connections {
        SilentKeepsSound(h, AfterDisconnect(h, uri), uri);
      }
    case Send(uri, data) =>
      if CanSend(h, uri) {
        SilentKeepsSound(h, AfterSend(h, uri, data), uri);
      }
    case PopStatus => PopKeepsStatusesSound(h);
    case PopReceived => ReceivedIsApart(h, AfterPopReceived(h));
    case Reload(uris, created) =>
      DropsKeepStatusesSound(h, uris);
      ReceivedIsApart(AllDropped(h, uris), AfterReload(h, uris, created));
  }

  lemma ReceivedIsApart(h: Hub, g: Hub)
    requires StatusesSound(h) && g == h.(received := g.received, framesTaken := g.framesTaken, context := g.context)
    ensures StatusesSound(g)
  {
    hide EndsAreLast, Ended;
    forall u | u in g.connections ensures ConnectionSound(g, u) {
      assert ConnectionSound(h, u);
    }
  }

  // ---------------------------------------------------------------------------
  // Frames
  // ---------------------------------------------------------------------------

  /** One more fragment hands up a frame exactly when it finishes a message the stack takes. */
  lemma FragmentKeepsFramesSound(c: Connection, y: History, f: Callback)
    requires FramesSound(c, y) && f.Receive?
    ensures var (c', frame) := Assembled(c, f);
      FramesSound(c', AfterFragment(y, f, frame))
  {
    var (c', frame) := Assembled(c, f);
    var heard := y.heard + [f];
    assert heard[..|heard| - 1] == y.heard;
    var (done, current) := Cut(y.heard);
    if f.binary && f.final {
      var messages := done + [current + f.data];
      assert messages[..|messages| - 1] == done;
      assert Cut(heard).0 == messages;
    }
  }

  lemma CurrentKeepsTrafficSound(h: Hub, a: nat, e: Callback)
    requires TrafficSound(h) && IsCurrent(h, a)
    ensures TrafficSound(AfterCurrent(h, a, h.owners[a], e).0)
  {
    hide ConnectionTrafficSound, Assembled;
    var uri := h.owners[a];
    CurrentTrafficSound(h, a, e);
  }

  lemma CurrentTrafficSound(h: Hub, a: nat, e: Callback)
    requires IsCurrent(h, a) && ConnectionTrafficSound(h.connections[h.owners[a]], h.histories[h.owners[a]])
    ensures var g := AfterCurrent(h, a, h.owners[a], e).0;
      && h.owners[a] in g.connections && h.owners[a] in g.histories
      && ConnectionTrafficSound(g.connections[h.owners[a]], g.histories[h.owners[a]])
  {
    hide Cut, Acceptable, Assembled;
    var uri := h.owners[a];
    var c, y := h.connections[uri], h.histories[uri];
    if e.Receive? {
      FragmentKeepsFramesSound(c, y, e);
    }
    if e.Writeable? && c.sendQueue != [] {
      assert y.written + c.sendQueue == (y.written + [c.sendQueue[0]]) + c.sendQueue[1..];
    }
  }

  lemma CallbackKeepsTrafficSound(h: Hub, a: nat, e: Callback)
    requires TrafficSound(h)
    ensures TrafficSound(AfterCallback(h, a, e).0)
  {
    hide TrafficSound, AfterCurrent;
    if a < |h.owners| && !h.reloading && IsCurrent(h, a) {
      CurrentKeepsTrafficSound(h, a, e);
    }
  }

  lemma {:induction false} CallbacksKeepTrafficSound(h: Hub, events: seq<(nat, Callback)>)
    requires TrafficSound(h)
    ensures TrafficSound(AfterCallbacks(h, events))
  {
    hide TrafficSound, AfterCallback;
    if events != [] {
      var init, last := events[..|events| - 1], events[|events| - 1];
      CallbacksKeepTrafficSound(h, init);
      CallbackKeepsTrafficSound(AfterCallbacks(h, init), last.0, last.1);
    }
  }

  lemma ConnectKeepsTrafficSound(h: Hub, uri: Uri, isHubUri: bool, during: seq<(nat, Callback)>, connected: bool)
    requires StatusesSound(h) && TrafficSound(h)
    ensures TrafficSound(AfterConnect(h, uri, isHubUri, during, connected))
  {
    hide StatusesSound, TrafficSound, AfterCallbacks, Attempted, Answered, Unanswered;
    AttemptKeepsTrafficSound(h, uri);
    CallbacksKeepTrafficSound(Attempted(h, uri), during);
    AttemptIsUnanswered(h, uri);
    CallbacksLeaveUnanswered(Attempted(h, uri), during, |h.owners|, uri);
    AnswerKeepsTrafficSound(AfterCallbacks(Attempted(h, uri), during), |h.owners|, uri, connected);
  }

  lemma NewConnectionIsSound(socket: Option<nat>)
    ensures ConnectionTrafficSound(NEW_CONNECTION.(socket := socket), NO_HISTORY)
  {}

  lemma AttemptKeepsTrafficSound(h: Hub, uri: Uri)
    requires TrafficSound(h)
    ensures TrafficSound(Attempted(h, uri))
  {
    hide ConnectionTrafficSound;
    NewConnectionIsSound(None);
  }

  lemma AnswerKeepsTrafficSound(h: Hub, a: nat, uri: Uri, connected: bool)
    requires TrafficSound(h) && Unanswered(h, a, uri)
    ensures TrafficSound(Answered(h, a, uri, connected))
  {
    hide ConnectionTrafficSound, Reported, LastStatusIsFor;
    NewConnectionIsSound(None);
    NewConnectionIsSound(Some(a));
  }

  lemma {:induction false} DropsKeepTrafficSound(h: Hub, uris: seq<Uri>)
    requires TrafficSound(h)
    ensures TrafficSound(AllDropped(h, uris))
  {
    hide TrafficSound, Dropped;
    if uris != [] {
      DropsKeepTrafficSound(h, uris[..|uris| - 1]);
      DropKeepsTrafficSound(AllDropped(h, uris[..|uris| - 1]), uris[|uris| - 1]);
    }
  }

  lemma DropKeepsTrafficSound(h: Hub, uri: Uri)
    requires TrafficSound(h)
    ensures TrafficSound(Dropped(h, uri))
  {
    hide FramesSound;
    if uri in h.connections {
      var c := h.connections[uri].(open := false, socket := None, sendQueue := []);
      LikeConnectionIsFramesSound(h.connections[uri], c, h.histories[uri]);
    }
  }

  lemma LikeConnectionIsFramesSound(c: Connection, c': Connection, y: History)
    requires FramesSound(c, y) && c'.receiveAssembly == c.receiveAssembly && c'.receiveOverflow == c.receiveOverflow
    ensures FramesSound(c', y)
  {}

  lemma NextKeepsTrafficSound(h: Hub, e: Event)
    requires StatusesSound(h) && TrafficSound(h)
    ensures TrafficSound(Next(h, e))
  {
    hide StatusesSound, AfterCallback, AfterConnect, AllDropped, ConnectionTrafficSound;
    match e
    case Called(attempt, callback) => CallbackKeepsTrafficSound(h, attempt, callback);
    case Connect(uri, isHubUri, during, connected) => ConnectKeepsTrafficSound(h, uri, isHubUri, during, connected);
    case Disconnect(uri) => DisconnectKeepsTrafficSound(h, uri);
    case Send(uri, data) => SendKeepsTrafficSound(h, uri, data);
    case PopStatus =>
    case PopReceived =>
    case Reload(uris, created) => DropsKeepTrafficSound(h, uris);
  }

  lemma DisconnectKeepsTrafficSound(h: Hub, uri: Uri)
    requires TrafficSound(h)
    ensures TrafficSound(AfterDisconnect(h, uri))
  {
    hide ConnectionTrafficSound;
    if uri in h.connections {
      CloseRequestedIsSound(h.connections[uri], h.histories[uri]);
    }
  }

  lemma CloseRequestedIsSound(c: Connection, y: History)
    requires ConnectionTrafficSound(c, y)
    ensures ConnectionTrafficSound(c.(closeRequested := true), y)
  {
    hide Cut, Acceptable;
  }

  lemma SendKeepsTrafficSound(h: Hub, uri: Uri, data: Bytes)
    requires TrafficSound(h)
    ensures TrafficSound(AfterSend(h, uri, data))
  {
    hide ConnectionTrafficSound;
    if CanSend(h, uri) {
      SentIsSound(h.connections[uri], h.histories[uri], data);
    }
  }

  lemma SentIsSound(c: Connection, y: History, data: Bytes)
    requires ConnectionTrafficSound(c, y) && c.socket.Some? && |c.sendQueue| < MAX_QUEUED_FRAMES
    ensures ConnectionTrafficSound(c.(sendQueue := c.sendQueue + [data]), y.(accepted := y.accepted + [data]))
  {
    hide Cut, Acceptable;
    assert y.written + (c.sendQueue + [data]) == (y.written + c.sendQueue) + [data];
  }

  // ---------------------------------------------------------------------------
  // The queue of frames
  // ---------------------------------------------------------------------------

  lemma OneMoreFrame(frames: seq<ReceivedFrame>, last: ReceivedFrame, u: Uri)
    ensures FramesOf(frames + [last], u) == if last.uri == u then FramesOf(frames, u) + [last.data]
              else FramesOf(frames, u)
  {
    assert (frames + [last])[..|frames|] == frames;
  }

  lemma EndsWithMore<T>(s: seq<T>, end: seq<T>, more: seq<T>)
    requires EndsWith(s, end)
    ensures EndsWith(s + more, end + more)
  {
    assert (s + more)[|s| - |end|..] == s[|s| - |end|..] + more;
  }

  /** A step that hands nothing up. */
  lemma QuietKeepsFrames(h: Hub, g: Hub)
    requires QueueIsFrames(h) && g.frames == h.frames && g.received == h.received && g.framesTaken == h.framesTaken
    requires g.connections.Keys == g.histories.Keys == h.histories.Keys
    requires forall u | u in h.histories :: g.histories[u].handedUp == h.histories[u].handedUp
    ensures QueueIsFrames(g)
  {
    hide EndsWith, FramesOf;
  }

  lemma CurrentKeepsFrames(h: Hub, a: nat, e: Callback)
    requires QueueIsFrames(h) && IsCurrent(h, a)
    ensures QueueIsFrames(AfterCurrent(h, a, h.owners[a], e).0)
  {
    hide QueueIsFrames, AfterReceive;
    if e.Receive? {
      ReceiveKeepsFrames(h, h.owners[a], e);
    } else {
      KeysAgree(h);
      QuietKeepsFrames(h, AfterCurrent(h, a, h.owners[a], e).0);
    }
  }

  lemma KeysAgree(h: Hub)
    requires QueueIsFrames(h)
    ensures h.connections.Keys == h.histories.Keys
  {
  }

  lemma ReceiveKeepsFrames(h: Hub, uri: Uri, e: Callback)
    requires QueueIsFrames(h) && uri in h.connections && e.Receive?
    ensures QueueIsFrames(AfterReceive(h, uri, e))
  {
    hide Assembled, EndsWith, FramesOf;
    var (_, frame) := Assembled(h.connections[uri], e);
    var y := h.histories[uri];
    if frame.None? {
      assert AfterFragment(y, e, frame).handedUp == y.handedUp;
      QuietKeepsFrames(h, AfterReceive(h, uri, e));
    } else {
      var last := ReceivedFrame(uri, frame.value);
      forall u | u in h.histories
        ensures EndsWith(FramesOf(h.frames + [last], u), if u == uri then y.handedUp + [frame.value]
                  else h.histories[u].handedUp)
      {
        OneMoreFrame(h.frames, last, u);
        EndsWithMore(FramesOf(h.frames, uri), y.handedUp, [frame.value]);
      }
    }
  }

  lemma {:induction false} CallbacksKeepFrames(h: Hub, events: seq<(nat, Callback)>)
    requires QueueIsFrames(h)
    ensures QueueIsFrames(AfterCallbacks(h, events))
  {
    hide QueueIsFrames, AfterCurrent;
    if events != [] {
      var init, last := events[..|events| - 1], events[|events| - 1];
      CallbacksKeepFrames(h, init);
      var g := AfterCallbacks(h, init);
      if last.0 < |g.owners| && !g.reloading && IsCurrent(g, last.0) {
        CurrentKeepsFrames(g, last.0, last.1);
      }
    }
  }

  lemma {:induction false} DropsKeepFrames(h: Hub, uris: seq<Uri>)
    requires QueueIsFrames(h)
    ensures QueueIsFrames(AllDropped(h, uris))
  {
    hide EndsWith, FramesOf;
    if uris != [] {
      DropsKeepFrames(h, uris[..|uris| - 1]);
    }
  }

  lemma AnsweredKeepsFrames(h: Hub, a: nat, uri: Uri, connected: bool)
    requires QueueIsFrames(h) && uri in h.connections
    ensures QueueIsFrames(Answered(h, a, uri, connected))
  {
    hide EndsWith, FramesOf;
  }

  lemma ConnectKeepsFrames(h: Hub, uri: Uri, isHubUri: bool, during: seq<(nat, Callback)>, connected: bool)
    requires QueueIsFrames(h)
    ensures QueueIsFrames(AfterConnect(h, uri, isHubUri, during, connected))
  {
    hide FramesOf, AfterCallbacks, Answered;
    var attempted := Attempted(h, uri);
    assert QueueIsFrames(attempted);
    CallbacksKeepFrames(attempted, during);
    AnsweredKeepsFrames(AfterCallbacks(attempted, during), |h.owners|, uri, connected);
  }

  lemma NextKeepsFrames(h: Hub, e: Event)
    requires QueueIsFrames(h)
    ensures QueueIsFrames(Next(h, e))
  {
    hide EndsWith, FramesOf, AfterCurrent, AfterConnect, AllDropped;
    match e
    case Called(attempt, callback) =>
      if attempt < |h.owners| && !h.reloading && IsCurrent(h, attempt) {
        CurrentKeepsFrames(h, attempt, callback);
      }
    case Connect(uri, isHubUri, during, connected) => ConnectKeepsFrames(h, uri, isHubUri, during, connected);
    case Reload(uris, created) => DropsKeepFrames(h, uris);
    case _ =>
  }

  // ---------------------------------------------------------------------------
  // Runs
  // ---------------------------------------------------------------------------

  lemma {:induction false} ReloadingEnds(h: Hub, e: Event)
    requires !h.reloading
    ensures !Next(h, e).reloading
  {
    match e
    case Called(attempt, callback) => CallbacksReload(h, [(attempt, callback)]);
    case Connect(uri, isHubUri, during, connected) => CallbacksReload(Attempted(h, uri), during);
    case Reload(uris, created) => DropsReload(h, uris);
    case _ =>
  }

  lemma {:induction false} CallbacksReload(h: Hub, events: seq<(nat, Callback)>)
    ensures AfterCallbacks(h, events).reloading == h.reloading
  {
    hide Assembled;
    if events != [] {
      CallbacksReload(h, events[..|events| - 1]);
    }
  }

  lemma {:induction false} DropsReload(h: Hub, uris: seq<Uri>)
    ensures AllDropped(h, uris).reloading == h.reloading && AllDropped(h, uris).owners == h.owners
  {
    if uris != [] {
      DropsReload(h, uris[..|uris| - 1]);
    }
  }

  /** In every run with reconnects and reloads: an open connection has the socket of an attempt that has not
      ended; no status follows an attempt's Error or Disconnected; the frames handed up are the messages of
      1 to 1600 octets, and PopReceived gives them in order; and what was written and queued is what Send
      accepted, at most 64 queued. */
  lemma {:induction false} RunKeepsSound(events: seq<Event>)
    ensures Sound(Run(STARTED, events))
  {
    hide StatusesSound, TrafficSound, QueueIsFrames, Next;
    if events == [] {
      StartedIsSound();
    } else {
      var init, last := events[..|events| - 1], events[|events| - 1];
      RunKeepsSound(init);
      var h := Run(STARTED, init);
      NextKeepsStatusesSound(h, last);
      NextKeepsTrafficSound(h, last);
      NextKeepsFrames(h, last);
      ReloadingEnds(h, last);
    }
  }

  lemma StartedIsSound()
    ensures Sound(STARTED)
  {}

  /** An event from any socket but the connection's own changes nothing of the connection; one from a socket no
      connection has changes nothing at all, and is closed if it is up or talking. */
  lemma StaleCallbackChangesNothing(h: Hub, a: nat, e: Callback)
    requires Sound(h) && a < |h.owners|
    ensures forall u | u in h.connections && h.connections[u].socket != Some(a) ::
              var g := AfterCallback(h, a, e).0;
              g.connections[u] == h.connections[u] && u in g.histories && g.histories[u] == h.histories[u]
    ensures (forall u | u in h.connections :: h.connections[u].socket != Some(a)) ==>
              AfterCallback(h, a, e) == (h, e.Established? || e.Receive? || e.Writeable?)
  {
    hide Cut, Acceptable, EndsAreLast, QueueIsLog, Assembled, FramesSound, SendsSound;
    if IsCurrent(h, a) {
      assert ConnectionSound(h, h.owners[a]);
    }
  }

  /** An attempt that is not its connection's current one is never heard of again. */
  lemma {:induction false} SupersededStaysSilent(h: Hub, events: seq<Event>, a: nat)
    requires Sound(h) && a < |h.owners| && !IsCurrent(h, a)
    ensures var g := Run(h, events);
              Sound(g) && a < |g.owners| && !IsCurrent(g, a) && (Reported(g.log, a) <==> Reported(h.log, a))
  {
    hide StatusesSound, TrafficSound, QueueIsFrames, Next, IsCurrent;
    if events != [] {
      var init, last := events[..|events| - 1], events[|events| - 1];
      SupersededStaysSilent(h, init, a);
      var g := Run(h, init);
      NextKeepsStatusesSound(g, last);
      NextKeepsTrafficSound(g, last);
      NextKeepsFrames(g, last);
      ReloadingEnds(g, last);
      StepLeavesSuperseded(g, last, a);
    }
  }

  predicate Superseded(h: Hub, a: nat) { a < |h.owners| && !IsCurrent(h, a) }

  lemma StepLeavesSuperseded(h: Hub, e: Event, a: nat)
    requires Sound(h) && Superseded(h, a)
    ensures Superseded(Next(h, e), a) && (Reported(Next(h, e).log, a) <==> Reported(h.log, a))
  {
    hide Reported, AfterCallback, AllDropped, AfterConnect, Sound;
    match e
    case Called(b, callback) => CallbackLeavesSuperseded(h, b, callback, a);
    case Connect(uri, isHubUri, during, connected) => ConnectLeavesSuperseded(h, uri, isHubUri, during, connected, a);
    case Reload(uris, created) => DropsLeaveSuperseded(h, uris, a);
    case _ =>
  }

  lemma CallbackLeavesSuperseded(h: Hub, b: nat, e: Callback, a: nat)
    requires Superseded(h, a)
    ensures var g := AfterCallback(h, b, e).0; Superseded(g, a) && (Reported(g.log, a) <==> Reported(h.log, a))
  {
    hide Reported, Assembled;
    if IsCurrent(h, b) {
      OnlyItsOwnReport(h, b, e);
    }
  }

  lemma {:induction false} CallbacksLeaveSuperseded(h: Hub, events: seq<(nat, Callback)>, a: nat)
    requires Superseded(h, a)
    ensures var g := AfterCallbacks(h, events); Superseded(g, a) && (Reported(g.log, a) <==> Reported(h.log, a))
  {
    hide Reported, AfterCallback, Superseded;
    if events != [] {
      var init, last := events[..|events| - 1], events[|events| - 1];
      CallbacksLeaveSuperseded(h, init, a);
      CallbackLeavesSuperseded(AfterCallbacks(h, init), last.0, last.1, a);
    }
  }

  lemma ConnectLeavesSuperseded(h: Hub, uri: Uri, isHubUri: bool, during: seq<(nat, Callback)>, connected: bool, a: nat)
    requires Sound(h) && Superseded(h, a)
    ensures var g := AfterConnect(h, uri, isHubUri, during, connected);
              Superseded(g, a) && (Reported(g.log, a) <==> Reported(h.log, a))
  {
    hide AfterCallbacks, Sound, Reported;
    if h.context && isHubUri {
      var attempted := Attempted(h, uri);
      CallbacksLeaveSuperseded(attempted, during, a);
      var called := AfterCallbacks(attempted, during);
      var g := Answered(called, |h.owners|, uri, connected);
      OneMoreEntry(called.log, |h.owners|, Error, a);
    }
  }

  lemma OneMoreEntry(log: seq<(nat, Status)>, b: nat, status: Status, a: nat)
    ensures Reported(log + [(b, status)], a) <==> Reported(log, a) || a == b
  {
    var more := log + [(b, status)];
    assert more[|log|] == (b, status);
    if Reported(log, a) {
      var i :| 0 <= i < |log| && log[i].0 == a;
      assert more[i] == log[i];
    }
  }

  lemma {:induction false} DropsLeaveSuperseded(h: Hub, uris: seq<Uri>, a: nat)
    requires Sound(h) && Superseded(h, a)
    ensures var g := AllDropped(h, uris);
      StatusesSound(g) && Superseded(g, a) && (Reported(g.log, a) <==> Reported(h.log, a))
  {
    hide Reported, Dropped, Superseded, StatusesSound;
    if uris != [] {
      var init := uris[..|uris| - 1];
      DropsLeaveSuperseded(h, init, a);
      DropLeavesSuperseded(AllDropped(h, init), uris[|uris| - 1], a);
    }
  }

  lemma DropLeavesSuperseded(h: Hub, uri: Uri, a: nat)
    requires StatusesSound(h) && Superseded(h, a)
    ensures var g := Dropped(h, uri);
              StatusesSound(g) && Superseded(g, a) && (Reported(g.log, a) <==> Reported(h.log, a))
  {
    hide Reported, EndsAreLast, QueueIsLog, Ended;
    DropKeepsStatusesSound(h, uri);
    if uri in h.connections && h.connections[uri].socket.Some? {
      assert ConnectionSound(h, uri);
      OneMoreEntry(h.log, h.connections[uri].socket.value, Disconnected, a);
    }
  }

  /** A refused attempt is reported, then or ever, exactly when the last status queued is not already for the
      same URI, whatever libwebsockets says of it before it answers: its own callbacks are taken for stale. */
  lemma RefusedAttemptReportedExactly(h: Hub, uri: Uri, during: seq<(nat, Callback)>, later: seq<Event>)
    requires Sound(h) && h.context
    ensures var g := AfterConnect(h, uri, true, during, false);
      Reported(Run(g, later).log, |h.owners|) <==> !LastStatusIsFor(AfterCallbacks(Attempted(h, uri), during), uri)
  {
    hide TrafficSound, StatusesSound, QueueIsFrames, Reported, AfterCallbacks, LastStatusIsFor, Run, Next;
    var a := |h.owners|;
    var g := AfterConnect(h, uri, true, during, false);
    NextKeepsStatusesSound(h, Connect(uri, true, during, false));
    NextKeepsTrafficSound(h, Connect(uri, true, during, false));
    NextKeepsFrames(h, Connect(uri, true, during, false));
    ReloadingEnds(h, Connect(uri, true, during, false));
    assert Next(h, Connect(uri, true, during, false)) == g by { NextConnect(h, uri, during); }
    AttemptIsUnanswered(h, uri);
    CallbacksLeaveUnanswered(Attempted(h, uri), during, a, uri);
    AnswerKeepsStatusesSound(AfterCallbacks(Attempted(h, uri), during), a, uri, false);
    SupersededStaysSilent(g, later, a);
  }

  lemma NextConnect(h: Hub, uri: Uri, during: seq<(nat, Callback)>)
    ensures Next(h, Connect(uri, true, during, false)) == AfterConnect(h, uri, true, during, false)
  {}

  // ---------------------------------------------------------------------------
  // Messages
  // ---------------------------------------------------------------------------

  function Joined(pieces: seq<Bytes>): (message: Bytes) {
    if pieces == [] then [] else Joined(pieces[..|pieces| - 1]) + pieces[|pieces| - 1]
  }

  /** A message as its sender cut it into fragments; text fragments may come between them. */
  predicate Carries(fragments: seq<Callback>, pieces: seq<Bytes>, finished: bool) {
    && (forall f <- fragments :: f.Receive?)
    && if fragments == [] then pieces == [] && !finished
       else
         var last := fragments[|fragments| - 1];
         if !last.binary then Carries(fragments[..|fragments| - 1], pieces, finished)
         else pieces != [] && pieces[|pieces| - 1] == last.data && finished == last.final &&
              Carries(fragments[..|fragments| - 1], pieces[..|pieces| - 1], false)
  }

  /** The messages cut out of a stream are the ones its sender cut up. */
  lemma {:induction false} MessageIsCutBack(heard: seq<Callback>, fragments: seq<Callback>, pieces: seq<Bytes>,
      finished: bool)
    requires (forall f <- heard :: f.Receive?) && Cut(heard).1 == [] && Carries(fragments, pieces, finished)
    ensures Cut(heard + fragments) == if finished then (Cut(heard).0 + [Joined(pieces)], [])
              else (Cut(heard).0, Joined(pieces))
  {
    if fragments == [] {
      assert heard + fragments == heard;
    } else {
      var all, init, last := heard + fragments, fragments[..|fragments| - 1], fragments[|fragments| - 1];
      assert all[..|all| - 1] == heard + init && all[|all| - 1] == last;
      if last.binary {
        MessageIsCutBack(heard, init, pieces[..|pieces| - 1], false);
      } else {
        MessageIsCutBack(heard, init, pieces, finished);
      }
    }
  }

  /** Delivered to a sound connection between messages, a message hands up one more frame, its octets, if it has
      1 to 1600 of them; an oversize one hands up nothing, and either way the next message starts afresh. */
  lemma WholeMessageHandedUp(c: Connection, y: History, c': Connection, y': History, fragments: seq<Callback>,
      pieces: seq<Bytes>)
    requires FramesSound(c, y) && FramesSound(c', y') && y'.heard == y.heard + fragments
    requires Cut(y.heard).1 == [] && Carries(fragments, pieces, true)
    ensures Cut(y'.heard).1 == [] && c'.receiveAssembly == [] && !c'.receiveOverflow
    ensures var message := Joined(pieces);
      y'.handedUp == y.handedUp + if 1 <= |message| <= MAX_RECEIVED_FRAME_OCTETS then [message] else []
  {
    MessageIsCutBack(y.heard, fragments, pieces, true);
    var messages := Cut(y.heard).0 + [Joined(pieces)];
    assert messages[..|messages| - 1] == Cut(y.heard).0;
  }
}
