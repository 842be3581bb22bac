/** What the polling controller keeps over every run: any interleaving of I-Am, poll, datagram and
    cold-start steps. */
module PeerRuns {
  import opened Octets
  import opened Frames
  import opened PeerAcks
  import opened PeerController
  import PropertyCodec

  datatype Event =
    | Announce(iAm: IAm, now: int)
    | Poll(clock: Clock, sent: Option<Byte>)
    | Receive(datagram: Datagram, now: int)
    | ColdStart(now: int)
  {
    /** When the step starts and ends. */
    function From(): int { if Poll? then clock.silence else now }

    function To(): int { if Poll? then clock.send else now }
  }

  function Next(link: Link, s: State, e: Event): (t: State) {
    match e
    case Announce(iAm, now) => AfterIAm(link, s, iAm, now)
    case Poll(clock, sent) => AfterPoll(s, clock, sent)
    case Receive(datagram, now) => AfterDatagram(link, s, datagram, now)
    case ColdStart(_) => AfterColdStart(s)
  }

  function Run(link: Link, s: State, events: seq<Event>): (t: State) {
    if events == [] then s else Next(link, Run(link, s, events[..|events| - 1]), events[|events| - 1])
  }

  /** The state before step `k`. */
  function Before(link: Link, s: State, events: seq<Event>, k: nat): (t: State)
    requires k <= |events|
  {
    Run(link, s, events[..k])
  }

  /** The stack gives a read an invoke id other than that of the other outstanding read. */
  predicate FreshInvokeId(s: State, e: Event) {
    e.Poll? && e.sent.Some? && Attempt(s, e.clock).Some? ==>
      if Attempt(s, e.clock).value == ReadPropertyMultiple
          then !(s.readPropertyPending && e.sent.value == s.readPropertyInvokeId)
      else !(s.multiplePending && e.sent.value == s.multipleInvokeId)
  }

  predicate FreshInvokeIds(link: Link, s: State, events: seq<Event>) {
    forall k: nat | k < |events| :: FreshInvokeId(Before(link, s, events, k), events[k])
  }

  lemma BeforePrefix(link: Link, s: State, events: seq<Event>, k: nat)
    requires k < |events|
    ensures Before(link, s, events, k) == Before(link, s, events[..|events| - 1], k)
  {
    assert events[..k] == events[..|events| - 1][..k];
  }

  lemma FreshPrefix(link: Link, s: State, events: seq<Event>)
    requires events != [] && FreshInvokeIds(link, s, events)
    ensures FreshInvokeIds(link, s, events[..|events| - 1])
    ensures FreshInvokeId(Run(link, s, events[..|events| - 1]), events[|events| - 1])
  {
    var prefix := events[..|events| - 1];
    assert Before(link, s, events, |events| - 1) == Run(link, s, prefix);
    forall k: nat | k < |prefix| ensures FreshInvokeId(Before(link, s, prefix, k), prefix[k]) {
      BeforePrefix(link, s, events, k);
      assert FreshInvokeId(Before(link, s, events, k), events[k]);
    }
  }

  // ---------------------------------------------------------------------------
  // Faults and the ReadProperty fallback
  // ---------------------------------------------------------------------------

  /** A reported sensor fault never shows as no-fault-detected, and a peer without ReadPropertyMultiple has
      no outstanding one and no reported fault. */
  predicate Sound(s: State) {
    && (s.sensorFaultReported ==> s.reliability != NO_FAULT_DETECTED)
    && (s.multipleUnsupported ==> !s.multiplePending && !s.sensorFaultReported)
    && (s.readPropertyPending && s.multiplePending ==> s.readPropertyInvokeId != s.multipleInvokeId)
  }

  lemma ApduKeepsSound(s: State, apdu: Bytes, now: int)
    requires Sound(s) && |apdu| >= 3
    ensures Sound(AfterApdu(s, apdu, now))
  {
    hide ReadingInAck, Scan;
  }

  lemma StepKeepsSound(link: Link, s: State, e: Event)
    requires Sound(s) && FreshInvokeId(s, e)
    ensures Sound(Next(link, s, e))
  {
    hide AfterApdu, ReplyApdu;
    if e.Receive? {
      var apdu := PeerApdu(link, s, e.datagram);
      if apdu.Some? { ApduKeepsSound(s, apdu.value, e.now); }
    }
  }

  lemma {:induction false} RunKeepsSound(link: Link, s: State, events: seq<Event>)
    requires Sound(s) && FreshInvokeIds(link, s, events)
    ensures Sound(Run(link, s, events))
  {
    if events != [] {
      FreshPrefix(link, s, events);
      RunKeepsSound(link, s, events[..|events| - 1]);
      StepKeepsSound(link, Run(link, s, events[..|events| - 1]), events[|events| - 1]);
    }
  }

  /** Without the assumption on invoke ids the fallback does not hold: one Reject can match both reads. It
      then clears only the ReadProperty, and the other is left outstanding for an acknowledgement that
      reports a sensor fault. */
  lemma SharedInvokeIdBreaksFallback()
    ensures exists s: State, reject: Bytes, ack: Bytes ::
              && |reject| >= 3 && |ack| >= 3 && s.readPropertyInvokeId == s.multipleInvokeId && !s.sensorFaultReported
              && AfterApdu(s, reject, 0).multipleUnsupported
              && AfterApdu(AfterApdu(s, reject, 0), ack, 0).multipleUnsupported
              && AfterApdu(AfterApdu(s, reject, 0), ack, 0).sensorFaultReported
  {
    hide ReadingInAck, Scan, ReadPropertyMultipleAck;
    var s := POWER_ON.(bound := true, readPropertyPending := true, readPropertyInvokeId := 7,
                       multiplePending := true, multipleInvokeId := 7);
    var reject: Bytes := [0x60, 7, REJECT_REASON_UNRECOGNIZED_SERVICE];
    var t := AfterApdu(s, reject, 0);
    assert |reject| >= 3 && t.multipleUnsupported && t.multiplePending && !t.readPropertyPending &&
        t.multipleInvokeId == 7;
    var ack := FaultAck(7);
    var u := AfterApdu(t, ack, 0);
    assert CarriesValue(ack) && AnswersMultiple(t, ack);
    assert u.multipleUnsupported && u.sensorFaultReported;
  }

  /** An acknowledgement of both properties with the FAULT flag set. */
  lemma FaultAck(invokeId: Byte) returns (ack: Bytes)
    ensures |ack| >= 3 && ack[0] == 0x30 && ack[1] == invokeId && ack[2] == PropertyCodec.SERVICE_READ_PROPERTY_MULTIPLE
    ensures var f := Scan(ack[3..], NOTHING_FOUND); f.humidity.Some? && f.fault == Some(true)
  {
    hide Scan, PropertyCodec.ApplicationReal, StatusFlags, RealOf, FaultOf, IsPrimitiveValue, IsQuiet;
    var value, flags := PropertyCodec.ApplicationReal(0), StatusFlags(false, true, false, false);
    RealValue(0);
    StatusFlagsValue(false, true, false, false);
    PrimitiveIsQuiet(value);
    PrimitiveIsQuiet(flags);
    var properties := [PropertyAnswer(PRESENT_VALUE, Some(value)), PropertyAnswer(STATUS_FLAGS, Some(flags))];
    var objects := [ObjectAnswer(PropertyCodec.ObjectId(0, 1), properties)];
    assert properties[..1][..0] == [] && properties[..1] == [properties[0]];
    assert AllProperties(objects) == properties + [];
    assert LastValue(properties, STATUS_FLAGS) == Some(flags);
    assert LastValue(properties, PRESENT_VALUE) == Some(value) by {
      assert LastValue(properties[..1], PRESENT_VALUE) == Some(value);
    }
    ReadPropertyMultipleAckFindings(invokeId, objects);
    ack := ReadPropertyMultipleAck(invokeId, objects);
  }

  /** Exactly: a Reject of the ReadPropertyMultiple settles it, unless the ReadProperty is outstanding under the
      same id; then it stays outstanding. */
  lemma RejectSettlesExactly(s: State, apdu: Bytes, now: int)
    requires |apdu| >= 3 && AnswersMultiple(s, apdu) && IsUnrecognizedService(apdu)
    ensures var t := AfterApdu(s, apdu, now);
            && t.multipleUnsupported && !t.sensorFaultReported
            && (t.multiplePending <==> s.readPropertyPending && s.readPropertyInvokeId == s.multipleInvokeId)
            && (Sound(t) <==> s.readPropertyPending ==> s.readPropertyInvokeId != s.multipleInvokeId)
  {
    hide ReadingInAck, Scan, AfterReadPropertyAck, AfterMultipleAck;
  }

  /** The step takes the peer to another address (or binds it). */
  predicate MovesPeer(link: Link, s: State, e: Event) {
    e.Announce? && IsFromPeer(link, e.iAm) && (!s.bound || s.address != e.iAm.address)
  }

  predicate SendsMultiple(s: State, e: Event) {
    e.Poll? && Attempt(s, e.clock) == Some(ReadPropertyMultiple)
  }

  lemma ApduKeepsFallback(s: State, apdu: Bytes, now: int)
    requires Sound(s) && s.multipleUnsupported && |apdu| >= 3
    ensures AfterApdu(s, apdu, now).multipleUnsupported
  {
    hide ReadingInAck, Scan;
  }

  /** After an unrecognized-service Reject no ReadPropertyMultiple is sent, and no sensor fault is
      reported, until the peer's address changes. */
  lemma {:induction false} FallbackHolds(link: Link, s: State, events: seq<Event>)
    requires Sound(s) && s.multipleUnsupported && FreshInvokeIds(link, s, events)
    requires forall k: nat | k < |events| :: !MovesPeer(link, Before(link, s, events, k), events[k])
    ensures Run(link, s, events).multipleUnsupported && !Run(link, s, events).sensorFaultReported
    ensures forall k: nat | k < |events| :: !SendsMultiple(Before(link, s, events, k), events[k])
  {
    hide AfterApdu, ReplyApdu;
    RunKeepsSound(link, s, events);
    if events != [] {
      var n := |events| - 1;
      var prefix, last := events[..n], events[n];
      FreshPrefix(link, s, events);
      assert Before(link, s, events, n) == Run(link, s, prefix);
      forall k: nat | k < n ensures Before(link, s, prefix, k) == Before(link, s, events, k) && prefix[k] == events[k] {
        BeforePrefix(link, s, events, k);
      }
      FallbackHolds(link, s, prefix);
      var t := Run(link, s, prefix);
      RunKeepsSound(link, s, prefix);
      hide Run;
      assert Run(link, s, events) == Next(link, t, last) by { RunLast(link, s, events); }
      if last.Receive? && PeerApdu(link, t, last.datagram).Some? {
        ApduKeepsFallback(t, PeerApdu(link, t, last.datagram).value, last.now);
      }
    }
  }

  lemma RunLast(link: Link, s: State, events: seq<Event>)
    requires events != []
    ensures Run(link, s, events) == Next(link, Run(link, s, events[..|events| - 1]), events[|events| - 1])
  {
  }

  /** While a fault is reported, an answer to the ReadProperty never changes the value. */
  lemma FaultHoldsValue(s: State, apdu: Bytes, now: int)
    requires Sound(s) && s.sensorFaultReported && |apdu| >= 3 && AnswersReadProperty(s, apdu)
    ensures AfterApdu(s, apdu, now).value == s.value
    ensures AfterApdu(s, apdu, now).reliability != NO_FAULT_DETECTED
  {
    hide ReadingInAck, Scan;
  }

  // ---------------------------------------------------------------------------
  // Diamond's value
  // ---------------------------------------------------------------------------

  /** The reading of an accepted acknowledgement: a complex, unsegmented answer to an outstanding read, with
      the service of that read; a ReadProperty one only while no fault is reported, a
      ReadPropertyMultiple one only with its FAULT flag clear. */
  function AcceptedReading(s: State, apdu: Bytes): (reading: Option<nat>)
    requires |apdu| >= 3
  {
    if !CarriesValue(apdu) then None
    else if AnswersReadProperty(s, apdu) && apdu[2] == PropertyCodec.SERVICE_READ_PROPERTY then
      if s.sensorFaultReported then None else ReadingInAck(apdu[3..], 0)
    else if AnswersMultiple(s, apdu) && apdu[2] == PropertyCodec.SERVICE_READ_PROPERTY_MULTIPLE then
      var f := Scan(apdu[3..], NOTHING_FOUND);
      if f.fault == Some(false) then f.humidity else None
    else None
  }

  /** What the step itself puts in Diamond, if anything. */
  function NewReading(link: Link, s: State, e: Event): (reading: Option<nat>) {
    match e
    case Receive(datagram, _) =>
      var apdu := PeerApdu(link, s, datagram);
      if apdu.None? then None else AcceptedReading(s, apdu.value)
    case ColdStart(_) => Some(POWER_ON_VALUE)
    case Announce(_, _) => None
    case Poll(_, _) => None
  }

  /** The reading of the most recent accepted acknowledgement, or the power-on value before the first and
      after a cold start. */
  function LatestReading(link: Link, s: State, events: seq<Event>): (reading: nat) {
    if events == [] then POWER_ON_VALUE
    else
      var prefix := events[..|events| - 1];
      var reading := NewReading(link, Run(link, s, prefix), events[|events| - 1]);
      if reading.Some? then reading.value else LatestReading(link, s, prefix)
  }

  lemma ApduValue(s: State, apdu: Bytes, now: int)
    requires |apdu| >= 3
    ensures match AcceptedReading(s, apdu)
            case None => AfterApdu(s, apdu, now).value == s.value
            case Some(reading) => Shows(AfterApdu(s, apdu, now).value, reading)
  {
    hide ReadingInAck, Scan, Shows, Updated;
  }

  /** In every run, Diamond shows the reading of the most recent accepted acknowledgement. */
  lemma {:induction false} DiamondShowsLatestReading(link: Link, events: seq<Event>)
    ensures Shows(Run(link, POWER_ON, events).value, LatestReading(link, POWER_ON, events))
  {
    hide AfterApdu, ReplyApdu, AcceptedReading, Shows;
    if events != [] {
      var prefix, last := events[..|events| - 1], events[|events| - 1];
      DiamondShowsLatestReading(link, prefix);
      var t := Run(link, POWER_ON, prefix);
      if last.Receive? && PeerApdu(link, t, last.datagram).Some? {
        ApduValue(t, PeerApdu(link, t, last.datagram).value, last.now);
      } else if last.ColdStart? {
        ShowsItself(POWER_ON_VALUE);
      }
    } else {
      ShowsItself(POWER_ON_VALUE);
    }
  }

  lemma ShowsItself(value: nat)
    ensures Shows(value, value)
  {
  }

  /** A cold start leaves the peer's reading behind without saying so: Reliability stays no-fault-detected
      over the power-on value. */
  lemma ColdStartForgetsReading(link: Link, s: State, now: int)
    requires s.reliability == NO_FAULT_DETECTED && !Shows(POWER_ON_VALUE, s.value)
    ensures var t := Next(link, s, ColdStart(now));
            t.reliability == NO_FAULT_DETECTED && !Shows(t.value, s.value) && t == s.(value := POWER_ON_VALUE)
  {
  }

  // ---------------------------------------------------------------------------
  // Communication loss
  // ---------------------------------------------------------------------------

  /** PollPeer notices a silence exactly by the 32-bit remainder of its length. */
  lemma PollDetectsSilence(s: State, clock: Clock, sent: Option<Byte>)
    requires s.bound && s.reliability != COMMUNICATION_FAILURE
    ensures AfterPoll(s, clock, sent).reliability == COMMUNICATION_FAILURE <==>
            (clock.silence - s.lastAnswer) % CLOCK_WRAP > REMOTE_COMMS_LOSS_MILLISECONDS
  {
  }

  /** So one call in the whole silence, at a bad moment, does not notice it. */
  lemma WrapHidesSilence()
    ensures exists s: State, clock: Clock ::
              && s.bound && clock.Valid() && clock.silence - s.lastAnswer > REMOTE_COMMS_LOSS_MILLISECONDS
              && AfterPoll(s, clock, None).reliability != COMMUNICATION_FAILURE
  {
    var s := POWER_ON.(bound := true, reliability := NO_FAULT_DETECTED);
    var clock := Clock(CLOCK_WRAP, CLOCK_WRAP, CLOCK_WRAP);
    assert s.bound && clock.Valid() && clock.silence - s.lastAnswer > REMOTE_COMMS_LOSS_MILLISECONDS;
    assert AfterPoll(s, clock, None).reliability != COMMUNICATION_FAILURE;
  }

  /** The steps follow each other in time, each poll with its three readings in order. */
  predicate InOrder(start: int, events: seq<Event>) {
    forall k: nat | k < |events| :: InTurn(start, events, k)
  }

  predicate InTurn(start: int, events: seq<Event>, k: nat)
    requires k < |events|
  {
    (events[k].Poll? ==> events[k].clock.Valid()) && EndTime(start, events[..k]) <= events[k].From()
  }

  /** When PollPeer last looked at the silence, `start` if it has not. */
  function LastLook(start: int, events: seq<Event>): (time: int) {
    if events == [] then start
    else if events[|events| - 1].Poll? then events[|events| - 1].clock.silence
    else LastLook(start, events[..|events| - 1])
  }

  /** PollPeer is called often enough that a silence cannot wrap unseen between two calls. */
  predicate PolledOften(start: int, events: seq<Event>) {
    forall k: nat | k < |events| && events[k].Poll? ::
      events[k].clock.silence - LastLook(start, events[..k]) < CLOCK_WRAP - REMOTE_COMMS_LOSS_MILLISECONDS
  }

  function EndTime(start: int, events: seq<Event>): int {
    if events == [] then start else events[|events| - 1].To()
  }

  /** Silence at the last look means communication-failure now. */
  predicate SilenceKnown(s: State, look: int, now: int) {
    && look <= now && (s.bound ==> s.lastAnswer <= now)
    && (s.bound && look - s.lastAnswer > REMOTE_COMMS_LOSS_MILLISECONDS ==> s.reliability == COMMUNICATION_FAILURE)
  }

  lemma PollKeepsSilenceKnown(s: State, clock: Clock, sent: Option<Byte>, look: int, now: int)
    requires SilenceKnown(s, look, now) && clock.Valid() && now <= clock.silence
    requires clock.silence - look < CLOCK_WRAP - REMOTE_COMMS_LOSS_MILLISECONDS
    ensures SilenceKnown(AfterPoll(s, clock, sent), clock.silence, clock.send)
  {
    var silence := clock.silence - s.lastAnswer;
    if s.bound && silence < CLOCK_WRAP {
      assert MillisecondsSince(clock.silence, s.lastAnswer) == silence;
    }
  }

  predicate SamePeer(s: State, t: State) {
    t.bound == s.bound && t.address == s.address && t.lastPoll == s.lastPoll && t.pollCount == s.pollCount
  }

  lemma ReadingKeepsPeer(s: State, reading: Option<nat>)
    ensures var t := AfterReadPropertyAck(s, reading);
              t.lastAnswer == s.lastAnswer && SamePeer(s, t)
  {
  }

  lemma FindingsKeepPeer(s: State, f: Findings)
    ensures var t := AfterMultipleAck(s, f);
              t.lastAnswer == s.lastAnswer && SamePeer(s, t)
  {
  }

  /** An APDU is counted as an answer, or changes nothing; neither moves the polls. */
  lemma ApduKeepsPeer(s: State, apdu: Bytes, now: int)
    requires |apdu| >= 3
    ensures var t := AfterApdu(s, apdu, now);
            (t == s || t.lastAnswer == now) && SamePeer(s, t)
  {
    hide AfterReadPropertyAck, AfterMultipleAck, ReadingInAck, Scan, IsUnrecognizedService, CarriesValue;
    var t := Counted(s, apdu, now);
    ReadingKeepsPeer(t, ReadingInAck(apdu[3..], 0));
    FindingsKeepPeer(t, Scan(apdu[3..], NOTHING_FOUND));
  }

  lemma StepKeepsSilenceKnown(link: Link, s: State, e: Event, look: int, now: int)
    requires SilenceKnown(s, look, now) && !e.Poll? && now <= e.now
    ensures SilenceKnown(Next(link, s, e), look, e.now)
  {
    hide AfterApdu, ReplyApdu;
    if e.Receive? && PeerApdu(link, s, e.datagram).Some? {
      ApduKeepsPeer(s, PeerApdu(link, s, e.datagram).value, e.now);
    }
  }

  lemma {:induction false} RunKeepsSilenceKnown(link: Link, start: int, events: seq<Event>)
    requires InOrder(start, events) && PolledOften(start, events)
    ensures SilenceKnown(Run(link, POWER_ON, events), LastLook(start, events), EndTime(start, events))
  {
    if events != [] {
      var n := |events| - 1;
      var prefix, last := events[..n], events[n];
      forall k: nat | k < n ensures InTurn(start, prefix, k) && prefix[..k] == events[..k] {
        assert prefix[..k] == events[..k] && InTurn(start, events, k);
      }
      assert InTurn(start, events, n);
      RunKeepsSilenceKnown(link, start, prefix);
      var t, look, now := Run(link, POWER_ON, prefix), LastLook(start, prefix), EndTime(start, prefix);
      if last.Poll? {
        PollKeepsSilenceKnown(t, last.clock, last.sent, look, now);
      } else {
        StepKeepsSilenceKnown(link, t, last, look, now);
      }
    }
  }

  /** At every return of PollPeer with a bound peer, a silence of more than 3000 ms means
      communication-failure, provided PollPeer is called often. */
  lemma SilenceIsReported(link: Link, start: int, events: seq<Event>)
    requires InOrder(start, events) && PolledOften(start, events)
    requires events != [] && events[|events| - 1].Poll? && Run(link, POWER_ON, events).bound
    ensures var s := Run(link, POWER_ON, events);
            events[|events| - 1].clock.silence - s.lastAnswer > REMOTE_COMMS_LOSS_MILLISECONDS ==>
              s.reliability == COMMUNICATION_FAILURE
  {
    RunKeepsSilenceKnown(link, start, events);
  }

  /** communication-failure is left only in a step that consumed a matching answer. */
  lemma RecoveryNeedsAnswer(link: Link, s: State, e: Event)
    requires s.reliability == COMMUNICATION_FAILURE && Next(link, s, e).reliability != COMMUNICATION_FAILURE
    ensures e.Receive? && PeerApdu(link, s, e.datagram).Some?
    ensures var apdu := PeerApdu(link, s, e.datagram).value; var t := Next(link, s, e);
            && Matches(s, apdu) && t.lastAnswer == e.now
            && (if AnswersReadProperty(s, apdu) then !t.readPropertyPending else !t.multiplePending)
  {
    hide ReadingInAck, Scan, ReplyApdu;
  }

  // ---------------------------------------------------------------------------
  // The pace of the polls
  // ---------------------------------------------------------------------------

  /** The peer is bound, and the last attempt to send was between `time` and `now`. */
  predicate AttemptedSince(s: State, time: int, now: int) { s.bound && time <= s.lastPoll <= now }

  lemma ElapsedAtLeast(now: int, then_: int)
    requires then_ <= now
    ensures MillisecondsSince(now, then_) <= now - then_
  {
  }

  lemma StepKeepsAttemptedSince(link: Link, s: State, e: Event, time: int, now: int)
    requires AttemptedSince(s, time, now) && now <= e.From() && (e.Poll? ==> e.clock.Valid())
    ensures AttemptedSince(Next(link, s, e), time, e.To())
    ensures e.Poll? && Attempt(s, e.clock).Some? ==> e.clock.send >= time + PollInterval(s, e.clock)
  {
    hide AfterApdu, ReplyApdu, MillisecondsSince;
    if e.Poll? {
      ElapsedAtLeast(e.clock.interval, s.lastPoll);
    }
    if e.Receive? && PeerApdu(link, s, e.datagram).Some? {
      ApduKeepsPeer(s, PeerApdu(link, s, e.datagram).value, e.now);
    }
  }

  /** Attempts to send are at least an interval apart: 1000 ms, 3000 ms while the peer counts as lost. */
  lemma AttemptsApart(link: Link, start: int, s: State, events: seq<Event>, i: nat, j: nat)
    requires InOrder(start, events)
    requires i < j < |events| && events[i].Poll? && events[j].Poll?
    requires Attempt(Before(link, s, events, i), events[i].clock).Some?
    requires Attempt(Before(link, s, events, j), events[j].clock).Some?
    ensures events[j].clock.send - events[i].clock.send >= PollInterval(Before(link, s, events, j), events[j].clock)
  {
    BoundSince(link, start, s, events, i, j);
    assert InTurn(start, events, j);
    StepKeepsAttemptedSince(link, Before(link, s, events, j), events[j], events[i].clock.send,
        EndTime(start, events[..j]));
  }

  lemma {:induction false} BoundSince(link: Link, start: int, s: State, events: seq<Event>, i: nat, j: nat)
    requires InOrder(start, events)
    requires i < j <= |events| && events[i].Poll? && Attempt(Before(link, s, events, i), events[i].clock).Some?
    ensures AttemptedSince(Before(link, s, events, j), events[i].clock.send, EndTime(start, events[..j]))
    decreases j
  {
    assert events[..j][..j - 1] == events[..j - 1];
    RunLast(link, s, events[..j]);
    assert InTurn(start, events, j - 1);
    var t := Before(link, s, events, j - 1);
    if j == i + 1 {
      hide ReadingInAck, Scan, ReplyApdu, Run;
      assert Before(link, s, events, j) == Next(link, t, events[i]);
    } else {
      BoundSince(link, start, s, events, i, j - 1);
      hide Run;
      StepKeepsAttemptedSince(link, t, events[j - 1], events[i].clock.send, EndTime(start, events[..j - 1]));
    }
  }
}
