/** Whose datagrams the controller listens to, what each kind of answer does to Diamond, and which read is sent
    when (main.cpp, section 2e): on the octets, and over every run. */
module PeerAnswers {
  import opened Octets
  import opened Frames
  import opened PeerAcks
  import opened PeerController
  import opened PeerRuns
  import PropertyCodec

  // ---------------------------------------------------------------------------
  // Strangers
  // ---------------------------------------------------------------------------

  /** The datagram is from the address and port the peer announced, the port in the last two octets. */
  predicate IsFromBound(link: Link, s: State, d: Datagram) {
    var n := if link.ipv6 then 16 else 4;
    s.bound && |s.address| == n + 2 && d.fromAddress == s.address[..n] &&
    d.fromPort == s.address[n] as int * 0x100 + s.address[n + 1] as int
  }

  lemma PortOctets(address: Bytes, n: nat)
    requires |address| == n + 2
    ensures BigEndian(address[n..]) == address[n] as int * 0x100 + address[n + 1] as int
  {
    BigEndian2(address[n..]);
  }

  /** Only the peer's datagrams change anything. */
  lemma StrangerChangesNothing(link: Link, s: State, d: Datagram, now: int)
    ensures Next(link, s, Receive(d, now)) != s ==> IsFromBound(link, s, d)
  {
    hide AfterApdu, ReplyApdu, BigEndian;
    if s.bound && |s.address| == link.ConnectionStringLength() {
      PortOctets(s.address, link.AddressLength());
    }
  }

  predicate IsStranger(link: Link, s: State, e: Event) { e.Receive? && !IsFromBound(link, s, e.datagram) }

  /** The run without the datagrams of others than the peer of their time. */
  function FromPeerOnly(link: Link, s: State, events: seq<Event>): (kept: seq<Event>) {
    if events == [] then []
    else
      var prefix, last := events[..|events| - 1], events[|events| - 1];
      FromPeerOnly(link, s, prefix) + if IsStranger(link, Run(link, s, prefix), last) then [] else [last]
  }

  /** And so they make no difference to any run. */
  lemma {:induction false} StrangersMakeNoDifference(link: Link, s: State, events: seq<Event>)
    ensures Run(link, s, FromPeerOnly(link, s, events)) == Run(link, s, events)
  {
    hide Next, IsStranger;
    if events != [] {
      var prefix, last := events[..|events| - 1], events[|events| - 1];
      var kept, t := FromPeerOnly(link, s, prefix), Run(link, s, prefix);
      StrangersMakeNoDifference(link, s, prefix);
      if IsStranger(link, t, last) {
        IgnoredStep(link, t, last);
        assert kept + [] == kept;
      } else {
        assert (kept + [last])[..|kept|] == kept;
      }
    }
  }

  lemma IgnoredStep(link: Link, s: State, e: Event)
    requires IsStranger(link, s, e)
    ensures Next(link, s, e) == s
  {
    hide Next, IsFromBound;
    StrangerChangesNothing(link, s, e.datagram, e.now);
  }

  // ---------------------------------------------------------------------------
  // Answers
  // ---------------------------------------------------------------------------

  /** A datagram of the peer with this APDU: an Original-Unicast-NPDU of the link's kind, the NPDU with or without
      addresses. */
  ghost predicate Carries(link: Link, s: State, d: Datagram, apdu: Bytes) {
    && IsFromBound(link, s, d)
    && exists front: Bytes, n: Npdu ::
         && n.Valid() && n.networkMessage.None? && n.payload == apdu && d.message == front + NpduOctets(n)
         && if link.ipv6 then |front| == 10 && front[..2] == [0x82, 0x01]
             else |front| == 4 && front[..2] == [0x81, 0x0A]
  }

  lemma ReplyFound(front: Bytes, n: Npdu, ipv6: bool)
    requires n.Valid() && n.networkMessage.None? && |n.payload| >= 3
    requires if ipv6 then |front| == 10 && front[..2] == [0x82, 0x01] else |front| == 4 && front[..2] == [0x81, 0x0A]
    ensures ReplyApdu(front + NpduOctets(n), ipv6) == Some(n.payload)
  {
    hide Bit, ParseHeader, LooseOffset, HeaderSize, NpduOctets;
    WalkToPayload(n);
    var message, octets := front + NpduOctets(n), NpduOctets(n);
    assert message[|front|..] == octets;
    assert message[0] == front[..2][0] && message[1] == front[..2][1] && message[|front|] == octets[0];
  }

  /** Such an APDU is heard. */
  lemma CarriedIsHeard(link: Link, s: State, d: Datagram, apdu: Bytes, now: int)
    requires Carries(link, s, d, apdu) && |apdu| >= 3
    ensures PeerApdu(link, s, d) == Some(apdu) && Next(link, s, Receive(d, now)) == AfterApdu(s, apdu, now)
  {
    hide AfterApdu, ReplyApdu, BigEndian, NpduOctets;
    var front: Bytes, n: Npdu :|
      && n.Valid() && n.networkMessage.None? && n.payload == apdu && d.message == front + NpduOctets(n)
      && if link.ipv6 then |front| == 10 && front[..2] == [0x82, 0x01] else |front| == 4 && front[..2] == [0x81, 0x0A];
    PortOctets(s.address, link.AddressLength());
    ReplyFound(front, n, link.ipv6);
  }

  /** The answer proves the peer is reachable, and settles its read. */
  predicate IsSettled(s: State, t: State, invokeId: Byte, now: int) {
    && t.lastAnswer == now
    && (if s.readPropertyPending && s.readPropertyInvokeId == invokeId
        then !t.readPropertyPending && t.multiplePending == s.multiplePending
        else !t.multiplePending && t.readPropertyPending == s.readPropertyPending)
  }

  predicate IsOutstanding(s: State, invokeId: Byte) {
    (s.readPropertyPending && s.readPropertyInvokeId == invokeId) ||
    (s.multiplePending && s.multipleInvokeId == invokeId)
  }

  /** Any APDU of the peer settles the read it answers; under an id of no outstanding read it changes nothing. */
  lemma AnswerSettles(link: Link, s: State, d: Datagram, apdu: Bytes, now: int)
    requires Carries(link, s, d, apdu) && |apdu| >= 3
    ensures var t := Next(link, s, Receive(d, now));
      if IsOutstanding(s, apdu[1]) then IsSettled(s, t, apdu[1], now) else t == s
  {
    hide ReadingInAck, Scan, Bit, Next, Carries;
    CarriedIsHeard(link, s, d, apdu, now);
    ReadingSettlesNothing(s, apdu, now);
  }

  lemma ReadingSettlesNothing(s: State, apdu: Bytes, now: int)
    requires |apdu| >= 3
    ensures if IsOutstanding(s, apdu[1]) then IsSettled(s, AfterApdu(s, apdu, now), apdu[1], now)
            else AfterApdu(s, apdu, now) == s
  {
    hide ReadingInAck, Scan, Bit, Updated;
  }

  /** The same octets, or both a zero, of either sign. */
  predicate IsSameReal(a: nat, b: nat) { a == b || (a % 0x8000_0000 == 0 && b % 0x8000_0000 == 0) }

  /** A ReadProperty-ACK of Present_Value: Diamond shows its REAL and is reliable, unless a sensor fault is
      reported. */
  lemma ReadPropertyAnswerShown(link: Link, s: State, d: Datagram, invokeId: Byte, id: PropertyCodec.ObjectId,
      bits: nat, now: int)
    requires id.Valid() && bits < 0x1_0000_0000 && s.readPropertyPending && s.readPropertyInvokeId == invokeId
    requires Carries(link, s, d,
               PropertyCodec.ReadPropertyAck(invokeId, id, 85, PropertyCodec.ApplicationReal(bits)))
    ensures var t := Next(link, s, Receive(d, now));
      && !t.readPropertyPending && t.lastAnswer == now
      && (if s.sensorFaultReported then t.value == s.value && t.reliability == s.reliability
          else IsSameReal(t.value, bits) && t.reliability == 0)
  {
    hide ReadingInAck, Scan, Next, Carries, PropertyCodec.ReadPropertyAck, PropertyCodec.ApplicationReal, RealOf;
    var value := PropertyCodec.ApplicationReal(bits);
    var apdu := PropertyCodec.ReadPropertyAck(invokeId, id, 85, value);
    AckStart(invokeId, id, value);
    CarriedIsHeard(link, s, d, apdu, now);
    RealValue(bits);
    ReadPropertyAckReading(invokeId, id, 85, value);
  }

  lemma AckStart(invokeId: Byte, id: PropertyCodec.ObjectId, value: Bytes)
    requires id.Valid()
    ensures var apdu := PropertyCodec.ReadPropertyAck(invokeId, id, 85, value);
      && |apdu| >= 3 && apdu[0] == 0x30 && apdu[1] == invokeId && apdu[2] == PropertyCodec.SERVICE_READ_PROPERTY
      && PduType(apdu) == 3 && !Bit(apdu[0], 8)
  {
  }

  /** A ReadPropertyMultiple-ACK whose last Present_Value is a REAL and last Status_Flags says whether the sensor is
      at fault: the fault holds the value, and without it Diamond shows the REAL and is reliable. With either
      missing nothing more than the read's end is noted. */
  lemma MultipleAnswerShown(link: Link, s: State, d: Datagram, invokeId: Byte, objects: seq<ObjectAnswer>, now: int)
    requires QuietObjects(objects) && s.multiplePending && s.multipleInvokeId == invokeId
    requires !(s.readPropertyPending && s.readPropertyInvokeId == invokeId)
    requires Carries(link, s, d, ReadPropertyMultipleAck(invokeId, objects))
    ensures var t := Next(link, s, Receive(d, now));
      var value, flags := LastValue(AllProperties(objects), 85), LastValue(AllProperties(objects), 111);
      var bits := if value.None? then None else RealOf(value.value);
      var fault := if flags.None? then None else FaultOf(flags.value);
      && !t.multiplePending && t.lastAnswer == now
      && (bits.None? || fault.None? ==> t == s.(multiplePending := false, lastAnswer := now))
      && (bits.Some? && fault == Some(true) ==> t.sensorFaultReported && t.value == s.value && t.reliability == 7)
      && (bits.Some? && fault == Some(false) ==>
            !t.sensorFaultReported && IsSameReal(t.value, bits.value) && t.reliability == 0)
  {
    hide ReadingInAck, Scan, Next, Carries, ReadPropertyMultipleAck, RealOf, FaultOf, LastValue, AllProperties;
    var apdu := ReadPropertyMultipleAck(invokeId, objects);
    MultipleAckStart(invokeId, objects);
    CarriedIsHeard(link, s, d, apdu, now);
    ReadPropertyMultipleAckFindings(invokeId, objects);
  }

  lemma MultipleAckStart(invokeId: Byte, objects: seq<ObjectAnswer>)
    requires ValidObjects(objects)
    ensures var apdu := ReadPropertyMultipleAck(invokeId, objects);
      && |apdu| >= 3 && apdu[0] == 0x30 && apdu[1] == invokeId
      && apdu[2] == PropertyCodec.SERVICE_READ_PROPERTY_MULTIPLE && PduType(apdu) == 3 && !Bit(apdu[0], 8)
  {
  }

  /** Any other answer, an Error, Reject, Abort or segmented ACK: the value is held and Diamond unreliable; but an
      unrecognized-service Reject (PDU type 6, reason 9) of the ReadPropertyMultiple is no fault, and ends the use
      of that service. */
  lemma OtherAnswers(link: Link, s: State, d: Datagram, apdu: Bytes, now: int)
    requires Carries(link, s, d, apdu) && |apdu| >= 3 && IsOutstanding(s, apdu[1])
    requires apdu[0] as int / 16 != 3 || apdu[0] as int / 8 % 2 == 1
    ensures var t := Next(link, s, Receive(d, now));
      var isFallback := s.multiplePending && s.multipleInvokeId == apdu[1] && apdu[0] as int / 16 == 6 && apdu[2] == 9;
      && t.value == s.value
      && (if isFallback then t.reliability == s.reliability && t.multipleUnsupported && !t.sensorFaultReported
          else
            t.reliability == 7 && t.multipleUnsupported == s.multipleUnsupported &&
            t.sensorFaultReported == s.sensorFaultReported)
  {
    hide ReadingInAck, Scan, Next, Carries;
    CarriedIsHeard(link, s, d, apdu, now);
  }

  // ---------------------------------------------------------------------------
  // Binding
  // ---------------------------------------------------------------------------

  /** An I-Am of the peer, on this network, with an address of the link's length. */
  predicate IsPeersIAm(link: Link, e: Event) {
    && e.Announce? && link.isIp && e.iAm.device == 389002 && e.iAm.sourceNetwork == 0
    && |e.iAm.address| == if link.ipv6 then 18 else 6
  }

  /** The address of the latest such I-Am. */
  function LatestAddress(link: Link, events: seq<Event>): (address: Option<Bytes>) {
    if events == [] then None
    else if IsPeersIAm(link, events[|events| - 1]) then Some(events[|events| - 1].iAm.address)
    else LatestAddress(link, events[..|events| - 1])
  }

  /** In every run the controller polls the address the peer announced last, from its first I-Am on. */
  lemma {:induction false} BoundToLatestAddress(link: Link, events: seq<Event>)
    ensures var s := Run(link, POWER_ON, events);
      if s.bound then LatestAddress(link, events) == Some(s.address) else LatestAddress(link, events) == None
  {
    if events != [] {
      BoundToLatestAddress(link, events[..|events| - 1]);
      StepBinds(link, Run(link, POWER_ON, events[..|events| - 1]), events[|events| - 1]);
    }
  }

  lemma StepBinds(link: Link, s: State, e: Event)
    ensures var t := Next(link, s, e);
      if IsPeersIAm(link, e)
      then
        && t.bound && t.address == e.iAm.address && t.reliability == s.reliability && t.value == s.value
        && (s.bound && s.address == e.iAm.address ==> t == s)
        && (!s.bound ==> t.lastAnswer == e.now && t.lastPoll == e.now - 1000)
        && (!(s.bound && s.address == e.iAm.address) ==> !t.multipleUnsupported)
      else t.bound == s.bound && t.address == s.address
  {
    hide AfterApdu, ReplyApdu;
    if e.Receive? && PeerApdu(link, s, e.datagram).Some? {
      ApduKeepsPeer(s, PeerApdu(link, s, e.datagram).value, e.now);
    }
  }

  // ---------------------------------------------------------------------------
  // Which read, and when
  // ---------------------------------------------------------------------------

  /** The attempts to send so far. */
  function Attempts(link: Link, s: State, events: seq<Event>): (n: nat) {
    if events == [] then 0
    else
      var prefix, last := events[..|events| - 1], events[|events| - 1];
      Attempts(link, s, prefix) +
      if last.Poll? && Attempt(Run(link, s, prefix), last.clock).Some? then 1 else 0
  }

  lemma StepCounts(link: Link, s: State, e: Event)
    ensures var t := Next(link, s, e);
      t.pollCount == if e.Poll? && Attempt(s, e.clock).Some? then (s.pollCount + 1) % CLOCK_WRAP else s.pollCount
  {
    hide AfterApdu, ReplyApdu, MillisecondsSince;
    if e.Receive? && PeerApdu(link, s, e.datagram).Some? {
      ApduKeepsPeer(s, PeerApdu(link, s, e.datagram).value, e.now);
    }
  }

  lemma {:induction false} PollCountIsAttempts(link: Link, events: seq<Event>)
    ensures Run(link, POWER_ON, events).pollCount == Attempts(link, POWER_ON, events) % CLOCK_WRAP
  {
    hide Next, Attempt;
    if events != [] {
      PollCountIsAttempts(link, events[..|events| - 1]);
      StepCounts(link, Run(link, POWER_ON, events[..|events| - 1]), events[|events| - 1]);
    }
  }

  /** In every run the two reads take turns, the ReadProperty first; without ReadPropertyMultiple it is always the
      ReadProperty. A read sent is outstanding under its invoke id, and the other as it was. */
  lemma ReadsTakeTurns(link: Link, events: seq<Event>, clock: Clock, sent: Option<Byte>)
    requires var s := Run(link, POWER_ON, events); Attempt(s, clock).Some?
    ensures var s := Run(link, POWER_ON, events);
      var t := Next(link, s, Poll(clock, sent));
      var isMultiple := Attempts(link, POWER_ON, events) % 2 == 1 && !s.multipleUnsupported;
      && Attempt(s, clock).value == (if isMultiple then ReadPropertyMultiple else ReadProperty)
      && (t.readPropertyPending, t.readPropertyInvokeId) ==
         (if sent.Some? && !isMultiple then (true, sent.value) else (s.readPropertyPending, s.readPropertyInvokeId))
      && (t.multiplePending, t.multipleInvokeId) ==
         (if sent.Some? && isMultiple then (true, sent.value) else (s.multiplePending, s.multipleInvokeId))
  {
    hide Run, MillisecondsSince;
    PollCountIsAttempts(link, events);
  }

  /** PollPeer sends exactly when the peer is bound and the interval, by its 32-bit remainder, is over. */
  lemma AttemptExactly(s: State, clock: Clock)
    ensures Attempt(s, clock).Some? <==>
            s.bound && (clock.interval - s.lastPoll) % 0x1_0000_0000 >=
              if (clock.silence - s.lastAnswer) % 0x1_0000_0000 > 3000 then 3000 else 1000
  {
  }

  /** Once the peer is bound, the next poll reads it at once. */
  lemma BindingIsPolled(link: Link, s: State, e: Event, clock: Clock)
    requires !s.bound && IsPeersIAm(link, e) && e.now <= clock.silence <= e.now + 3000 && clock.Valid()
    requires clock.interval - e.now < 0x1_0000_0000 - 1000
    ensures Attempt(Next(link, s, e), clock).Some?
  {
    hide Next, Attempt;
    StepBinds(link, s, e);
    AttemptExactly(Next(link, s, e), clock);
  }

  /** No poll in [i, j) tries to send. */
  predicate NoAttempts(link: Link, s: State, events: seq<Event>, i: nat, j: nat)
    requires j <= |events|
  {
    forall k: nat | i <= k < j && events[k].Poll? :: Attempt(Before(link, s, events, k), events[k].clock).None?
  }

  /** In every run, once a read was tried at `i` the next one is tried by the first poll 3000 ms later, at the
      latest, and before the clock wraps. */
  lemma AttemptsKeepComing(link: Link, s: State, events: seq<Event>, i: nat, j: nat)
    requires i < j < |events| && events[i].Poll? && events[j].Poll?
    requires Attempt(Before(link, s, events, i), events[i].clock).Some?
    requires 3000 <= events[j].clock.interval - events[i].clock.send < 0x1_0000_0000
    ensures Attempt(Before(link, s, events, j), events[j].clock).Some? || !NoAttempts(link, s, events, i + 1, j)
  {
    if NoAttempts(link, s, events, i + 1, j) {
      LastPollStays(link, s, events, i, j);
      AttemptExactly(Before(link, s, events, j), events[j].clock);
    }
  }

  lemma {:induction false} LastPollStays(link: Link, s: State, events: seq<Event>, i: nat, j: nat)
    requires i < j <= |events| && events[i].Poll? && Attempt(Before(link, s, events, i), events[i].clock).Some?
    requires NoAttempts(link, s, events, i + 1, j)
    ensures var t := Before(link, s, events, j); t.bound && t.lastPoll == events[i].clock.send
    decreases j
  {
    hide Next, Attempt;
    assert events[..j][..j - 1] == events[..j - 1];
    RunLast(link, s, events[..j]);
    var t := Before(link, s, events, j - 1);
    if j > i + 1 {
      LastPollStays(link, s, events, i, j - 1);
    }
    StepMovesPoll(link, t, events[j - 1]);
  }

  lemma StepMovesPoll(link: Link, s: State, e: Event)
    ensures var t := Next(link, s, e);
      && (s.bound ==> t.bound)
      && (e.Poll? && Attempt(s, e.clock).Some? ==> t.bound && t.lastPoll == e.clock.send)
      && (s.bound && !(e.Poll? && Attempt(s, e.clock).Some?) ==> t.lastPoll == s.lastPoll)
  {
    hide AfterApdu, ReplyApdu, MillisecondsSince;
    if e.Receive? && PeerApdu(link, s, e.datagram).Some? {
      ApduKeepsPeer(s, PeerApdu(link, s, e.datagram).value, e.now);
    }
  }
}
