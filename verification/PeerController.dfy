/** The controller that polls one peer device and drives Analog Value 1 "Diamond" from it (main.cpp,
    section 2e). Times are milliseconds of the steady clock; a REAL is its 32-bit pattern. */
module PeerController {
  import opened Octets
  import opened Tags
  import opened PeerAcks
  import opened Frames
  import PropertyCodec

  const REMOTE_DEVICE_INSTANCE := 389002
  const REMOTE_POLL_INTERVAL_MILLISECONDS := 1000
  const REMOTE_COMMS_LOSS_MILLISECONDS := 3000
  const REMOTE_LOST_POLL_INTERVAL_MILLISECONDS := 3000
  const CLOCK_WRAP := 0x1_0000_0000

  const NO_FAULT_DETECTED := 0
  const UNRELIABLE_OTHER := 7
  const COMMUNICATION_FAILURE := 12

  const POWER_ON_VALUE := 0x4248_0000 // 50.0

  const PDU_TYPE_COMPLEX_ACK := 3
  const PDU_TYPE_REJECT := 6
  const REJECT_REASON_UNRECOGNIZED_SERVICE: Byte := 9

  datatype Service = ReadProperty | ReadPropertyMultiple

  /** The controller's memory: `g_peer`, Diamond's Reliability and Diamond's value. */
  datatype State = State(
    bound: bool, address: Bytes,
    readPropertyPending: bool, readPropertyInvokeId: Byte,
    multiplePending: bool, multipleInvokeId: Byte,
    pollCount: nat, multipleUnsupported: bool, sensorFaultReported: bool,
    lastPoll: int, lastAnswer: int,
    reliability: nat, value: nat)

  const POWER_ON := State(false, [], false, 0, false, 0, 0, false, false, 0, 0, COMMUNICATION_FAILURE, POWER_ON_VALUE)

  // ---------------------------------------------------------------------------
  // What each step does to the memory
  // ---------------------------------------------------------------------------

  /** The 32-bit MillisecondsSince. */
  function MillisecondsSince(now: int, then_: int): (ms: nat) {
    (now - then_) % CLOCK_WRAP
  }

  predicate IsNaN(bits: nat) { bits % 0x8000_0000 > 0x7F80_0000 }

  predicate IsZero(bits: nat) { bits % 0x8000_0000 == 0 }

  /** IEEE 754 equality of two REALs. */
  predicate EqualReals(a: nat, b: nat) {
    !IsNaN(a) && !IsNaN(b) && (a == b || (IsZero(a) && IsZero(b)))
  }

  /** Diamond shows `reading`: the same octets, or the zero of the other sign. */
  predicate Shows(value: nat, reading: nat) {
    value == reading || (IsZero(value) && IsZero(reading))
  }

  function Updated(value: nat, reading: nat): (r: nat)
    ensures Shows(r, reading)
  {
    if EqualReals(value, reading) then value else reading
  }

  /** An I-Am as the stack hands it on: of whom, from which network and from which address. */
  datatype IAm = IAm(device: nat, sourceNetwork: nat, address: Bytes)

  /** The link the controller runs on. */
  datatype Link = Link(isIp: bool, ipv6: bool) {
    function AddressLength(): nat { if ipv6 then 16 else 4 }

    function ConnectionStringLength(): nat { AddressLength() + 2 }
  }

  predicate IsFromPeer(link: Link, iAm: IAm) {
    link.isIp && iAm.device == REMOTE_DEVICE_INSTANCE && iAm.sourceNetwork == 0 &&
    |iAm.address| == link.ConnectionStringLength()
  }

  function AfterIAm(link: Link, s: State, iAm: IAm, now: int): (t: State) {
    if !IsFromPeer(link, iAm) then s
    else
      var moved := if s.bound && s.address == iAm.address then s
                   else s.(address := iAm.address, multipleUnsupported := false);
      if s.bound then moved
      else moved.(bound := true, lastAnswer := now, lastPoll := now - REMOTE_POLL_INTERVAL_MILLISECONDS)
  }

  /** PollPeer reads the clock three times: for the silence, for the interval, and when it sends. */
  datatype Clock = Clock(silence: int, interval: int, send: int) {
    predicate Valid() { silence <= interval <= send }
  }

  predicate Lost(s: State, clock: Clock) {
    MillisecondsSince(clock.silence, s.lastAnswer) > REMOTE_COMMS_LOSS_MILLISECONDS
  }

  function PollInterval(s: State, clock: Clock): nat {
    if Lost(s, clock) then REMOTE_LOST_POLL_INTERVAL_MILLISECONDS else REMOTE_POLL_INTERVAL_MILLISECONDS
  }

  /** The reads take turns, unless the peer has no ReadPropertyMultiple. */
  function NextService(s: State): (service: Service) {
    if s.pollCount % 2 == 1 && !s.multipleUnsupported then ReadPropertyMultiple else ReadProperty
  }

  /** The read PollPeer tries to send, if it is time for one. */
  function Attempt(s: State, clock: Clock): (service: Option<Service>) {
    if !s.bound || MillisecondsSince(clock.interval, s.lastPoll) < PollInterval(s, clock) then None
    else Some(NextService(s))
  }

  /** `sent` is the invoke id the stack gave the read, or None when it could not send it. */
  function AfterAttempt(s: State, now: int, sent: Option<Byte>): (t: State) {
    var counted := s.(lastPoll := now, pollCount := (s.pollCount + 1) % CLOCK_WRAP);
    if sent.None? then counted
    else if NextService(s) == ReadPropertyMultiple
    then counted.(multipleInvokeId := sent.value, multiplePending := true)
    else counted.(readPropertyInvokeId := sent.value, readPropertyPending := true)
  }

  function AfterPoll(s: State, clock: Clock, sent: Option<Byte>): (t: State) {
    if !s.bound then s
    else
      var watched := if Lost(s, clock) then s.(reliability := COMMUNICATION_FAILURE) else s;
      if Attempt(s, clock).None? then watched else AfterAttempt(watched, clock.send, sent)
  }

  /** A datagram: its octets, the sender's address and UDP port. */
  datatype Datagram = Datagram(message: Bytes, fromAddress: Bytes, fromPort: nat)

  /** The APDU of a datagram, if it comes from the bound peer. */
  function PeerApdu(link: Link, s: State, d: Datagram): (apdu: Option<Bytes>)
    ensures apdu.Some? ==> |apdu.value| >= 3
  {
    if !s.bound || |s.address| != link.ConnectionStringLength() ||
       d.fromAddress != s.address[..link.AddressLength()] || d.fromPort != BigEndian(s.address[link.AddressLength()..])
    then None
    else ReplyApdu(d.message, link.ipv6)
  }

  predicate AnswersReadProperty(s: State, apdu: Bytes)
    requires |apdu| >= 3
  {
    s.readPropertyPending && apdu[1] == s.readPropertyInvokeId
  }

  predicate AnswersMultiple(s: State, apdu: Bytes)
    requires |apdu| >= 3
  {
    s.multiplePending && apdu[1] == s.multipleInvokeId
  }

  predicate Matches(s: State, apdu: Bytes)
    requires |apdu| >= 3
  {
    AnswersReadProperty(s, apdu) || AnswersMultiple(s, apdu)
  }

  function PduType(apdu: Bytes): nat
    requires |apdu| >= 3
  {
    apdu[0] as int / 16
  }

  predicate IsUnrecognizedService(apdu: Bytes)
    requires |apdu| >= 3
  {
    PduType(apdu) == PDU_TYPE_REJECT && apdu[2] == REJECT_REASON_UNRECOGNIZED_SERVICE
  }

  predicate CarriesValue(apdu: Bytes)
    requires |apdu| >= 3
  {
    PduType(apdu) == PDU_TYPE_COMPLEX_ACK && !Bit(apdu[0], 8)
  }

  function AfterReadPropertyAck(s: State, reading: Option<nat>): (t: State) {
    if reading.None? || s.sensorFaultReported then s
    else s.(value := Updated(s.value, reading.value), reliability := NO_FAULT_DETECTED)
  }

  function AfterMultipleAck(s: State, f: Findings): (t: State) {
    if f.humidity.None? || f.fault.None? then s
    else if f.fault.value then s.(sensorFaultReported := true, reliability := UNRELIABLE_OTHER)
    else s.(sensorFaultReported := false, value := Updated(s.value, f.humidity.value), reliability := NO_FAULT_DETECTED)
  }

  /** The answer is counted before anything is made of it: it proves the peer is reachable. */
  function Counted(s: State, apdu: Bytes, now: int): (t: State)
    requires |apdu| >= 3
  {
    if AnswersReadProperty(s, apdu) then s.(readPropertyPending := false, lastAnswer := now)
    else s.(multiplePending := false, lastAnswer := now)
  }

  function AfterApdu(s: State, apdu: Bytes, now: int): (t: State)
    requires |apdu| >= 3
  {
    if !Matches(s, apdu) then s
    else
      var t := Counted(s, apdu, now);
      if AnswersMultiple(s, apdu) && IsUnrecognizedService(apdu) then
        t.(multipleUnsupported := true, sensorFaultReported := false)
      else if !CarriesValue(apdu) then t.(reliability := UNRELIABLE_OTHER)
      else if AnswersReadProperty(s, apdu) && apdu[2] == PropertyCodec.SERVICE_READ_PROPERTY then
        AfterReadPropertyAck(t, ReadingInAck(apdu[3..], 0))
      else if AnswersMultiple(s, apdu) && apdu[2] == PropertyCodec.SERVICE_READ_PROPERTY_MULTIPLE then
        AfterMultipleAck(t, Scan(apdu[3..], NOTHING_FOUND))
      else t
  }

  function AfterDatagram(link: Link, s: State, d: Datagram, now: int): (t: State) {
    var apdu := PeerApdu(link, s, d);
    if apdu.None? then s else AfterApdu(s, apdu.value, now)
  }

  /** ReinitializeDevice COLDSTART: Diamond's value goes back to power-on; its Reliability and the peer stay. */
  function AfterColdStart(s: State): (t: State) {
    s.(value := POWER_ON_VALUE)
  }

  // ---------------------------------------------------------------------------
  // The controller
  // ---------------------------------------------------------------------------

  class Controller {
    const link: Link
    var bound: bool
    var address: Bytes
    var readPropertyPending: bool
    var readPropertyInvokeId: Byte
    var multiplePending: bool
    var multipleInvokeId: Byte
    var pollCount: nat
    var multipleUnsupported: bool
    var sensorFaultReported: bool
    var lastPoll: int
    var lastAnswer: int
    var reliability: nat
    var value: nat

    constructor (link: Link)
      ensures this.link == link && Memory() == POWER_ON
    {
      this.link := link;
      bound, address, readPropertyPending, readPropertyInvokeId := false, [], false, 0;
      multiplePending, multipleInvokeId, pollCount, multipleUnsupported := false, 0, 0, false;
      sensorFaultReported, lastPoll, lastAnswer := false, 0, 0;
      reliability, value := COMMUNICATION_FAILURE, POWER_ON_VALUE;
    }

    function Memory(): (s: State)
      reads this
    {
      State(bound, address, readPropertyPending, readPropertyInvokeId, multiplePending, multipleInvokeId,
            pollCount, multipleUnsupported, sensorFaultReported, lastPoll, lastAnswer, reliability, value)
    }

    method SetDiamondReliability(newReliability: nat)
      modifies this`reliability
      ensures reliability == newReliability
    {
      if reliability == newReliability {
        return;
      }
      reliability := newReliability;
    }

    method UpdateDiamondFromPeer(humidity: nat)
      modifies this`value
      ensures value == if EqualReals(old(value), humidity) then old(value) else humidity
      ensures value == if old(value) % 0x8000_0000 == 0 && humidity % 0x8000_0000 == 0 then old(value) else humidity
    {
      if !EqualReals(value, humidity) {
        value := humidity;
      }
    }

    method HookIAm(iAm: IAm, now: int)
      modifies this
      ensures Memory() == AfterIAm(link, old(Memory()), iAm, now)
    {
      if !link.isIp || iAm.device != REMOTE_DEVICE_INSTANCE || iAm.sourceNetwork != 0 ||
         |iAm.address| != link.ConnectionStringLength() {
        return;
      }
      if !bound || address != iAm.address {
        address := iAm.address;
        multipleUnsupported := false;
      }
      if !bound {
        bound := true;
        lastAnswer := now;
        lastPoll := lastAnswer - REMOTE_POLL_INTERVAL_MILLISECONDS;
      }
    }

    method PollPeer(clock: Clock, sent: Option<Byte>) returns (attempt: Option<Service>)
      modifies this
      ensures Memory() == AfterPoll(old(Memory()), clock, sent)
      ensures attempt == Attempt(old(Memory()), clock)
    {
      hide MillisecondsSince, AfterAttempt;
      if !bound {
        return None;
      }
      var lost := MillisecondsSince(clock.silence, lastAnswer) > REMOTE_COMMS_LOSS_MILLISECONDS;
      if lost && reliability != COMMUNICATION_FAILURE {
        SetDiamondReliability(COMMUNICATION_FAILURE);
      }
      var interval := if lost then REMOTE_LOST_POLL_INTERVAL_MILLISECONDS else REMOTE_POLL_INTERVAL_MILLISECONDS;
      if MillisecondsSince(clock.interval, lastPoll) < interval {
        return None;
      }
      var service := SendRead(clock.send, sent);
      return Some(service);
    }

    /** The second half of PollPeer: one read. */
    method SendRead(now: int, sent: Option<Byte>) returns (service: Service)
      modifies this
      ensures Memory() == AfterAttempt(old(Memory()), now, sent)
      ensures service == NextService(old(Memory()))
    {
      lastPoll := now;
      var useReadPropertyMultiple := pollCount % 2 == 1 && !multipleUnsupported;
      pollCount := (pollCount + 1) % CLOCK_WRAP;
      service := if useReadPropertyMultiple then ReadPropertyMultiple else ReadProperty;
      if sent.None? {
        return;
      }
      if useReadPropertyMultiple {
        multipleInvokeId := sent.value;
        multiplePending := true;
      } else {
        readPropertyInvokeId := sent.value;
        readPropertyPending := true;
      }
    }

    /** Scans the tags for the opening tag [3] of the value. */
    method HandleReadPropertyAck(apdu: Bytes)
      requires |apdu| >= 3
      modifies this
      ensures Memory() == AfterReadPropertyAck(old(Memory()), ReadingInAck(apdu[3..], 0))
    {
      hide HeadTag;
      var position, propertyIdentifier := 3, 0;
      var tag := ReadTag(apdu, position);
      while tag.Some?
        invariant 3 <= position <= |apdu| && tag == HeadTag(apdu[position..])
        invariant ReadingInAck(apdu[3..], 0) == ReadingInAck(apdu[position..], propertyIdentifier)
        invariant Memory() == old(Memory())
        decreases |apdu| - position
      {
        var t, s := tag.value, apdu[position..];
        var next := position + t.Size();
        assert s[t.Size()..] == apdu[next..];
        if t.isContext && t.kind == Value && t.number == 1 {
          propertyIdentifier := ContentUnsigned(s, t);
        }
        if t.isContext && t.kind == Opening && t.number == 3 {
          if propertyIdentifier == PRESENT_VALUE {
            var valueTag := ReadTag(apdu, next);
            if valueTag.Some? {
              var humidity := ContentReal(apdu[next..], valueTag.value);
              if humidity.Some? && !sensorFaultReported {
                UpdateDiamondFromPeer(humidity.value);
                SetDiamondReliability(NO_FAULT_DETECTED);
              }
            }
          }
          return;
        }
        position := next;
        tag := ReadTag(apdu, position);
      }
    }

    method HandleReadPropertyMultipleAck(apdu: Bytes)
      requires |apdu| >= 3
      modifies this
      ensures Memory() == AfterMultipleAck(old(Memory()), Scan(apdu[3..], NOTHING_FOUND))
    {
      hide HeadTag;
      var position, f := 3, NOTHING_FOUND;
      var tag := ReadTag(apdu, position);
      while tag.Some?
        invariant 3 <= position <= |apdu| && tag == HeadTag(apdu[position..])
        invariant Scan(apdu[3..], NOTHING_FOUND) == Scan(apdu[position..], f)
        invariant Memory() == old(Memory())
        decreases |apdu| - position
      {
        var t, s := tag.value, apdu[position..];
        var next := position + t.Size();
        assert s[t.Size()..] == apdu[next..];
        if t.isContext && t.kind == Value && t.number == 2 {
          f := f.(property := ContentUnsigned(s, t));
        } else if t.isContext && t.kind == Opening && t.number == 4 {
          var valueTag := ReadTag(apdu, next);
          if valueTag.Some? {
            if f.property == PRESENT_VALUE {
              f := f.(humidity := ContentReal(apdu[next..], valueTag.value));
            } else if f.property == STATUS_FLAGS {
              f := f.(fault := ContentStatusFlagsFault(apdu[next..], valueTag.value));
            }
          }
        }
        position := next;
        tag := ReadTag(apdu, position);
      }
      if f.humidity.None? || f.fault.None? {
        return;
      }
      if f.fault.value != sensorFaultReported {
        sensorFaultReported := f.fault.value;
      }
      if f.fault.value {
        SetDiamondReliability(UNRELIABLE_OTHER);
        return;
      }
      UpdateDiamondFromPeer(f.humidity.value);
      SetDiamondReliability(NO_FAULT_DETECTED);
    }

    method HandleReplyFromPeer(d: Datagram, now: int)
      modifies this
      ensures Memory() == AfterDatagram(link, old(Memory()), d, now)
    {
      hide ReplyApdu, AfterApdu, BigEndian;
      if !bound || |address| != link.ConnectionStringLength() || d.fromAddress != address[..link.AddressLength()] ||
         d.fromPort != BigEndian(address[link.AddressLength()..]) {
        return;
      }
      var found := FindReplyApdu(d.message, link.ipv6);
      if found.None? {
        return;
      }
      HandleApdu(found.value, now);
    }

    /** The second half of HandleReplyFromPeer: the peer's APDU. */
    method HandleApdu(apdu: Bytes, now: int)
      requires |apdu| >= 3
      modifies this
      ensures Memory() == AfterApdu(old(Memory()), apdu, now)
    {
      hide ReadingInAck, Scan, Bit, AfterReadPropertyAck, AfterMultipleAck;
      var invokeId := apdu[1];
      var isReadProperty := readPropertyPending && invokeId == readPropertyInvokeId;
      var isReadPropertyMultiple := multiplePending && invokeId == multipleInvokeId;
      if !isReadProperty && !isReadPropertyMultiple {
        return;
      }
      if isReadProperty {
        readPropertyPending := false;
      } else {
        multiplePending := false;
      }
      lastAnswer := now;
      if isReadPropertyMultiple && PduType(apdu) == PDU_TYPE_REJECT && apdu[2] == REJECT_REASON_UNRECOGNIZED_SERVICE {
        multipleUnsupported := true;
        sensorFaultReported := false;
        return;
      }
      if PduType(apdu) != PDU_TYPE_COMPLEX_ACK || Bit(apdu[0], 8) {
        SetDiamondReliability(UNRELIABLE_OTHER);
        return;
      }
      if isReadProperty && apdu[2] == PropertyCodec.SERVICE_READ_PROPERTY {
        HandleReadPropertyAck(apdu);
      } else if isReadPropertyMultiple && apdu[2] == PropertyCodec.SERVICE_READ_PROPERTY_MULTIPLE {
        HandleReadPropertyMultipleAck(apdu);
      }
    }

    method ColdStart()
      modifies this`value
      ensures Memory() == AfterColdStart(old(Memory()))
    {
      value := POWER_ON_VALUE;
    }
  }
}
