/** BACnet/IP frames: BVLC header (Annex J.2) and NPDU (clause 6.2). The Python codec builds and decodes
    them; the C++ code walks the same octets in three more places, each in its own way. */
module Frames {
  import opened Octets

  const BVLC_TYPE: Byte := 0x81
  const BVLC_FORWARDED_NPDU: Byte := 0x04
  const BVLC_DISTRIBUTE_BROADCAST: Byte := 0x09
  const BVLC_ORIGINAL_UNICAST: Byte := 0x0A
  const BVLC_ORIGINAL_BROADCAST: Byte := 0x0B

  predicate Bit(octet: Byte, weight: nat)
    requires weight > 0
  {
    octet as int / weight % 2 == 1
  }

  /** A network number and the MAC address on it; an empty MAC is a broadcast there. */
  datatype Address = Address(network: nat, mac: Bytes) {
    predicate Valid() { network < 0x1_0000 && |mac| < 0x100 }

    function Octets(): (s: Bytes)
      requires Valid()
    {
      Big16(network) + [|mac|] + mac
    }
  }

  datatype Npdu = Npdu(networkMessage: Option<Byte>, destination: Option<Address>, source: Option<Address>,
                       expectingReply: bool, hopCount: Byte, payload: Bytes)
  {
    predicate Valid() {
      (destination.Some? ==> destination.value.Valid()) && (source.Some? ==> source.value.Valid())
    }
  }

  // ---------------------------------------------------------------------------
  // wiretest/codec.py: npdu, bvll, bvlc, forwarded_npdu
  // ---------------------------------------------------------------------------

  function Control(n: Npdu): (control: Byte) {
    (if n.networkMessage.Some? then 0x80 else 0) + (if n.destination.Some? then 0x20 else 0) +
    (if n.source.Some? then 0x08 else 0) + (if n.expectingReply then 0x04 else 0)
  }

  function Specifier(a: Option<Address>): (s: Bytes)
    requires a.Some? ==> a.value.Valid()
  {
    if a.Some? then a.value.Octets() else []
  }

  function HopCount(n: Npdu): (s: Bytes) {
    if n.destination.Some? then [n.hopCount] else []
  }

  function MessageType(n: Npdu): (s: Bytes) {
    if n.networkMessage.Some? then [n.networkMessage.value] else []
  }

  function NpduOctets(n: Npdu): (s: Bytes)
    requires n.Valid()
  {
    [0x01, Control(n)] + (Specifier(n.destination) +
        (Specifier(n.source) + (HopCount(n) + (MessageType(n) + n.payload))))
  }

  /** What comes before the network message type or the payload. */
  function HeaderSize(n: Npdu): (size: nat)
    requires n.Valid()
  {
    2 + |Specifier(n.destination)| + |Specifier(n.source)| + |HopCount(n)|
  }

  function Bvll(function_: Byte, body: Bytes): (s: Bytes)
    requires 4 + |body| < 0x1_0000
  {
    [BVLC_TYPE, function_] + Big16(4 + |body|) + body
  }

  function Bvlc(npdu: Bytes, broadcast: bool): (s: Bytes)
    requires 4 + |npdu| < 0x1_0000
  {
    Bvll(if broadcast then BVLC_ORIGINAL_BROADCAST else BVLC_ORIGINAL_UNICAST, npdu)
  }

  function ForwardedNpdu(originatingMac: Bytes, npdu: Bytes): (s: Bytes)
    requires |originatingMac| == 6 && 10 + |npdu| < 0x1_0000
  {
    Bvll(BVLC_FORWARDED_NPDU, originatingMac + npdu)
  }

  // ---------------------------------------------------------------------------
  // What the octets of an NPDU header say
  // ---------------------------------------------------------------------------

  /** Addressing, and where the network message type or the APDU starts. */
  datatype Header = Header(control: Byte, destination: Option<Address>, source: Option<Address>, size: nat)

  /** The address at the head of `s`, if it is all there. */
  function AddressAt(s: Bytes): (r: Option<Address>)
    ensures r.Some? ==> r.value.Valid() && 3 + |r.value.mac| <= |s|
  {
    if |s| < 3 || |s| < 3 + s[2] as int then None
    else
      assert |s[..2]| == 2;
      BigEndian2(s[..2]);
      Some(Address(BigEndian(s[..2]), s[3..3 + s[2] as int]))
  }

  /** The address specifier a control bit announces: the address, and the octets it takes. */
  function SpecifierAt(s: Bytes, present: bool): (r: Option<(Option<Address>, nat)>)
    ensures r.Some? ==> r.value.1 <= |s|
  {
    if !present then Some((None, 0))
    else
      var a := AddressAt(s);
      if a.None? then None else Some((a, 3 + |a.value.mac|))
  }

  /** The whole header, if all of it is there. */
  function ParseHeader(octets: Bytes): (r: Option<Header>)
    ensures r.Some? ==> 2 <= r.value.size <= |octets|
  {
    if |octets| < 2 then None
    else
      var control := octets[1];
      var destination := SpecifierAt(octets[2..], Bit(control, 0x20));
      if destination.None? then None
      else
        var afterDestination := 2 + destination.value.1;
        var source := SpecifierAt(octets[afterDestination..], Bit(control, 0x08));
        if source.None? then None
        else
          var size := afterDestination + source.value.1 + if Bit(control, 0x20) then 1 else 0;
          if size > |octets| then None else Some(Header(control, destination.value.0, source.value.0, size))
  }

  lemma ControlBits(n: Npdu)
    ensures Bit(Control(n), 0x80) == n.networkMessage.Some?
    ensures Bit(Control(n), 0x20) == n.destination.Some?
    ensures Bit(Control(n), 0x08) == n.source.Some?
    ensures Bit(Control(n), 0x04) == n.expectingReply
  {
  }

  lemma ControlOf(n: Npdu)
    requires n.Valid()
    ensures |NpduOctets(n)| >= 2 && NpduOctets(n)[0] == 0x01 && NpduOctets(n)[1] == Control(n)
    ensures Bit(Control(n), 0x80) == n.networkMessage.Some? && Bit(Control(n), 0x04) == n.expectingReply
  {
    ControlBits(n);
  }

  lemma SpecifierRoundTrip(a: Option<Address>, rest: Bytes)
    requires a.Some? ==> a.value.Valid()
    ensures SpecifierAt(Specifier(a) + rest, a.Some?) == Some((a, |Specifier(a)|))
  {
    if a.Some? {
      var s := Specifier(a) + rest;
      assert s[..2] == Big16(a.value.network) && s[2] == |a.value.mac|;
      assert s[3..3 + |a.value.mac|] == a.value.mac;
    }
  }

  /** Every NPDU's addressing is read back, and what follows the header is the message type and payload. */
  lemma HeaderRoundTrip(n: Npdu)
    requires n.Valid()
    ensures ParseHeader(NpduOctets(n)) == Some(Header(Control(n), n.destination, n.source, HeaderSize(n)))
    ensures NpduOctets(n)[HeaderSize(n)..] == MessageType(n) + n.payload
  {
    hide SpecifierAt, Specifier, Bit, Control;
    var tail := MessageType(n) + n.payload;
    var afterSource := HopCount(n) + tail;
    var afterDestination := Specifier(n.source) + afterSource;
    var octets := NpduOctets(n);
    ControlBits(n);
    assert octets[2..] == Specifier(n.destination) + afterDestination;
    SpecifierRoundTrip(n.destination, afterDestination);
    assert octets[2 + |Specifier(n.destination)|..] == afterDestination;
    SpecifierRoundTrip(n.source, afterSource);
    assert octets[2 + |Specifier(n.destination)| + |Specifier(n.source)|..] == afterSource;
    AfterHeader(n);
  }

  lemma AfterHeader(n: Npdu)
    requires n.Valid()
    ensures NpduOctets(n)[HeaderSize(n)..] == MessageType(n) + n.payload && HeaderSize(n) <= |NpduOctets(n)|
  {
    hide Specifier, Control, HopCount, MessageType;
    var tail := MessageType(n) + n.payload;
    var front := NpduOctets(n)[..HeaderSize(n)];
    assert NpduOctets(n) == front + tail;
  }

  // ---------------------------------------------------------------------------
  // wiretest/codec.py: Frame
  // ---------------------------------------------------------------------------

  predicate CarriesNpdu(function_: Byte) {
    function_ in {BVLC_FORWARDED_NPDU, BVLC_DISTRIBUTE_BROADCAST, BVLC_ORIGINAL_UNICAST, BVLC_ORIGINAL_BROADCAST}
  }

  /** The NPDU's octets in a datagram that carries one. */
  function NpduIn(data: Bytes): (octets: Bytes)
    requires |data| >= 4
  {
    Drop(data, if data[1] == BVLC_FORWARDED_NPDU then 10 else 4)
  }

  datatype Decoded = NotAFrame | Raised | Ok

  /** One received datagram; the fields keep their defaults until `Decode` gets that far. */
  class Frame {
    var bvlcFunction: Option<Byte>
    var bvllData: Bytes
    var originatingMac: Bytes
    var hasNpdu: bool
    var destination: Option<Address>
    var source: Option<Address>
    var expectingReply: bool
    var networkMessage: Option<Byte>
    var payload: Bytes

    var result: Decoded

    constructor (data: Bytes)
      ensures Describes(data)
    {
      bvlcFunction, bvllData, originatingMac, hasNpdu := None, [], [], false;
      destination, source, expectingReply, networkMessage, payload := None, None, false, None, [];
      result := NotAFrame;
      new;
      Decode(data);
    }

    /** What the fields hold once an NPDU has been read, whole or cut short: Python's slices shrink instead of
        failing, so only the three fixed octets of an address, and the octet of a message type, raise. */
    ghost predicate HoldsNpdu(octets: Bytes, raised: bool)
      requires |octets| >= 2
      reads this`destination, this`source, this`networkMessage, this`payload
    {
      var hasDestination, offset := Bit(octets[1], 0x20), LooseOffset(octets);
      var afterDestination := SkipSpecifier(octets, 2, hasDestination);
      && destination == (if hasDestination then UnpackedAddress(octets, 2) else None)
      && source == (if Bit(octets[1], 0x08) && afterDestination.Some?
                    then UnpackedAddress(octets, afterDestination.value) else None)
      && (raised <==> offset.None? || (Bit(octets[1], 0x80) && offset.value >= |octets|))
      && (raised ==> networkMessage == None && payload == [])
      && (!raised ==>
            && networkMessage == (if Bit(octets[1], 0x80) then Some(octets[offset.value]) else None)
            && payload == Drop(octets, offset.value + MessageOctets(networkMessage)))
    }

    /** With a whole header, that is exactly what the header says. */
    lemma WholeHeader(octets: Bytes, raised: bool)
      requires |octets| >= 2 && HoldsNpdu(octets, raised) && ParseHeader(octets).Some?
      ensures var header := ParseHeader(octets).value;
        && destination == header.destination && source == header.source
        && (raised <==> Bit(octets[1], 0x80) && header.size == |octets|)
        && (!raised ==>
              && networkMessage == (if Bit(octets[1], 0x80) then Some(octets[header.size]) else None)
              && payload == Drop(octets, header.size + MessageOctets(networkMessage)))
    {
      hide Bit, BigEndian, Drop, MessageOctets;
      LooseOffsetExact(octets);
      UnpackedWhole(octets, 2, Bit(octets[1], 0x20));
      var afterDestination := SkipSpecifier(octets, 2, Bit(octets[1], 0x20)).value;
      UnpackedWhole(octets, afterDestination, Bit(octets[1], 0x08));
    }

    /** The part of `_decode` after the BVLC header; `position` moves over the NPDU. */
    method DecodeNpdu(octets: Bytes) returns (raised: bool)
      requires |octets| >= 2
      requires destination == source == None && networkMessage == None && payload == []
      modifies this`destination, this`source, this`expectingReply, this`networkMessage, this`payload
      ensures expectingReply == Bit(octets[1], 0x04)
      ensures HoldsNpdu(octets, raised)
    {
      hide Bit, AddressAt, BigEndian, Drop;
      var control := octets[1];
      expectingReply := Bit(control, 0x04);
      var position := 2;
      if Bit(control, 0x20) {
        var address := UnpackAddress(octets, position);
        if address.None? {
          return true;
        }
        destination, position := Some(address.value.0), address.value.1;
      }
      if Bit(control, 0x08) {
        var address := UnpackAddress(octets, position);
        if address.None? {
          return true;
        }
        source, position := Some(address.value.0), address.value.1;
      }
      if Bit(control, 0x20) {
        position := position + 1;
      }
      if Bit(control, 0x80) {
        if position >= |octets| {
          return true;
        }
        networkMessage := Some(octets[position]);
        position := position + MessageOctets(networkMessage);
      }
      payload := Drop(octets, position);
      return false;
    }

    ghost predicate Describes(data: Bytes)
      reads this
    {
      && (result == NotAFrame <==>
            || |data| < 4 || data[0] != BVLC_TYPE
            || (CarriesNpdu(data[1]) && (|NpduIn(data)| < 2 || NpduIn(data)[0] != 0x01)))
      && (result == Raised ==> hasNpdu)
      && (result != NotAFrame ==>
            && bvlcFunction == Some(data[1]) && bvllData == data[4..] && hasNpdu == CarriesNpdu(data[1])
            && (data[1] == BVLC_FORWARDED_NPDU ==> originatingMac == Slice(data, 4, 6))
            && (hasNpdu ==> expectingReply == Bit(NpduIn(data)[1], 0x04) && HoldsNpdu(NpduIn(data), result == Raised)))
    }

    /** Every field of an encoded NPDU; its payload unless two octets of it are taken for a vendor identifier. */
    predicate HasFieldsOf(n: Npdu)
      reads this
    {
      && destination == n.destination && source == n.source
      && expectingReply == n.expectingReply && networkMessage == n.networkMessage
      && (payload == n.payload <==> n.networkMessage.None? || n.networkMessage.value < 0x80 || n.payload == [])
    }

    lemma RecoversFields(data: Bytes, n: Npdu)
      requires n.Valid() && |data| >= 4 && data[0] == BVLC_TYPE && CarriesNpdu(data[1]) && NpduIn(data) == NpduOctets(n)
      requires Describes(data)
      ensures result == Ok && hasNpdu && bvlcFunction == Some(data[1]) && HasFieldsOf(n)
      ensures data[1] == BVLC_FORWARDED_NPDU ==> originatingMac == Slice(data, 4, 6)
    {
      hide Bit, Control, ParseHeader, HeaderSize, Drop, MessageOctets, Slice, HoldsNpdu, NpduOctets;
      HeaderRoundTrip(n);
      ControlOf(n);
      PayloadAfterHeader(n);
      WholeHeader(NpduIn(data), result == Raised);
    }

    method Decode(data: Bytes)
      requires destination == source == None && networkMessage == None && payload == [] && !hasNpdu
      modifies this
      ensures Describes(data)
    {
      hide Slice, Bit, HoldsNpdu;
      result := NotAFrame;
      if |data| < 4 || data[0] != BVLC_TYPE {
        return;
      }
      bvlcFunction, bvllData := Some(data[1]), data[4..];
      if !CarriesNpdu(data[1]) {
        result := Ok;
        return;
      }
      var offset := 4;
      if data[1] == BVLC_FORWARDED_NPDU {
        originatingMac := Slice(data, 4, 6);
        offset := offset + 6;
      }
      var octets := Drop(data, offset);
      if |octets| < 2 || octets[0] != 0x01 {
        return;
      }
      hasNpdu := true;
      var raised := DecodeNpdu(octets);
      result := if raised then Raised else Ok;
    }
  }

  /** A network message type, and the vendor identifier after a proprietary one. */
  function MessageOctets(networkMessage: Option<Byte>): nat {
    if networkMessage.None? then 0 else if networkMessage.value >= 0x80 then 3 else 1
  }

  /** struct.unpack(">HB") at `position`, and the MAC after it, as much as there is of it. */
  function UnpackedAddress(octets: Bytes, position: nat): (r: Option<Address>) {
    if |octets| < position + 3 then None
    else
      var length := octets[position + 2] as int;
      Some(Address(BigEndian(octets[position..position + 2]), Slice(octets, position + 3, length)))
  }

  lemma UnpackedWhole(octets: Bytes, position: nat, present: bool)
    requires position <= |octets| && SpecifierAt(octets[position..], present).Some?
    ensures var (address, size) := SpecifierAt(octets[position..], present).value;
            && address == (if present then UnpackedAddress(octets, position) else None)
            && SkipSpecifier(octets, position, present) == Some(position + size)
  {
    if present {
      var length := octets[position + 2] as int;
      assert octets[position..][..2] == octets[position..position + 2];
      assert octets[position..][2] == octets[position + 2];
      assert octets[position..][3..3 + length] == octets[position + 3..position + 3 + length];
    }
  }

  method UnpackAddress(octets: Bytes, position: nat) returns (r: Option<(Address, nat)>)
    ensures r.None? <==> SkipSpecifier(octets, position, true).None?
    ensures r.Some? ==> Some(r.value.0) == UnpackedAddress(octets, position)
    ensures r.Some? ==> Some(r.value.1) == SkipSpecifier(octets, position, true)
  {
    if |octets| < position + 3 {
      return None;
    }
    var length := octets[position + 2] as int;
    return Some((Address(BigEndian(octets[position..position + 2]), Slice(octets, position + 3, length)),
                 position + 3 + length));
  }

  /** The message type and the payload, as `_decode` finds them after the header. */
  lemma PayloadAfterHeader(n: Npdu)
    requires n.Valid()
    ensures var octets, size := NpduOctets(n), HeaderSize(n);
            && (n.networkMessage.Some? ==> size < |octets| && octets[size] == n.networkMessage.value)
            && (Drop(octets, size + MessageOctets(n.networkMessage)) == n.payload <==>
                n.networkMessage.None? || n.networkMessage.value < 0x80 || n.payload == [])
  {
    hide NpduOctets, HeaderSize, ParseHeader;
    var octets, size, skipped := NpduOctets(n), HeaderSize(n), MessageOctets(n.networkMessage);
    HeaderRoundTrip(n);
    var rest := octets[size..];
    assert rest == MessageType(n) + n.payload;
    DropDrop(octets, size, skipped);
    assert Drop(octets, size + skipped) == Drop(rest, skipped);
    if n.networkMessage.Some? {
      assert octets[size] == rest[0];
      assert Drop(rest, 1) == n.payload;
    } else {
      assert rest == n.payload;
    }
  }

  /** Frame(bvll(function, npdu(...))) has every field it keeps of the NPDU, for the three functions that carry one
      right after the BVLC header; for the others but Forwarded-NPDU the octets stay BVLL data. The payload is one
      of the fields exactly when there is no vendor identifier to step over: for a proprietary network message
      (X'80' and up) the first two payload octets are taken for one. */
  method FrameRoundTrip(n: Npdu, function_: Byte) returns (f: Frame)
    requires n.Valid() && 4 + |NpduOctets(n)| < 0x1_0000 && function_ != BVLC_FORWARDED_NPDU
    ensures f.result == Ok && f.bvlcFunction == Some(function_) && f.bvllData == NpduOctets(n)
    ensures f.hasNpdu <==> function_ in {0x09, 0x0A, 0x0B}
    ensures f.hasNpdu ==> f.HasFieldsOf(n)
  {
    hide Frame.HasFieldsOf, NpduOctets, Drop, Frame.HoldsNpdu;
    var data := Bvll(function_, NpduOctets(n));
    f := new Frame(data);
    DropWithin(data, 4);
    assert data[4..] == NpduOctets(n);
    if CarriesNpdu(function_) {
      f.RecoversFields(data, n);
    }
  }

  /** Frame(forwarded_npdu(...)) has the originating address and the same fields of the NPDU. */
  method ForwardedRoundTrip(n: Npdu, originatingMac: Bytes) returns (f: Frame)
    requires n.Valid() && |originatingMac| == 6 && 10 + |NpduOctets(n)| < 0x1_0000
    ensures f.result == Ok && f.hasNpdu && f.originatingMac == originatingMac
    ensures f.bvlcFunction == Some(BVLC_FORWARDED_NPDU)
    ensures f.HasFieldsOf(n)
  {
    hide Frame.Describes, Frame.HasFieldsOf, NpduOctets, Drop;
    var data := ForwardedNpdu(originatingMac, NpduOctets(n));
    f := new Frame(data);
    DropWithin(data, 10);
    assert data[10..] == NpduOctets(n) && data[4..10] == originatingMac;
    f.RecoversFields(data, n);
  }

  // ---------------------------------------------------------------------------
  // common/CASExampleHelper.cpp: DecodeBacnetFrame, down to the PDU type
  // ---------------------------------------------------------------------------

  datatype DecodedFrame = DecodedFrame(
    bacnetIp: bool, bvlcFunction: Byte, hasNpdu: bool, npduVersion: Byte, npduControl: Byte,
    hasDest: bool, dnet: nat, dadr: Bytes, hasSrc: bool, snet: nat, sadr: Bytes,
    isNetworkMessage: bool, networkMessageType: Byte, hasApdu: bool, pduType: Byte)
  {
    function Destination(): Option<Address> { if hasDest then Some(Address(dnet, dadr)) else None }

    function Source(): Option<Address> { if hasSrc then Some(Address(snet, sadr)) else None }

    /** What a frame with a whole NPDU header decodes to. */
    predicate HoldsHeader(octets: Bytes, header: Header)
      requires header.size <= |octets|
    {
      && Destination() == header.destination && Source() == header.source
      && isNetworkMessage == Bit(header.control, 0x80)
      && hasApdu == (!isNetworkMessage && header.size < |octets|)
      && networkMessageType == (if isNetworkMessage && header.size < |octets| then octets[header.size] else 0)
      && (hasApdu ==> pduType as int == octets[header.size] as int / 16)
    }

    /** And of a header cut short: the flags always, of each address its network number once its three fixed
        octets are there and its MAC once it is whole, and nothing after the first that is not. */
    predicate HoldsCutShort(octets: Bytes)
      requires |octets| >= 2
    {
      var destination := SpecifierAt(octets[2..], hasDest);
      var source := if destination.Some? then octets[2 + destination.value.1..] else [];
      && hasDest == Bit(octets[1], 0x20) && hasSrc == Bit(octets[1], 0x08) && isNetworkMessage == Bit(octets[1], 0x80)
      && dnet == NetworkAt(octets[2..], hasDest) && dadr == MacAt(octets[2..], hasDest)
      && snet == NetworkAt(source, hasSrc) && sadr == MacAt(source, hasSrc)
      && !hasApdu && networkMessageType == 0 && pduType == 0xFF
    }
  }

  function NetworkAt(s: Bytes, present: bool): (network: nat) {
    if present && |s| >= 3 then BigEndian(s[..2]) else 0
  }

  function MacAt(s: Bytes, present: bool): (mac: Bytes) {
    if present && AddressAt(s).Some? then AddressAt(s).value.mac else []
  }

  const NOTHING_DECODED := DecodedFrame(false, 0, false, 0, 0, false, 0, [], false, 0, [], false, 0, false, 0xFF)

  /** One address specifier, as the helper reads it: the network number, the MAC, and the offset after it if it
      is whole. */
  method ReadSpecifier(frame: Bytes, offset: nat) returns (network: nat, mac: Bytes, next: Option<nat>)
    requires offset <= |frame|
    ensures network == NetworkAt(frame[offset..], true) && mac == MacAt(frame[offset..], true)
    ensures next.Some? <==> AddressAt(frame[offset..]).Some?
    ensures next.Some? ==> AddressAt(frame[offset..]).value == Address(network, mac)
    ensures next.Some? ==> next.value == offset + 3 + |mac| <= |frame|
  {
    if offset + 3 > |frame| {
      return 0, [], None;
    }
    network := frame[offset] as int * 0x100 + frame[offset + 1] as int;
    BigEndian2(frame[offset..][..2]);
    var length := frame[offset + 2] as int;
    if offset + 3 + length > |frame| {
      return network, [], None;
    }
    assert frame[offset..][3..3 + length] == frame[offset + 3..offset + 3 + length];
    return network, frame[offset + 3..offset + 3 + length], Some(offset + 3 + length);
  }

  method DecodeBacnetFrame(frame: Bytes) returns (out: DecodedFrame)
    ensures out.bacnetIp <==> |frame| >= 4 && frame[0] == BVLC_TYPE
    ensures out.bacnetIp ==> out.bvlcFunction == frame[1]
    ensures out.hasNpdu <==>
            && out.bacnetIp && frame[1] in {BVLC_FORWARDED_NPDU, BVLC_ORIGINAL_UNICAST, BVLC_ORIGINAL_BROADCAST}
            && |NpduIn(frame)| >= 2
    ensures out.hasNpdu ==>
            var octets := NpduIn(frame);
            && out.npduVersion == octets[0] && out.npduControl == octets[1]
            && (ParseHeader(octets).Some? ==> out.HoldsHeader(octets, ParseHeader(octets).value))
            && (ParseHeader(octets).None? ==> out.HoldsCutShort(octets))
    ensures !out.hasNpdu ==> out == NOTHING_DECODED.(bacnetIp := out.bacnetIp, bvlcFunction := out.bvlcFunction)
  {
    hide AddressAt, BigEndian, Bit;
    out := NOTHING_DECODED;
    if |frame| < 4 || frame[0] != BVLC_TYPE {
      return;
    }
    out := out.(bacnetIp := true, bvlcFunction := frame[1]);
    var offset;
    if frame[1] == BVLC_ORIGINAL_UNICAST || frame[1] == BVLC_ORIGINAL_BROADCAST {
      offset := 4;
    } else if frame[1] == BVLC_FORWARDED_NPDU {
      offset := 10;
    } else {
      return;
    }
    if offset + 2 > |frame| {
      return;
    }
    out := DecodeNpduHeader(frame[offset..], out);
  }

  /** The NPDU part of DecodeBacnetFrame, `octets` being the frame from the NPDU on. */
  method DecodeNpduHeader(octets: Bytes, decoded: DecodedFrame) returns (out: DecodedFrame)
    requires |octets| >= 2
    requires decoded == NOTHING_DECODED.(bacnetIp := decoded.bacnetIp, bvlcFunction := decoded.bvlcFunction)
    ensures out.bacnetIp == decoded.bacnetIp && out.bvlcFunction == decoded.bvlcFunction && out.hasNpdu
    ensures out.npduVersion == octets[0] && out.npduControl == octets[1]
    ensures ParseHeader(octets).Some? ==> out.HoldsHeader(octets, ParseHeader(octets).value)
    ensures ParseHeader(octets).None? ==> out.HoldsCutShort(octets)
  {
    hide AddressAt, BigEndian, Bit, NetworkAt, MacAt;
    NothingAbsent();
    var control := octets[1];
    out := decoded.(hasNpdu := true, npduVersion := octets[0], npduControl := control, hasDest := Bit(control, 0x20),
                    hasSrc := Bit(control, 0x08), isNetworkMessage := Bit(control, 0x80));
    var offset := 2;
    if out.hasDest {
      var network, mac, next := ReadSpecifier(octets, offset);
      out := out.(dnet := network, dadr := mac);
      if next.None? {
        return;
      }
      offset := next.value;
    }
    if out.hasSrc {
      var network, mac, next := ReadSpecifier(octets, offset);
      out := out.(snet := network, sadr := mac);
      if next.None? {
        return;
      }
      offset := next.value;
    }
    if out.hasDest {
      if offset >= |octets| {
        return;
      }
      offset := offset + 1;
    }
    if offset >= |octets| {
      return;
    }
    if out.isNetworkMessage {
      out := out.(networkMessageType := octets[offset]);
      return;
    }
    out := out.(hasApdu := true, pduType := octets[offset] as int / 16);
  }

  lemma NothingAbsent()
    ensures forall s: Bytes :: NetworkAt(s, false) == 0 && MacAt(s, false) == []
    ensures NetworkAt([], true) == 0 && MacAt([], true) == []
  {
  }

  /** DecodeBacnetFrame recovers the same addressing and the first octet after the header. */
  method HelperRoundTrip(n: Npdu, broadcast: bool) returns (out: DecodedFrame)
    requires n.Valid() && 4 + |NpduOctets(n)| < 0x1_0000
    ensures out.hasNpdu && out.Destination() == n.destination && out.Source() == n.source
    ensures out.isNetworkMessage == n.networkMessage.Some?
    ensures n.networkMessage.Some? ==> out.networkMessageType == n.networkMessage.value && !out.hasApdu
    ensures n.networkMessage.None? ==> out.hasApdu == (n.payload != [])
    ensures out.hasApdu ==> out.pduType as int == n.payload[0] as int / 16
  {
    var data := Bvlc(NpduOctets(n), broadcast);
    HeaderRoundTrip(n);
    ControlBits(n);
    assert NpduIn(data) == NpduOctets(n);
    ghost var rest := NpduOctets(n)[HeaderSize(n)..];
    assert rest == MessageType(n) + n.payload;
    assert rest != [] ==> rest[0] == NpduOctets(n)[HeaderSize(n)];
    out := DecodeBacnetFrame(data);
  }

  // ---------------------------------------------------------------------------
  // The walk main.cpp uses twice: over the header without checking that the addresses fit
  // ---------------------------------------------------------------------------

  /** How far a specifier at `position` moves the walk; None when its three fixed octets are not there. */
  function SkipSpecifier(octets: Bytes, position: nat, present: bool): (r: Option<nat>) {
    if !present then Some(position)
    else if |octets| < position + 3 then None
    else Some(position + 3 + octets[position + 2] as int)
  }

  /** Where the walk arrives; it may be past the end. */
  function LooseOffset(octets: Bytes): (r: Option<nat>) {
    if |octets| < 2 then None
    else
      var afterDestination := SkipSpecifier(octets, 2, Bit(octets[1], 0x20));
      if afterDestination.None? then None
      else
        var afterSource := SkipSpecifier(octets, afterDestination.value, Bit(octets[1], 0x08));
        if afterSource.None? then None
        else Some(afterSource.value + if Bit(octets[1], 0x20) then 1 else 0)
  }

  lemma SkipSpecifierExact(octets: Bytes, position: nat, present: bool)
    requires position <= |octets|
    ensures var exact, loose := SpecifierAt(octets[position..], present), SkipSpecifier(octets, position, present);
            && (exact.Some? <==> loose.Some? && loose.value <= |octets|)
            && (exact.Some? ==> loose.value == position + exact.value.1)
  {
    if present && position + 3 <= |octets| {
      assert octets[position..][2] == octets[position + 2];
    }
  }

  /** The walk stays inside the octets exactly when the whole header is there, and then ends where it does. */
  lemma LooseOffsetExact(octets: Bytes)
    ensures ParseHeader(octets).Some? <==> LooseOffset(octets).Some? && LooseOffset(octets).value <= |octets|
    ensures ParseHeader(octets).Some? ==> LooseOffset(octets).value == ParseHeader(octets).value.size
  {
    if |octets| >= 2 {
      hide SpecifierAt, Bit;
      SkipSpecifierExact(octets, 2, Bit(octets[1], 0x20));
      var destination := SkipSpecifier(octets, 2, Bit(octets[1], 0x20));
      if destination.Some? && destination.value <= |octets| {
        SkipSpecifierExact(octets, destination.value, Bit(octets[1], 0x08));
      }
    }
  }

  /** The APDU in an answer to a unicast read: a BACnet/IP or BACnet/IPv6 Original-Unicast-NPDU with version
      1, no network message, a whole header and at least three APDU octets. */
  function ReplyApdu(message: Bytes, ipv6: bool): (r: Option<Bytes>)
    ensures r.Some? ==> |r.value| >= 3
  {
    var bvll := if ipv6 then 10 else 4;
    if |message| < bvll + 2 || message[0] != (if ipv6 then 0x82 else 0x81) ||
       message[1] != (if ipv6 then 0x01 else BVLC_ORIGINAL_UNICAST) || message[bvll] != 0x01
    then None
    else
      var octets := message[bvll..];
      var header := ParseHeader(octets);
      if Bit(octets[1], 0x80) || header.None? || |octets| < header.value.size + 3 then None
      else Some(octets[header.value.size..])
  }

  /** The first half of HandleReplyFromPeer: `position` moves over the headers. */
  method FindReplyApdu(message: Bytes, ipv6: bool) returns (r: Option<Bytes>)
    ensures r == ReplyApdu(message, ipv6)
  {
    hide Bit, ParseHeader;
    var position;
    if ipv6 {
      if |message| < 10 || message[0] != 0x82 || message[1] != 0x01 {
        return None;
      }
      position := 10;
    } else {
      if |message| < 4 || message[0] != 0x81 || message[1] != 0x0A {
        return None;
      }
      position := 4;
    }
    if |message| < position + 2 || message[position] != 0x01 {
      return None;
    }
    ghost var octets, start := message[position..], position;
    LooseOffsetExact(octets);
    var control := message[position + 1];
    position := position + 2;
    if Bit(control, 0x80) {
      return None;
    }
    if Bit(control, 0x20) {
      if |message| < position + 3 {
        return None;
      }
      position := position + 3 + message[position + 2] as int;
    }
    if Bit(control, 0x08) {
      if |message| < position + 3 {
        return None;
      }
      position := position + 3 + message[position + 2] as int;
    }
    if Bit(control, 0x20) {
      position := position + 1;
    }
    assert LooseOffset(octets) == Some(position - start);
    if |message| < position + 3 {
      return None;
    }
    assert octets[position - start..] == message[position..];
    return Some(message[position..]);
  }

  /** An I-Am or I-Have APDU, or a network message: what the stack addresses itself. */
  predicate StackChosen(message: Bytes) {
    && |message| >= 6 && message[0] == 0x81 && (message[1] == 0x0A || message[1] == 0x0B) && message[4] == 0x01
    && var octets := message[4..];
       var offset := LooseOffset(octets);
       && offset.Some?
       && (Bit(octets[1], 0x80) || IsIAmOrIHave(Drop(octets, offset.value)))
  }

  predicate IsIAmOrIHave(apdu: Bytes) {
    |apdu| >= 2 && apdu[0] as int / 16 == 1 && (apdu[1] == 0 || apdu[1] == 1)
  }

  /** Both copies of IsStackChosenBroadcast; `i` is a uint16_t that the walk cannot overflow. */
  method IsStackChosenBroadcast(message: Bytes) returns (r: bool)
    ensures r == StackChosen(message)
  {
    hide Bit;
    if |message| < 6 || message[0] != 0x81 || (message[1] != 0x0A && message[1] != 0x0B) {
      return false;
    }
    var i := 4;
    if i + 2 > |message| || message[i] != 0x01 {
      return false;
    }
    ghost var octets := message[4..];
    var control := message[i + 1];
    i := i + 2;
    if Bit(control, 0x20) {
      if i + 3 > |message| {
        return false;
      }
      i := i + 3 + message[i + 2] as int;
    }
    if Bit(control, 0x08) {
      if i + 3 > |message| {
        return false;
      }
      i := i + 3 + message[i + 2] as int;
    }
    if Bit(control, 0x20) {
      i := i + 1;
    }
    assert LooseOffset(octets) == Some(i - 4) && i < 0x1_0000;
    if Bit(control, 0x80) {
      return true;
    }
    if i <= |message| {
      DropWithin(octets, i - 4);
      assert octets[i - 4..] == message[i..];
    }
    return i + 2 <= |message| && message[i] as int / 16 == 1 && (message[i + 1] == 0 || message[i + 1] == 1);
  }

  /** Both C++ walks find the APDU of a frame the codec builds where the codec put it: an answer only in an
      Original-Unicast-NPDU (0x0A), an I-Am or I-Have (unconfirmed services 0 and 1) also in a broadcast (0x0B). */
  lemma ApduFoundAtOneOffset(n: Npdu, function_: Byte)
    requires n.Valid() && 4 + |NpduOctets(n)| < 0x1_0000
    ensures var message := Bvll(function_, NpduOctets(n));
            && (ReplyApdu(message, false) ==
                if n.networkMessage.None? && function_ == 0x0A && |n.payload| >= 3 then Some(n.payload) else None)
            && (StackChosen(message) <==>
                  && (function_ == 0x0A || function_ == 0x0B)
                  && (n.networkMessage.Some? ||
                      (|n.payload| >= 2 && 0x10 <= n.payload[0] < 0x20 && n.payload[1] < 2)))
  {
    hide Bit, ParseHeader, LooseOffset, HeaderSize, NpduOctets, Bvll;
    WalkToPayload(n);
    NpduInBvll(function_, NpduOctets(n));
  }

  lemma NpduInBvll(function_: Byte, npdu: Bytes)
    requires 2 <= |npdu| && 4 + |npdu| < 0x1_0000
    ensures var message := Bvll(function_, npdu);
            && |message| == 4 + |npdu| && message[4..] == npdu && message[4] == npdu[0] && message[0] == 0x81
            && message[1] == function_
  {
    var message := Bvll(function_, npdu);
    assert message[4..] == npdu && message[4] == message[4..][0];
  }

  lemma WalkToPayload(n: Npdu)
    requires n.Valid()
    ensures var octets, size := NpduOctets(n), HeaderSize(n);
            && 2 <= size <= |octets| && octets[0] == 0x01 && Bit(octets[1], 0x80) == n.networkMessage.Some?
            && ParseHeader(octets).Some? && ParseHeader(octets).value.size == size
            && LooseOffset(octets) == Some(size)
            && (n.networkMessage.None? ==> octets[size..] == n.payload && Drop(octets, size) == n.payload)
  {
    hide Bit, Control, ParseHeader, LooseOffset, Specifier, HopCount;
    var octets := NpduOctets(n);
    HeaderRoundTrip(n);
    ControlBits(n);
    LooseOffsetExact(octets);
    DropWithin(octets, HeaderSize(n));
    if n.networkMessage.None? {
      assert MessageType(n) + n.payload == n.payload;
    }
  }

  /** The unchecked walk accepts a network message whose destination address is missing. */
  lemma ChosenWithoutHeader()
    ensures var message: Bytes := [0x81, 0x0B, 0, 9, 0x01, 0xA0, 0, 5, 6];
            StackChosen(message) && ParseHeader(message[4..]).None?
  {
    var message: Bytes := [0x81, 0x0B, 0, 9, 0x01, 0xA0, 0, 5, 6];
    var octets: Bytes := [0x01, 0xA0, 0, 5, 6];
    assert message[4..] == octets;
    assert LooseOffset(octets) == Some(12);
    LooseOffsetExact(octets);
  }
}
