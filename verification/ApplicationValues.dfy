/** The application-tagged primitives of wiretest/codec.py: `application_*` and `decode_application`. */
module ApplicationValues {
  import opened Octets
  import opened Tags
  import opened PropertyCodec
  import PeerAcks

  /** What decode_application makes of octets. A REAL or Double is its bit pattern, a string its octets;
      `Malformed` is an exception. */
  datatype Decoded =
    | Nothing
    | Truth(value: bool)
    | Number(number: int)
    | Real(bits: nat)
    | Double(octets: Bytes)
    | Text(octets: Bytes)
    | Flags(flags: seq<bool>)
    | Identifier(id: ObjectId)
    | Raw(octets: Bytes)
    | Malformed

  // ---------------------------------------------------------------------------
  // BIT STRING
  // ---------------------------------------------------------------------------

  function Mask(position: nat): (mask: bv8)
    requires position < 8
  {
    (0x80 as bv8) >> position
  }

  predicate IsSet(octet: bv8, position: nat)
    requires position < 8
  {
    octet & Mask(position) != 0
  }

  function MaskIf(bits: seq<bool>, index: nat): (mask: bv8) {
    if index < |bits| && bits[index] then Mask(index % 8) else 0
  }

  /** The first `n` bits of octet `k`. */
  function PackedBits(bits: seq<bool>, k: nat, n: nat): (octet: bv8) {
    if n == 0 then 0 else PackedBits(bits, k, n - 1) | MaskIf(bits, 8 * k + n - 1)
  }

  function PackedOctet(bits: seq<bool>, k: nat): (octet: bv8) { PackedBits(bits, k, 8) }

  function OctetCount(bits: seq<bool>): (n: nat) { (|bits| + 7) / 8 }

  function Packed(bits: seq<bool>): (octets: Bytes)
    ensures |octets| == OctetCount(bits)
  {
    seq(OctetCount(bits), k requires 0 <= k < OctetCount(bits) => PackedOctet(bits, k) as Byte)
  }

  /** The content of a BIT STRING: the number of unused bits, and the bits, bit 0 first. */
  function BitStringContent(bits: seq<bool>): (body: Bytes) {
    [8 * OctetCount(bits) - |bits|] + Packed(bits)
  }

  /** application_bit_string; None is the ValueError of an initial octet over 255. */
  function ApplicationBitString(bits: seq<bool>): (s: Option<Bytes>) {
    var body := BitStringContent(bits);
    if |body| >= 256 then None else Some([if |body| < 128 then 128 + |body| else |body|] + body)
  }

  lemma MaskSets(octet: bv8, position: nat, other: nat)
    requires position < 8 && other < 8
    ensures IsSet(octet | Mask(position), other) == (other == position || IsSet(octet, other))
  {
  }

  lemma OrSets(a: bv8, b: bv8, position: nat)
    requires position < 8
    ensures IsSet(a | b, position) == (IsSet(a, position) || IsSet(b, position))
  {
  }

  lemma MaskIfSets(bits: seq<bool>, index: nat, position: nat)
    requires position < 8
    ensures IsSet(MaskIf(bits, index), position) == (index < |bits| && bits[index] && index % 8 == position)
  {
    MaskSets(0, index % 8, position);
  }

  lemma {:induction false} PackedBitsSet(bits: seq<bool>, k: nat, n: nat, position: nat)
    requires position < 8 && n <= 8
    ensures IsSet(PackedBits(bits, k, n), position) ==
              (position < n && 8 * k + position < |bits| && bits[8 * k + position])
  {
    hide MaskIf, IsSet;
    if n == 0 {
      NothingSet(position);
    } else {
      PackedBitsSet(bits, k, n - 1, position);
      OrSets(PackedBits(bits, k, n - 1), MaskIf(bits, 8 * k + n - 1), position);
      MaskIfSets(bits, 8 * k + n - 1, position);
      assert (8 * k + n - 1) % 8 == n - 1;
    }
  }

  lemma PackedOctetSets(bits: seq<bool>, k: nat, position: nat)
    requires position < 8
    ensures IsSet(PackedOctet(bits, k), position) == (8 * k + position < |bits| && bits[8 * k + position])
  {
    PackedBitsSet(bits, k, 8, position);
  }

  lemma NothingSet(position: nat)
    requires position < 8
    ensures !IsSet(0, position)
  {
  }

  lemma SameOctet(a: bv8, b: bv8)
    requires forall position: nat | position < 8 :: IsSet(a, position) == IsSet(b, position)
    ensures a == b
  {
    hide IsSet, Mask;
    assert forall position: nat | position < 4 :: IsSet(a, position) == IsSet(b, position);
    SameHalves(a, b);
  }

  lemma SameHalves(a: bv8, b: bv8)
    requires IsSet(a, 0) == IsSet(b, 0) && IsSet(a, 1) == IsSet(b, 1)
    requires IsSet(a, 2) == IsSet(b, 2) && IsSet(a, 3) == IsSet(b, 3)
    requires IsSet(a, 4) == IsSet(b, 4) && IsSet(a, 5) == IsSet(b, 5)
    requires IsSet(a, 6) == IsSet(b, 6) && IsSet(a, 7) == IsSet(b, 7)
    ensures a == b
  {
  }

  lemma OctetAndBack(octet: bv8)
    ensures 0 <= octet as int < 256 && (octet as int) as bv8 == octet
  {
  }

  /** The octets have the first `n` bits set that are to be, and no others. */
  predicate Reflects(octets: seq<bv8>, bits: seq<bool>, n: nat) {
    forall k, position | 0 <= k < |octets| && 0 <= position < 8 ::
      IsSet(octets[k], position) == (8 * k + position < n && 8 * k + position < |bits| && bits[8 * k + position])
  }

  lemma OneMoreBit(octets: seq<bv8>, bits: seq<bool>, n: nat)
    requires Reflects(octets, bits, n) && n < |bits| && n / 8 < |octets|
    ensures var more := if bits[n] then octets[n / 8 := octets[n / 8] | Mask(n % 8)] else octets;
              Reflects(more, bits, n + 1)
  {
    hide IsSet, Mask;
    var more := if bits[n] then octets[n / 8 := octets[n / 8] | Mask(n % 8)] else octets;
    forall k, position | 0 <= k < |octets| && 0 <= position < 8
      ensures IsSet(more[k], position) ==
                (8 * k + position < n + 1 && 8 * k + position < |bits| && bits[8 * k + position])
    {
      MaskSets(octets[k], n % 8, position);
      assert IsSet(octets[k], position) ==
          (8 * k + position < n && 8 * k + position < |bits| && bits[8 * k + position]);
    }
  }

  lemma AllBitsPacked(octets: seq<bv8>, bits: seq<bool>)
    requires Reflects(octets, bits, |bits|) && |octets| == OctetCount(bits)
    ensures forall k | 0 <= k < |octets| :: octets[k] as Byte == Packed(bits)[k]
  {
    hide IsSet, PackedOctet;
    forall k | 0 <= k < |octets| ensures octets[k] as Byte == Packed(bits)[k] {
      forall position: nat | position < 8 ensures IsSet(octets[k], position) == IsSet(PackedOctet(bits, k), position) {
        PackedOctetSets(bits, k, position);
      }
      SameOctet(octets[k], PackedOctet(bits, k));
    }
  }

  /** application_bit_string sets the bits one by one in a bytearray. */
  method EncodeBitString(bits: seq<bool>) returns (s: Option<Bytes>)
    ensures s == ApplicationBitString(bits)
  {
    hide IsSet, Mask, Reflects, Packed;
    var n := (|bits| + 7) / 8;
    var octets := new bv8[n](_ => 0);
    NoBits(octets[..], bits);
    for index := 0 to |bits|
      invariant Reflects(octets[..], bits, index)
    {
      OneMoreBit(octets[..], bits, index);
      if bits[index] {
        octets[index / 8] := octets[index / 8] | Mask(index % 8);
      }
    }
    AllBitsPacked(octets[..], bits);
    var packed := octets[..];
    var body := [8 * n - |bits|] + seq(n, k requires 0 <= k < n => packed[k] as Byte);
    assert body == BitStringContent(bits);
    if |body| >= 256 {
      return None;
    }
    var initial: Byte := if |body| < 128 then 128 + |body| else |body|;
    return Some([initial] + body);
  }

  lemma NoBits(octets: seq<bv8>, bits: seq<bool>)
    requires forall k | 0 <= k < |octets| :: octets[k] == 0
    ensures Reflects(octets, bits, 0)
  {
  }

  // ---------------------------------------------------------------------------
  // decode_application
  // ---------------------------------------------------------------------------

  /** Every bit of the octets. */
  function Unpacked(octets: Bytes): (bits: seq<bool>)
    ensures |bits| == 8 * |octets|
  {
    seq(8 * |octets|, j requires 0 <= j < 8 * |octets| => IsSet(octets[j / 8] as bv8, j % 8))
  }

  lemma UnpackedAt(octets: Bytes, k: nat, position: nat)
    requires k < |octets| && position < 8
    ensures Unpacked(octets)[8 * k + position] == IsSet(octets[k] as bv8, position)
  {
    assert (8 * k + position) / 8 == k && (8 * k + position) % 8 == position;
  }

  /** Python's `bits[:len(bits) - unused]`: a negative end counts from the back again. */
  function WithoutLast<T>(bits: seq<T>, unused: nat): (r: seq<T>) {
    if unused <= |bits| then bits[..|bits| - unused]
    else if unused <= 2 * |bits| then bits[..2 * |bits| - unused]
    else []
  }

  function BitsOf(body: Bytes): (d: Decoded) {
    if body == [] then Malformed else Flags(WithoutLast(Unpacked(body[1..]), body[0] as int))
  }

  function Power256(n: nat): (p: nat) { if n == 0 then 1 else 256 * Power256(n - 1) }

  /** Two's complement. */
  function SignedOf(body: Bytes): (value: int) {
    if body != [] && body[0] >= 128 then BigEndian(body) - Power256(|body|) else BigEndian(body)
  }

  /** decode_application: the first primitive of `s`. */
  function Decode(s: Bytes): (d: Decoded) {
    if s == [] then Nothing
    else
      var tag := ReadPythonTag(s);
      if tag.None? then Malformed
      else
        var PythonTag(number, isContext, kind, body, _) := tag.value;
        if isContext || kind != Value then Nothing
        else if number == 0 then Nothing
        else if number == 1 then if body == [] then Malformed else Truth(body[0] != 0)
        else if number == 2 || number == 9 then Number(BigEndian(body))
        else if number == 3 then Number(SignedOf(body))
        else if number == 4 then if |body| != 4 then Malformed else Real(BigEndian(body))
        else if number == 5 then if |body| != 8 then Malformed else Double(body)
        else if number == 7 then Text(Drop(body, 1))
        else if number == 8 then BitsOf(body)
        else if number == 12 then if |body| != 4 then Malformed else Identifier(ObjectId.FromNumber(BigEndian(body)))
        else Raw(body)
  }

  /** The BIT STRING branch of decode_application, eight bits an octet. */
  method DecodeBits(body: Bytes) returns (d: Decoded)
    ensures d == BitsOf(body)
  {
    hide IsSet, Unpacked;
    if body == [] {
      return Malformed;
    }
    var unused, bits := body[0], [];
    ghost var octets := body[1..];
    for i := 1 to |body|
      invariant bits == Unpacked(octets)[..8 * (i - 1)]
    {
      var octet := body[i] as bv8;
      for position := 0 to 8
        invariant bits == Unpacked(octets)[..8 * (i - 1) + position]
      {
        UnpackedAt(octets, i - 1, position);
        bits := bits + [IsSet(octet, position)];
      }
    }
    assert bits == Unpacked(octets);
    return Flags(WithoutLast(bits, unused as int));
  }

  // ---------------------------------------------------------------------------
  // Round trips
  // ---------------------------------------------------------------------------

  lemma BitsRoundTrip(bits: seq<bool>)
    ensures BitsOf(BitStringContent(bits)) == Flags(bits)
  {
    hide IsSet, PackedOctet;
    var octets, n := Packed(bits), OctetCount(bits);
    assert BitStringContent(bits)[1..] == octets;
    forall j | 0 <= j < |bits| ensures Unpacked(octets)[j] == bits[j] {
      OctetAndBack(PackedOctet(bits, j / 8));
      PackedOctetSets(bits, j / 8, j % 8);
    }
    assert WithoutLast(Unpacked(octets), 8 * n - |bits|) == bits;
  }

  /** Decoded bits never outnumber those in the octets. */
  lemma FewBits(body: Bytes)
    requires body != []
    ensures BitsOf(body).Flags? && |BitsOf(body).flags| <= 8 * (|body| - 1)
  {
  }

  /** A bit string is given back exactly up to 24 bits, and from 33 to 48: a content of 5 octets makes the
      initial octet announce an extended length, and 8 or more run into the tag's other fields. */
  lemma BitStringRoundTrip(bits: seq<bool>)
    ensures ApplicationBitString(bits).Some? && Decode(ApplicationBitString(bits).value) == Flags(bits)
            <==> |bits| <= 24 || 33 <= |bits| <= 48
  {
    hide BitsOf, Decode, Packed;
    var body := BitStringContent(bits);
    if |body| < 5 || |body| == 6 || |body| == 7 {
      ShortBitStringRead(bits);
    } else if |body| < 256 {
      LongBitStringLost(bits);
    }
  }

  lemma ShortBitStringRead(bits: seq<bool>)
    requires |BitStringContent(bits)| < 5 || |BitStringContent(bits)| == 6 || |BitStringContent(bits)| == 7
    ensures Decode(ApplicationBitString(bits).value) == Flags(bits)
  {
    hide Packed, BitsOf, IsContextTag, LengthValueType;
    var body, s := BitStringContent(bits), ApplicationBitString(bits).value;
    InitialOctet(s[0], |body|);
    assert NumberField(s) == Some((8, 1));
    assert Slice(s, 1, |body|) == body;
    BitsRoundTrip(bits);
  }

  lemma InitialOctet(first: Byte, n: nat)
    requires n < 256 && first == if n < 128 then 128 + n else n
    ensures LengthValueType(first) == n % 8 && IsContextTag(first) == (n / 8 % 2 == 1)
    ensures first as int / 16 == if n < 128 then 8 + n / 16 else n / 16
  {
  }

  lemma NoContent()
    ensures BitsOf([]) == Malformed
  {
  }

  lemma LongBitStringLost(bits: seq<bool>)
    requires |BitStringContent(bits)| == 5 || 8 <= |BitStringContent(bits)| < 256
    ensures Decode(ApplicationBitString(bits).value) != Flags(bits)
  {
    hide Packed, BitsOf, IsContextTag, LengthValueType;
    var body := BitStringContent(bits);
    var s := ApplicationBitString(bits).value;
    InitialOctet(s[0], |body|);
    var tag := ReadPythonTag(s);
    if tag.Some? && !tag.value.isContext && tag.value.number == 8 {
      assert |tag.value.body| < |body|;
      assert |bits| > 8 * (|body| - 2);
      assert BitsOf([]) == Malformed by { NoContent(); }
      if tag.value.body != [] {
        FewBits(tag.value.body);
      }
    }
  }

  /** application_character_string of already encoded text: character set 0, and one length octet. */
  function ApplicationCharacterString(text: Bytes): (s: Option<Bytes>) {
    var body := [0] + text;
    if |body| < 5 then Some([0x70 + |body|] + body)
    else if |body| < 256 then Some([0x75, |body|] + body)
    else None
  }

  /** A text is given back exactly up to 252 octets: 254 and 255 announce a longer length. */
  lemma CharacterStringRoundTrip(text: Bytes)
    ensures |text| <= 252 <==>
              ApplicationCharacterString(text).Some? && Decode(ApplicationCharacterString(text).value) == Text(text)
  {
    hide Decode;
    if |text| < 253 {
      TextRead(text);
    } else if |text| < 255 {
      LongTextLost(text);
    }
  }

  lemma TextRead(text: Bytes)
    requires |text| < 253
    ensures Decode(ApplicationCharacterString(text).value) == Text(text)
  {
    hide BitsOf, Drop, IsContextTag, LengthValueType;
    var body, s := [0] + text, ApplicationCharacterString(text).value;
    TextTag(s[0], |body|);
    DropWithin(body, 1);
    if |body| < 5 {
      assert Slice(s, 1, |body|) == body;
    } else {
      assert s[1..][0] == |body|;
      assert Slice(s, 2, |body|) == body;
    }
  }

  lemma TextTag(first: Byte, n: nat)
    requires first == 0x70 + if n < 5 then n else 5
    ensures first as int / 16 == 7 && !IsContextTag(first) && LengthValueType(first) == if n < 5 then n else 5
  {
  }

  lemma LongTextLost(text: Bytes)
    requires 253 <= |text| < 255
    ensures Decode(ApplicationCharacterString(text).value) != Text(text)
  {
    hide BitsOf, IsContextTag, LengthValueType;
    var s := ApplicationCharacterString(text).value;
    TextTag(s[0], 5);
    var tag := ReadPythonTag(s);
    assert tag.Some? ==> |tag.value.body| <= |s| - 4;
  }

  /** The status flags of an answer are such a bit string. */
  lemma StatusFlagsAreBits(inAlarm: bool, fault: bool, overridden: bool, outOfService: bool)
    ensures ApplicationBitString([inAlarm, fault, overridden, outOfService]) ==
            Some(PeerAcks.StatusFlags(inAlarm, fault, overridden, outOfService))
  {
    hide PackedOctet;
    var bits := [inAlarm, fault, overridden, outOfService];
    PackedFlags(inAlarm, fault, overridden, outOfService);
    assert Packed(bits) == [PackedOctet(bits, 0) as Byte];
    assert BitStringContent(bits) == [4, PackedOctet(bits, 0) as Byte];
    assert TagStart(8, false, 2) == [0x82];
  }

  lemma PackedFlags(a: bool, b: bool, c: bool, d: bool)
    ensures PackedOctet([a, b, c, d], 0) as int ==
            (if a then 0x80 else 0) + (if b then 0x40 else 0) + (if c then 0x20 else 0) + (if d then 0x10 else 0)
  {
    hide MaskIf, PackedBits;
    var bits := [a, b, c, d];
    FlagMasks(a, b, c, d);
    PackedStep(bits, 1); PackedStep(bits, 2); PackedStep(bits, 3); PackedStep(bits, 4);
    PackedStep(bits, 5); PackedStep(bits, 6); PackedStep(bits, 7); PackedStep(bits, 8);
    Flags4(a, b, c, d);
  }

  lemma FlagMasks(a: bool, b: bool, c: bool, d: bool)
    ensures var bits := [a, b, c, d];
      && MaskIf(bits, 0) == (if a then Mask(0) else 0) && MaskIf(bits, 1) == (if b then Mask(1) else 0)
      && MaskIf(bits, 2) == (if c then Mask(2) else 0) && MaskIf(bits, 3) == (if d then Mask(3) else 0)
  {
    hide Mask;
  }

  lemma PackedStep(bits: seq<bool>, n: nat)
    requires 0 < n
    ensures n == 1 ==> PackedBits(bits, 0, n) == MaskIf(bits, 0)
    ensures 1 < n <= |bits| ==> PackedBits(bits, 0, n) == PackedBits(bits, 0, n - 1) | MaskIf(bits, n - 1)
    ensures |bits| < n ==> PackedBits(bits, 0, n) == PackedBits(bits, 0, n - 1)
  {
    hide Mask;
    if n == 1 {
      assert PackedBits(bits, 0, 0) == 0;
    }
  }

  lemma Flags4(a: bool, b: bool, c: bool, d: bool)
    ensures ((if a then Mask(0) else 0) | (if b then Mask(1) else 0) |
             (if c then Mask(2) else 0) | (if d then Mask(3) else 0)) as int ==
            (if a then 0x80 else 0) + (if b then 0x40 else 0) + (if c then 0x20 else 0) + (if d then 0x10 else 0)
  {
  }

  /** The other encoders of primitives, each read back as the value given. */
  lemma PrimitivesRoundTrip(value: nat, id: ObjectId, truth: bool)
    requires value < 0x1_0000_0000 && id.Valid()
    ensures Decode(EncodePrimitive(2, false, UnsignedOctets(value))) == Number(value)
    ensures Decode(ApplicationEnumerated(value)) == Number(value)
    ensures Decode(ApplicationReal(value)) == Real(value)
    ensures Decode(EncodePrimitive(12, false, id.Octets())) == Identifier(id)
    ensures Decode([if truth then 0x11 else 0x10]) == Truth(truth)
    ensures Decode([0x00]) == Nothing
  {
    hide EncodePrimitive, BigEndian, UnsignedOctets, ObjectId.FromNumber, ReadPythonTag;
    WholePrimitive(2, UnsignedOctets(value));
    WholePrimitive(9, UnsignedOctets(value));
    WholePrimitive(4, Big32(value));
    WholePrimitive(12, id.Octets());
    BooleanRead(truth);
  }

  lemma BooleanRead(truth: bool)
    ensures Decode([if truth then 0x11 else 0x10]) == Truth(truth) && Decode([0x00]) == Nothing
  {
    var s: Bytes := [if truth then 0x11 else 0x10];
    assert NumberField(s) == Some((1, 1)) && NumberField([0x00]) == Some((0, 1));
  }

  lemma WholePrimitive(number: Byte, content: Bytes)
    requires |content| < 0x1_0000_0000 && number != 1
    ensures var s := EncodePrimitive(number, false, content);
            s != [] && ReadPythonTag(s) == Some(PythonTag(number, false, Value, content, |s|))
  {
    var s := EncodePrimitive(number, false, content);
    PrimitiveRoundTrip(number, false, content, []);
    assert s + [] == s;
  }

  /** The number in [-P/2, P/2), P being 256 to the octets, that is the octets' but for a multiple of P. */
  ghost predicate IsTwosComplement(body: Bytes, value: int) {
    var p: int := Power256(|body|);
    if body == [] then value == 0
    else -p <= 2 * value < p && exists k: int :: value == BigEndian(body) + k * p
  }

  lemma {:induction false} TopOctet(body: Bytes)
    requires body != []
    ensures var p := Power256(|body| - 1);
      body[0] as int * p <= BigEndian(body) < (body[0] as int + 1) * p
    decreases |body|
  {
    if |body| == 1 {
      BigEndian1(body);
    } else {
      var init := body[..|body| - 1];
      TopOctet(init);
      assert Power256(|body| - 1) == 256 * Power256(|init| - 1);
      ScaledBounds(body[0] as int, Power256(|init| - 1), BigEndian(init), body[|body| - 1] as int);
    }
  }

  lemma ScaledBounds(top: nat, p: nat, n: nat, low: nat)
    requires top * p <= n < (top + 1) * p && low < 256
    ensures top * (256 * p) <= n * 256 + low < (top + 1) * (256 * p)
  {
    assert n + 1 <= (top + 1) * p;
  }

  lemma SignedIsTwosComplement(body: Bytes)
    ensures IsTwosComplement(body, SignedOf(body))
  {
    if body != [] {
      TopOctet(body);
      var q := Power256(|body| - 1);
      assert Power256(|body|) == 256 * q;
      HalfBounds(body[0] as int, q, BigEndian(body));
      var k := if body[0] >= 128 then -1 else 0;
      assert SignedOf(body) == BigEndian(body) + k * Power256(|body|);
    }
  }

  lemma HalfBounds(top: nat, q: nat, n: nat)
    requires top < 256 && top * q <= n < (top + 1) * q
    ensures top < 128 ==> 2 * n < 256 * q
    ensures top >= 128 ==> 256 * q <= 2 * n && n < 256 * q
  {
    if top < 128 {
      assert (top + 1) * q <= 128 * q;
    } else {
      assert 128 * q <= top * q && (top + 1) * q <= 256 * q;
    }
  }

  /** Every application-tagged primitive but a BOOLEAN, with any content: the type its tag number says, or an
      exception where the content does not fit it. */
  lemma EveryPrimitiveDecoded(number: Byte, content: Bytes)
    requires number != 1 && |content| < 0x1_0000_0000
    ensures var d, n := Decode(EncodePrimitive(number, false, content)), |content|;
      match number
      case 0 => d == Nothing
      case 2 | 9 => d == Number(BigEndian(content))
      case 3 => d.Number? && IsTwosComplement(content, d.number)
      case 4 => d == if n == 4 then Real(BigEndian(content)) else Malformed
      case 5 => d == if n == 8 then Double(content) else Malformed
      case 7 => d == Text(if n == 0 then [] else content[1..])
      case 8 => if n == 0 then d == Malformed else d.Flags? && KeepsBits(content, d.flags)
      case 12 => d == if n == 4 then Identifier(ObjectId.FromNumber(BigEndian(content))) else Malformed
      case _ => d == Raw(content)
  {
    hide EncodePrimitive, BigEndian, ObjectId.FromNumber, ReadPythonTag, BitsOf, SignedOf;
    WholePrimitive(number, content);
    SignedIsTwosComplement(content);
    NoContent();
    if content != [] {
      BitsKept(content);
    }
  }

  /** Bit `j` of the octets, most significant first. */
  predicate BitAt(octets: Bytes, j: nat)
    requires j < 8 * |octets|
  {
    octets[j / 8] as bv8 & ((0x80 as bv8) >> (j % 8)) != 0
  }

  /** The octets' bits, without the last ones if the first octet counts no more than there are. */
  ghost predicate KeepsBits(content: Bytes, flags: seq<bool>)
    requires content != []
  {
    var octets, unused := content[1..], content[0] as int;
    && |flags| <= 8 * |octets| && (unused <= 8 * |octets| ==> |flags| == 8 * |octets| - unused)
    && forall j: nat | j < |flags| :: flags[j] == BitAt(octets, j)
  }

  lemma BitsKept(content: Bytes)
    requires content != []
    ensures BitsOf(content).Flags? && KeepsBits(content, BitsOf(content).flags)
  {
    hide BitAt;
    var octets := content[1..];
    forall j: nat | j < 8 * |octets| ensures Unpacked(octets)[j] == BitAt(octets, j) {
      UnpackedIsBit(octets, j);
    }
    hide Unpacked;
  }

  lemma UnpackedIsBit(octets: Bytes, j: nat)
    requires j < 8 * |octets|
    ensures Unpacked(octets)[j] == BitAt(octets, j)
  {
  }
}
