/** The ReadProperty, ReadPropertyMultiple and WriteProperty encodings of wiretest/codec.py, and its two
    decoders that step over a nested value: `read_property_value` and `parse_write_property_request`. */
module PropertyCodec {
  import opened Octets
  import opened Tags

  const MAX_INSTANCE := 0x3F_FFFF
  const SERVICE_READ_PROPERTY: Byte := 12
  const SERVICE_READ_PROPERTY_MULTIPLE: Byte := 14
  const SERVICE_WRITE_PROPERTY: Byte := 15
  const ERROR_CLASS_PROPERTY := 2
  const ERROR_CODE_UNKNOWN_PROPERTY := 32

  // ---------------------------------------------------------------------------
  // Encoders
  // ---------------------------------------------------------------------------

  /** The fewest octets that hold `value`, at least one. The source raises ValueError from 2^32 on. */
  function UnsignedOctets(value: nat): (s: Bytes)
    requires value < 0x1_0000_0000
    ensures 1 <= |s| <= 4 && BigEndian(s) == value
    ensures |s| > 1 ==> s[0] != 0
  {
    if value < 0x100 then
      BigEndian1([value]);
      [value]
    else if value < 0x1_0000 then
      BigEndian2(Big16(value));
      Big16(value)
    else if value < 0x100_0000 then
      var s := [value / 0x1_0000] + Big16(value % 0x1_0000);
      BigEndian3(s);
      BigEndian2(Big16(value % 0x1_0000));
      s
    else
      BigEndian4(Big32(value));
      Big32(value)
  }

  datatype ObjectId = ObjectId(objectType: nat, instance: nat) {
    predicate Valid() { objectType < 0x400 && instance <= MAX_INSTANCE }

    function Octets(): (s: Bytes)
      requires Valid()
      ensures |s| == 4 && FromNumber(BigEndian(s)) == this
    {
      var number := objectType * 0x40_0000 + instance;
      assert number / 0x40_0000 == objectType && number % 0x40_0000 == instance;
      Big32(number)
    }

    static function FromNumber(raw: nat): ObjectId {
      ObjectId(raw / 0x40_0000, raw % 0x40_0000)
    }
  }

  function ContextUnsigned(tag: Byte, value: nat): (s: Bytes)
    requires tag < 15 && value < 0x1_0000_0000
  {
    EncodePrimitive(tag, true, UnsignedOctets(value))
  }

  function ContextObjectId(tag: Byte, id: ObjectId): (s: Bytes)
    requires tag < 15 && id.Valid()
  {
    EncodePrimitive(tag, true, id.Octets())
  }

  function OpeningTag(tag: Byte): (s: Bytes)
    requires tag < 15
  {
    TagStart(tag, true, 6)
  }

  function ClosingTag(tag: Byte): (s: Bytes)
    requires tag < 15
  {
    TagStart(tag, true, 7)
  }

  function ApplicationEnumerated(value: nat): (s: Bytes)
    requires value < 0x1_0000_0000
  {
    EncodePrimitive(9, false, UnsignedOctets(value))
  }

  /** A REAL, as the 32-bit pattern of its IEEE 754 value. */
  function ApplicationReal(bits: nat): (s: Bytes)
    requires bits < 0x1_0000_0000
  {
    EncodePrimitive(4, false, Big32(bits))
  }

  function ReadPropertyAck(invokeId: Byte, id: ObjectId, property: nat, value: Bytes): (s: Bytes)
    requires id.Valid() && property < 0x1_0000_0000
  {
    [0x30, invokeId, SERVICE_READ_PROPERTY] + ContextObjectId(0, id) + ContextUnsigned(1, property) +
    OpeningTag(3) + value + ClosingTag(3)
  }

  /** A WriteProperty request; `number` is whatever the optional fields hold. */
  datatype WriteRequest = WriteRequest(id: ObjectId, property: nat, arrayIndex: Option<nat>, value: Bytes,
                                       priority: Option<nat>)
  {
    predicate Valid() {
      && id.Valid() && property < 0x1_0000_0000
      && (arrayIndex.Some? ==> arrayIndex.value < 0x1_0000_0000)
      && (priority.Some? ==> priority.value < 0x1_0000_0000)
    }
  }

  function OptionalUnsigned(tag: Byte, value: Option<nat>): (s: Bytes)
    requires tag < 15 && (value.Some? ==> value.value < 0x1_0000_0000)
  {
    if value.Some? then ContextUnsigned(tag, value.value) else []
  }

  function WritePropertyRequest(invokeId: Byte, r: WriteRequest): (s: Bytes)
    requires r.Valid()
  {
    [0x00, 0x05, invokeId, SERVICE_WRITE_PROPERTY] +
    (ContextObjectId(0, r.id) + (ContextUnsigned(1, r.property) + (OptionalUnsigned(2, r.arrayIndex) +
    (OpeningTag(3) + (r.value + (ClosingTag(3) + OptionalUnsigned(4, r.priority)))))))
  }

  // ---------------------------------------------------------------------------
  // Nested values
  // ---------------------------------------------------------------------------

  /** `v` is a sequence of whole tags in which every opening tag is closed again, `depth` more closing
      than opening tags apart. */
  predicate Balanced(v: Bytes, depth: nat) {
    if v == [] then depth == 0
    else
      var tag := ReadPythonTag(v);
      && tag.Some? && tag.value.size <= |v|
      && match tag.value.kind
         case Value => Balanced(v[tag.value.size..], depth)
         case Opening => Balanced(v[tag.value.size..], depth + 1)
         case Closing => depth > 0 && Balanced(v[tag.value.size..], depth - 1)
  }

  /** Where the tag that closes `depth` open tags starts in `s`, and where it ends. None is an exception on
      the way there. */
  function Enclosed(s: Bytes, depth: nat): (r: Option<(nat, nat)>)
    requires depth >= 1
    ensures r.Some? ==> r.value.0 < |s| && r.value.0 < r.value.1
    decreases |s|
  {
    var tag := ReadPythonTag(s);
    if tag.None? then None
    else if tag.value.kind == Closing && depth == 1 then Some((0, tag.value.size))
    else
      var deeper := match tag.value.kind case Value => depth case Opening => depth + 1 case Closing => depth - 1;
      var r := Enclosed(Drop(s, tag.value.size), deeper);
      if r.None? then None else Some((tag.value.size + r.value.0, tag.value.size + r.value.1))
  }

  /** Whether it is a ValueError that stops the scan. */
  predicate ScanRaisesValueError(s: Bytes, depth: nat)
    requires depth >= 1
    decreases |s|
  {
    var tag := ReadPythonTag(s);
    if tag.None? then RaisesValueError(s)
    else if tag.value.kind == Closing && depth == 1 then false
    else
      var deeper := match tag.value.kind case Value => depth case Opening => depth + 1 case Closing => depth - 1;
      ScanRaisesValueError(Drop(s, tag.value.size), deeper)
  }

  lemma TagStartIsTag(number: Byte, lengthValueType: nat, rest: Bytes)
    requires number < 15 && 6 <= lengthValueType < 8
    ensures var kind := if lengthValueType == 6 then Opening else Closing;
            var s := TagStart(number, true, lengthValueType) + rest;
            && |TagStart(number, true, lengthValueType)| == 1
            && ReadPythonTag(s) == Some(PythonTag(number, true, kind, [], 1))
            && HeadTag(s) == Some(Tag(number, true, kind, 1, 0))
            && s[1..] == rest
  {
    TagStartReads(number, true, lengthValueType, rest);
  }

  lemma ClosingTagReads(tag: Byte, rest: Bytes)
    requires tag < 15
    ensures ReadPythonTag(ClosingTag(tag) + rest) == Some(PythonTag(tag, true, Closing, [], 1))
  {
    TagStartIsTag(tag, 7, rest);
  }

  /** A tag that ends inside `v` is the same whatever follows `v`. */
  lemma TagInFront(v: Bytes, tail: Bytes)
    ensures var t := ReadPythonTag(v + tail);
            && (ReadPythonTag(v).Some? && ReadPythonTag(v).value.size <= |v| <==> t.Some? && t.value.size <= |v|)
            && (t.Some? && t.value.size <= |v| ==>
                  ReadPythonTag(v) == t && Drop(v + tail, t.value.size) == v[t.value.size..] + tail)
  {
    hide ReadPythonTag;
    var t := ReadPythonTag(v + tail);
    if ReadPythonTag(v).Some? && ReadPythonTag(v).value.size <= |v| {
      PythonTagLocal(v, tail);
    }
    if t.Some? && t.value.size <= |v| {
      PythonTagWithin(v, tail);
    }
  }

  /** The scan for the end of a value, on `v` and a closing tag, stops right after `v` exactly when `v` is
      balanced. */
  lemma {:induction false} EnclosedExactlyBalanced(v: Bytes, depth: nat, tag: Byte, rest: Bytes)
    requires tag < 15
    ensures Balanced(v, depth) <==> Enclosed(v + (ClosingTag(tag) + rest), depth + 1) == Some((|v|, |v| + 1))
    ensures !Balanced(v, depth) ==>
              var r := Enclosed(v + (ClosingTag(tag) + rest), depth + 1); r.None? || r.value.0 != |v|
    decreases |v|
  {
    hide ReadPythonTag, ClosingTag, Drop;
    var tail := ClosingTag(tag) + rest;
    var s := v + tail;
    ClosingTagReads(tag, rest);
    if v == [] {
      assert s == tail;
    } else {
      var t := ReadPythonTag(s);
      TagInFront(v, tail);
      if t.Some? && t.value.size <= |v| {
        var size := t.value.size;
        match t.value.kind {
          case Value => EnclosedExactlyBalanced(v[size..], depth, tag, rest);
          case Opening => EnclosedExactlyBalanced(v[size..], depth + 1, tag, rest);
          case Closing => if depth > 0 { EnclosedExactlyBalanced(v[size..], depth - 1, tag, rest); }
        }
      }
    }
  }

  // ---------------------------------------------------------------------------
  // read_property_value
  // ---------------------------------------------------------------------------

  datatype Outcome = Found(value: Bytes) | Absent | Raises

  /** The octets between the first context [3] opening tag of `s` and its closing tag. */
  function ValueIn(s: Bytes): (r: Outcome)
    decreases |s|
  {
    if s == [] then Absent
    else
      var tag := ReadPythonTag(s);
      if tag.None? then Raises
      else
        var rest := Drop(s, tag.value.size);
        if tag.value.isContext && tag.value.number == 3 && tag.value.kind == Opening then
          var end := Enclosed(rest, 1);
          if end.None? then Raises else Found(rest[..end.value.0])
        else ValueIn(rest)
  }

  /** The scan itself: `position` moves over the tags while `depth` counts the open ones. */
  method FindEnd(data: Bytes, start: nat) returns (r: Option<(nat, nat)>, valueError: bool)
    ensures r.Some? <==> Enclosed(Drop(data, start), 1).Some?
    ensures r.Some? ==> start <= r.value.0 < |data|
    ensures r.Some? ==> Enclosed(Drop(data, start), 1).value == (r.value.0 - start, r.value.1 - start)
    ensures valueError == ScanRaisesValueError(Drop(data, start), 1)
  {
    hide ReadPythonTag, Drop, RaisesValueError;
    var position, depth := start, 1;
    while true
      invariant start <= position && depth >= 1
      invariant ScanRaisesValueError(Drop(data, start), 1) == ScanRaisesValueError(Drop(data, position), depth)
      invariant var whole, left := Enclosed(Drop(data, start), 1), Enclosed(Drop(data, position), depth);
                && whole.Some? == left.Some?
                && (whole.Some? ==> whole.value.0 - left.value.0 == position - start == whole.value.1 - left.value.1)
      decreases |Drop(data, position)|
    {
      var tagStart := position;
      var tag := ReadPythonTag(Drop(data, position));
      if tag.None? {
        return None, RaisesValueError(Drop(data, position));
      }
      DropDrop(data, position, tag.value.size);
      position := position + tag.value.size;
      if tag.value.kind == Opening {
        depth := depth + 1;
      } else if tag.value.kind == Closing {
        depth := depth - 1;
        if depth == 0 {
          return Some((tagStart, position)), false;
        }
      }
    }
  }

  method ReadPropertyValue(apdu: Bytes) returns (r: Outcome)
    ensures r == ValueIn(Drop(apdu, 3))
  {
    hide ReadPythonTag, Drop, Enclosed;
    var position := 3;
    while position < |apdu|
      invariant ValueIn(Drop(apdu, 3)) == ValueIn(Drop(apdu, position))
      decreases |apdu| - position
    {
      var tag := ReadPythonTag(Drop(apdu, position));
      if tag.None? {
        return Raises;
      }
      DropDrop(apdu, position, tag.value.size);
      position := position + tag.value.size;
      if tag.value.isContext && tag.value.number == 3 && tag.value.kind == Opening {
        var end, _ := FindEnd(apdu, position);
        if end.None? {
          return Raises;
        }
        DropTake(apdu, position, end.value.0);
        return Found(apdu[position..end.value.0]);
      }
    }
    return Absent;
  }

  lemma SkipPrimitive(number: Byte, content: Bytes, rest: Bytes)
    requires number < 15 && |content| < 5
    ensures var s := EncodePrimitive(number, true, content) + rest;
            && ReadPythonTag(s) == Some(PythonTag(number, true, Value, content, 1 + |content|))
            && Drop(s, 1 + |content|) == rest
  {
    PrimitiveRoundTrip(number, true, content, rest);
  }

  /** read_property_value(read_property_ack(...)) gives the value back exactly when the value is balanced. */
  lemma ReadPropertyAckRoundTrip(invokeId: Byte, id: ObjectId, property: nat, value: Bytes)
    requires id.Valid() && property < 0x1_0000_0000
    ensures Balanced(value, 0) <==>
            ValueIn(Drop(ReadPropertyAck(invokeId, id, property, value), 3)) == Found(value)
  {
    hide ValueIn, EncodePrimitive, Balanced, OpeningTag, ClosingTag, UnsignedOctets;
    var bracketed := OpeningTag(3) + (value + ClosingTag(3));
    var named := ContextUnsigned(1, property) + bracketed;
    assert Drop(ReadPropertyAck(invokeId, id, property, value), 3) == ContextObjectId(0, id) + named;
    ValueInSkips(0, id.Octets(), named);
    ValueInSkips(1, UnsignedOctets(property), bracketed);
    ValueInBracket(value);
  }

  lemma ValueInSkips(number: Byte, content: Bytes, rest: Bytes)
    requires number < 3 && |content| < 5
    ensures ValueIn(EncodePrimitive(number, true, content) + rest) == ValueIn(rest)
  {
    hide ReadPythonTag, EncodePrimitive;
    SkipPrimitive(number, content, rest);
  }

  lemma ValueInBracket(value: Bytes)
    ensures Balanced(value, 0) <==> ValueIn(OpeningTag(3) + (value + ClosingTag(3))) == Found(value)
  {
    hide ReadPythonTag, TagStart, Balanced, Enclosed, Drop;
    var tail := value + ClosingTag(3);
    TagStartIsTag(3, 6, tail);
    DropWithin(OpeningTag(3) + tail, 1);
    EnclosedExactlyBalanced(value, 0, 3, []);
    assert ClosingTag(3) + [] == ClosingTag(3);
    assert tail[..|value|] == value;
  }

  // ---------------------------------------------------------------------------
  // parse_write_property_request
  // ---------------------------------------------------------------------------

  /** A request, None, or the one exception the parser lets out. */
  datatype Parsed = Request(request: WriteRequest) | NoRequest | ValueError

  /** What a read_tag that raises makes of the parse. */
  function Failed(s: Bytes): (r: Parsed) { if RaisesValueError(s) then ValueError else NoRequest }

  /** The optional priority after the value completes the request. */
  function WithPriority(r: WriteRequest, s: Bytes): (p: Parsed) {
    if s == [] then Request(r)
    else
      var tag := ReadPythonTag(s);
      if tag.None? then Failed(s) else Request(r.(priority := Some(BigEndian(tag.value.body))))
  }

  /** What follows the property identifier: optional index, a tag, the value, optional priority. */
  function ParseValuePart(id: ObjectId, property: nat, s: Bytes): (r: Parsed) {
    var index := ReadPythonTag(s);
    if index.None? then Failed(s)
    else
      var hasIndex := index.value.number == 2 && index.value.kind == Value;
      ParseBracketed(id, property, if hasIndex then Some(BigEndian(index.value.body)) else None,
                     if hasIndex then Drop(s, index.value.size) else s)
  }

  /** A tag, the value up to the tag that closes it, optional priority. */
  function ParseBracketed(id: ObjectId, property: nat, index: Option<nat>, s: Bytes): (r: Parsed) {
    var opening := ReadPythonTag(s);
    if opening.None? then Failed(s)
    else
      var value := Drop(s, opening.value.size);
      var end := Enclosed(value, 1);
      if end.None? then if ScanRaisesValueError(value, 1) then ValueError else NoRequest
      else WithPriority(WriteRequest(id, property, index, value[..end.value.0], None), Drop(value, end.value.1))
  }

  /** A WriteProperty request APDU, or None. */
  function ParsedWriteProperty(apdu: Bytes): (r: Parsed) {
    if |apdu| < 4 || apdu[0] as int / 16 != 0 || apdu[3] != SERVICE_WRITE_PROPERTY then NoRequest
    else
      var objectTag := ReadPythonTag(apdu[4..]);
      if objectTag.None? then Failed(apdu[4..])
      else if |objectTag.value.body| != 4 then NoRequest
      else
        var s := Drop(apdu[4..], objectTag.value.size);
        var property := ReadPythonTag(s);
        if property.None? then Failed(s)
        else ParseValuePart(ObjectId.FromNumber(BigEndian(objectTag.value.body)), BigEndian(property.value.body),
                            Drop(s, property.value.size))
  }

  /** The parser itself, with one `position` over the APDU. */
  method ParseWritePropertyRequest(apdu: Bytes) returns (r: Parsed)
    ensures r == ParsedWriteProperty(apdu)
  {
    hide ReadPythonTag, Drop, Enclosed, BigEndian, ObjectId.FromNumber, RaisesValueError, ScanRaisesValueError;
    if |apdu| < 4 || apdu[0] as int / 16 != 0 || apdu[3] != SERVICE_WRITE_PROPERTY {
      return NoRequest;
    }
    DropWithin(apdu, 4);
    var request := WriteRequest(ObjectId(0, 0), 0, None, [], None);
    var position := 4;
    var tag := ReadPythonTag(Drop(apdu, position));
    if tag.None? {
      return Failed(Drop(apdu, position));
    }
    if |tag.value.body| != 4 {
      return NoRequest;
    }
    request := request.(id := ObjectId.FromNumber(BigEndian(tag.value.body)));
    DropDrop(apdu, position, tag.value.size);
    position := position + tag.value.size;
    tag := ReadPythonTag(Drop(apdu, position));
    if tag.None? {
      return Failed(Drop(apdu, position));
    }
    request := request.(property := BigEndian(tag.value.body));
    DropDrop(apdu, position, tag.value.size);
    position := position + tag.value.size;
    tag := ReadPythonTag(Drop(apdu, position));
    if tag.None? {
      return Failed(Drop(apdu, position));
    }
    DropDrop(apdu, position, tag.value.size);
    if tag.value.number == 2 && tag.value.kind == Value {
      request := request.(arrayIndex := Some(BigEndian(tag.value.body)));
      position := position + tag.value.size;
    }
    tag := ReadPythonTag(Drop(apdu, position));
    if tag.None? {
      return Failed(Drop(apdu, position));
    }
    DropDrop(apdu, position, tag.value.size);
    position := position + tag.value.size;
    var start := position;
    var end, valueError := FindEnd(apdu, start);
    if end.None? {
      return if valueError then ValueError else NoRequest;
    }
    DropDrop(apdu, start, end.value.1 - start);
    DropTake(apdu, start, end.value.0);
    request, position := request.(value := apdu[start..end.value.0]), end.value.1;
    if position < |apdu| {
      tag := ReadPythonTag(Drop(apdu, position));
      if tag.None? {
        return Failed(Drop(apdu, position));
      }
      request := request.(priority := Some(BigEndian(tag.value.body)));
    }
    return Request(request);
  }

  /** A BOOLEAN of extended length 256 where the object identifier should be gets an exception out. */
  lemma ParserRaises()
    ensures ParsedWriteProperty([0, 5, 1, SERVICE_WRITE_PROPERTY, 0x15, 254, 1, 0]) == ValueError
  {
    var apdu: Bytes := [0, 5, 1, SERVICE_WRITE_PROPERTY, 0x15, 254, 1, 0];
    var s: Bytes := [0x15, 254, 1, 0];
    assert apdu[4..] == s && s[1..] == [254, 1, 0];
    assert [254, 1, 0][1..3] == [1, 0];
    BigEndian2([1, 0]);
    ValueErrorIsNoTag(s);
  }

  lemma PriorityRoundTrip(r: WriteRequest, priority: Option<nat>)
    requires priority.Some? ==> priority.value < 0x1_0000_0000
    ensures WithPriority(r.(priority := None), OptionalUnsigned(4, priority)) == Request(r.(priority := priority))
  {
    hide ReadPythonTag, EncodePrimitive;
    if priority.Some? {
      var s := OptionalUnsigned(4, priority);
      assert s + [] == s;
      SkipPrimitive(4, UnsignedOctets(priority.value), []);
    }
  }

  /** Whatever follows the value, it is the value parsed. */
  lemma PriorityKeepsValue(r: WriteRequest, s: Bytes)
    ensures WithPriority(r, s).Request? ==> WithPriority(r, s).request.value == r.value
  {
  }

  lemma BracketedRoundTrip(r: WriteRequest)
    requires r.Valid()
    ensures var s := OpeningTag(3) + (r.value + (ClosingTag(3) + OptionalUnsigned(4, r.priority)));
            Balanced(r.value, 0) <==> ParseBracketed(r.id, r.property, r.arrayIndex, s) == Request(r)
  {
    hide ReadPythonTag, EncodePrimitive, Balanced, WithPriority, ScanRaisesValueError, Drop, Enclosed, TagStart,
        OptionalUnsigned;
    var priority := OptionalUnsigned(4, r.priority);
    var value := r.value + (ClosingTag(3) + priority);
    var s := OpeningTag(3) + value;
    TagStartIsTag(3, 6, value);
    TagStartIsTag(3, 7, priority);
    DropWithin(s, 1);
    EnclosedExactlyBalanced(r.value, 0, 3, priority);
    PriorityRoundTrip(r, r.priority);
    DropWithin(value, |r.value| + 1);
    assert value[|r.value| + 1..] == priority;
    var end := Enclosed(value, 1);
    if end.Some? {
      assert value[..end.value.0] == r.value <==> end.value.0 == |r.value|;
      PriorityKeepsValue(WriteRequest(r.id, r.property, r.arrayIndex, value[..end.value.0], None),
          Drop(value, end.value.1));
    }
  }

  lemma ValuePartRoundTrip(r: WriteRequest)
    requires r.Valid()
    ensures var s := OptionalUnsigned(2, r.arrayIndex) +
                     (OpeningTag(3) + (r.value + (ClosingTag(3) + OptionalUnsigned(4, r.priority))));
            Balanced(r.value, 0) <==> ParseValuePart(r.id, r.property, s) == Request(r)
  {
    hide ReadPythonTag, EncodePrimitive, Balanced, ParseBracketed, TagStart, UnsignedOctets, Drop;
    var value := r.value + (ClosingTag(3) + OptionalUnsigned(4, r.priority));
    var bracketed := OpeningTag(3) + value;
    BracketedRoundTrip(r);
    TagStartIsTag(3, 6, value);
    if r.arrayIndex.Some? {
      SkipPrimitive(2, UnsignedOctets(r.arrayIndex.value), bracketed);
    } else {
      assert OptionalUnsigned(2, r.arrayIndex) + bracketed == bracketed;
    }
  }

  /** parse_write_property_request gives every field back, with or without index and priority, exactly
      when the value is balanced. */
  lemma WritePropertyRoundTrip(invokeId: Byte, r: WriteRequest)
    requires r.Valid()
    ensures Balanced(r.value, 0) <==> ParsedWriteProperty(WritePropertyRequest(invokeId, r)) == Request(r)
  {
    hide ReadPythonTag, EncodePrimitive, Balanced, ParseValuePart, OptionalUnsigned, OpeningTag, ClosingTag, Drop,
         UnsignedOctets, ObjectId.FromNumber, BigEndian;
    var apdu := WritePropertyRequest(invokeId, r);
    var part := OptionalUnsigned(2, r.arrayIndex) +
                (OpeningTag(3) + (r.value + (ClosingTag(3) + OptionalUnsigned(4, r.priority))));
    var named := ContextUnsigned(1, r.property) + part;
    assert apdu[4..] == ContextObjectId(0, r.id) + named;
    SkipPrimitive(0, r.id.Octets(), named);
    SkipPrimitive(1, UnsignedOctets(r.property), part);
    ValuePartRoundTrip(r);
  }

  // ---------------------------------------------------------------------------
  // Every nested BACnet value is balanced
  // ---------------------------------------------------------------------------

  /** A value as clause 20.2 builds it: primitives, BOOLEANs and constructed values of any depth. */
  datatype Element =
    | Primitive(number: Byte, isContext: bool, content: Bytes)
    | Boolean(value: bool)
    | Constructed(number: Byte, elements: seq<Element>)
  {
    predicate Valid() {
      match this
      case Primitive(number, isContext, content) => |content| < 0x1_0000_0000 && (isContext || number != 1)
      case Boolean(_) => true
      case Constructed(number, elements) => forall e <- elements :: e.Valid()
    }

    function Encode(): (s: Bytes)
      requires Valid()
      decreases this, 0
    {
      match this
      case Primitive(number, isContext, content) => EncodePrimitive(number, isContext, content)
      case Boolean(value) => TagStart(1, false, if value then 1 else 0)
      case Constructed(number, elements) =>
        TagStart(number, true, 6) + EncodeAll(elements) + TagStart(number, true, 7)
    }
  }

  function EncodeAll(elements: seq<Element>): (s: Bytes)
    requires forall e <- elements :: e.Valid()
    decreases elements, 1
  {
    if elements == [] then [] else elements[0].Encode() + EncodeAll(elements[1..])
  }

  /** A tag in front of `rest` moves the depth as its kind says. */
  lemma BalancedStep(s: Bytes, rest: Bytes, depth: nat)
    requires s != [] && ReadPythonTag(s + rest).Some? && ReadPythonTag(s + rest).value.size == |s|
    ensures Balanced(s + rest, depth) ==
            match ReadPythonTag(s + rest).value.kind
            case Value => Balanced(rest, depth)
            case Opening => Balanced(rest, depth + 1)
            case Closing => depth > 0 && Balanced(rest, depth - 1)
  {
    assert (s + rest)[|s|..] == rest;
  }

  lemma BracketIsTag(number: Byte, lengthValueType: nat, rest: Bytes)
    requires 6 <= lengthValueType < 8
    ensures var start := TagStart(number, true, lengthValueType);
            && start != [] && ReadPythonTag(start + rest).Some?
            && ReadPythonTag(start + rest).value.size == |start|
            && ReadPythonTag(start + rest).value.kind == if lengthValueType == 6 then Opening else Closing
  {
    TagStartReads(number, true, lengthValueType, rest);
  }

  lemma {:induction false} ElementBalanced(e: Element, rest: Bytes, depth: nat)
    requires e.Valid()
    ensures Balanced(e.Encode() + rest, depth) == Balanced(rest, depth)
    decreases e, 0
  {
    match e
    case Primitive(number, isContext, content) =>
      PrimitiveRoundTrip(number, isContext, content, rest);
      BalancedStep(e.Encode(), rest, depth);
    case Boolean(value) =>
      TagStartReads(1, false, if value then 1 else 0, rest);
      BalancedStep(e.Encode(), rest, depth);
    case Constructed(number, elements) =>
      var closed := TagStart(number, true, 7) + rest;
      assert e.Encode() + rest == TagStart(number, true, 6) + (EncodeAll(elements) + closed);
      BracketIsTag(number, 6, EncodeAll(elements) + closed);
      BalancedStep(TagStart(number, true, 6), EncodeAll(elements) + closed, depth);
      ElementsBalanced(elements, closed, depth + 1);
      BracketIsTag(number, 7, rest);
      BalancedStep(TagStart(number, true, 7), rest, depth + 1);
  }

  lemma {:induction false} ElementsBalanced(elements: seq<Element>, rest: Bytes, depth: nat)
    requires forall e <- elements :: e.Valid()
    ensures Balanced(EncodeAll(elements) + rest, depth) == Balanced(rest, depth)
    decreases elements, 1
  {
    if elements == [] {
      assert EncodeAll(elements) + rest == rest;
    } else {
      var tail := EncodeAll(elements[1..]) + rest;
      assert EncodeAll(elements) + rest == elements[0].Encode() + tail;
      ElementBalanced(elements[0], tail, depth);
      ElementsBalanced(elements[1..], rest, depth);
    }
  }

  /** So any list of values, arbitrarily nested, survives both round trips. */
  lemma EncodedValuesBalanced(elements: seq<Element>)
    requires forall e <- elements :: e.Valid()
    ensures Balanced(EncodeAll(elements), 0)
  {
    ElementsBalanced(elements, [], 0);
    assert EncodeAll(elements) + [] == EncodeAll(elements);
  }
}
