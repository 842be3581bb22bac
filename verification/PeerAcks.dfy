/** The two acknowledgements the controller reads from its peer (main.cpp, section 2e): what they say, tag by
    tag, and the acknowledgements wiretest/codec.py builds. REAL values are 32-bit patterns throughout. */
module PeerAcks {
  import opened Octets
  import opened Tags
  import opened PropertyCodec

  const PRESENT_VALUE := 85
  const STATUS_FLAGS := 111

  // ---------------------------------------------------------------------------
  // Tag contents
  // ---------------------------------------------------------------------------

  function Content(s: Bytes, t: Tag): (c: Bytes)
    requires t.Size() <= |s|
  {
    s[t.header..t.Size()]
  }

  /** The first four content octets as an unsigned number. */
  function ContentUnsigned(s: Bytes, t: Tag): (value: nat)
    requires t.Size() <= |s|
  {
    BigEndian(Content(s, t)[..if t.length < 4 then t.length else 4])
  }

  function ContentReal(s: Bytes, t: Tag): (bits: Option<nat>)
    requires t.Size() <= |s|
  {
    if t.isContext || t.kind != Value || t.number != 4 || t.length != 4 then None else Some(ContentUnsigned(s, t))
  }

  /** Bit 1 of a BIT STRING; its first content octet counts unused bits. */
  function ContentStatusFlagsFault(s: Bytes, t: Tag): (fault: Option<bool>)
    requires t.Size() <= |s|
  {
    if t.isContext || t.kind != Value || t.number != 8 || t.length < 2 then None
    else Some(s[t.header + 1] as int / 0x40 % 2 == 1)
  }

  /** The REAL, or the FAULT flag, of one property value. */
  function RealOf(value: Bytes): (bits: Option<nat>) {
    var t := HeadTag(value);
    if t.None? then None else ContentReal(value, t.value)
  }

  function FaultOf(value: Bytes): (fault: Option<bool>) {
    var t := HeadTag(value);
    if t.None? then None else ContentStatusFlagsFault(value, t.value)
  }

  // ---------------------------------------------------------------------------
  // ReadProperty-ACK
  // ---------------------------------------------------------------------------

  /** The Present_Value in the tags `s` of a ReadProperty-ACK, `property` being the identifier seen so far. */
  function ReadingInAck(s: Bytes, property: nat): (bits: Option<nat>)
    decreases |s|
  {
    var tag := HeadTag(s);
    if tag.None? then None
    else
      var t := tag.value;
      if t.isContext && t.kind == Opening && t.number == 3 then
        if property == PRESENT_VALUE then RealOf(s[t.Size()..]) else None
      else
        ReadingInAck(s[t.Size()..], if t.isContext && t.kind == Value && t.number == 1 then ContentUnsigned(s, t)
            else property)
  }

  // ---------------------------------------------------------------------------
  // ReadPropertyMultiple-ACK
  // ---------------------------------------------------------------------------

  /** What the scan of a ReadPropertyMultiple-ACK knows: the last property identifier, and the readings. */
  datatype Findings = Findings(property: nat, humidity: Option<nat>, fault: Option<bool>)

  const NOTHING_FOUND := Findings(0, None, None)

  /** The scan over one tag at the head of `s`. */
  function Note(f: Findings, s: Bytes, t: Tag): (g: Findings)
    requires t.Size() <= |s|
  {
    if t.isContext && t.kind == Value && t.number == 2 then f.(property := ContentUnsigned(s, t))
    else if t.isContext && t.kind == Opening && t.number == 4 then
      var value := HeadTag(s[t.Size()..]);
      if value.None? then f
      else if f.property == PRESENT_VALUE then f.(humidity := ContentReal(s[t.Size()..], value.value))
      else if f.property == STATUS_FLAGS then f.(fault := ContentStatusFlagsFault(s[t.Size()..], value.value))
      else f
    else f
  }

  /** The scan steps INTO constructed values: their tags are read in turn. */
  function Scan(s: Bytes, f: Findings): (g: Findings)
    decreases |s|
  {
    var tag := HeadTag(s);
    if tag.None? then f else Scan(s[tag.value.Size()..], Note(f, s, tag.value))
  }

  // ---------------------------------------------------------------------------
  // wiretest/codec.py: read_property_multiple_ack, status_flags
  // ---------------------------------------------------------------------------

  /** One property's answer: its value, or None for the unknown-property error. */
  datatype PropertyAnswer = PropertyAnswer(property: nat, value: Option<Bytes>)

  datatype ObjectAnswer = ObjectAnswer(id: ObjectId, properties: seq<PropertyAnswer>)

  /** A value that is one application-tagged primitive. */
  predicate IsPrimitiveValue(value: Bytes) {
    var t := HeadTag(value);
    t.Some? && !t.value.isContext && t.value.Size() == |value|
  }

  /** A tag the scan takes for part of the acknowledgement: [2] for a property identifier, an opening [4] for
      the start of a value. */
  predicate IsMistaken(t: Tag) {
    t.isContext && ((t.kind == Value && t.number == 2) || (t.kind == Opening && t.number == 4))
  }

  /** A value of whole tags, constructed or not, none of which the scan takes for more. */
  predicate IsQuiet(value: Bytes)
    decreases |value|
  {
    value == [] ||
    (HeadTag(value).Some? && !IsMistaken(HeadTag(value).value) && IsQuiet(value[HeadTag(value).value.Size()..]))
  }

  predicate ValidAnswer(p: PropertyAnswer) { p.property < 0x1_0000_0000 }

  predicate QuietAnswer(p: PropertyAnswer) { ValidAnswer(p) && (p.value.Some? ==> IsQuiet(p.value.value)) }

  predicate QuietAnswers(properties: seq<PropertyAnswer>) {
    forall i | 0 <= i < |properties| :: QuietAnswer(properties[i])
  }

  predicate QuietObjects(objects: seq<ObjectAnswer>) {
    forall i | 0 <= i < |objects| :: objects[i].id.Valid() && QuietAnswers(objects[i].properties)
  }

  predicate ValidAnswers(properties: seq<PropertyAnswer>) {
    forall i | 0 <= i < |properties| :: ValidAnswer(properties[i])
  }

  predicate ValidObject(o: ObjectAnswer) {
    o.id.Valid() && ValidAnswers(o.properties)
  }

  predicate ValidObjects(objects: seq<ObjectAnswer>) {
    forall i | 0 <= i < |objects| :: ValidObject(objects[i])
  }

  function AnswerOctets(p: PropertyAnswer): (s: Bytes)
    requires ValidAnswer(p)
  {
    ContextUnsigned(2, p.property) +
    if p.value.None? then
      OpeningTag(5) + (ApplicationEnumerated(ERROR_CLASS_PROPERTY) +
          (ApplicationEnumerated(ERROR_CODE_UNKNOWN_PROPERTY) + ClosingTag(5)))
    else OpeningTag(4) + (p.value.value + ClosingTag(4))
  }

  function AnswersOctets(properties: seq<PropertyAnswer>): (s: Bytes)
    requires ValidAnswers(properties)
  {
    if properties == [] then [] else AnswerOctets(properties[0]) + AnswersOctets(properties[1..])
  }

  function ObjectsOctets(objects: seq<ObjectAnswer>): (s: Bytes)
    requires ValidObjects(objects)
  {
    if objects == [] then []
    else ContextObjectId(0, objects[0].id) + (OpeningTag(1) + (AnswersOctets(objects[0].properties) + (ClosingTag(1) +
         ObjectsOctets(objects[1..]))))
  }

  function ReadPropertyMultipleAck(invokeId: Byte, objects: seq<ObjectAnswer>): (s: Bytes)
    requires ValidObjects(objects)
  {
    [0x30, invokeId, SERVICE_READ_PROPERTY_MULTIPLE] + ObjectsOctets(objects)
  }

  /** The four BACnetStatusFlags as a BIT STRING value: four unused bits, flag 0 first. */
  function StatusFlags(inAlarm: bool, fault: bool, overridden: bool, outOfService: bool): (s: Bytes) {
    EncodePrimitive(8, false, [4, (if inAlarm then 0x80 else 0) + (if fault then 0x40 else 0) +
                                  (if overridden then 0x20 else 0) + (if outOfService then 0x10 else 0)])
  }

  // ---------------------------------------------------------------------------
  // Round trips
  // ---------------------------------------------------------------------------

  lemma RealValue(bits: nat)
    requires bits < 0x1_0000_0000
    ensures IsPrimitiveValue(ApplicationReal(bits)) && RealOf(ApplicationReal(bits)) == Some(bits)
  {
    var s := ApplicationReal(bits);
    PrimitiveRoundTrip(4, false, Big32(bits), []);
    assert s + [] == s;
    assert Content(s, HeadTag(s).value)[..4] == Big32(bits);
  }

  lemma StatusFlagsValue(inAlarm: bool, fault: bool, overridden: bool, outOfService: bool)
    ensures var s := StatusFlags(inAlarm, fault, overridden, outOfService);
            IsPrimitiveValue(s) && FaultOf(s) == Some(fault)
  {
    var s := StatusFlags(inAlarm, fault, overridden, outOfService);
    PrimitiveRoundTrip(8, false, s[1..], []);
    assert s + [] == s;
  }

  /** A context-tagged unsigned number is read back. */
  lemma UnsignedTag(number: Byte, value: nat, rest: Bytes)
    requires number < 15 && value < 0x1_0000_0000
    ensures var s := ContextUnsigned(number, value) + rest; var t := HeadTag(s);
            && t.Some? && t.value.isContext && t.value.kind == Value && t.value.number == number
            && s[t.value.Size()..] == rest && ContentUnsigned(s, t.value) == value
  {
    var content := UnsignedOctets(value);
    var s := ContextUnsigned(number, value) + rest;
    PrimitiveRoundTrip(number, true, content, rest);
    assert Content(s, HeadTag(s).value) == content;
    assert content[..|content|] == content;
  }

  lemma ReadingAtValue(property: nat, value: Bytes)
    ensures ReadingInAck(OpeningTag(3) + (value + ClosingTag(3)), property) ==
            if property == PRESENT_VALUE then RealOf(value + ClosingTag(3)) else None
  {
    hide HeadTag, TagStart, RealOf;
    TagStartIsTag(3, 6, value + ClosingTag(3));
  }

  /** From any ReadProperty-ACK of Present_Value the controller takes the REAL that heads the value, whatever
      else the value holds. A value whose first tag is cut short is read on into the closing tag. */
  lemma ReadPropertyAckReading(invokeId: Byte, id: ObjectId, property: nat, value: Bytes)
    requires id.Valid() && property < 0x1_0000_0000
    ensures var reading := ReadingInAck(ReadPropertyAck(invokeId, id, property, value)[3..], 0);
            && (property != PRESENT_VALUE ==> reading == None)
            && (property == PRESENT_VALUE ==> reading == RealOf(value + ClosingTag(3)))
            && (property == PRESENT_VALUE && HeadTag(value).Some? ==> reading == RealOf(value))
  {
    hide EncodePrimitive, HeadTag, TagStart, RealOf, BigEndian;
    var bracketed := OpeningTag(3) + (value + ClosingTag(3));
    var named := ContextUnsigned(1, property) + bracketed;
    var s := ContextObjectId(0, id) + named;
    assert ReadPropertyAck(invokeId, id, property, value)[3..] == s;
    PrimitiveRoundTrip(0, true, id.Octets(), named);
    assert s[HeadTag(s).value.Size()..] == named;
    assert ReadingInAck(s, 0) == ReadingInAck(named, 0);
    UnsignedTag(1, property, bracketed);
    assert ReadingInAck(named, 0) == ReadingInAck(bracketed, property);
    ReadingAtValue(property, value);
    if HeadTag(value).Some? {
      FirstTagInFront(value, ClosingTag(3));
    }
  }

  /** What the first tag of a value says does not depend on the octets after the value. */
  lemma FirstTagInFront(value: Bytes, rest: Bytes)
    requires HeadTag(value).Some?
    ensures HeadTag(value + rest) == HeadTag(value)
    ensures RealOf(value + rest) == RealOf(value) && FaultOf(value + rest) == FaultOf(value)
  {
    HeadTagLocal(value, rest);
    hide HeadTag;
    var t := HeadTag(value).value;
    assert Content(value + rest, t) == Content(value, t);
  }

  lemma ValueInFront(value: Bytes, rest: Bytes)
    requires IsPrimitiveValue(value)
    ensures HeadTag(value + rest) == HeadTag(value)
    ensures RealOf(value + rest) == RealOf(value) && FaultOf(value + rest) == FaultOf(value)
    ensures (value + rest)[HeadTag(value).value.Size()..] == rest
  {
    hide HeadTag;
    FirstTagInFront(value, rest);
  }

  /** The last value answered for `property`, if any: the reference for what the scan must find. */
  function LastValue(properties: seq<PropertyAnswer>, property: nat): (value: Option<Bytes>) {
    if properties == [] then None
    else
      var last := properties[|properties| - 1];
      if last.property == property && last.value.Some? then last.value
      else LastValue(properties[..|properties| - 1], property)
  }

  /** Every answered property of every object, in order. */
  function AllProperties(objects: seq<ObjectAnswer>): (properties: seq<PropertyAnswer>) {
    if objects == [] then [] else objects[0].properties + AllProperties(objects[1..])
  }

  /** One answer's effect on the findings. */
  function Learn(f: Findings, p: PropertyAnswer): (g: Findings) {
    var named := f.(property := p.property);
    if p.value.None? then named
    else if p.property == PRESENT_VALUE then named.(humidity := RealOf(p.value.value))
    else if p.property == STATUS_FLAGS then named.(fault := FaultOf(p.value.value))
    else named
  }

  function LearnAll(f: Findings, properties: seq<PropertyAnswer>): (g: Findings)
    decreases |properties|
  {
    if properties == [] then f else LearnAll(Learn(f, properties[0]), properties[1..])
  }

  /** A tag that says nothing is stepped over. */
  lemma ScanSkips(chunk: Bytes, rest: Bytes, f: Findings)
    requires HeadTag(chunk + rest).Some? && HeadTag(chunk + rest).value.Size() == |chunk|
    requires var t := HeadTag(chunk + rest).value;
             !t.isContext || (t.number != 2 && t.kind == Value) || (t.number != 4 && t.kind == Opening) ||
                 t.kind == Closing
    ensures Scan(chunk + rest, f) == Scan(rest, f)
  {
    assert (chunk + rest)[|chunk|..] == rest;
  }

  lemma ScanBracket(number: Byte, lengthValueType: nat, rest: Bytes, f: Findings)
    requires number < 15 && 6 <= lengthValueType < 8 && (number != 4 || lengthValueType == 7)
    ensures Scan(TagStart(number, true, lengthValueType) + rest, f) == Scan(rest, f)
  {
    TagStartIsTag(number, lengthValueType, rest);
    ScanSkips(TagStart(number, true, lengthValueType), rest, f);
  }

  lemma ScanError(rest: Bytes, f: Findings)
    ensures var error := OpeningTag(5) + (ApplicationEnumerated(ERROR_CLASS_PROPERTY) +
                         (ApplicationEnumerated(ERROR_CODE_UNKNOWN_PROPERTY) + ClosingTag(5)));
            Scan(error + rest, f) == Scan(rest, f)
  {
    hide EncodePrimitive, HeadTag, TagStart, Scan;
    var closed := ClosingTag(5) + rest;
    var code := ApplicationEnumerated(ERROR_CODE_UNKNOWN_PROPERTY) + closed;
    var class_ := ApplicationEnumerated(ERROR_CLASS_PROPERTY) + code;
    ScanBracket(5, 6, class_, f);
    PrimitiveRoundTrip(9, false, UnsignedOctets(ERROR_CLASS_PROPERTY), code);
    ScanSkips(ApplicationEnumerated(ERROR_CLASS_PROPERTY), code, f);
    PrimitiveRoundTrip(9, false, UnsignedOctets(ERROR_CODE_UNKNOWN_PROPERTY), closed);
    ScanSkips(ApplicationEnumerated(ERROR_CODE_UNKNOWN_PROPERTY), closed, f);
    ScanBracket(5, 7, rest, f);
    assert OpeningTag(5) + (ApplicationEnumerated(ERROR_CLASS_PROPERTY) +
           (ApplicationEnumerated(ERROR_CODE_UNKNOWN_PROPERTY) + ClosingTag(5))) + rest == OpeningTag(5) + class_;
  }

  lemma PrimitiveIsQuiet(value: Bytes)
    requires IsPrimitiveValue(value)
    ensures IsQuiet(value)
  {
    hide HeadTag;
    NotOpening(value);
    assert value[HeadTag(value).value.Size()..] == [];
  }

  lemma NotOpening(value: Bytes)
    requires IsPrimitiveValue(value)
    ensures !IsMistaken(HeadTag(value).value)
  {
  }

  lemma {:induction false} ScanQuiet(value: Bytes, rest: Bytes, f: Findings)
    requires IsQuiet(value)
    ensures Scan(value + rest, f) == Scan(rest, f)
    decreases |value|
  {
    hide HeadTag, Scan;
    if value == [] {
      assert value + rest == rest;
    } else {
      var size := HeadTag(value).value.Size();
      HeadTagLocal(value, rest);
      ScanOneTag(value, rest, f);
      ScanQuiet(value[size..], rest, f);
    }
  }

  lemma ScanOneTag(value: Bytes, rest: Bytes, f: Findings)
    requires HeadTag(value).Some? && HeadTag(value + rest) == HeadTag(value) && !IsMistaken(HeadTag(value).value)
    ensures Scan(value + rest, f) == Scan(value[HeadTag(value).value.Size()..] + rest, f)
  {
    hide HeadTag;
    var size := HeadTag(value).value.Size();
    assert (value + rest)[size..] == value[size..] + rest;
  }

  lemma ScanValue(value: Bytes, rest: Bytes, f: Findings)
    requires IsQuiet(value)
    ensures Scan(OpeningTag(4) + (value + ClosingTag(4)) + rest, f) ==
            Scan(rest, Learn(f, PropertyAnswer(f.property, Some(value))))
  {
    hide HeadTag, TagStart;
    var closed := ClosingTag(4) + rest;
    var s := OpeningTag(4) + (value + closed);
    assert OpeningTag(4) + (value + ClosingTag(4)) + rest == s;
    TagStartIsTag(4, 6, value + closed);
    FirstOfValue(value, rest);
    var g := Learn(f, PropertyAnswer(f.property, Some(value)));
    assert Scan(s, f) == Scan(value + closed, g);
    ScanQuiet(value, closed, g);
    ScanBracket(4, 7, rest, g);
  }

  /** What is read at the start of a value, which may be empty. */
  lemma FirstOfValue(value: Bytes, rest: Bytes)
    requires IsQuiet(value)
    ensures var s := value + (ClosingTag(4) + rest);
            HeadTag(s).Some? && RealOf(s) == RealOf(value) && FaultOf(s) == FaultOf(value)
  {
    hide HeadTag, TagStart;
    if value == [] {
      assert value + (ClosingTag(4) + rest) == ClosingTag(4) + rest;
      TagStartIsTag(4, 7, rest);
      assert HeadTag([]).None? by { NoTag(); }
    } else {
      FirstTagInFront(value, ClosingTag(4) + rest);
    }
  }

  lemma NoTag()
    ensures HeadTag([]).None?
  {
  }

  lemma ScanAnswer(p: PropertyAnswer, rest: Bytes, f: Findings)
    requires QuietAnswer(p)
    ensures Scan(AnswerOctets(p) + rest, f) == Scan(rest, Learn(f, p))
  {
    hide EncodePrimitive, HeadTag, TagStart;
    var body := AnswerOctets(p)[|ContextUnsigned(2, p.property)|..];
    var s := AnswerOctets(p) + rest;
    assert s == ContextUnsigned(2, p.property) + (body + rest);
    UnsignedTag(2, p.property, body + rest);
    var named := f.(property := p.property);
    assert Scan(s, f) == Scan(body + rest, named);
    if p.value.None? {
      ScanError(rest, named);
    } else {
      ScanValue(p.value.value, rest, named);
    }
  }

  lemma {:induction false} ScanAnswers(properties: seq<PropertyAnswer>, rest: Bytes, f: Findings)
    requires QuietAnswers(properties)
    ensures Scan(AnswersOctets(properties) + rest, f) == Scan(rest, LearnAll(f, properties))
  {
    if properties == [] {
      assert AnswersOctets(properties) + rest == rest;
    } else {
      var tail := AnswersOctets(properties[1..]) + rest;
      assert AnswersOctets(properties) + rest == AnswerOctets(properties[0]) + tail;
      ScanAnswer(properties[0], tail, f);
      ScanAnswers(properties[1..], rest, Learn(f, properties[0]));
    }
  }

  lemma {:induction false} ScanObjects(objects: seq<ObjectAnswer>, f: Findings)
    requires QuietObjects(objects)
    ensures Scan(ObjectsOctets(objects), f) == LearnAll(f, AllProperties(objects))
  {
    if objects != [] {
      var o := objects[0];
      var next := ObjectsOctets(objects[1..]);
      var closed := ClosingTag(1) + next;
      var answers := AnswersOctets(o.properties) + closed;
      ScanObjectId(o.id, OpeningTag(1) + answers, f);
      ScanBracket(1, 6, answers, f);
      ScanAnswers(o.properties, closed, f);
      var g := LearnAll(f, o.properties);
      ScanBracket(1, 7, next, g);
      ScanObjects(objects[1..], g);
      LearnConcat(f, o.properties, AllProperties(objects[1..]));
    } else {
      assert HeadTag(ObjectsOctets(objects)).None?;
    }
  }

  lemma ScanObjectId(id: ObjectId, rest: Bytes, f: Findings)
    requires id.Valid()
    ensures Scan(ContextObjectId(0, id) + rest, f) == Scan(rest, f)
  {
    PrimitiveRoundTrip(0, true, id.Octets(), rest);
    ScanSkips(ContextObjectId(0, id), rest, f);
  }

  lemma {:induction false} LearnConcat(f: Findings, a: seq<PropertyAnswer>, b: seq<PropertyAnswer>)
    ensures LearnAll(f, a + b) == LearnAll(LearnAll(f, a), b)
    decreases |a|
  {
    if a == [] {
      assert a + b == b;
    } else {
      assert (a + b)[1..] == a[1..] + b;
      LearnConcat(Learn(f, a[0]), a[1..], b);
    }
  }

  /** Learning in order keeps the last value of each kind. */
  lemma {:induction false} LearnKeepsLast(properties: seq<PropertyAnswer>)
    ensures var g := LearnAll(NOTHING_FOUND, properties);
            var value, flags := LastValue(properties, PRESENT_VALUE), LastValue(properties, STATUS_FLAGS);
            && g.humidity == (if value.None? then None else RealOf(value.value))
            && g.fault == (if flags.None? then None else FaultOf(flags.value))
  {
    if properties != [] {
      var n := |properties| - 1;
      LearnKeepsLast(properties[..n]);
      assert properties == properties[..n] + [properties[n]];
      LearnConcat(NOTHING_FOUND, properties[..n], [properties[n]]);
      var g := LearnAll(NOTHING_FOUND, properties[..n]);
      assert LearnAll(g, [properties[n]]) == Learn(g, properties[n]);
    }
  }

  /** From any ReadPropertyMultiple-ACK of errors and values, primitive or constructed, without a [2] value or an
      opening [4] inside, for any objects and properties in any order, the scan finds exactly the last
      Present_Value, if it is a REAL, and the last Status_Flags. */
  lemma ReadPropertyMultipleAckFindings(invokeId: Byte, objects: seq<ObjectAnswer>)
    requires QuietObjects(objects)
    ensures var g := Scan(ReadPropertyMultipleAck(invokeId, objects)[3..], NOTHING_FOUND);
            var value, flags := LastValue(AllProperties(objects), PRESENT_VALUE),
                LastValue(AllProperties(objects), STATUS_FLAGS);
            && g.humidity == (if value.None? then None else RealOf(value.value))
            && g.fault == (if flags.None? then None else FaultOf(flags.value))
  {
    assert ReadPropertyMultipleAck(invokeId, objects)[3..] == ObjectsOctets(objects);
    ScanObjects(objects, NOTHING_FOUND);
    LearnKeepsLast(AllProperties(objects));
  }

  /** A constructed value of some other property with such tags inside is taken for a Present_Value. */
  lemma NestedAnswerTaken(invokeId: Byte, id: ObjectId)
    requires id.Valid()
    ensures var inner := AnswerOctets(PropertyAnswer(PRESENT_VALUE, Some(ApplicationReal(0))));
            var p := PropertyAnswer(0, Some(OpeningTag(0) + (inner + ClosingTag(0))));
            && LastValue(AllProperties([ObjectAnswer(id, [p])]), PRESENT_VALUE) == None
            && Scan(ReadPropertyMultipleAck(invokeId, [ObjectAnswer(id, [p])])[3..], NOTHING_FOUND).humidity == Some(0)
  {
    hide EncodePrimitive, HeadTag, TagStart, Scan, IsQuiet, AnswerOctets, RealOf, FaultOf, ReadPropertyMultipleAck;
    var answer := PropertyAnswer(PRESENT_VALUE, Some(ApplicationReal(0)));
    var inner := AnswerOctets(answer);
    var value := OpeningTag(0) + (inner + ClosingTag(0));
    var o := ObjectAnswer(id, [PropertyAnswer(0, Some(value))]);
    RealValue(0);
    PrimitiveIsQuiet(ApplicationReal(0));
    LoneProperty(o);
    var closed := ClosingTag(0) + (ClosingTag(4) + (ClosingTag(1) + []));
    var opened_ := OpeningTag(0) + (inner + closed);
    LoneAnswer(invokeId, id, value);
    var rest := OpeningTag(4) + opened_;
    assert OpeningTag(4) + (value + (ClosingTag(4) + (ClosingTag(1) + []))) == rest;
    var named := NOTHING_FOUND.(property := 0);
    ScanObjectId(id, OpeningTag(1) + (ContextUnsigned(2, 0) + rest), NOTHING_FOUND);
    ScanBracket(1, 6, ContextUnsigned(2, 0) + rest, NOTHING_FOUND);
    ScanName(0, rest, NOTHING_FOUND);
    ScanOtherValue(opened_, named);
    ScanBracket(0, 6, inner + closed, named);
    ScanAnswer(answer, closed, named);
    var g := Learn(named, answer);
    ScanBracket(0, 7, ClosingTag(4) + (ClosingTag(1) + []), g);
    ScanBracket(4, 7, ClosingTag(1) + [], g);
    ScanBracket(1, 7, [], g);
    ScanNothing(g);
  }

  lemma ScanNothing(f: Findings)
    ensures Scan([], f) == f
  {
  }

  lemma ScanName(property: nat, rest: Bytes, f: Findings)
    requires property < 0x1_0000_0000
    ensures Scan(ContextUnsigned(2, property) + rest, f) == Scan(rest, f.(property := property))
  {
    hide HeadTag, EncodePrimitive;
    UnsignedTag(2, property, rest);
  }

  lemma ScanOtherValue(rest: Bytes, f: Findings)
    requires f.property != PRESENT_VALUE && f.property != STATUS_FLAGS
    ensures Scan(OpeningTag(4) + rest, f) == Scan(rest, f)
  {
    hide HeadTag, TagStart;
    TagStartIsTag(4, 6, rest);
  }

  lemma LoneProperty(o: ObjectAnswer)
    requires |o.properties| == 1 && o.properties[0].property == 0
    ensures LastValue(AllProperties([o]), PRESENT_VALUE) == None
  {
    assert AllProperties([o]) == o.properties;
    assert o.properties[..0] == [];
  }

  lemma LoneAnswer(invokeId: Byte, id: ObjectId, value: Bytes)
    requires id.Valid()
    ensures ReadPropertyMultipleAck(invokeId, [ObjectAnswer(id, [PropertyAnswer(0, Some(value))])])[3..] ==
            ContextObjectId(0, id) + (OpeningTag(1) + (ContextUnsigned(2, 0) +
              (OpeningTag(4) + (value + (ClosingTag(4) + (ClosingTag(1) + []))))))
  {
    hide EncodePrimitive, TagStart;
    var o := ObjectAnswer(id, [PropertyAnswer(0, Some(value))]);
    assert o.properties[1..] == [] && [o][1..] == [];
    assert AnswersOctets([]) == [] && ObjectsOctets([]) == [];
    assert AnswersOctets(o.properties) == AnswerOctets(o.properties[0]) + [];
  }
}
