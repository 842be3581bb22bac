/** Clause 20.2.1 tags of ANSI/ASHRAE 135-2024, as the program's three readers see them: `ReadTag`
    in main.cpp, `DecodeTagHeader` in the shared C++ helper and `read_tag` in the Python codec. */
module Tags {
  import opened Octets

  datatype Kind = Value | Opening | Closing

  /** One tag at the head of an octet string: a header of `header` octets, then `length` content octets. */
  datatype Tag = Tag(number: Byte, isContext: bool, kind: Kind, header: nat, length: nat) {
    function Size(): nat { header + length }
  }

  predicate IsContextTag(initial: Byte) { initial as int / 8 % 2 == 1 }

  function LengthValueType(initial: Byte): nat { initial as int % 8 }

  /** An extended length at the head of `s`: the length, and the octets it takes. */
  function ExtendedLength(s: Bytes): (r: Option<(nat, nat)>)
    ensures r.Some? ==> 1 <= r.value.1 <= |s|
  {
    if s == [] then None
    else if s[0] < 254 then Some((s[0] as int, 1))
    else
      var octets := if s[0] == 254 then 2 else 4;
      if |s| < 1 + octets then None else Some((BigEndian(s[1..1 + octets]), 1 + octets))
  }

  /** The tag number and the octets that initial octet and extension take; None when cut short. */
  function NumberField(s: Bytes): (r: Option<(Byte, nat)>)
    ensures r.Some? ==> 1 <= r.value.1 <= |s|
  {
    if s == [] then None
    else if s[0] as int / 16 != 15 then Some((s[0] as int / 16, 1))
    else if |s| < 2 then None
    else Some((s[1], 2))
  }

  // ---------------------------------------------------------------------------
  // main.cpp: ReadTag
  // ---------------------------------------------------------------------------

  /** The tag main.cpp reads at the head of `s`: None when it is cut short or its content runs past the end. */
  function HeadTag(s: Bytes): (r: Option<Tag>)
    ensures r.Some? ==> 1 <= r.value.header && r.value.Size() <= |s|
  {
    var field := NumberField(s);
    if field.None? then None
    else
      var (number, octets) := field.value;
      var isContext, lengthValueType := IsContextTag(s[0]), LengthValueType(s[0]);
      if isContext && lengthValueType >= 6 then
        Some(Tag(number, true, if lengthValueType == 6 then Opening else Closing, octets, 0))
      else if !isContext && number == 1 then Some(Tag(number, false, Value, octets, 0))
      else if lengthValueType < 5 then
        if octets + lengthValueType <= |s| then Some(Tag(number, isContext, Value, octets, lengthValueType)) else None
      else
        var extended := ExtendedLength(s[octets..]);
        if extended.None? || octets + extended.value.1 + extended.value.0 > |s| then None
        else Some(Tag(number, isContext, Value, octets + extended.value.1, extended.value.0))
  }

  /** The extended length ReadTag reads octet by octet at `start`: the length and the position after it. */
  method ReadExtendedLength(octets: Bytes, start: nat) returns (r: Option<(nat, nat)>)
    requires start <= |octets|
    ensures r.Some? <==> ExtendedLength(octets[start..]).Some?
    ensures r.Some? ==> ExtendedLength(octets[start..]).value == (r.value.0, r.value.1 - start)
  {
    if start >= |octets| {
      return None;
    }
    var extended := octets[start];
    if extended < 254 {
      return Some((extended as int, start + 1));
    }
    var lengthOctets := if extended == 254 then 2 else 4;
    if start + 1 + lengthOctets > |octets| {
      return None;
    }
    ghost var tail := octets[start..];
    var length := 0;
    assert tail[1..1] == [];
    for lengthIndex := 0 to lengthOctets
      invariant length == BigEndian(tail[1..lengthIndex + 1])
    {
      BigEndianMore(tail, 1, lengthIndex + 1);
      length := length * 256 + octets[start + 1 + lengthIndex] as int;
    }
    return Some((length, start + 1 + lengthOctets));
  }

  /** The reader itself, which advances `position` over the octets. */
  method ReadTag(octets: Bytes, start: nat) returns (r: Option<Tag>)
    ensures r == HeadTag(Drop(octets, start))
    ensures r.Some? ==> start < start + r.value.Size() <= |octets|
  {
    if start >= |octets| {
      return None;
    }
    var position := start;
    var initial := octets[position];
    position := position + 1;
    var number: Byte := initial as int / 16;
    var isContext, lengthValueType := IsContextTag(initial), LengthValueType(initial);
    if number == 15 {
      if position >= |octets| {
        return None;
      }
      number := octets[position];
      position := position + 1;
    }
    ghost var s := octets[start..];
    assert NumberField(s) == Some((number, position - start));
    var kind, length := Value, 0;
    if isContext && lengthValueType == 6 {
      kind := Opening;
    } else if isContext && lengthValueType == 7 {
      kind := Closing;
    } else if !isContext && number == 1 {
      length := 0;
    } else if lengthValueType < 5 {
      length := lengthValueType;
    } else {
      assert s[position - start..] == octets[position..];
      var extended := ReadExtendedLength(octets, position);
      if extended.None? {
        return None;
      }
      length, position := extended.value.0, extended.value.1;
    }
    if position + length > |octets| {
      return None;
    }
    return Some(Tag(number, isContext, kind, position - start, length));
  }

  // ---------------------------------------------------------------------------
  // common/CASExampleHelper.cpp: DecodeTagHeader
  // ---------------------------------------------------------------------------

  datatype TagHeader = TagHeader(tagNumber: Byte, contextSpecific: bool, isOpeningTag: bool, isClosingTag: bool,
                                 length: nat, headerLength: nat)
  {
    function ToTag(): Tag {
      Tag(tagNumber, contextSpecific, if isOpeningTag then Opening else if isClosingTag then Closing else Value,
          headerLength, length)
    }
  }

  /** The header at `offset`. It does not ask whether the content fits; its callers do. */
  function DecodeTagHeader(frame: Bytes, offset: nat): (r: Option<TagHeader>)
    ensures r.Some? ==> 1 <= r.value.headerLength <= |frame| - offset
  {
    if offset >= |frame| then None
    else
      var b0 := frame[offset];
      var contextSpecific, lvt := b0 as int / 8 % 2 == 1, b0 as int % 8;
      var extendedNumber := b0 as int / 16 == 15;
      if extendedNumber && offset + 1 >= |frame| then None
      else
        var tagNumber: Byte := if extendedNumber then frame[offset + 1] else b0 as int / 16;
        var pos := offset + if extendedNumber then 2 else 1;
        if contextSpecific && lvt == 6 then Some(TagHeader(tagNumber, true, true, false, 0, pos - offset))
        else if contextSpecific && lvt == 7 then Some(TagHeader(tagNumber, true, false, true, 0, pos - offset))
        else if lvt <= 4 then Some(TagHeader(tagNumber, contextSpecific, false, false, lvt, pos - offset))
        else if lvt == 5 then
          if pos >= |frame| then None
          else if frame[pos] < 254 then
            Some(TagHeader(tagNumber, contextSpecific, false, false, frame[pos] as int, pos + 1 - offset))
          else if frame[pos] == 254 then
            if pos + 3 > |frame| then None
            else Some(TagHeader(tagNumber, contextSpecific, false, false,
                                frame[pos + 1] as int * 0x100 + frame[pos + 2] as int, pos + 3 - offset))
          else
            if pos + 5 > |frame| then None
            else Some(TagHeader(tagNumber, contextSpecific, false, false,
                                frame[pos + 1] as int * 0x100_0000 + frame[pos + 2] as int * 0x1_0000 +
                                frame[pos + 3] as int * 0x100 + frame[pos + 4] as int, pos + 5 - offset))
        else None
  }

  // ---------------------------------------------------------------------------
  // wiretest/codec.py: read_tag
  // ---------------------------------------------------------------------------

  /** What `read_tag` returns at the head of an octet string; `size` is how far it moves the position,
      which may be past the end: a Python slice is then shorter than the length the header gives. */
  datatype PythonTag = PythonTag(number: Byte, isContext: bool, kind: Kind, body: Bytes, size: nat)

  /** `read_tag` at the head of `s`; None is an IndexError, a struct.error or a ValueError. */
  function ReadPythonTag(s: Bytes): (r: Option<PythonTag>)
    ensures r.Some? ==> s != [] && r.value.size >= 1
  {
    var field := NumberField(s);
    if field.None? then None
    else
      var (number, octets) := field.value;
      var isContext, lengthValue := IsContextTag(s[0]), LengthValueType(s[0]);
      if isContext && lengthValue == 6 then Some(PythonTag(number, true, Opening, [], octets))
      else if isContext && lengthValue == 7 then Some(PythonTag(number, true, Closing, [], octets))
      else
        var extended := if lengthValue == 5 then ExtendedLength(s[octets..]) else Some((lengthValue, 0));
        if extended.None? then None
        else
          var (length, more) := extended.value;
          if !isContext && number == 1 then
            // The octet of a BOOLEAN's value: bytes([length]) raises ValueError for a length over 255.
            if length < 256 then Some(PythonTag(number, false, Value, [length], octets + more)) else None
          else Some(PythonTag(number, isContext, Value, Slice(s, octets + more, length), octets + more + length))
  }

  /** Which of them: a whole header of an application BOOLEAN whose extended length is over 255. */
  predicate RaisesValueError(s: Bytes) {
    var field := NumberField(s);
    && field.Some? && !IsContextTag(s[0]) && field.value.0 == 1 && LengthValueType(s[0]) == 5
    && var extended := ExtendedLength(s[field.value.1..]);
       extended.Some? && extended.value.0 >= 256
  }

  lemma ValueErrorIsNoTag(s: Bytes)
    requires RaisesValueError(s)
    ensures ReadPythonTag(s) == None
  {
  }

  // ---------------------------------------------------------------------------
  // Agreement of the readers, on every octet string
  // ---------------------------------------------------------------------------

  predicate IsApplicationBoolean(t: Tag) { !t.isContext && t.number == 1 }

  /** `p` is `t`, with the content `t` has in `s`. */
  predicate SameTag(s: Bytes, t: Tag, p: PythonTag)
    requires t.Size() <= |s|
  {
    p == PythonTag(t.number, t.isContext, t.kind, s[t.header..t.Size()], t.Size())
  }

  lemma DecodeTagHeaderLength(frame: Bytes, pos: nat)
    requires pos < |frame|
    ensures frame[pos] == 254 && pos + 3 <= |frame| ==>
              ExtendedLength(frame[pos..]) == Some((frame[pos + 1] as int * 0x100 + frame[pos + 2] as int, 3))
    ensures frame[pos] == 255 && pos + 5 <= |frame| ==>
              ExtendedLength(frame[pos..]) ==
              Some((frame[pos + 1] as int * 0x100_0000 + frame[pos + 2] as int * 0x1_0000 +
                    frame[pos + 3] as int * 0x100 + frame[pos + 4] as int, 5))
  {
    if frame[pos] == 254 && pos + 3 <= |frame| { BigEndian2(frame[pos..][1..3]); }
    if frame[pos] == 255 && pos + 5 <= |frame| { BigEndian4(frame[pos..][1..5]); }
  }

  /** Wherever DecodeTagHeader succeeds on a tag other than an application BOOLEAN and its content fits,
      all three readers give the same number, class, kind, content and next position. */
  lemma ReadersAgree(frame: Bytes, offset: nat)
    requires DecodeTagHeader(frame, offset).Some?
    requires var h := DecodeTagHeader(frame, offset).value;
             !IsApplicationBoolean(h.ToTag()) && offset + h.headerLength + h.length <= |frame|
    ensures var t := DecodeTagHeader(frame, offset).value.ToTag();
            && HeadTag(frame[offset..]) == Some(t)
            && ReadPythonTag(frame[offset..]).Some?
            && SameTag(frame[offset..], t, ReadPythonTag(frame[offset..]).value)
  {
    var s := frame[offset..];
    var octets := NumberField(s).value.1;
    assert s[octets..] == frame[offset + octets..];
    if LengthValueType(s[0]) == 5 {
      DecodeTagHeaderLength(frame, offset + octets);
    }
    assert HeadTag(s) == Some(DecodeTagHeader(frame, offset).value.ToTag());
    hide HeadTag, ReadPythonTag;
    ReservedLengthTypesDivide(frame, offset);
  }

  /** On a tag main.cpp accepts, other than an application BOOLEAN, the other two readers agree with it
      exactly when the tag is not one of the two application length/value/types the clause reserves:
      main.cpp takes 6 and 7 as "extended length follows", Python as the length itself, the helper refuses. */
  lemma ReservedLengthTypesDivide(frame: Bytes, offset: nat)
    requires offset < |frame| && HeadTag(frame[offset..]).Some?
    requires !IsApplicationBoolean(HeadTag(frame[offset..]).value)
    ensures var s, t := frame[offset..], HeadTag(frame[offset..]).value;
            var regular := t.isContext || LengthValueType(s[0]) <= 5;
            && (regular <==> ReadPythonTag(s).Some? && SameTag(s, t, ReadPythonTag(s).value))
            && (regular <==> DecodeTagHeader(frame, offset).Some? && DecodeTagHeader(frame, offset).value.ToTag() == t)
  {
    var s, t := frame[offset..], HeadTag(frame[offset..]).value;
    var (number, octets) := NumberField(s).value;
    assert s[octets..] == frame[offset + octets..];
    if !t.isContext && LengthValueType(s[0]) >= 6 {
      // main.cpp's content starts after a length octet, Python's at it: equal sizes mean unequal lengths.
      var p := ReadPythonTag(s).value;
      assert SameTag(s, t, p) ==> |p.body| == t.length;
    } else if LengthValueType(s[0]) == 5 {
      DecodeTagHeaderLength(frame, offset + octets);
    }
  }

  /** An application BOOLEAN keeps its value in the tag: main.cpp takes no content octet, whatever the
      length/value/type. Python steps over the same octets, and gives the value, exactly when that is not 5. */
  lemma BooleanInPython(s: Bytes)
    requires HeadTag(s).Some? && IsApplicationBoolean(HeadTag(s).value)
    ensures var t, lvt := HeadTag(s).value, LengthValueType(s[0]);
            && t.length == 0
            && (lvt != 5 <==> ReadPythonTag(s) == Some(PythonTag(1, false, Value, [lvt], t.Size())))
  {
    var octets := NumberField(s).value.1;
    assert HeadTag(s).value.Size() == octets;
    if LengthValueType(s[0]) == 5 {
      assert ReadPythonTag(s).Some? ==> ReadPythonTag(s).value.size > octets;
    }
  }

  /** The helper counts that value as a content length, so it agrees with main.cpp exactly on FALSE. */
  lemma BooleanInHelper(frame: Bytes, offset: nat)
    requires offset < |frame| && HeadTag(frame[offset..]).Some?
    requires IsApplicationBoolean(HeadTag(frame[offset..]).value)
    ensures LengthValueType(frame[offset]) == 0 <==>
            DecodeTagHeader(frame, offset).Some? &&
            DecodeTagHeader(frame, offset).value.ToTag() == HeadTag(frame[offset..]).value
  {
    assert frame[offset..][0] == frame[offset];
  }

  // ---------------------------------------------------------------------------
  // Reading a tag does not depend on what follows it
  // ---------------------------------------------------------------------------

  lemma ExtendedLengthLocal(s: Bytes, rest: Bytes)
    ensures ExtendedLength(s).Some? ==> ExtendedLength(s + rest) == ExtendedLength(s)
  {
    if ExtendedLength(s).Some? {
      var octets := ExtendedLength(s).value.1;
      assert (s + rest)[1..octets] == s[1..octets];
    }
  }

  lemma HeadTagLocal(s: Bytes, rest: Bytes)
    requires HeadTag(s).Some?
    ensures HeadTag(s + rest) == HeadTag(s)
  {
    var (_, octets) := NumberField(s).value;
    assert (s + rest)[octets..] == s[octets..] + rest;
    ExtendedLengthLocal(s[octets..], rest);
  }

  lemma SliceLocal(s: Bytes, rest: Bytes, from: nat, length: nat)
    requires from + length <= |s|
    ensures Slice(s + rest, from, length) == Slice(s, from, length)
  {
  }

  lemma NumberFieldLocal(s: Bytes, rest: Bytes)
    requires NumberField(s).Some?
    ensures NumberField(s + rest) == NumberField(s)
  {
  }

  lemma PythonTagLocal(s: Bytes, rest: Bytes)
    requires ReadPythonTag(s).Some? && ReadPythonTag(s).value.size <= |s|
    ensures ReadPythonTag(s + rest) == ReadPythonTag(s)
  {
    hide NumberField, ExtendedLength, IsContextTag, LengthValueType, Slice;
    var octets := NumberField(s).value.1;
    NumberFieldLocal(s, rest);
    assert (s + rest)[octets..] == s[octets..] + rest;
    ExtendedLengthLocal(s[octets..], rest);
    assert (s + rest)[0] == s[0];
    var (length, more) := if LengthValueType(s[0]) == 5 then ExtendedLength(s[octets..]).value
        else (LengthValueType(s[0]), 0);
    if octets + more + length <= |s| {
      SliceLocal(s, rest, octets + more, length);
    }
  }

  /** The same the other way: a tag that ends inside `s` is read from `s` alone. */
  lemma PythonTagWithin(s: Bytes, rest: Bytes)
    requires ReadPythonTag(s + rest).Some? && ReadPythonTag(s + rest).value.size <= |s|
    ensures ReadPythonTag(s) == ReadPythonTag(s + rest)
  {
    hide NumberField, ExtendedLength, IsContextTag, LengthValueType, Slice;
    var whole := s + rest;
    var octets := NumberField(whole).value.1;
    NumberFieldWithin(s, rest);
    assert whole[octets..] == s[octets..] + rest && whole[0] == s[0];
    var extended := ExtendedLength(whole[octets..]);
    if LengthValueType(s[0]) == 5 && octets + extended.value.1 <= |s| {
      ExtendedLengthWithin(s[octets..], rest);
    }
    var t := ReadPythonTag(whole).value;
    var more := if LengthValueType(s[0]) == 5 then extended.value.1 else 0;
    if t.size >= octets + more {
      SliceLocal(s, rest, octets + more, t.size - octets - more);
    }
  }

  lemma NumberFieldWithin(s: Bytes, rest: Bytes)
    requires NumberField(s + rest).Some? && NumberField(s + rest).value.1 <= |s|
    ensures NumberField(s) == NumberField(s + rest)
  {
  }

  lemma ExtendedLengthWithin(s: Bytes, rest: Bytes)
    requires ExtendedLength(s + rest).Some? && ExtendedLength(s + rest).value.1 <= |s|
    ensures ExtendedLength(s) == ExtendedLength(s + rest)
  {
    var octets := ExtendedLength(s + rest).value.1;
    assert (s + rest)[1..octets] == s[1..octets];
  }

  // ---------------------------------------------------------------------------
  // An encoder of tags, the readers' partner
  // ---------------------------------------------------------------------------

  /** Initial octet and tag number extension of clause 20.2.1. */
  function TagStart(number: Byte, isContext: bool, lengthValueType: nat): (s: Bytes)
    requires lengthValueType < 8
  {
    var low := (if isContext then 8 else 0) + lengthValueType;
    if number < 15 then [number as int * 16 + low] else [0xF0 + low, number]
  }

  /** The octets of an extended length. */
  function LengthOctets(n: nat): (s: Bytes)
    requires n < 0x1_0000_0000
    ensures ExtendedLength(s) == Some((n, |s|))
  {
    if n < 254 then [n]
    else if n < 0x1_0000 then
      var s := [254] + Big16(n);
      assert s[1..3] == Big16(n);
      s
    else
      var s := [255] + Big32(n);
      assert s[1..5] == Big32(n);
      s
  }

  /** A primitive tag with its shortest length encoding. */
  function EncodePrimitive(number: Byte, isContext: bool, content: Bytes): (s: Bytes)
    requires |content| < 0x1_0000_0000
  {
    if |content| < 5 then TagStart(number, isContext, |content|) + content
    else TagStart(number, isContext, 5) + LengthOctets(|content|) + content
  }

  lemma TagStartReads(number: Byte, isContext: bool, lengthValueType: nat, rest: Bytes)
    requires lengthValueType < 8
    ensures var start := TagStart(number, isContext, lengthValueType);
            && NumberField(start + rest) == Some((number, |start|))
            && IsContextTag(start[0]) == isContext && LengthValueType(start[0]) == lengthValueType
  {
    var low := (if isContext then 8 else 0) + lengthValueType;
    var high := if number < 15 then number as int else 15;
    assert (high * 16 + low) / 16 == high && (high * 16 + low) % 16 == low;
    assert (high * 16 + low) / 8 == high * 2 + low / 8;
  }

  lemma ShortPrimitive(number: Byte, isContext: bool, content: Bytes, rest: Bytes)
    requires |content| < 5 && (isContext || number != 1)
    ensures var start := TagStart(number, isContext, |content|);
            var s := start + content + rest;
            && HeadTag(s) == Some(Tag(number, isContext, Value, |start|, |content|))
            && ReadPythonTag(s) == Some(PythonTag(number, isContext, Value, content, |start| + |content|))
  {
    var start := TagStart(number, isContext, |content|);
    TagStartReads(number, isContext, |content|, content + rest);
    assert start + content + rest == start + (content + rest);
  }

  lemma LongPrimitive(number: Byte, isContext: bool, length: Bytes, content: Bytes, rest: Bytes)
    requires ExtendedLength(length) == Some((|content|, |length|)) && (isContext || number != 1)
    ensures var start := TagStart(number, isContext, 5);
            var s := start + length + content + rest;
            && HeadTag(s) == Some(Tag(number, isContext, Value, |start| + |length|, |content|))
            && ReadPythonTag(s) == Some(PythonTag(number, isContext, Value, content, |start| + |length| + |content|))
  {
    var start := TagStart(number, isContext, 5);
    var s := start + length + content + rest;
    TagStartReads(number, isContext, 5, length + content + rest);
    assert s == start + (length + content + rest);
    assert s[|start|..] == length + (content + rest);
    ExtendedLengthLocal(length, content + rest);
    assert Slice(s, |start| + |length|, |content|) == content;
  }

  /** Every primitive tag is read back, by main.cpp and by Python alike, whatever follows it. */
  lemma PrimitiveRoundTrip(number: Byte, isContext: bool, content: Bytes, rest: Bytes)
    requires |content| < 0x1_0000_0000
    requires isContext || number != 1
    ensures var s := EncodePrimitive(number, isContext, content);
            && HeadTag(s + rest) == Some(Tag(number, isContext, Value, |s| - |content|, |content|))
            && ReadPythonTag(s + rest) == Some(PythonTag(number, isContext, Value, content, |s|))
  {
    hide HeadTag, ReadPythonTag, TagStart, LengthOctets;
    if |content| < 5 {
      ShortPrimitive(number, isContext, content, rest);
    } else {
      LongPrimitive(number, isContext, LengthOctets(|content|), content, rest);
    }
  }
}
