/** The one exception `parse_write_property_request` of wiretest/codec.py lets out, and when. */
module PropertyErrors {
  import opened Octets
  import opened Tags
  import opened PropertyCodec

  // ---------------------------------------------------------------------------
  // Walking over tags
  // ---------------------------------------------------------------------------

  /** read_tag reads `tags` one after the other from the head of `s`. */
  predicate Walks(s: Bytes, tags: seq<PythonTag>)
    decreases |tags|
  {
    tags == [] || (ReadPythonTag(s) == Some(tags[0]) && Walks(Drop(s, tags[0].size), tags[1..]))
  }

  /** The octets after them. */
  function After(s: Bytes, tags: seq<PythonTag>): (rest: Bytes)
    decreases |tags|
  {
    if tags == [] then s else After(Drop(s, tags[0].size), tags[1..])
  }

  function Deeper(depth: int, tag: PythonTag): (d: int) {
    match tag.kind
    case Value => depth
    case Opening => depth + 1
    case Closing => depth - 1
  }

  /** How many tags are open after `tags`, with `depth` open before. */
  function Depth(tags: seq<PythonTag>, depth: int): (d: int) {
    if tags == [] then depth else Depth(tags[1..], Deeper(depth, tags[0]))
  }

  /** Nothing is closed before the last of `tags`. */
  predicate OpenBefore(tags: seq<PythonTag>, depth: int) {
    forall j | 0 <= j < |tags| :: Depth(tags[..j], depth) > 0
  }

  lemma OpenBeforeStep(tags: seq<PythonTag>, depth: int)
    requires tags != [] && depth > 0
    ensures OpenBefore(tags, depth) <==>
              |tags| == 1 || (Deeper(depth, tags[0]) > 0 && OpenBefore(tags[1..], Deeper(depth, tags[0])))
  {
    var rest, d := tags[1..], Deeper(depth, tags[0]);
    forall j | 1 <= j < |tags| ensures Depth(tags[..j], depth) == Depth(rest[..j - 1], d) {
      assert tags[..j][1..] == rest[..j - 1];
    }
    assert Depth(tags[..0], depth) == depth;
    if |tags| > 1 {
      assert Depth(tags[..1], depth) == Depth(rest[..0], d) == d;
      if OpenBefore(tags, depth) {
        forall j | 0 <= j < |rest| ensures Depth(rest[..j], d) > 0 {
          assert Depth(tags[..j + 1], depth) > 0;
        }
      }
    }
  }

  // ---------------------------------------------------------------------------
  // The value and the priority
  // ---------------------------------------------------------------------------

  /** A ValueError in the scan of the value, or at the priority after it. */
  predicate ValueRaises(s: Bytes, depth: nat)
    requires depth >= 1
  {
    || ScanRaisesValueError(s, depth)
    || (Enclosed(s, depth).Some? && RaisesValueError(Drop(s, Enclosed(s, depth).value.1)))
  }

  lemma ValueRaisesStep(s: Bytes, depth: nat)
    requires depth >= 1
    ensures var tag := ReadPythonTag(s);
            ValueRaises(s, depth) <==>
              if tag.None? then RaisesValueError(s)
              else if Deeper(depth, tag.value) == 0 then RaisesValueError(Drop(s, tag.value.size))
              else ValueRaises(Drop(s, tag.value.size), Deeper(depth, tag.value))
  {
    hide ReadPythonTag, RaisesValueError, Drop;
    var tag := ReadPythonTag(s);
    if tag.Some? && Deeper(depth, tag.value) != 0 {
      var end := Enclosed(Drop(s, tag.value.size), Deeper(depth, tag.value));
      if end.Some? {
        DropDrop(s, tag.value.size, end.value.1);
      }
    }
  }

  /** The walk to the tag that raises. */
  lemma {:induction false} RaisingWalk(s: Bytes, depth: nat) returns (tags: seq<PythonTag>)
    requires depth >= 1 && ValueRaises(s, depth)
    ensures Walks(s, tags) && OpenBefore(tags, depth) && RaisesValueError(After(s, tags))
    decreases |s|
  {
    hide ReadPythonTag, RaisesValueError, OpenBefore, ValueRaises;
    ValueRaisesStep(s, depth);
    var tag := ReadPythonTag(s);
    if tag.None? {
      tags := [];
      NothingBefore(depth);
    } else {
      var rest, d := Drop(s, tag.value.size), Deeper(depth, tag.value);
      var more := [];
      if d > 0 {
        more := RaisingWalk(rest, d);
      }
      tags := [tag.value] + more;
      assert tags[1..] == more;
      OpenBeforeStep(tags, depth);
    }
  }

  lemma NothingBefore(depth: int)
    ensures OpenBefore([], depth)
  {
  }

  /** And such a walk makes it raise. */
  lemma {:induction false} WalkRaises(s: Bytes, depth: nat, tags: seq<PythonTag>)
    requires depth >= 1 && Walks(s, tags) && OpenBefore(tags, depth) && RaisesValueError(After(s, tags))
    ensures ValueRaises(s, depth)
    decreases |tags|
  {
    hide ReadPythonTag, RaisesValueError, OpenBefore, ValueRaises;
    ValueRaisesStep(s, depth);
    if tags == [] {
      ValueErrorIsNoTag(s);
    } else {
      OpenBeforeStep(tags, depth);
      var rest, d := Drop(s, tags[0].size), Deeper(depth, tags[0]);
      if |tags| == 1 {
        ValueErrorIsNoTag(rest);
        if d > 0 {
          ValueRaisesStep(rest, d);
        }
      } else {
        WalkRaises(rest, d, tags[1..]);
      }
    }
  }

  // ---------------------------------------------------------------------------
  // The whole request
  // ---------------------------------------------------------------------------

  /** How many tags come before the value: object, property, optional index, opening tag. */
  function ValueStart(tags: seq<PythonTag>): (n: nat) {
    if |tags| >= 3 && IsIndex(tags[2]) then 4 else 3
  }

  /** After these tags the parser reads another: the object identifier had four octets, and the value is still
      open or closed by the last. */
  predicate StillParsing(tags: seq<PythonTag>) {
    && (tags != [] ==> |tags[0].body| == 4)
    && (|tags| > ValueStart(tags) ==> OpenBefore(tags[ValueStart(tags)..], 1))
  }

  ghost predicate MeetsLongBoolean(apdu: Bytes)
    requires |apdu| >= 4
  {
    exists tags: seq<PythonTag> ::
      Walks(apdu[4..], tags) && StillParsing(tags) && RaisesValueError(After(apdu[4..], tags))
  }

  lemma BracketedRaises(id: ObjectId, property: nat, index: Option<nat>, s: Bytes)
    ensures var opening := ReadPythonTag(s);
            ParseBracketed(id, property, index, s) == ValueError <==>
              if opening.None? then RaisesValueError(s) else ValueRaises(Drop(s, opening.value.size), 1)
  {
    hide ReadPythonTag, RaisesValueError, Drop;
    var opening := ReadPythonTag(s);
    if opening.Some? {
      var value := Drop(s, opening.value.size);
      var end := Enclosed(value, 1);
      if end.Some? {
        PriorityRaises(WriteRequest(id, property, index, value[..end.value.0], None), Drop(value, end.value.1));
        ScanEnds(value, 1);
      }
    }
  }

  lemma PriorityRaises(r: WriteRequest, s: Bytes)
    ensures WithPriority(r, s) == ValueError <==> RaisesValueError(s)
  {
    if RaisesValueError(s) {
      ValueErrorIsNoTag(s);
    }
  }

  lemma {:induction false} ScanEnds(s: Bytes, depth: nat)
    requires depth >= 1 && Enclosed(s, depth).Some?
    ensures !ScanRaisesValueError(s, depth)
    decreases |s|
  {
    hide ReadPythonTag, RaisesValueError, Drop;
    var tag := ReadPythonTag(s);
    var d := Deeper(depth, tag.value);
    if d > 0 {
      ScanEnds(Drop(s, tag.value.size), d);
    }
  }

  lemma {:induction false} WalksOn(s: Bytes, front: seq<PythonTag>, more: seq<PythonTag>)
    requires Walks(s, front)
    ensures Walks(s, front + more) == Walks(After(s, front), more)
    ensures After(s, front + more) == After(After(s, front), more)
    decreases |front|
  {
    hide ReadPythonTag;
    if front == [] {
      assert front + more == more;
    } else {
      assert (front + more)[1..] == front[1..] + more;
      WalksOn(Drop(s, front[0].size), front[1..], more);
    }
  }

  lemma WalksOne(s: Bytes, tag: PythonTag)
    requires ReadPythonTag(s) == Some(tag)
    ensures Walks(s, [tag]) && After(s, [tag]) == Drop(s, tag.size)
  {
  }

  predicate IsIndex(tag: PythonTag) { tag.number == 2 && tag.kind == Value }

  /** What stops the part after the property identifier: before its value, or in it. */
  lemma PartRaises(id: ObjectId, property: nat, s: Bytes)
    ensures var index := ReadPythonTag(s);
            var rest := if index.Some? then Drop(s, index.value.size) else [];
            ParseValuePart(id, property, s) == ValueError <==>
              if index.None? then RaisesValueError(s)
              else if !IsIndex(index.value) then ValueRaises(rest, 1)
              else
                var opening := ReadPythonTag(rest);
                if opening.None? then RaisesValueError(rest) else ValueRaises(Drop(rest, opening.value.size), 1)
  {
    hide ReadPythonTag, RaisesValueError, Drop, ParseBracketed, ValueRaises;
    var index := ReadPythonTag(s);
    if index.Some? {
      if IsIndex(index.value) {
        BracketedRaises(id, property, Some(BigEndian(index.value.body)), Drop(s, index.value.size));
      } else {
        BracketedRaises(id, property, None, s);
      }
    }
  }

  lemma RaisingPart(id: ObjectId, property: nat, s: Bytes) returns (tags: seq<PythonTag>)
    requires ParseValuePart(id, property, s) == ValueError
    ensures Walks(s, tags) && RaisesValueError(After(s, tags)) && PartStillParsing(tags)
  {
    hide ReadPythonTag, RaisesValueError, Drop, ValueRaises, OpenBefore, ParseValuePart, Walks, After;
    PartRaises(id, property, s);
    var first := ReadPythonTag(s);
    if first.None? {
      tags := [];
      WalksNothing(s);
    } else {
      WalksOne(s, first.value);
      var rest := Drop(s, first.value.size);
      var more;
      if !IsIndex(first.value) {
        more := RaisingWalk(rest, 1);
      } else if ReadPythonTag(rest).None? {
        more := [];
        WalksNothing(rest);
      } else {
        var opening := ReadPythonTag(rest).value;
        WalksOne(rest, opening);
        var v := RaisingWalk(Drop(rest, opening.size), 1);
        WalksOn(rest, [opening], v);
        more := [opening] + v;
        assert ([first.value] + more)[2..] == v;
      }
      WalksOn(s, [first.value], more);
      tags := [first.value] + more;
      assert tags[1..] == more;
    }
  }

  lemma WalksNothing(s: Bytes)
    ensures Walks(s, []) && After(s, []) == s
  {
  }

  /** StillParsing from the tag after the property identifier on. */
  predicate PartStillParsing(tags: seq<PythonTag>) {
    var n := if tags != [] && IsIndex(tags[0]) then 2 else 1;
    |tags| > n ==> OpenBefore(tags[n..], 1)
  }

  lemma PartRaisesBack(id: ObjectId, property: nat, s: Bytes, tags: seq<PythonTag>)
    requires Walks(s, tags) && RaisesValueError(After(s, tags)) && PartStillParsing(tags)
    ensures ParseValuePart(id, property, s) == ValueError
  {
    hide RaisesValueError, ValueRaises, OpenBefore, ParseValuePart, ReadPythonTag, Drop;
    PartRaises(id, property, s);
    ValueErrorIsNoTag(After(s, tags));
    if tags != [] {
      var rest := Drop(s, tags[0].size);
      NothingBefore(1);
      if !IsIndex(tags[0]) {
        assert tags[1..] == [] || |tags| > 1;
        WalkRaises(rest, 1, tags[1..]);
      } else if |tags| > 1 {
        assert tags[1..][1..] == tags[2..];
        WalkRaises(Drop(rest, tags[1].size), 1, tags[2..]);
      }
    }
  }

  lemma ShiftedStillParsing(first: PythonTag, second: PythonTag, tags: seq<PythonTag>)
    ensures StillParsing([first, second] + tags) <==> |first.body| == 4 && PartStillParsing(tags)
  {
    var all, n := [first, second] + tags, if tags != [] && IsIndex(tags[0]) then 2 else 1;
    if |tags| > n {
      assert all[n + 2..] == tags[n..];
    }
  }

  /** parse_write_property_request lets a ValueError out exactly when, on the walk over the tags of a WriteProperty
      request it makes before it is done, it comes to a whole application BOOLEAN header of extended length 256
      or more. */
  lemma ParserRaisesExactly(apdu: Bytes)
    ensures ParsedWriteProperty(apdu) == ValueError <==>
              |apdu| >= 4 && apdu[0] as int / 16 == 0 && apdu[3] == SERVICE_WRITE_PROPERTY && MeetsLongBoolean(apdu)
  {
    hide ParsedWriteProperty, MeetsLongBoolean;
    if |apdu| >= 4 && apdu[0] as int / 16 == 0 && apdu[3] == SERVICE_WRITE_PROPERTY {
      if ParsedWriteProperty(apdu) == ValueError {
        RaisingRequest(apdu);
      }
      if MeetsLongBoolean(apdu) {
        LongBooleanRaises(apdu);
      }
    } else {
      OtherApdu(apdu);
    }
  }

  lemma OtherApdu(apdu: Bytes)
    requires |apdu| < 4 || apdu[0] as int / 16 != 0 || apdu[3] != SERVICE_WRITE_PROPERTY
    ensures ParsedWriteProperty(apdu) == NoRequest
  {
  }

  lemma RaisingRequest(apdu: Bytes)
    requires |apdu| >= 4 && ParsedWriteProperty(apdu) == ValueError
    ensures MeetsLongBoolean(apdu)
  {
    hide ReadPythonTag, RaisesValueError, Drop, ParseValuePart, Walks, After, StillParsing, PartStillParsing, BigEndian,
         ObjectId.FromNumber;
    var s := apdu[4..];
    var tags: seq<PythonTag> := [];
    WalksNothing(s);
    FewStillParsing([]);
    var first := ReadPythonTag(s);
    if first.Some? {
      WalksOne(s, first.value);
      FewStillParsing([first.value]);
      tags := [first.value];
      var rest := Drop(s, first.value.size);
      var second := ReadPythonTag(rest);
      if second.Some? {
        WalksOne(rest, second.value);
        WalksOn(s, [first.value], [second.value]);
        var front := [first.value] + [second.value];
        var id, property := ObjectId.FromNumber(BigEndian(first.value.body)), BigEndian(second.value.body);
        var part := RaisingPart(id, property, Drop(rest, second.value.size));
        WalksOn(s, front, part);
        ShiftedStillParsing(first.value, second.value, part);
        assert front + part == [first.value, second.value] + part;
        tags := front + part;
      }
    }
    assert Walks(s, tags) && StillParsing(tags) && RaisesValueError(After(s, tags));
  }

  lemma FewStillParsing(tags: seq<PythonTag>)
    requires |tags| <= 1
    ensures StillParsing(tags) <==> (tags != [] ==> |tags[0].body| == 4)
  {
  }

  lemma LongBooleanRaises(apdu: Bytes)
    requires |apdu| >= 4 && apdu[0] as int / 16 == 0 && apdu[3] == SERVICE_WRITE_PROPERTY && MeetsLongBoolean(apdu)
    ensures ParsedWriteProperty(apdu) == ValueError
  {
    hide ReadPythonTag, RaisesValueError, Drop, ParseValuePart, BigEndian, ObjectId.FromNumber, StillParsing,
         PartStillParsing;
    var s := apdu[4..];
    var tags: seq<PythonTag> :| Walks(s, tags) && StillParsing(tags) && RaisesValueError(After(s, tags));
    ValueErrorIsNoTag(After(s, tags));
    if tags != [] {
      FirstWalked(s, tags);
      var rest, more := Drop(s, tags[0].size), tags[1..];
      if more == [] {
        FewStillParsing(tags);
      } else {
        FirstWalked(rest, more);
        assert tags == [tags[0], tags[1]] + tags[2..] && more[1..] == tags[2..];
        ShiftedStillParsing(tags[0], tags[1], tags[2..]);
        var id, property := ObjectId.FromNumber(BigEndian(tags[0].body)), BigEndian(tags[1].body);
        PartRaisesBack(id, property, Drop(rest, tags[1].size), tags[2..]);
      }
    }
  }

  lemma FirstWalked(s: Bytes, tags: seq<PythonTag>)
    requires Walks(s, tags) && tags != []
    ensures ReadPythonTag(s) == Some(tags[0])
    ensures Walks(Drop(s, tags[0].size), tags[1..]) && After(s, tags) == After(Drop(s, tags[0].size), tags[1..])
  {
  }
}
