/** Which octets parse_write_property_request takes for a request, and for which (wiretest/codec.py): whatever tags
    they are, not only those an encoder writes. */
module PropertyRequests {
  import opened Octets
  import opened Tags
  import opened PropertyCodec
  import opened PropertyErrors

  /** The octets of some tags in a row. */
  function TotalSize(tags: seq<PythonTag>): (n: nat) {
    if tags == [] then 0 else tags[0].size + TotalSize(tags[1..])
  }

  /** The tags from `tags[from]` on open and close a value: the last closes it, and none before does. */
  predicate Encloses(tags: seq<PythonTag>) { tags != [] && OpenBefore(tags, 1) && Depth(tags, 1) == 0 }

  /** The tags of a request up to the one that closes its value, and the fields they hold: the object identifier in
      four octets, the property, a context or application [2] value as the index, one tag of any kind, and the
      value's octets; then, if anything is left, one more tag with the priority. */
  predicate Reads(s: Bytes, tags: seq<PythonTag>, r: WriteRequest) {
    var n := ValueStart(tags);
    && Walks(s, tags) && |tags| > n && |tags[0].body| == 4 && Encloses(tags[n..])
    && r.id == ObjectId.FromNumber(BigEndian(tags[0].body)) && r.property == BigEndian(tags[1].body)
    && r.arrayIndex == (if n == 4 then Some(BigEndian(tags[2].body)) else None)
    && r.value == Slice(After(s, tags[..n]), 0, TotalSize(tags[n..|tags| - 1]))
    && IsPriority(After(s, tags), r.priority)
  }

  predicate IsPriority(s: Bytes, priority: Option<nat>) {
    if s == [] then priority == None
    else ReadPythonTag(s).Some? && priority == Some(BigEndian(ReadPythonTag(s).value.body))
  }

  ghost predicate IsRequestOf(apdu: Bytes, r: WriteRequest) {
    |apdu| >= 4 && apdu[0] as int / 16 == 0 && apdu[3] == 15 && exists tags :: Reads(apdu[4..], tags, r)
  }

  // ---------------------------------------------------------------------------
  // The value
  // ---------------------------------------------------------------------------

  lemma {:induction false} EnclosedIsWalk(s: Bytes, depth: nat) returns (tags: seq<PythonTag>)
    requires depth >= 1 && Enclosed(s, depth).Some?
    ensures Walks(s, tags) && tags != [] && OpenBefore(tags, depth) && Depth(tags, depth) == 0
    decreases |s|
  {
    hide ReadPythonTag, OpenBefore, Drop;
    var tag := ReadPythonTag(s).value;
    if tag.kind == Closing && depth == 1 {
      tags := [tag];
      OpenBeforeStep(tags, depth);
    } else {
      var d := Deeper(depth, tag);
      var more := EnclosedIsWalk(Drop(s, tag.size), d);
      tags := [tag] + more;
      assert tags[1..] == more;
      OpenBeforeStep(tags, depth);
    }
  }

  lemma {:induction false} WalkIsEnclosed(s: Bytes, depth: nat, tags: seq<PythonTag>)
    requires depth >= 1 && Walks(s, tags) && tags != [] && OpenBefore(tags, depth) && Depth(tags, depth) == 0
    ensures Enclosed(s, depth) == Some((TotalSize(tags[..|tags| - 1]), TotalSize(tags)))
    decreases |tags|
  {
    hide ReadPythonTag, OpenBefore, Drop;
    OpenBeforeStep(tags, depth);
    var d, rest := Deeper(depth, tags[0]), tags[1..];
    if |tags| == 1 {
      assert tags[..0] == [] && rest == [];
    } else {
      WalkIsEnclosed(Drop(s, tags[0].size), d, rest);
      assert tags[..|tags| - 1][1..] == rest[..|rest| - 1];
    }
  }

  lemma {:induction false} AfterIsDrop(s: Bytes, tags: seq<PythonTag>)
    ensures After(s, tags) == Drop(s, TotalSize(tags))
    decreases |tags|
  {
    if tags != [] {
      AfterIsDrop(Drop(s, tags[0].size), tags[1..]);
      DropDrop(s, tags[0].size, TotalSize(tags[1..]));
    }
  }

  /** The value and the priority of a request, from the tag before the value on. */
  predicate ReadsValue(s: Bytes, tags: seq<PythonTag>, value: Bytes, priority: Option<nat>) {
    && Walks(s, tags) && Encloses(tags) && value == Slice(s, 0, TotalSize(tags[..|tags| - 1]))
    && IsPriority(After(s, tags), priority)
  }

  lemma BracketedReads(id: ObjectId, property: nat, index: Option<nat>, s: Bytes, r: WriteRequest)
    ensures ParseBracketed(id, property, index, s) == Request(r) <==>
              && ReadPythonTag(s).Some? && r.id == id && r.property == property && r.arrayIndex == index
              && exists tags :: ReadsValue(Drop(s, ReadPythonTag(s).value.size), tags, r.value, r.priority)
  {
    hide ReadPythonTag, RaisesValueError, BigEndian, Drop, Walks, OpenBefore, Depth, Enclosed, ScanRaisesValueError;
    if ReadPythonTag(s).Some? {
      var rest := Drop(s, ReadPythonTag(s).value.size);
      forall tags | Walks(rest, tags) && Encloses(tags)
        ensures Enclosed(rest, 1) == Some((TotalSize(tags[..|tags| - 1]), TotalSize(tags)))
        ensures After(rest, tags) == Drop(rest, TotalSize(tags))
      {
        WalkIsEnclosed(rest, 1, tags);
        AfterIsDrop(rest, tags);
      }
      if Enclosed(rest, 1).Some? {
        var tags := EnclosedIsWalk(rest, 1);
        assert Encloses(tags);
        assert rest[..Enclosed(rest, 1).value.0] == Slice(rest, 0, TotalSize(tags[..|tags| - 1]));
        assert r.value == rest[..Enclosed(rest, 1).value.0] && IsPriority(After(rest, tags), r.priority) ==>
          ReadsValue(rest, tags, r.value, r.priority);
      }
    }
  }

  // ---------------------------------------------------------------------------
  // The whole request
  // ---------------------------------------------------------------------------

  /** The tags before the value. */
  predicate ReadsFront(s: Bytes, front: seq<PythonTag>, r: WriteRequest) {
    && Walks(s, front) && |front| == ValueStart(front) && |front[0].body| == 4
    && r.id == ObjectId.FromNumber(BigEndian(front[0].body)) && r.property == BigEndian(front[1].body)
    && r.arrayIndex == if |front| == 4 then Some(BigEndian(front[2].body)) else None
  }

  lemma ReadsInTwo(s: Bytes, tags: seq<PythonTag>, r: WriteRequest)
    ensures var n := ValueStart(tags);
      Reads(s, tags, r) <==>
        && |tags| > n && ReadsFront(s, tags[..n], r) && ReadsValue(After(s, tags[..n]), tags[n..], r.value, r.priority)
  {
    hide ReadPythonTag, BigEndian, Walks, OpenBefore, Depth, Slice, IsPriority;
    var n := ValueStart(tags);
    if |tags| > n {
      var front, rest := tags[..n], tags[n..];
      assert tags == front + rest;
      assert rest[..|rest| - 1] == tags[n..|tags| - 1];
      WalksInTwo(s, front, rest);
    }
  }

  lemma {:induction false} WalksInTwo(s: Bytes, front: seq<PythonTag>, rest: seq<PythonTag>)
    ensures Walks(s, front + rest) <==> Walks(s, front) && Walks(After(s, front), rest)
    ensures Walks(s, front) ==> After(s, front + rest) == After(After(s, front), rest)
    decreases |front|
  {
    hide ReadPythonTag;
    if front == [] {
      assert front + rest == rest;
    } else {
      assert (front + rest)[1..] == front[1..] + rest;
      WalksInTwo(Drop(s, front[0].size), front[1..], rest);
    }
  }

  lemma ReadsTogether(s: Bytes, front: seq<PythonTag>, value: seq<PythonTag>, r: WriteRequest)
    requires ReadsFront(s, front, r) && ReadsValue(After(s, front), value, r.value, r.priority)
    ensures Reads(s, front + value, r)
  {
    hide ReadPythonTag, BigEndian, Walks, OpenBefore, Depth, Slice, IsPriority;
    var tags := front + value;
    assert ValueStart(tags) == |front| && tags[..|front|] == front && tags[|front|..] == value;
    ReadsInTwo(s, tags, r);
  }

  /** Object identifier, property identifier and what comes before the value, one after the other. */
  lemma FrontTags(s: Bytes, front: seq<PythonTag>, r: WriteRequest)
    requires |front| == ValueStart(front)
    ensures var rest := Drop(Drop(s, front[0].size), front[1].size);
      ReadsFront(s, front, r) <==>
        && ReadPythonTag(s) == Some(front[0]) && |front[0].body| == 4
        && ReadPythonTag(Drop(s, front[0].size)) == Some(front[1]) && ReadPythonTag(rest) == Some(front[2])
        && (|front| == 4 ==> ReadPythonTag(Drop(rest, front[2].size)) == Some(front[3]))
        && r.id == ObjectId.FromNumber(BigEndian(front[0].body)) && r.property == BigEndian(front[1].body)
        && r.arrayIndex == if |front| == 4 then Some(BigEndian(front[2].body)) else None
    ensures var rest := Drop(Drop(Drop(s, front[0].size), front[1].size), front[2].size);
      After(s, front) == if |front| == 4 then Drop(rest, front[3].size) else rest
  {
    hide ReadPythonTag, BigEndian, Drop;
    var a := Drop(s, front[0].size);
    var b := Drop(a, front[1].size);
    WalksStep(s, front);
    WalksStep(a, front[1..]);
    assert front[1..][1..] == front[2..];
    WalksStep(b, front[2..]);
    assert front[2..][1..] == front[3..];
    if |front| == 4 {
      WalksStep(Drop(b, front[2].size), front[3..]);
      assert front[3..][1..] == [];
    } else {
      assert front[3..] == [];
    }
  }

  lemma WalksStep(s: Bytes, tags: seq<PythonTag>)
    requires tags != []
    ensures var rest := Drop(s, tags[0].size);
      && (Walks(s, tags) <==> ReadPythonTag(s) == Some(tags[0]) && Walks(rest, tags[1..]))
      && After(s, tags) == After(rest, tags[1..])
  {
  }

  /** The parser takes an APDU for a request, and for which, exactly when the octets say so, tag by tag. */
  lemma RequestExactly(apdu: Bytes, r: WriteRequest)
    ensures ParsedWriteProperty(apdu) == Request(r) <==> IsRequestOf(apdu, r)
  {
    hide ParsedWriteProperty, Reads;
    if |apdu| >= 4 && apdu[0] as int / 16 == 0 && apdu[3] == SERVICE_WRITE_PROPERTY {
      if ParsedWriteProperty(apdu) == Request(r) {
        var tags := TagsOfRequest(apdu, r);
      }
      forall tags | Reads(apdu[4..], tags, r) ensures ParsedWriteProperty(apdu) == Request(r) {
        TagsRead(apdu, tags, r);
      }
    } else {
      OtherApdu(apdu);
    }
  }

  lemma TagsOfRequest(apdu: Bytes, r: WriteRequest) returns (tags: seq<PythonTag>)
    requires |apdu| >= 4 && ParsedWriteProperty(apdu) == Request(r)
    ensures Reads(apdu[4..], tags, r)
  {
    hide ReadPythonTag, RaisesValueError, BigEndian, Drop, ParseBracketed, ReadsFront, Reads, ReadsValue;
    var s := apdu[4..];
    var first := ReadPythonTag(s).value;
    var second := ReadPythonTag(Drop(s, first.size)).value;
    var rest := Drop(Drop(s, first.size), second.size);
    var third := ReadPythonTag(rest).value;
    var front := [first, second, third];
    var (id, number) := (ObjectId.FromNumber(BigEndian(first.body)), BigEndian(second.body));
    if IsIndex(third) {
      var index := Some(BigEndian(third.body));
      BracketedReads(id, number, index, Drop(rest, third.size), r);
      front := front + [ReadPythonTag(Drop(rest, third.size)).value];
    } else {
      BracketedReads(id, number, None, rest, r);
    }
    FrontTags(s, front, r);
    var value :| ReadsValue(After(s, front), value, r.value, r.priority);
    ReadsTogether(s, front, value, r);
    tags := front + value;
  }

  lemma TagsRead(apdu: Bytes, tags: seq<PythonTag>, r: WriteRequest)
    requires |apdu| >= 4 && apdu[0] as int / 16 == 0 && apdu[3] == SERVICE_WRITE_PROPERTY
    requires Reads(apdu[4..], tags, r)
    ensures ParsedWriteProperty(apdu) == Request(r)
  {
    hide ReadPythonTag, RaisesValueError, BigEndian, Drop, ParseBracketed, ReadsFront, Reads, ReadsValue;
    var s, n := apdu[4..], ValueStart(tags);
    ReadsInTwo(s, tags, r);
    var front := tags[..n];
    assert |front| == ValueStart(front);
    FrontTags(s, front, r);
    var rest := Drop(Drop(s, front[0].size), front[1].size);
    var (id, number) := (ObjectId.FromNumber(BigEndian(front[0].body)), BigEndian(front[1].body));
    if n == 4 {
      BracketedReads(id, number, Some(BigEndian(front[2].body)), Drop(rest, front[2].size), r);
    } else {
      BracketedReads(id, number, None, rest, r);
    }
  }

  // ---------------------------------------------------------------------------
  // read_property_value
  // ---------------------------------------------------------------------------

  predicate IsValueStart(tag: PythonTag) { tag.isContext && tag.number == 3 && tag.kind == Opening }

  predicate HoldsValue(s: Bytes, tags: seq<PythonTag>, value: Bytes) {
    Walks(s, tags) && Encloses(tags) && value == Slice(s, 0, TotalSize(tags[..|tags| - 1]))
  }

  /** The tags `front`, none of them a context opening [3], lead to the first one, and a value after it. */
  ghost predicate LeadsToValue(s: Bytes, front: seq<PythonTag>, value: Bytes) {
    && Walks(s, front) && front != [] && IsValueStart(front[|front| - 1])
    && (forall i | 0 <= i < |front| - 1 :: !IsValueStart(front[i]))
    && exists tags :: HoldsValue(After(s, front), tags, value)
  }

  /** read_property_value returns the octets of the value after the first context opening [3], and of no other. */
  lemma {:induction false} ValueFoundExactly(s: Bytes, value: Bytes)
    ensures ValueIn(s) == Found(value) <==> exists front :: LeadsToValue(s, front, value)
    decreases |s|
  {
    hide ReadPythonTag, Drop, HoldsValue, LeadsToValue, Enclosed;
    NothingLeads(s, value);
    if s != [] && ReadPythonTag(s).Some? {
      var tag := ReadPythonTag(s).value;
      var rest := Drop(s, tag.size);
      if IsValueStart(tag) {
        StartLeads(s, tag, value);
        ValueHeld(rest, value);
      } else {
        ValueFoundExactly(rest, value);
        TagLeads(s, tag, value);
      }
    }
  }

  lemma NothingLeads(s: Bytes, value: Bytes)
    ensures s == [] || ReadPythonTag(s).None? ==> !exists front :: LeadsToValue(s, front, value)
  {
    hide HoldsValue;
  }

  lemma StartLeads(s: Bytes, tag: PythonTag, value: Bytes)
    requires ReadPythonTag(s) == Some(tag) && IsValueStart(tag)
    ensures (exists front :: LeadsToValue(s, front, value)) <==>
            exists tags :: HoldsValue(Drop(s, tag.size), tags, value)
  {
    hide ReadPythonTag, Drop, HoldsValue, IsValueStart;
    WalksOne(s, tag);
    forall front | LeadsToValue(s, front, value) ensures exists tags :: HoldsValue(Drop(s, tag.size), tags, value) {
      WalksStep(s, front);
      assert |front| == 1;
      assert front == [tag];
    }
    if tags :| HoldsValue(Drop(s, tag.size), tags, value) {
      assert LeadsToValue(s, [tag], value);
    }
  }

  lemma TagLeads(s: Bytes, tag: PythonTag, value: Bytes)
    requires ReadPythonTag(s) == Some(tag) && !IsValueStart(tag)
    ensures (exists front :: LeadsToValue(s, front, value)) <==>
            exists front :: LeadsToValue(Drop(s, tag.size), front, value)
  {
    hide ReadPythonTag, Drop, HoldsValue, IsValueStart;
    var rest := Drop(s, tag.size);
    forall front | LeadsToValue(s, front, value) ensures exists more :: LeadsToValue(rest, more, value) {
      WalksStep(s, front);
      var more := front[1..];
      assert |front| > 1;
      assert forall i | 0 <= i < |more| - 1 :: more[i] == front[i + 1];
      assert LeadsToValue(rest, more, value);
    }
    forall more | LeadsToValue(rest, more, value) ensures exists front :: LeadsToValue(s, front, value) {
      var front := [tag] + more;
      assert front[1..] == more;
      WalksStep(s, front);
      assert LeadsToValue(s, front, value);
    }
  }

  lemma ValueHeld(s: Bytes, value: Bytes)
    ensures (Enclosed(s, 1).Some? && s[..Enclosed(s, 1).value.0] == value) <==>
              exists tags :: HoldsValue(s, tags, value)
  {
    hide ReadPythonTag, Drop, Walks, OpenBefore, Depth, Enclosed;
    forall tags | Walks(s, tags) && Encloses(tags)
      ensures Enclosed(s, 1) == Some((TotalSize(tags[..|tags| - 1]), TotalSize(tags)))
    {
      WalkIsEnclosed(s, 1, tags);
    }
    if Enclosed(s, 1).Some? {
      var tags := EnclosedIsWalk(s, 1);
      assert Encloses(tags);
      assert s[..Enclosed(s, 1).value.0] == value ==> HoldsValue(s, tags, value);
    }
  }
}
