/** The octets WriteZip writes (sc/cari.cpp): a plain archive of the sections CariArchives cites, every field named. */
module CariWritten {
  import opened Octets
  import opened CariTree
  import opened CariZip
  import opened CariEntries
  import A = CariArchives

  /** An entry as it is written: version 2.0, UTF-8 name, deflated but for a folder, the DOS folder attribute, no
      extra field and no comment; the local header repeats the directory's fields. */
  function MemberOf(codec: Codec, stamp: Stamp, e: Entry, offset: Word): (m: A.Member)
    requires IsExpressible(e) && |BodyOf(codec, e)| < 0x1_0000_0000
  {
    var isFolder, body := IsFolderName(e.name), BodyOf(codec, e);
    var when := A.Little16(stamp.time) + A.Little16(stamp.date);
    A.Member(e.name, e.data, !isFolder, body, 0x0800, when, A.Little16(20) + A.Little16(20),
             A.Little16(0) + A.Little16(0) + A.Little32(if isFolder then 0x10 else 0), [], [], offset,
             A.Little16(20) + A.Little16(0x0800) + A.Little16(if isFolder then 0 else 8) + when
             + (A.Little32(codec.crc(e.data)) + A.Little32(|body|) + A.Little32(|e.data|)), e.name, [])
  }

  lemma Put16IsLittle(v: Half)
    ensures Put16(v) == A.Little16(v)
  {
  }

  lemma Put32IsLittle(v: Word)
    ensures Put32(v) == A.Little32(v)
  {
    var low, high := v % 0x1_0000, v / 0x1_0000;
    assert low % 256 == v % 256 && low / 256 == v / 256 % 256;
    assert high % 256 == v / 65536 % 256 && high / 256 == v / 16777216;
  }

  lemma Associates(a: Bytes, b: Bytes, c: Bytes)
    ensures a + (b + c) == a + b + c
  {
  }

  /** The local header's fields, bracketed both ways. */
  lemma LocalBrackets(sig: Bytes, v: Bytes, f: Bytes, m: Bytes, t: Bytes, d: Bytes, sizes: Bytes, n: Bytes, x: Bytes)
    ensures sig + (v + f + m + (t + d) + sizes) + n + x == sig + v + f + m + t + d + (sizes + n + x)
  {
    Associates(v + f + m, t, d);
    Associates(sig, v + f + m + t + d, sizes);
    Associates(sig, v + f + m + t, d);
    Associates(sig, v + f + m, t);
    Associates(sig, v + f, m);
    Associates(sig, v, f);
    var start := sig + v + f + m + t + d;
    Associates(start, sizes + n, x);
    Associates(start, sizes, n);
  }

  /** The directory record's fields. */
  lemma RecordBrackets(sig: Bytes, v: Bytes, w: Bytes, f: Bytes, m: Bytes, t: Bytes, d: Bytes, sizes: Bytes, n: Bytes,
      x: Bytes, c: Bytes, rest: Bytes)
    ensures sig + (v + w) + f + m + (t + d) + sizes + (n + x + c) + rest ==
            sig + v + w + f + m + t + d + (sizes + n + x + c) + rest
  {
    Associates(sig, v, w);
    Associates(sig + v + w + f + m, t, d);
    var start := sig + v + w + f + m + t + d;
    Associates(start + sizes, n + x, c);
    Associates(start + sizes, n, x);
    Associates(start, sizes + n + x, c);
    Associates(start, sizes + n, x);
    Associates(start, sizes, n);
  }

  lemma IsMemberOf(codec: Codec, stamp: Stamp, e: Entry, offset: Word)
    requires IsLawful(codec) && IsExpressible(e) && IsNamed(e) && |BodyOf(codec, e)| < 0x1_0000_0000
    ensures A.IsMember(codec, MemberOf(codec, stamp, e, offset))
  {
  }

  lemma LocalHeaderIs(m: Half, stamp: Stamp, crc: Word, csize: Word, usize: Word, nameLen: Half)
    ensures LocalHeader(m, stamp, crc, csize, usize, nameLen) ==
            A.LOCAL_SIGNATURE
            + (A.Little16(20) + A.Little16(0x0800) + A.Little16(m) + (A.Little16(stamp.time) + A.Little16(stamp.date))
               + (A.Little32(crc) + A.Little32(csize) + A.Little32(usize)))
            + A.Little16(nameLen) + A.Little16(0)
  {
    hide Put16, Put32, A.Little16, A.Little32, A.LOCAL_SIGNATURE;
    FieldsAreLittle(stamp, m, crc, csize, usize, nameLen, 0, 0);
    LocalBrackets(A.LOCAL_SIGNATURE, A.Little16(20), A.Little16(0x0800), A.Little16(m), A.Little16(stamp.time),
                  A.Little16(stamp.date), A.Little32(crc) + A.Little32(csize) + A.Little32(usize),
                  A.Little16(nameLen), A.Little16(0));
  }

  lemma LocalIsLocal(codec: Codec, stamp: Stamp, e: Entry, offset: Word)
    requires IsExpressible(e) && |BodyOf(codec, e)| < 0x1_0000_0000
    ensures A.LocalOctets(MemberOf(codec, stamp, e, offset)) == LocalPart(codec, stamp, e)
  {
    hide A.Little16, A.Little32, BodyOf, LocalHeader, A.LOCAL_SIGNATURE;
    var m, body := MemberOf(codec, stamp, e, offset), BodyOf(codec, e);
    var compression: Half := if IsFolderName(e.name) then 0 else 8;
    LocalHeaderIs(compression, stamp, codec.crc(e.data), |body|, |e.data|, |e.name|);
    assert A.LocalStart(m) == LocalHeader(compression, stamp, codec.crc(e.data), |body|, |e.data|, |e.name|);
    assert e.name + [] == e.name;
    Associates(A.LocalStart(m), e.name, body);
  }

  lemma FieldsAreLittle(stamp: Stamp, compression: Half, crc: Word, csize: Word, usize: Word, nameLen: Half, offset: Word,
      attributes: Word)
    ensures Put16(20) == A.Little16(20) && Put16(0x0800) == A.Little16(0x0800) && Put16(compression) == A.Little16(compression)
    ensures Put16(stamp.time) == A.Little16(stamp.time) && Put16(stamp.date) == A.Little16(stamp.date)
    ensures Put32(crc) == A.Little32(crc) && Put32(csize) == A.Little32(csize) && Put32(usize) == A.Little32(usize)
    ensures Put16(nameLen) == A.Little16(nameLen) && Put32(offset) == A.Little32(offset)
    ensures Put16(0) == A.Little16(0) && Put32(attributes) == A.Little32(attributes)
    ensures Put32(LOCAL_HEADER_SIG) == A.LOCAL_SIGNATURE && Put32(CENTRAL_HEADER_SIG) == A.RECORD_SIGNATURE
    ensures Put32(END_OF_CENTRAL_DIR_SIG) == A.END_SIGNATURE
  {
    Signatures();
    hide Put32;
    Put16IsLittle(20);
    Put32IsLittle(attributes);
    Put16IsLittle(0x0800);
    Put16IsLittle(compression);
    Put16IsLittle(stamp.time);
    Put16IsLittle(stamp.date);
    Put16IsLittle(nameLen);
    Put16IsLittle(0);
    Put32IsLittle(crc);
    Put32IsLittle(csize);
    Put32IsLittle(usize);
    Put32IsLittle(offset);
  }

  lemma Signatures()
    ensures Put32(LOCAL_HEADER_SIG) == A.LOCAL_SIGNATURE && Put32(CENTRAL_HEADER_SIG) == A.RECORD_SIGNATURE
    ensures Put32(END_OF_CENTRAL_DIR_SIG) == A.END_SIGNATURE
  {
  }

  lemma CentralHeaderIs(m: Half, stamp: Stamp, crc: Word, csize: Word, usize: Word, nameLen: Half, isFolder: bool,
      offset: Word)
    ensures CentralHeader(m, stamp, crc, csize, usize, nameLen, isFolder, offset) ==
            A.RECORD_SIGNATURE + (A.Little16(20) + A.Little16(20)) + A.Little16(0x0800) + A.Little16(m)
            + (A.Little16(stamp.time) + A.Little16(stamp.date))
            + (A.Little32(crc) + A.Little32(csize) + A.Little32(usize))
            + (A.Little16(nameLen) + A.Little16(0) + A.Little16(0))
            + (A.Little16(0) + A.Little16(0) + A.Little32(if isFolder then 0x10 else 0) + A.Little32(offset))
  {
    hide Put16, Put32, A.Little16, A.Little32, A.RECORD_SIGNATURE;
    FieldsAreLittle(stamp, m, crc, csize, usize, nameLen, offset, if isFolder then 0x10 else 0);
    RecordBrackets(A.RECORD_SIGNATURE, A.Little16(20), A.Little16(20), A.Little16(0x0800), A.Little16(m),
                   A.Little16(stamp.time), A.Little16(stamp.date),
                   A.Little32(crc) + A.Little32(csize) + A.Little32(usize),
                   A.Little16(nameLen), A.Little16(0), A.Little16(0),
                   A.Little16(0) + A.Little16(0) + A.Little32(if isFolder then 0x10 else 0) + A.Little32(offset));
  }

  lemma RecordStartIs(codec: Codec, stamp: Stamp, e: Entry, offset: Word)
    requires IsExpressible(e) && |BodyOf(codec, e)| < 0x1_0000_0000
    requires A.IsMember(codec, MemberOf(codec, stamp, e, offset))
    ensures A.RecordStart(codec, MemberOf(codec, stamp, e, offset)) ==
            CentralHeader(if IsFolderName(e.name) then 0 else 8, stamp, codec.crc(e.data), |BodyOf(codec, e)|, |e.data|,
                          |e.name|, IsFolderName(e.name), offset)
  {
    hide A.Little16, A.Little32, BodyOf, A.IsMember, CentralHeader, A.RECORD_SIGNATURE;
    var isFolder := IsFolderName(e.name);
    CentralHeaderIs(if isFolder then 0 else 8, stamp, codec.crc(e.data), |BodyOf(codec, e)|, |e.data|, |e.name|,
                    isFolder, offset);
  }

  lemma CentralIsRecord(codec: Codec, stamp: Stamp, e: Entry, offset: Word)
    requires IsLawful(codec) && IsExpressible(e) && IsNamed(e) && |BodyOf(codec, e)| < 0x1_0000_0000
    ensures A.IsMember(codec, MemberOf(codec, stamp, e, offset))
    ensures A.Record(codec, MemberOf(codec, stamp, e, offset)) == CentralPart(codec, stamp, e, offset)
  {
    hide A.RecordStart, BodyOf, A.IsMember, IsLawful, CentralHeader, A.Little16, A.Little32, Low16, Low32;
    IsMemberOf(codec, stamp, e, offset);
    RecordStartIs(codec, stamp, e, offset);
    NothingLow(|e.name|, |e.data|);
    NothingLow(|e.name|, |BodyOf(codec, e)|);
    NothingLow(0, offset);
    NothingAfter(A.RecordStart(codec, MemberOf(codec, stamp, e, offset)), e.name);
  }

  lemma NothingLow(v: Half, w: Word)
    ensures Low16(v) == v && Low32(w) == w
  {
  }

  lemma NothingAfter(start: Bytes, name: Bytes)
    ensures start + (name + [] + []) == start + name
  {
    assert name + [] + [] == name;
  }

  /** Nothing is too big for its field. */
  predicate IsSmall(codec: Codec, stamp: Stamp, entries: seq<Entry>) {
    && AllExpressible(entries) && |Locals(codec, stamp, entries)| < 0x1_0000_0000
    && forall e <- entries :: |BodyOf(codec, e)| < 0x1_0000_0000
  }

  lemma SmallBefore(codec: Codec, stamp: Stamp, entries: seq<Entry>)
    requires entries != [] && IsSmall(codec, stamp, entries)
    ensures IsSmall(codec, stamp, entries[..|entries| - 1])
    ensures IsExpressible(entries[|entries| - 1]) && |BodyOf(codec, entries[|entries| - 1])| < 0x1_0000_0000
  {
    hide LocalPart, BodyOf, IsExpressible;
    assert entries[|entries| - 1] in entries;
  }

  /** The members, each at the offset its local header has. */
  function MembersOf(codec: Codec, stamp: Stamp, entries: seq<Entry>): (members: seq<A.Member>)
    requires IsSmall(codec, stamp, entries)
    ensures |members| == |entries|
  {
    if entries == [] then []
    else
      SmallBefore(codec, stamp, entries);
      var init := entries[..|entries| - 1];
      MembersOf(codec, stamp, init) +
      [MemberOf(codec, stamp, entries[|entries| - 1], |Locals(codec, stamp, init)|)]
  }

  lemma {:induction false} PartsArePacked(codec: Codec, stamp: Stamp, entries: seq<Entry>)
    requires IsLawful(codec) && IsSmall(codec, stamp, entries) && AllNamed(entries)
    ensures var members := MembersOf(codec, stamp, entries);
      && A.AreMembers(codec, members) && A.AreInPlace(members)
      && A.Front(members) == Locals(codec, stamp, entries)
      && A.Directory(codec, members) == Centrals(codec, stamp, entries)
  {
    hide IsLawful, LocalPart, CentralPart, A.LocalOctets, A.Record, MemberOf, A.IsMember, BodyOf, IsNamed,
        IsExpressible;
    if entries != [] {
      SmallBefore(codec, stamp, entries);
      var init, e := entries[..|entries| - 1], entries[|entries| - 1];
      assert e in entries;
      assert forall x <- init :: x in entries;
      PartsArePacked(codec, stamp, init);
      var before, offset := MembersOf(codec, stamp, init), |Locals(codec, stamp, init)|;
      LocalIsLocal(codec, stamp, e, offset);
      CentralIsRecord(codec, stamp, e, offset);
      var m := MemberOf(codec, stamp, e, offset);
      var members := MembersOf(codec, stamp, entries);
      assert members == before + [m] && members[..|members| - 1] == before;
      MembersInPlace(before, m, e, offset, codec, stamp);
    }
  }

  lemma MembersInPlace(before: seq<A.Member>, m: A.Member, e: Entry, offset: Word, codec: Codec, stamp: Stamp)
    requires IsExpressible(e) && |BodyOf(codec, e)| < 0x1_0000_0000 && m == MemberOf(codec, stamp, e, offset)
    requires A.AreInPlace(before) && |A.Front(before)| == offset
    ensures A.AreInPlace(before + [m])
  {
    hide A.LocalOctets;
    var more := before + [m];
    forall i | 0 <= i < |more| ensures more[i].offset as int == |A.Front(more[..i])| {
      if i < |before| {
        assert more[..i] == before[..i] && before[i].offset as int == |A.Front(before[..i])|;
      } else {
        assert more[..i] == before;
      }
    }
  }

  /** What WriteZip writes of expressible entries, up to 4 MiB, is the plain archive of these members without a
      comment. So ReadZip's theorem for any archive covers it too. */
  lemma WrittenIsPacked(codec: Codec, stamp: Stamp, entries: seq<Entry>)
    requires IsLawful(codec) && AllExpressible(entries) && AllNamed(entries) && 1 <= |entries| <= 4096
    requires |Zipped(codec, stamp, entries)| <= 4 * 1024 * 1024
    ensures IsSmall(codec, stamp, entries)
    ensures var members := MembersOf(codec, stamp, entries);
      && A.AreMembers(codec, members) && |A.Front(members)| < 0x1_0000_0000
      && |A.Directory(codec, members)| < 0x1_0000_0000
      && Zipped(codec, stamp, entries) == A.Packed(codec, members, [])
      && A.IsArchive(codec, Zipped(codec, stamp, entries), members, |A.Front(members)|,
                     |A.Front(members)| + |A.Directory(codec, members)|, [])
  {
    hide IsLawful, IsNamed, LocalPart, CentralPart, Locals, Centrals, AllExpressible, AllNamed, MembersOf, A.Front,
         A.Directory, A.AreInPlace, A.IsArchive, A.AreMembers, BodyOf, EndOfDirectory, A.EndStart;
    forall i | 0 <= i < |entries| ensures |BodyOf(codec, entries[i])| < 0x1_0000_0000 {
      ZipHolds(codec, stamp, entries, i);
    }
    ZipParts(codec, stamp, entries);
    PartsArePacked(codec, stamp, entries);
    var locals, centrals := Locals(codec, stamp, entries), Centrals(codec, stamp, entries);
    EndIsEnd(|entries|, |centrals|, |locals|);
    var members := MembersOf(codec, stamp, entries);
    assert Zipped(codec, stamp, entries) == A.Packed(codec, members, []) by {
      assert A.EndStart(|entries|, |centrals|, |locals|, 0) + [] == EndOfDirectory(|entries|, |centrals|, |locals|);
    }
    NoSignature();
    A.PackedIsArchive(codec, members, []);
  }

  lemma EndIsEnd(n: Half, size: Word, offset: Word)
    ensures EndOfDirectory(n, size, offset) == A.EndStart(n, size, offset, 0)
  {
    hide Put16, Put32, A.Little16, A.Little32;
    FieldsAreLittle(Stamp(0, 0), n, 0, size, offset, 0, 0, 0);
    assert A.Little16(0) + A.Little16(0) == [0, 0, 0, 0] by { TwoZeros(); }
    Associates(A.END_SIGNATURE, A.Little16(0), A.Little16(0));
  }

  lemma TwoZeros()
    ensures A.Little16(0) + A.Little16(0) == [0, 0, 0, 0]
  {
  }

  lemma NoSignature()
    ensures forall k: nat :: !A.Holds(A.Little16(0) + [], k, A.END_SIGNATURE)
  {
  }
}
