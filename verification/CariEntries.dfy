/** What ReadZip makes of the entries WriteZip writes (sc/cari.cpp). */
module CariEntries {
  import opened Octets
  import opened CariTree
  import opened CariZip
  import opened CariLimits

  // ---------------------------------------------------------------------------
  // Where things are in a written zip
  // ---------------------------------------------------------------------------

  lemma {:induction false} LocalsLocated(codec: Codec, stamp: Stamp, entries: seq<Entry>, i: nat)
    requires i < |entries|
    ensures var from, local := |Locals(codec, stamp, entries[..i])|, LocalPart(codec, stamp, entries[i]);
      from + |local| <= |Locals(codec, stamp, entries)| && Locals(codec, stamp, entries)[from..from + |local|] == local
  {
    hide LocalPart;
    var init := entries[..|entries| - 1];
    if i == |entries| - 1 {
      assert entries[..i] == init;
    } else {
      LocalsLocated(codec, stamp, init, i);
      assert init[..i] == entries[..i];
      var from, local := |Locals(codec, stamp, entries[..i])|, LocalPart(codec, stamp, entries[i]);
      assert Locals(codec, stamp, entries)[from..from + |local|] == Locals(codec, stamp, init)[from..from + |local|];
    }
  }

  lemma {:induction false} CentralsLocated(codec: Codec, stamp: Stamp, entries: seq<Entry>, i: nat)
    requires i < |entries|
    ensures var from, central := |Centrals(codec, stamp, entries[..i])|, CentralPartOf(codec, stamp, entries, i);
      && from + |central| <= |Centrals(codec, stamp, entries)| &&
          Centrals(codec, stamp, entries)[from..from + |central|] == central
      && |Centrals(codec, stamp, entries[..i + 1])| == from + |central|
  {
    hide CentralPart, Locals;
    var init := entries[..|entries| - 1];
    assert entries[..i + 1][..i] == entries[..i];
    if i == |entries| - 1 {
      assert entries[..i] == init && entries[..i + 1] == entries;
    } else {
      CentralsLocated(codec, stamp, init, i);
      assert init[..i] == entries[..i] && init[..i + 1] == entries[..i + 1];
      var from, central := |Centrals(codec, stamp, entries[..i])|, CentralPartOf(codec, stamp, entries, i);
      assert Centrals(codec, stamp, entries)[from..from + |central|] ==
          Centrals(codec, stamp, init)[from..from + |central|];
    }
  }

  function CentralPartOf(codec: Codec, stamp: Stamp, entries: seq<Entry>, i: nat): (s: Bytes)
    requires i < |entries|
  {
    CentralPart(codec, stamp, entries[i], |Locals(codec, stamp, entries[..i])|)
  }

  /** Every entry takes at least 30 octets and its name, and 46 and its name in the directory. */
  lemma {:induction false} PartsTakeRoom(codec: Codec, stamp: Stamp, entries: seq<Entry>)
    ensures |Locals(codec, stamp, entries)| >= 30 * |entries| && |Centrals(codec, stamp, entries)| >= 46 * |entries|
  {
    hide LocalHeader, CentralHeader, Low16, Low32;
    if entries != [] {
      PartsTakeRoom(codec, stamp, entries[..|entries| - 1]);
    }
  }

  lemma LocalFields(compression: Half, stamp: Stamp, crc: Word, csize: Word, usize: Word, nameLen: Half)
    ensures var s := LocalHeader(compression, stamp, crc, csize, usize, nameLen);
      Get32(s, 0) == LOCAL_HEADER_SIG && Get16(s, 26) == nameLen && Get16(s, 28) == 0
  {
  }

  lemma CentralFields(compression: Half, stamp: Stamp, crc: Word, csize: Word, usize: Word, nameLen: Half,
      isFolder: bool, offset: Word)
    ensures var s := CentralHeader(compression, stamp, crc, csize, usize, nameLen, isFolder, offset);
      Get32(s, 0) == CENTRAL_HEADER_SIG &&
          HeaderAt(s, 0) == Header(0x0800, compression, crc, csize, usize, nameLen, 0, 0, offset)
  {
  }

  lemma EndFields(entries: Half, size: Word, offset: Word)
    ensures var s := EndOfDirectory(entries, size, offset);
      Get32(s, 0) == END_OF_CENTRAL_DIR_SIG && EndRecordAt(s, 0) == EndRecord(0, 0, entries, entries, size, offset)
  {
  }

  lemma HeaderWithin(zip: Bytes, at: nat)
    requires at + 46 <= |zip|
    ensures HeaderAt(zip, at) == HeaderAt(zip[at..at + 46], 0)
  {
    GetWithin(zip, at, 46, 8);
  }

  lemma EndRecordWithin(zip: Bytes, at: nat)
    requires at + 22 <= |zip|
    ensures EndRecordAt(zip, at) == EndRecordAt(zip[at..at + 22], 0)
  {
  }

  // ---------------------------------------------------------------------------
  // The end record and the directory
  // ---------------------------------------------------------------------------

  /** The zip format's 16- and 32-bit fields can say how long the name and the octets are. */
  predicate IsExpressible(e: Entry) { |e.name| < 0x1_0000 && |e.data| < 0x1_0000_0000 }

  predicate AllExpressible(entries: seq<Entry>) { forall e <- entries :: IsExpressible(e) }

  /** Every entry WriteZip lists has a name, and a folder has no octets. */
  predicate IsNamed(e: Entry) { e.name != [] && (IsFolderName(e.name) ==> e.data == []) }

  predicate AllNamed(entries: seq<Entry>) { forall e <- entries :: IsNamed(e) }

  /** The end record of a zip of at most 4 MiB is found where it was written. */
  lemma EndRecordFound(codec: Codec, stamp: Stamp, entries: seq<Entry>)
    requires entries != [] && |Zipped(codec, stamp, entries)| <= MAX_ZIP_BYTES
    ensures var zip, local, central := Zipped(codec, stamp, entries), |Locals(codec, stamp, entries)|,
              |Centrals(codec, stamp, entries)|;
      && |zip| == local + central + 22 && |entries| < 0x1_0000 && FoundEndRecord(zip) == (local + central, None)
      && EndRecordAt(zip, local + central) == EndRecord(0, 0, |entries|, |entries|, central, local)
  {
    hide Zipped, Locals, Centrals, LocalPart, CentralPart, EndOfDirectory, LastEndRecord, EndRecordAt, Get16, Get32;
    var locals, centrals := Locals(codec, stamp, entries), Centrals(codec, stamp, entries);
    ZipParts(codec, stamp, entries);
    EndAt(locals + centrals, |entries|, |centrals|, |locals|);
    FirstIsLocal(codec, stamp, entries);
  }

  lemma ZipParts(codec: Codec, stamp: Stamp, entries: seq<Entry>)
    requires |Zipped(codec, stamp, entries)| <= MAX_ZIP_BYTES
    ensures var zip, locals, centrals := Zipped(codec, stamp, entries), Locals(codec, stamp, entries),
              Centrals(codec, stamp, entries);
      && |entries| < 0x1_0000 && |locals| < 0x1_0000_0000 && |centrals| < 0x1_0000_0000
      && zip == (locals + centrals) + EndOfDirectory(|entries|, |centrals|, |locals|) &&
          |zip| == |locals| + |centrals| + 22
  {
    hide Locals, Centrals, EndOfDirectory;
    PartsTakeRoom(codec, stamp, entries);
  }

  /** An end record at the very end is the one found. */
  lemma EndAt(front: Bytes, entries: Half, size: Word, offset: Word)
    ensures var zip := front + EndOfDirectory(entries, size, offset);
      && LastEndRecord(zip, LowestEndRecord(zip), |zip| - 21) == Some(|front|)
      && EndRecordAt(zip, |front|) == EndRecord(0, 0, entries, entries, size, offset)
  {
    hide EndOfDirectory, LastEndRecord, EndRecordAt, Get16, Get32;
    var zip, at := front + EndOfDirectory(entries, size, offset), |front|;
    assert zip[at..at + 22] == EndOfDirectory(entries, size, offset);
    EndFields(entries, size, offset);
    EndRecordWithin(zip, at);
    GetWithin(zip, at, 22, 0);
    LastIsLast(zip, LowestEndRecord(zip), at + 1);
  }

  lemma ZipIsLong(codec: Codec, stamp: Stamp, entries: seq<Entry>)
    ensures |Zipped(codec, stamp, entries)| >= 22
  {
  }

  lemma LastIsLast(zip: Bytes, lowest: nat, top: nat)
    requires lowest < top && top + 3 <= |zip| && Get32(zip, top - 1) == END_OF_CENTRAL_DIR_SIG
    ensures LastEndRecord(zip, lowest, top) == Some(top - 1)
  {
  }

  lemma FirstIsLocal(codec: Codec, stamp: Stamp, entries: seq<Entry>)
    requires entries != []
    ensures |Zipped(codec, stamp, entries)| >= 4 && Get32(Zipped(codec, stamp, entries), 0) == LOCAL_HEADER_SIG
  {
    hide LocalPart, CentralPart, EndOfDirectory, Get32, Low16, Low32;
    var zip, local := Zipped(codec, stamp, entries), LocalPart(codec, stamp, entries[0]);
    LocalsLocated(codec, stamp, entries, 0);
    assert entries[..0] == [];
    LocalPartFields(codec, stamp, entries[0]);
    assert zip[0..|local|] == Locals(codec, stamp, entries)[0..|local|] == local;
    GetWithin(zip, 0, |local|, 0);
  }

  lemma EmptyIsNotAZip(codec: Codec, stamp: Stamp)
    ensures FoundEndRecord(Zipped(codec, stamp, [])).1 == Some(NotAZip)
  {
    hide EndOfDirectory, Get16, Get32;
    EndFields(0, 0, 0);
    assert Zipped(codec, stamp, []) == EndOfDirectory(0, 0, 0);
  }

  /** Entry `i` as the directory has it. */
  function HeaderOf(codec: Codec, stamp: Stamp, entries: seq<Entry>, i: nat): (h: Header)
    requires i < |entries|
  {
    var e := entries[i];
    Header(0x0800, CompressionOf(e), codec.crc(e.data), Low32(|BodyOf(codec, e)|), Low32(|e.data|), Low16(|e.name|),
        0, 0,
           Low32(|Locals(codec, stamp, entries[..i])|))
  }

  /** Where entry `i` is in the directory. */
  function Position(codec: Codec, stamp: Stamp, entries: seq<Entry>, i: nat): (at: nat)
    requires i <= |entries|
  {
    |Locals(codec, stamp, entries)| + |Centrals(codec, stamp, entries[..i])|
  }

  predicate ListsAt(zip: Bytes, at: nat, h: Header, name: Path) {
    && at + 46 + |name| <= |zip| && Get32(zip, at) == CENTRAL_HEADER_SIG
    && HeaderAt(zip, at) == h && h.nameLen == |name| && zip[at + 46..at + 46 + |name|] == name
  }

  /** The part of a name its length field covers. */
  function Kept(name: Path): (kept: Path) { name[..Low16(|name|)] }

  lemma DirectoryEntryFound(codec: Codec, stamp: Stamp, entries: seq<Entry>, i: nat)
    requires i < |entries|
    ensures Position(codec, stamp, entries, i + 1) == Position(codec, stamp, entries, i) + 46 + |entries[i].name|
    ensures Position(codec, stamp, entries, i + 1) + 22 <= |Zipped(codec, stamp, entries)|
    ensures ListsAt(Zipped(codec, stamp, entries), Position(codec, stamp, entries, i),
              HeaderOf(codec, stamp, entries, i),
                    Kept(entries[i].name))
  {
    hide CentralPartOf, HeaderAt, Get16, Get32, Position, Zipped;
    var zip, at, e := Zipped(codec, stamp, entries), Position(codec, stamp, entries, i), entries[i];
    var central := CentralPartOf(codec, stamp, entries, i);
    CentralSlice(codec, stamp, entries, i);
    CentralPartFields(codec, stamp, entries, i);
    SliceOfSlice(zip, at, at + |central|, 0, 46);
    HeaderWithin(zip, at);
    HeaderWithin(central, 0);
    GetWithin(zip, at, |central|, 0);
    SliceOfSlice(zip, at, at + |central|, 46, |e.name|);
    SliceOfSlice(zip, at + 46, at + 46 + |e.name|, 0, Low16(|e.name|));
  }

  lemma CentralSlice(codec: Codec, stamp: Stamp, entries: seq<Entry>, i: nat)
    requires i < |entries|
    ensures var zip, at, central := Zipped(codec, stamp, entries), Position(codec, stamp, entries, i),
              CentralPartOf(codec, stamp, entries, i);
      && at + |central| == Position(codec, stamp, entries, i + 1) <= |zip| - 22 && zip[at..at + |central|] == central
  {
    hide CentralPartOf, EndOfDirectory, Locals, Centrals, Low16, Low32;
    var zip, at, central := Zipped(codec, stamp, entries), Position(codec, stamp, entries, i),
        CentralPartOf(codec, stamp, entries, i);
    var centrals, from := Centrals(codec, stamp, entries), |Centrals(codec, stamp, entries[..i])|;
    CentralsLocated(codec, stamp, entries, i);
    PrefixLength(codec, stamp, entries, i);
    assert zip[at..at + |central|] == centrals[from..from + |central|];
  }

  lemma PrefixLength(codec: Codec, stamp: Stamp, entries: seq<Entry>, i: nat)
    requires i < |entries|
    ensures |Centrals(codec, stamp, entries[..i + 1])| <= |Centrals(codec, stamp, entries)|
  {
    hide CentralPart, Centrals;
    CentralsLocated(codec, stamp, entries, i);
  }

  lemma CentralPartFields(codec: Codec, stamp: Stamp, entries: seq<Entry>, i: nat)
    requires i < |entries|
    ensures var central, e := CentralPartOf(codec, stamp, entries, i), entries[i];
      && |central| == 46 + |e.name| && Get32(central, 0) == CENTRAL_HEADER_SIG
      && HeaderAt(central, 0) == HeaderOf(codec, stamp, entries, i) && central[46..46 + |e.name|] == e.name
  {
    hide CentralHeader, HeaderAt, Get16, Get32, Low16, Low32, Locals;
    var central, e := CentralPartOf(codec, stamp, entries, i), entries[i];
    var header := CentralHeader(CompressionOf(e), stamp, codec.crc(e.data), Low32(|BodyOf(codec, e)|),
        Low32(|e.data|), Low16(|e.name|),
                                IsFolderName(e.name), Low32(|Locals(codec, stamp, entries[..i])|));
    CentralFields(CompressionOf(e), stamp, codec.crc(e.data), Low32(|BodyOf(codec, e)|), Low32(|e.data|),
        Low16(|e.name|),
                  IsFolderName(e.name), Low32(|Locals(codec, stamp, entries[..i])|));
    assert central[0..46] == header;
    HeaderWithin(central, 0);
    GetWithin(central, 0, 46, 0);
  }

  /** The local header and data of a file entry are where its directory entry says. */
  lemma ContentFound(codec: Codec, stamp: Stamp, entries: seq<Entry>, i: nat)
    requires IsLawful(codec) && i < |entries| && IsExpressible(entries[i]) && !IsFolderName(entries[i].name)
    requires |Zipped(codec, stamp, entries)| <= MAX_ZIP_BYTES
    ensures var e := entries[i];
      ContentOf(codec, Zipped(codec, stamp, entries), HeaderOf(codec, stamp, entries, i), e.name) == (e.data, None)
  {
    hide IsLawful, DataStart, LocalPart, Locals, Zipped, Get32;
    var e, from := entries[i], |Locals(codec, stamp, entries[..i])|;
    LocalFound(codec, stamp, entries, i);
    Inflates(codec, e.data);
    assert Low32(|e.data|) == |e.data|;
  }

  lemma Inflates(codec: Codec, data: Bytes)
    requires IsLawful(codec)
    ensures codec.inflate(codec.deflate(data), |data|) == Some(data)
  {
  }

  lemma LocalFound(codec: Codec, stamp: Stamp, entries: seq<Entry>, i: nat)
    requires i < |entries| && IsExpressible(entries[i]) && |Zipped(codec, stamp, entries)| <= MAX_ZIP_BYTES
    ensures var zip, from, body := Zipped(codec, stamp, entries), |Locals(codec, stamp, entries[..i])|,
              BodyOf(codec, entries[i]);
      && Low32(from) == from && Low32(|body|) == |body| && from + 30 <= |zip| && Get32(zip, from) == LOCAL_HEADER_SIG
      && DataStart(zip, from) + |body| <= |zip| && zip[DataStart(zip, from)..DataStart(zip, from) + |body|] == body
  {
    hide LocalPart, Get16, Get32, Locals, Zipped, BodyOf;
    var zip, e, from := Zipped(codec, stamp, entries), entries[i], |Locals(codec, stamp, entries[..i])|;
    var local, body := LocalPart(codec, stamp, e), BodyOf(codec, e);
    LocalSlice(codec, stamp, entries, i);
    LocalPartFields(codec, stamp, e);
    GetWithin(zip, from, |local|, 0);
    GetWithin(zip, from, |local|, 26);
    GetWithin(zip, from, |local|, 28);
    SliceOfSlice(zip, from, from + |local|, 30 + |e.name|, |body|);
  }

  lemma LocalSlice(codec: Codec, stamp: Stamp, entries: seq<Entry>, i: nat)
    requires i < |entries|
    ensures var zip, from, local := Zipped(codec, stamp, entries), |Locals(codec, stamp, entries[..i])|,
              LocalPart(codec, stamp, entries[i]);
      from + |local| <= |zip| && zip[from..from + |local|] == local
  {
    hide LocalPart, EndOfDirectory, Locals, Centrals, Low16, Low32;
    var zip, from, local := Zipped(codec, stamp, entries), |Locals(codec, stamp, entries[..i])|,
        LocalPart(codec, stamp, entries[i]);
    LocalsLocated(codec, stamp, entries, i);
    assert zip[from..from + |local|] == Locals(codec, stamp, entries)[from..from + |local|];
  }

  lemma LocalPartFields(codec: Codec, stamp: Stamp, e: Entry)
    ensures var local, body := LocalPart(codec, stamp, e), BodyOf(codec, e);
      && |local| == 30 + |e.name| + |body| && Get32(local, 0) == LOCAL_HEADER_SIG && Get16(local, 26) == Low16(|e.name|)
      && Get16(local, 28) == 0 && local[30 + |e.name|..30 + |e.name| + |body|] == body
  {
    hide LocalHeader, Get16, Get32, BodyOf, CompressionOf;
    var local, body, crc := LocalPart(codec, stamp, e), BodyOf(codec, e), codec.crc(e.data);
    LocalFields(CompressionOf(e), stamp, crc, Low32(|body|), Low32(|e.data|), Low16(|e.name|));
    assert local[0..30] == LocalHeader(CompressionOf(e), stamp, crc, Low32(|body|), Low32(|e.data|), Low16(|e.name|));
    GetWithin(local, 0, 30, 0);
    GetWithin(local, 0, 30, 26);
    GetWithin(local, 0, 30, 28);
  }

  // ---------------------------------------------------------------------------
  // The tree read back
  // ---------------------------------------------------------------------------

  function PathOf(e: Entry): (path: Path) { if IsFolderName(e.name) then e.name[..|e.name| - 1] else e.name }

  function WithEntry(t: Contents, e: Entry): (u: Contents) {
    if IsFolderName(e.name) then WithFolder(t, PathOf(e)) else WithFile(t, e.name, e.data)
  }

  function TreeOf(entries: seq<Entry>): (t: Contents) {
    if entries == [] then EMPTY_TREE else WithEntry(TreeOf(entries[..|entries| - 1]), entries[|entries| - 1])
  }

  function DataSize(entries: seq<Entry>): (n: nat) {
    if entries == [] then 0
    else
      var last := entries[|entries| - 1];
      DataSize(entries[..|entries| - 1]) + if IsFolderName(last.name) then 0 else |last.data|
  }

  predicate AllSafe(entries: seq<Entry>) { forall e <- entries :: IsSafe(PathOf(e)) }

  predicate NamesDiffer(entries: seq<Entry>) {
    forall i, j | 0 <= i < j < |entries| :: entries[i].name != entries[j].name
  }

  lemma {:induction false} NoOtherFiles(entries: seq<Entry>, name: Path)
    requires forall e <- entries :: e.name != name
    ensures name !in TreeOf(entries).files
  {
    if entries != [] {
      assert entries[|entries| - 1] in entries;
      assert forall e <- entries[..|entries| - 1] :: e in entries;
      NoOtherFiles(entries[..|entries| - 1], name);
    }
  }

  /** A directory entry of a written zip is taken exactly when its path is safe and the total within the limit. */
  lemma EntryReadBack(codec: Codec, stamp: Stamp, entries: seq<Entry>, i: nat)
    requires IsLawful(codec) && NamesDiffer(entries) && i < |entries| && IsExpressible(entries[i]) &&
              IsNamed(entries[i])
    requires |Zipped(codec, stamp, entries)| <= MAX_ZIP_BYTES && DataSize(entries[..i]) <= MAX_TOTAL_UNCOMPRESSED
    ensures var zip, end := Zipped(codec, stamp, entries), |Zipped(codec, stamp, entries)| - 22;
      var (p, error) := AfterEntry(codec, zip, end, i,
                                   Progress(TreeOf(entries[..i]), DataSize(entries[..i]),
                                       Position(codec, stamp, entries, i)));
      && (error.None? <==> IsSafe(PathOf(entries[i])) && DataSize(entries[..i + 1]) <= MAX_TOTAL_UNCOMPRESSED)
      && (error.None? ==> p == Progress(TreeOf(entries[..i + 1]), DataSize(entries[..i + 1]),
          Position(codec, stamp, entries, i + 1)))
  {
    hide Zipped, HeaderAt, Get16, Get32, ContentOf, IsSafe, AfterHeader, WithEntry, Locals, Centrals, IsLawful;
    var e, zip := entries[i], Zipped(codec, stamp, entries);
    assert e in entries;
    assert entries[..i + 1][..i] == entries[..i];
    DirectoryEntryFound(codec, stamp, entries, i);
    assert Kept(e.name) == e.name;
    ZipHolds(codec, stamp, entries, i);
    if !IsFolderName(e.name) {
      ContentFound(codec, stamp, entries, i);
      NoOtherFiles(entries[..i], e.name);
    }
    HeaderReadBack(codec, zip, HeaderOf(codec, stamp, entries, i), e,
                   Progress(TreeOf(entries[..i]), DataSize(entries[..i]), Position(codec, stamp, entries, i + 1)));
  }

  /** A header that says what an entry is adds that entry. */
  lemma HeaderReadBack(codec: Codec, zip: Bytes, h: Header, e: Entry, p: Progress)
    requires h.flags == 0x0800 && h.compression == CompressionOf(e) && h.usize == |e.data| &&
              p.total <= MAX_TOTAL_UNCOMPRESSED
    requires h.csize < 0xFFFF_FFFF && h.localOffset < 0xFFFF_FFFF && (IsFolderName(e.name) ==> e.data == [])
    requires !IsFolderName(e.name) ==> ContentOf(codec, zip, h, e.name) == (e.data, None) && e.name !in p.tree.files
    ensures var (q, error) := AfterHeader(codec, zip, h, e.name, p);
      var total := p.total + if IsFolderName(e.name) then 0 else |e.data|;
      && (error.None? <==> IsSafe(PathOf(e)) && total <= MAX_TOTAL_UNCOMPRESSED)
      && (error.None? ==> q == Progress(WithEntry(p.tree, e), total, p.at))
  {
    hide ContentOf, IsSafe, WithFolder, WithFile;
  }

  lemma ZipHolds(codec: Codec, stamp: Stamp, entries: seq<Entry>, i: nat)
    requires i < |entries| && |Zipped(codec, stamp, entries)| <= MAX_ZIP_BYTES
    ensures |BodyOf(codec, entries[i])| <= MAX_ZIP_BYTES && |Locals(codec, stamp, entries[..i])| <= MAX_ZIP_BYTES
  {
    hide LocalHeader, Centrals, EndOfDirectory, Locals;
    LocalsLocated(codec, stamp, entries, i);
  }

  lemma {:induction false} DirectoryReadBack(codec: Codec, stamp: Stamp, entries: seq<Entry>, n: nat)
    requires IsLawful(codec) && AllNamed(entries) && NamesDiffer(entries) && n <= |entries| &&
              AllExpressible(entries[..n])
    requires |Zipped(codec, stamp, entries)| <= MAX_ZIP_BYTES
    ensures var zip, end := Zipped(codec, stamp, entries), |Zipped(codec, stamp, entries)| - 22;
      var (p, error) := AfterEntries(codec, zip, end, |Locals(codec, stamp, entries)|, n);
      && (error.None? <==> AllSafe(entries[..n]) && DataSize(entries[..n]) <= MAX_TOTAL_UNCOMPRESSED)
      && (error.None? ==>
            p == Progress(TreeOf(entries[..n]), DataSize(entries[..n]), Position(codec, stamp, entries, n)))
  {
    hide Zipped, IsLawful, AfterEntry, IsSafe, Locals, AllExpressible, AllNamed, IsExpressible, IsNamed, NamesDiffer,
         AllSafe, TreeOf, DataSize, Position, PathOf;
    if n == 0 {
      NothingReadBack(codec, stamp, entries);
      assert entries[..0] == [];
    } else {
      LastOfPrefix(entries, n);
      DirectoryReadBack(codec, stamp, entries, n - 1);
      SafePrefix(entries, n);
      ZipIsLong(codec, stamp, entries);
      var zip := Zipped(codec, stamp, entries);
      if AfterEntries(codec, zip, |zip| - 22, |Locals(codec, stamp, entries)|, n - 1).1.None? {
        EntryReadBack(codec, stamp, entries, n - 1);
      }
    }
  }

  lemma SafePrefix(entries: seq<Entry>, n: nat)
    requires 0 < n <= |entries|
    ensures AllSafe(entries[..n]) <==> AllSafe(entries[..n - 1]) && IsSafe(PathOf(entries[n - 1]))
    ensures DataSize(entries[..n - 1]) <= DataSize(entries[..n])
  {
    hide IsSafe, PathOf;
    assert entries[..n] == entries[..n - 1] + [entries[n - 1]];
  }

  lemma NothingReadBack(codec: Codec, stamp: Stamp, entries: seq<Entry>)
    ensures TreeOf([]) == EMPTY_TREE && DataSize([]) == 0 && AllSafe([])
    ensures Position(codec, stamp, entries, 0) == |Locals(codec, stamp, entries)|
  {
    assert entries[..0] == [];
    assert Centrals(codec, stamp, []) == [];
  }

  lemma LastOfPrefix(entries: seq<Entry>, n: nat)
    requires 0 < n <= |entries| && AllNamed(entries) && AllExpressible(entries[..n])
    ensures AllExpressible(entries[..n - 1]) && IsExpressible(entries[n - 1]) && IsNamed(entries[n - 1])
  {
    assert entries[..n] == entries[..n - 1] + [entries[n - 1]];
    assert entries[n - 1] in entries;
  }

  /** What the written zip's limits are, and its paths' safety. */
  predicate IsWithin(entries: seq<Entry>, zip: Bytes) {
    && 1 <= |entries| <= MAX_ENTRIES && |zip| <= MAX_ZIP_BYTES
    && AllSafe(entries) && DataSize(entries) <= MAX_TOTAL_UNCOMPRESSED
  }

  /** A written zip of expressible entries is taken exactly when it is within the limits and every path safe, and
      then the entries are added in order. */
  lemma ExpressibleZipReadBack(codec: Codec, stamp: Stamp, entries: seq<Entry>)
    requires IsLawful(codec) && AllExpressible(entries) && AllNamed(entries) && NamesDiffer(entries)
    ensures var zip := Zipped(codec, stamp, entries);
      && (Unzipped(codec, zip).1.None? <==> IsWithin(entries, zip))
      && (Unzipped(codec, zip).1.None? ==> Unzipped(codec, zip).0 == TreeOf(entries))
  {
    hide IsLawful, AllExpressible, AllNamed, NamesDiffer, AllSafe, Zipped, AfterEntries, EndRecordAt;
    if entries == [] {
      EmptyIsNotAZip(codec, stamp);
    } else if |Zipped(codec, stamp, entries)| <= MAX_ZIP_BYTES {
      EndRecordFound(codec, stamp, entries);
      assert entries[..|entries|] == entries;
      DirectoryReadBack(codec, stamp, entries, |entries|);
    }
  }

  // ---------------------------------------------------------------------------
  // What the entries' tree holds
  // ---------------------------------------------------------------------------

  ghost predicate HasFolder(entries: seq<Entry>, f: Path) {
    exists i | 0 <= i < |entries| :: f in FoldersNamed(entries[i].name)
  }

  ghost predicate HasFile(entries: seq<Entry>, p: Path) {
    exists i | 0 <= i < |entries| :: !IsFolderName(entries[i].name) && entries[i].name == p
  }

  lemma OneMoreEntry(entries: seq<Entry>, e: Entry, f: Path)
    ensures HasFolder(entries + [e], f) <==> HasFolder(entries, f) || f in FoldersNamed(e.name)
    ensures HasFile(entries + [e], f) <==> HasFile(entries, f) || (!IsFolderName(e.name) && e.name == f)
  {
    var more := entries + [e];
    assert more[|entries|] == e;
    if HasFolder(entries, f) {
      var i :| 0 <= i < |entries| && f in FoldersNamed(entries[i].name);
      assert more[i] == entries[i];
    }
    if HasFile(entries, f) {
      var i :| 0 <= i < |entries| && !IsFolderName(entries[i].name) && entries[i].name == f;
      assert more[i] == entries[i];
    }
  }

  /** The tree has each file entry's octets and every entry's folders, and no more. */
  lemma {:induction false} TreeOfExactly(entries: seq<Entry>)
    requires NamesDiffer(entries)
    ensures var t := TreeOf(entries);
      && (forall f :: f in t.folders <==> HasFolder(entries, f)) && (forall p :: p in t.files <==> HasFile(entries, p))
      && forall i | 0 <= i < |entries| && !IsFolderName(entries[i].name) ::
           entries[i].name in t.files && t.files[entries[i].name] == entries[i].data
  {
    hide IsFolderName, FoldersFrom, FileFolders, HasFolder, HasFile;
    if entries != [] {
      var init, last := entries[..|entries| - 1], entries[|entries| - 1];
      assert entries == init + [last];
      TreeOfExactly(init);
      var t, before := TreeOf(entries), TreeOf(init);
      assert t.folders == before.folders + FoldersNamed(last.name);
      forall f ensures (f in t.folders <==> HasFolder(entries, f)) && (f in t.files <==> HasFile(entries, f)) {
        OneMoreEntry(init, last, f);
      }
    } else {
      NothingThere();
    }
  }

  lemma NothingThere()
    ensures forall f :: !HasFolder([], f) && !HasFile([], f)
  {
  }

  // ---------------------------------------------------------------------------
  // Names and octets the format cannot express
  // ---------------------------------------------------------------------------

  /** AddFolder's paths are no longer than the path added. */
  lemma {:induction false} FoldersFromShort(path: Path, at: nat, partial: Path, g: Path)
    requires g in FoldersFrom(path, at, partial) && |partial| < (if at == 0 then 1 else at)
    ensures |g| <= |path|
    decreases |path| - at
  {
    hide Extended;
    if at < |path| {
      var end := PartEnd(path, at);
      var longer := Extended(partial, path[at..end]);
      ExtendedShort(path, at, end, partial);
      if g != longer {
        FoldersFromShort(path, end + 1, longer, g);
      }
    }
  }

  lemma ExtendedShort(path: Path, at: nat, end: nat, partial: Path)
    requires at <= end <= |path| && |partial| < (if at == 0 then 1 else at)
    ensures |Extended(partial, path[at..end])| <= end
  {
  }

  lemma NamedFoldersShort(name: Path, g: Path)
    requires name != [] && g in FoldersNamed(name)
    ensures |g| < |name|
  {
    if IsFolderName(name) {
      FoldersFromShort(name[..|name| - 1], 0, [], g);
    } else {
      FoldersFromShort(name[..LastSlash(name).value], 0, [], g);
    }
  }

  /** If all that is inserted for a folder's path are file names, one of them is the path, but for a slash at
      its end. */
  lemma {:induction false} LongestFolder(path: Path, at: nat, partial: Path) returns (g: Path)
    requires at < |path| && JoinedBefore(path, at, partial)
    requires forall f | f in FoldersFrom(path, at, partial) :: IsFileName(f)
    ensures g in FoldersFrom(path, at, partial) && |g| + 1 >= |path|
    decreases |path| - at
  {
    hide IsFileName, Extended, JoinedBefore;
    var end := PartEnd(path, at);
    var longer := Extended(partial, path[at..end]);
    assert IsFileName(longer);
    JoinedPart(path, at, partial);
    if end + 1 < |path| {
      g := LongestFolder(path, end + 1, longer);
    } else {
      g := longer;
    }
  }

  /** The parts before `at`, joined again, are the path so far. */
  predicate JoinedBefore(path: Path, at: nat, partial: Path)
    requires at <= |path|
  {
    if at == 0 then partial == [] else partial == path[..at - 1] && path[at - 1] == SLASH && partial != []
  }

  lemma JoinedPart(path: Path, at: nat, partial: Path)
    requires at < |path| && JoinedBefore(path, at, partial)
    requires IsFileName(Extended(partial, path[at..PartEnd(path, at)]))
    ensures var end := PartEnd(path, at);
      && |Extended(partial, path[at..end])| == end
      && (end < |path| ==> JoinedBefore(path, end + 1, Extended(partial, path[at..end])))
  {
    var end := PartEnd(path, at);
    FileNameIsNotEmpty(Extended(partial, path[at..end]));
    if at > 0 {
      assert path[..end] == path[..at - 1] + [SLASH] + path[at..end];
    }
    hide IsFileName;
    assert Extended(partial, path[at..end]) == path[..end];
  }

  lemma FileNameIsNotEmpty(path: Path)
    requires IsFileName(path)
    ensures path != []
  {
  }

  /** The octets of an accepted tree, and the names its entries have, are what the format's fields can say. */
  lemma AcceptedIsExpressible(codec: Codec, zip: Bytes)
    requires IsLawful(codec) && Unzipped(codec, zip).1.None?
    ensures var t := Unzipped(codec, zip).0;
      && (forall p | p in t.files :: IsFileName(p) && |p| < 0x1_0000 && |t.files[p]| < 0x1_0000_0000)
      && forall f | f in t.folders :: IsFileName(f) && |f| < 0xFFFF
  {
    hide IsLawful, Unzipped, Directory, Matches, IsFileName, HasParents, FoldersNamed;
    AcceptedIsWithinLimits(codec, zip);
    var t, listings := Unzipped(codec, zip).0, Directory(codec, zip);
    forall p | p in t.files ensures |p| < 0x1_0000 && |t.files[p]| < 0x1_0000_0000 {
      assert ListsFile(listings, p);
      var i :| 0 <= i < |listings| && IsFile(listings[i]) && listings[i].name == p;
      MatchingSize(codec, zip, listings[i].header, t.files[p]);
    }
    forall f | f in t.folders ensures |f| < 0xFFFF {
      assert ListsFolder(listings, f);
      var i :| 0 <= i < |listings| && f in FoldersNamed(listings[i].name);
      NoNameNoFolder(listings[i].name, f);
      NamedFoldersShort(listings[i].name, f);
    }
  }

  lemma MatchingSize(codec: Codec, zip: Bytes, h: Header, content: Bytes)
    requires Matches(codec, zip, h, content)
    ensures |content| < 0x1_0000_0000
  {
  }

  lemma NoNameNoFolder(name: Path, f: Path)
    requires f in FoldersNamed(name)
    ensures name != []
  {
  }

  /** A name of 65536 octets is written as no name, and refused. */
  lemma WrappedNameRefused(codec: Codec, stamp: Stamp, entries: seq<Entry>, i: nat, p: Progress)
    requires i < |entries| && |entries[i].name| == 0x1_0000 && p.at == Position(codec, stamp, entries, i)
    ensures |Zipped(codec, stamp, entries)| >= 22
    ensures AfterEntry(codec, Zipped(codec, stamp, entries), |Zipped(codec, stamp, entries)| - 22, i, p).1.Some?
  {
    hide Zipped, Position, HeaderAt, Get16, Get32, ContentOf, Locals;
    ZipIsLong(codec, stamp, entries);
    DirectoryEntryFound(codec, stamp, entries, i);
    assert Kept(entries[i].name) == [];
  }

  /** So no name of an accepted zip is that long. */
  lemma {:induction false} NoWrappedName(codec: Codec, stamp: Stamp, entries: seq<Entry>, n: nat)
    requires IsLawful(codec) && AllNamed(entries) && NamesDiffer(entries) && n <= |entries|
    requires |Zipped(codec, stamp, entries)| <= MAX_ZIP_BYTES
    requires forall e <- entries :: |e.name| <= 0x1_0000 && |e.data| < 0x1_0000_0000
    requires AfterEntries(codec, Zipped(codec, stamp, entries), |Zipped(codec, stamp, entries)| - 22,
                          |Locals(codec, stamp, entries)|, |entries|).1.None?
    ensures AllExpressible(entries[..n])
  {
    hide Zipped, IsLawful, AfterEntry, Locals, AllNamed, NamesDiffer, TreeOf, DataSize, AllSafe, Position;
    if n > 0 {
      NoWrappedName(codec, stamp, entries, n - 1);
      var zip, start := Zipped(codec, stamp, entries), |Locals(codec, stamp, entries)|;
      ZipIsLong(codec, stamp, entries);
      PrefixAccepted(codec, zip, |zip| - 22, start, n, |entries|);
      DirectoryReadBack(codec, stamp, entries, n - 1);
      var p := AfterEntries(codec, zip, |zip| - 22, start, n - 1).0;
      WrappedIsRefused(codec, stamp, entries, n - 1, p);
      assert entries[n - 1] in entries;
      assert entries[..n] == entries[..n - 1] + [entries[n - 1]];
    }
  }

  lemma WrappedIsRefused(codec: Codec, stamp: Stamp, entries: seq<Entry>, i: nat, p: Progress)
    requires i < |entries| && p.at == Position(codec, stamp, entries, i) && |Zipped(codec, stamp, entries)| >= 22
    ensures |entries[i].name| == 0x1_0000 ==>
              AfterEntry(codec, Zipped(codec, stamp, entries), |Zipped(codec, stamp, entries)| - 22, i, p).1.Some?
  {
    hide Zipped, Position, AfterEntry;
    if |entries[i].name| == 0x1_0000 {
      WrappedNameRefused(codec, stamp, entries, i, p);
    }
  }

  /** Entries accepted, so are those before. */
  lemma PrefixAccepted(codec: Codec, zip: Bytes, end: nat, start: nat, n: nat, m: nat)
    requires end <= |zip| && 0 < n <= m && AfterEntries(codec, zip, end, start, m).1.None?
    ensures AfterEntries(codec, zip, end, start, n).1.None? && AfterEntries(codec, zip, end, start, n - 1).1.None?
    ensures AfterEntry(codec, zip, end, n - 1, AfterEntries(codec, zip, end, start, n - 1).0).1.None?
  {
    hide AfterEntry;
    if AfterEntries(codec, zip, end, start, n).1.Some? {
      StoppedStays(codec, zip, end, start, n, m);
    }
  }

  /** An entry whose file, or folders, an accepted tree holds. */
  lemma HeldEntryIsShort(codec: Codec, zip: Bytes, entries: seq<Entry>, i: nat)
    requires IsLawful(codec) && NamesDiffer(entries) && i < |entries| && IsNamed(entries[i])
    requires Unzipped(codec, zip) == (TreeOf(entries), None)
    ensures |entries[i].name| <= 0x1_0000 && |entries[i].data| < 0x1_0000_0000
  {
    hide IsLawful, Unzipped, IsFileName, FoldersFrom, FileFolders, TreeOf, NamesDiffer;
    AcceptedIsExpressible(codec, zip);
    TreeOfExactly(entries);
    var e, t := entries[i], TreeOf(entries);
    if IsFolderName(e.name) {
      var path := e.name[..|e.name| - 1];
      forall f | f in FoldersFrom(path, 0, []) ensures f in t.folders {
        assert f in FoldersNamed(e.name);
        assert HasFolder(entries, f);
      }
      if path != [] {
        var g := LongestFolder(path, 0, []);
      }
    }
  }

  lemma AcceptedAreExpressible(codec: Codec, stamp: Stamp, entries: seq<Entry>)
    requires IsLawful(codec) && AllNamed(entries) && NamesDiffer(entries)
    requires Unzipped(codec, Zipped(codec, stamp, entries)) == (TreeOf(entries), None)
    ensures AllExpressible(entries)
  {
    hide IsLawful, NamesDiffer, Zipped, AfterEntries, EndRecordAt, TreeOf, Locals, Centrals, IsNamed;
    EmptyIsNotAZip(codec, stamp);
    EndRecordFound(codec, stamp, entries);
    forall e | e in entries ensures |e.name| <= 0x1_0000 && |e.data| < 0x1_0000_0000 {
      var i :| 0 <= i < |entries| && entries[i] == e;
      HeldEntryIsShort(codec, Zipped(codec, stamp, entries), entries, i);
    }
    NoWrappedName(codec, stamp, entries, |entries|);
    assert entries[..|entries|] == entries;
  }

  /** ReadZip gives back the entries WriteZip wrote exactly when the format's fields can express each name and
      size, the limits are kept and every path is safe. */
  lemma WrittenZipReadBack(codec: Codec, stamp: Stamp, entries: seq<Entry>)
    requires IsLawful(codec) && AllNamed(entries) && NamesDiffer(entries)
    ensures var zip := Zipped(codec, stamp, entries);
      Unzipped(codec, zip) == (TreeOf(entries), None) <==> AllExpressible(entries) && IsWithin(entries, zip)
  {
    hide IsLawful, AllExpressible, AllNamed, NamesDiffer, Zipped, Unzipped, TreeOf, IsWithin;
    if Unzipped(codec, Zipped(codec, stamp, entries)) == (TreeOf(entries), None) {
      AcceptedAreExpressible(codec, stamp, entries);
    }
    if AllExpressible(entries) {
      ExpressibleZipReadBack(codec, stamp, entries);
    }
  }
}
