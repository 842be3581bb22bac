/** What ReadZip makes of archives other programs write (sc/cari.cpp): any archive laid out as PKWARE APPNOTE.TXT
    sections 4.3.7, 4.3.12 and 4.3.16 say, octet by octet. */
module CariArchives {
  import opened Octets
  import opened CariTree
  import opened CariZip

  /** What a 16-bit length field can announce. */
  type Short = s: Bytes | |s| < 0x1_0000

  /** A file or folder of an archive. A folder's name ends in a slash. */
  datatype Member = Member(
    name: Short, content: Bytes,
    deflated: bool, body: Bytes,                          // how the content is kept
    flags: Half, stamp: Bytes, versions: Bytes, attributes: Bytes,
    extra: Short, comment: Short,                         // in the directory
    offset: Word, localFields: Bytes, localName: Short, localExtra: Short) // the local header

  predicate IsFolder(m: Member) { m.name != [] && m.name[|m.name| - 1] == 47 }

  /** Everything fits its field, and the body is the content, stored or deflated. */
  predicate IsMember(codec: Codec, m: Member) {
    && |m.content| < 0x1_0000_0000 && |m.body| < 0x1_0000_0000
    && |m.stamp| == 4 && |m.versions| == 4 && |m.attributes| == 8 && |m.localFields| == 22
    && if IsFolder(m) then m.content == []
       else if m.deflated then codec.inflate(m.body, |m.content|) == Some(m.content)
       else m.body == m.content
  }

  // ---------------------------------------------------------------------------
  // Layout
  // ---------------------------------------------------------------------------

  function Little16(v: Half): (s: Bytes)
    ensures |s| == 2
  {
    [v % 256, v / 256]
  }

  function Little32(v: Word): (s: Bytes)
    ensures |s| == 4
  {
    [v % 256, v / 256 % 256, v / 65536 % 256, v / 16777216]
  }

  /** Section 4.3.7: signature, fields the directory repeats, and the name's and extra field's lengths. */
  function LocalStart(m: Member): (s: Bytes) {
    LOCAL_SIGNATURE + m.localFields + Little16(|m.localName|) + Little16(|m.localExtra|)
  }

  function LocalOctets(m: Member): (s: Bytes) {
    LocalStart(m) + (m.localName + m.localExtra + m.body)
  }

  /** Section 4.3.12, up to the name. */
  function RecordStart(codec: Codec, m: Member): (s: Bytes)
    requires IsMember(codec, m)
  {
    RECORD_SIGNATURE + m.versions + Little16(m.flags) + Little16(if m.deflated then 8 else 0) + m.stamp
    + (Little32(codec.crc(m.content)) + Little32(|m.body|) + Little32(|m.content|))
    + (Little16(|m.name|) + Little16(|m.extra|) + Little16(|m.comment|))
    + (m.attributes + Little32(m.offset))
  }

  function Record(codec: Codec, m: Member): (s: Bytes)
    requires IsMember(codec, m)
  {
    RecordStart(codec, m) + (m.name + m.extra + m.comment)
  }

  predicate AreMembers(codec: Codec, members: seq<Member>) { forall m <- members :: IsMember(codec, m) }

  function Directory(codec: Codec, members: seq<Member>): (s: Bytes)
    requires AreMembers(codec, members)
  {
    if members == [] then []
    else Directory(codec, members[..|members| - 1]) + Record(codec, members[|members| - 1])
  }

  /** Section 4.3.16, up to the comment. */
  function EndStart(n: Half, size: Word, start: Word, comment: Half): (s: Bytes) {
    END_SIGNATURE + [0, 0, 0, 0] + Little16(n) + Little16(n) + Little32(size) + Little32(start)
    + Little16(comment)
  }

  predicate Holds(zip: Bytes, at: nat, octets: Bytes) { at + |octets| <= |zip| && zip[at..at + |octets|] == octets }

  const LOCAL_SIGNATURE: Bytes := [0x50, 0x4b, 0x03, 0x04]
  const RECORD_SIGNATURE: Bytes := [0x50, 0x4b, 0x01, 0x02]
  const END_SIGNATURE: Bytes := [0x50, 0x4b, 0x05, 0x06]

  /** No end record could begin after `end`. */
  predicate IsLastSignature(zip: Bytes, end: nat) {
    forall k: nat | end < k <= |zip| - 22 :: !Holds(zip, k, END_SIGNATURE)
  }

  predicate HasLocal(zip: Bytes, m: Member) { Holds(zip, m.offset, LocalOctets(m)) }

  /** An archive with these members in its directory. Their local headers and data may be anywhere, in any order,
      with anything between, and the directory may be followed by more before the end record. */
  predicate IsArchive(codec: Codec, zip: Bytes, members: seq<Member>, start: Word, end: nat, comment: Short) {
    && AreMembers(codec, members) && |members| < 0x1_0000
    && |Directory(codec, members)| < 0x1_0000_0000
    && Holds(zip, 0, LOCAL_SIGNATURE)
    && (forall m <- members :: HasLocal(zip, m))
    && Holds(zip, start, Directory(codec, members)) && start + |Directory(codec, members)| <= end
    && Holds(zip, end, EndStart(|members|, |Directory(codec, members)|, start, |comment|) + comment)
    && end + 22 + |comment| == |zip| && IsLastSignature(zip, end)
  }

  // ---------------------------------------------------------------------------
  // What should be read
  // ---------------------------------------------------------------------------

  /** The path of a member, without a folder's slash. */
  function PathOf(m: Member): (path: Path) { if IsFolder(m) then m.name[..|m.name| - 1] else m.name }

  function SizeOf(members: seq<Member>): (total: nat) {
    if members == [] then 0 else SizeOf(members[..|members| - 1]) + |members[|members| - 1].content|
  }

  /** Not encrypted: bit 0 of the flags is clear. */
  predicate IsOpen(m: Member) { m.flags % 2 == 0 }

  predicate FilesDiffer(members: seq<Member>) {
    forall i, j | 0 <= i < j < |members| && !IsFolder(members[i]) && !IsFolder(members[j]) ::
      members[i].name != members[j].name
  }

  ghost predicate HasFile(members: seq<Member>, path: Path, content: Bytes) {
    exists i | 0 <= i < |members| ::
      !IsFolder(members[i]) && members[i].name == path && members[i].content == content
  }

  predicate IsFolderEnd(name: Path, k: nat) { 0 < k < |name| && name[k] == 47 && name[k - 1] != 47 }

  /** A folder on the way to a member: its name up to a slash. */
  ghost predicate HasFolder(members: seq<Member>, folder: Path) {
    exists i: nat, k: nat | i < |members| && k < |members[i].name| ::
      IsFolderEnd(members[i].name, k) && folder == members[i].name[..k]
  }

  /** The members, and no more. */
  ghost predicate IsTreeOf(members: seq<Member>, t: Contents) {
    && (forall path :: path in t.files ==> HasFile(members, path, t.files[path]))
    && (forall i | 0 <= i < |members| && !IsFolder(members[i]) ::
          members[i].name in t.files && t.files[members[i].name] == members[i].content)
    && forall folder :: folder in t.folders <==> HasFolder(members, folder)
  }

  ghost predicate AreReadable(members: seq<Member>) {
    && (forall m <- members :: IsOpen(m) && IsConfined(PathOf(m)))
    && FilesDiffer(members) && SizeOf(members) <= MAX_TOTAL_UNCOMPRESSED
  }

  // ---------------------------------------------------------------------------
  // Fields
  // ---------------------------------------------------------------------------

  lemma Little16Read(b: Bytes, at: nat, v: Half)
    requires at + 2 <= |b| && b[at] == Little16(v)[0] && b[at + 1] == Little16(v)[1]
    ensures Get16(b, at) == v
  {
  }

  lemma FourOctets(v: Word)
    ensures v == v % 256 + v / 256 % 256 * 0x100 + (v / 65536 % 256 + v / 16777216 * 0x100) * 0x1_0000
  {
    var a := v / 256;
    var b := a / 256;
    assert v == v % 256 + a * 256 && a == a % 256 + b * 256 && b == b % 256 + b / 256 * 256;
    assert b == v / 65536 && b / 256 == v / 16777216;
  }

  lemma Little32Read(b: Bytes, at: nat, v: Word)
    requires at + 4 <= |b| && b[at] == Little32(v)[0] && b[at + 1] == Little32(v)[1]
    requires b[at + 2] == Little32(v)[2] && b[at + 3] == Little32(v)[3]
    ensures Get32(b, at) == v
  {
    FourOctets(v);
  }

  lemma SignatureRead(b: Bytes, at: nat)
    requires at + 4 <= |b|
    ensures Get32(b, at) == LOCAL_HEADER_SIG <==> Holds(b, at, LOCAL_SIGNATURE)
    ensures Get32(b, at) == CENTRAL_HEADER_SIG <==> Holds(b, at, RECORD_SIGNATURE)
    ensures Get32(b, at) == END_OF_CENTRAL_DIR_SIG <==> Holds(b, at, END_SIGNATURE)
  {
    assert b[at..at + 4] == [b[at], b[at + 1], b[at + 2], b[at + 3]];
  }

  /** A part of what is held at `at`. */
  lemma HoldsPart(zip: Bytes, at: nat, before: Bytes, part: Bytes, after: Bytes)
    requires Holds(zip, at, before + part + after)
    ensures Holds(zip, at + |before|, part)
  {
    var all := before + part + after;
    assert all[|before|..|before| + |part|] == part;
    SliceOfSlice(zip, at, at + |all|, |before|, |part|);
  }

  lemma LocalStartRead(m: Member)
    requires |m.localFields| == 22
    ensures var s := LocalStart(m);
      && |s| == 30 && Holds(s, 0, LOCAL_SIGNATURE) && Get16(s, 26) == |m.localName| && Get16(s, 28) == |m.localExtra|
  {
    var s := LocalStart(m);
    hide Get16;
    Little16Read(s, 26, |m.localName|);
    Little16Read(s, 28, |m.localExtra|);
  }

  /** A member's fields as the reader sees them. */
  function HeaderOf(codec: Codec, m: Member): (h: Header)
    requires IsMember(codec, m)
  {
    Header(m.flags, if m.deflated then 8 else 0, codec.crc(m.content), |m.body|, |m.content|, |m.name|, |m.extra|,
           |m.comment|, m.offset)
  }

  lemma RecordStartRead(codec: Codec, m: Member)
    requires IsMember(codec, m)
    ensures var s := RecordStart(codec, m);
      |s| == 46 && Holds(s, 0, RECORD_SIGNATURE) && HeaderAt(s, 0) == HeaderOf(codec, m)
  {
    hide Get16, Get32, Little16, Little32;
    var s := RecordStart(codec, m);
    Little16Read(s, 8, m.flags);
    Little16Read(s, 10, if m.deflated then 8 else 0);
    Little32Read(s, 16, codec.crc(m.content));
    Little32Read(s, 20, |m.body|);
    Little32Read(s, 24, |m.content|);
    Little16Read(s, 28, |m.name|);
    Little16Read(s, 30, |m.extra|);
    Little16Read(s, 32, |m.comment|);
    Little32Read(s, 42, m.offset);
  }

  lemma EndStartRead(n: Half, size: Word, start: Word, comment: Half)
    ensures var s := EndStart(n, size, start, comment);
      |s| == 22 && Holds(s, 0, END_SIGNATURE) && EndRecordAt(s, 0) == EndRecord(0, 0, n, n, size, start)
  {
    var s := EndStart(n, size, start, comment);
    hide Get32;
    Little16Read(s, 8, n);
    Little16Read(s, 10, n);
    Little32Read(s, 12, size);
    Little32Read(s, 16, start);
  }

  lemma HeaderWithin(zip: Bytes, at: nat, s: Bytes)
    requires |s| == 46 && Holds(zip, at, s)
    ensures HeaderAt(zip, at) == HeaderAt(s, 0)
  {
    GetWithin(zip, at, 46, 8);
  }

  lemma EndWithin(zip: Bytes, at: nat, s: Bytes)
    requires |s| == 22 && Holds(zip, at, s)
    ensures EndRecordAt(zip, at) == EndRecordAt(s, 0)
  {
    GetWithin(zip, at, 22, 4);
  }

  // ---------------------------------------------------------------------------
  // The end record, a directory entry, a member's content
  // ---------------------------------------------------------------------------

  lemma EndRead(zip: Bytes, end: nat, n: Half, size: Word, start: Word, comment: Short)
    requires |zip| <= MAX_ZIP_BYTES && Holds(zip, 0, LOCAL_SIGNATURE)
    requires Holds(zip, end, EndStart(n, size, start, |comment|) + comment) && end + 22 + |comment| == |zip|
    requires IsLastSignature(zip, end)
    ensures FoundEndRecord(zip) == (end, None) && EndRecordAt(zip, end) == EndRecord(0, 0, n, n, size, start)
  {
    hide EndStart, Get32, EndRecordAt, LastEndRecord;
    var s := EndStart(n, size, start, |comment|);
    EndStartRead(n, size, start, |comment|);
    assert s + comment == [] + s + comment;
    HoldsPart(zip, end, [], s, comment);
    EndWithin(zip, end, s);
    HoldsMore(zip, end, s, 4);
    assert s[..4] == s[0..4];
    SignatureRead(zip, end);
    SignatureRead(zip, 0);
    var found := LastEndRecord(zip, LowestEndRecord(zip), |zip| - 21);
    if found != Some(end) {
      assert end < found.value;
      SignatureRead(zip, found.value);
    }
  }

  lemma HoldsMore(zip: Bytes, at: nat, s: Bytes, n: nat)
    requires Holds(zip, at, s) && n <= |s|
    ensures Holds(zip, at, s[..n])
  {
    SliceOfSlice(zip, at, at + |s|, 0, n);
  }

  lemma RecordRead(codec: Codec, zip: Bytes, at: nat, m: Member)
    requires IsMember(codec, m) && Holds(zip, at, Record(codec, m))
    ensures |Record(codec, m)| == 46 + |m.name| + |m.extra| + |m.comment|
    ensures Get32(zip, at) == CENTRAL_HEADER_SIG && HeaderAt(zip, at) == HeaderOf(codec, m)
    ensures zip[at + 46..at + 46 + |m.name|] == m.name
  {
    hide RecordStart, Get32, HeaderAt, HeaderOf;
    var s := RecordStart(codec, m);
    RecordStartRead(codec, m);
    assert Record(codec, m) == [] + s + (m.name + m.extra + m.comment);
    HoldsPart(zip, at, [], s, m.name + m.extra + m.comment);
    HeaderWithin(zip, at, s);
    HoldsMore(zip, at, s, 4);
    assert s[..4] == s[0..4];
    SignatureRead(zip, at);
    assert Record(codec, m) == s + m.name + (m.extra + m.comment);
    HoldsPart(zip, at, s, m.name, m.extra + m.comment);
  }

  lemma BodyRead(zip: Bytes, m: Member)
    requires |m.localFields| == 22 && HasLocal(zip, m)
    ensures m.offset + 30 <= |zip| && Get32(zip, m.offset) == LOCAL_HEADER_SIG
    ensures var at := DataStart(zip, m.offset); at + |m.body| <= |zip| && zip[at..at + |m.body|] == m.body
  {
    hide LocalStart, Get16, Get32;
    var s, at := LocalStart(m), m.offset as nat;
    LocalStartRead(m);
    var tail := m.localName + m.localExtra + m.body;
    assert LocalOctets(m) == [] + s + tail;
    HoldsPart(zip, at, [], s, tail);
    HoldsMore(zip, at, s, 4);
    assert s[..4] == s[0..4];
    SignatureRead(zip, at);
    GetWithin(zip, at, 30, 26);
    GetWithin(zip, at, 30, 28);
    assert LocalOctets(m) == (s + m.localName + m.localExtra) + m.body + [];
    HoldsPart(zip, at, s + m.localName + m.localExtra, m.body, []);
  }

  lemma ContentRead(codec: Codec, zip: Bytes, m: Member)
    requires IsMember(codec, m) && !IsFolder(m) && HasLocal(zip, m)
    ensures ContentOf(codec, zip, HeaderOf(codec, m), m.name) == (m.content, None)
  {
    hide DataStart, Get32, HasLocal;
    BodyRead(zip, m);
  }

  // ---------------------------------------------------------------------------
  // One member
  // ---------------------------------------------------------------------------

  function FolderEnds(name: Path): (folders: set<Path>) {
    set k: nat | k < |name| && IsFolderEnd(name, k) :: name[..k]
  }

  lemma FoldersOfMember(m: Member)
    requires IsSafe(PathOf(m))
    ensures (if IsFolder(m) then FoldersFrom(PathOf(m), 0, []) else FileFolders(m.name)) == FolderEnds(m.name)
  {
    hide IsSafe, FoldersFrom, FileFolders;
    var path := PathOf(m);
    if IsFolder(m) {
      FoldersClosed(path);
      assert m.name == path + [47];
      forall k: nat | 0 < k <= |path| ensures IsCut(path, k) == IsFolderEnd(m.name, k) && path[..k] == m.name[..k] {
        assert m.name[k - 1] == path[k - 1];
      }
    } else {
      SafeName(path);
      FileFoldersExactly(path);
      forall k: nat | k < |path| && path[k] == SLASH ensures IsFolderEnd(path, k) {
        NoDoubleSlash(path, k);
      }
    }
  }

  lemma SafeName(path: Path)
    requires IsSafe(path)
    ensures path != []
  {
  }

  /** What the reader makes of a header and name: taken if the flag is clear, the path safe, and for a file the
      total kept and the name new. */
  lemma MemberTaken(codec: Codec, zip: Bytes, m: Member, p: Progress)
    requires |zip| <= MAX_ZIP_BYTES && IsMember(codec, m) && HasLocal(zip, m)
    requires p.total <= MAX_TOTAL_UNCOMPRESSED
    ensures var (q, error) := AfterHeader(codec, zip, HeaderOf(codec, m), m.name, p);
      && (error.None? <==>
            && IsOpen(m) && IsSafe(PathOf(m)) && p.total + |m.content| <= MAX_TOTAL_UNCOMPRESSED
            && (IsFolder(m) || m.name !in p.tree.files))
      && (error.None? ==>
            && q.total == p.total + |m.content| && q.at == p.at
            && q.tree.files == (if IsFolder(m) then p.tree.files else p.tree.files[m.name := m.content])
            && q.tree.folders == p.tree.folders + FolderEnds(m.name))
  {
    hide IsSafe, FoldersFrom, FileFolders, ContentOf, FolderEnds, HasLocal, DataStart;
    BodyRead(zip, m);
    if IsSafe(PathOf(m)) {
      FoldersOfMember(m);
    }
    if !IsFolder(m) {
      ContentRead(codec, zip, m);
    }
  }

  // ---------------------------------------------------------------------------
  // The whole directory
  // ---------------------------------------------------------------------------

  lemma MembersBefore(codec: Codec, members: seq<Member>, n: nat)
    requires AreMembers(codec, members) && n <= |members|
    ensures AreMembers(codec, members[..n])
  {
  }

  /** Record `i` is in the directory where those before it end. */
  lemma {:induction false} RecordInDirectory(codec: Codec, members: seq<Member>, i: nat)
    requires AreMembers(codec, members) && i < |members|
    ensures AreMembers(codec, members[..i]) && AreMembers(codec, members[..i + 1]) && IsMember(codec, members[i])
    ensures Directory(codec, members[..i + 1]) == Directory(codec, members[..i]) + Record(codec, members[i])
    ensures Directory(codec, members[..i + 1]) <= Directory(codec, members)
    decreases |members|
  {
    hide Record;
    MembersBefore(codec, members, i);
    MembersBefore(codec, members, i + 1);
    assert members[i] in members;
    assert members[..i + 1][..i] == members[..i];
    if i + 1 < |members| {
      var init := members[..|members| - 1];
      assert init[..i + 1] == members[..i + 1];
      RecordInDirectory(codec, init, i);
    } else {
      assert members[..i + 1] == members;
    }
  }

  lemma RecordHeld(codec: Codec, zip: Bytes, members: seq<Member>, start: Word, i: nat)
    requires AreMembers(codec, members) && i < |members| && Holds(zip, start, Directory(codec, members))
    ensures AreMembers(codec, members[..i]) && AreMembers(codec, members[..i + 1]) && IsMember(codec, members[i])
    ensures var at := start + |Directory(codec, members[..i])|;
      && Holds(zip, at, Record(codec, members[i]))
      && at + |Record(codec, members[i])| == start + |Directory(codec, members[..i + 1])|
      && |Directory(codec, members[..i + 1])| <= |Directory(codec, members)|
  {
    hide Record;
    RecordInDirectory(codec, members, i);
    var front, record, all := Directory(codec, members[..i]), Record(codec, members[i]), Directory(codec, members);
    HoldsMore(zip, start, all, |front + record|);
    assert all[..|front + record|] == front + record + [];
    HoldsPart(zip, start, front, record, []);
  }

  /** One entry of the directory. */
  lemma EntryTaken(codec: Codec, zip: Bytes, end: nat, i: nat, m: Member, p: Progress)
    requires |zip| <= MAX_ZIP_BYTES && IsMember(codec, m) && HasLocal(zip, m) && p.total <= MAX_TOTAL_UNCOMPRESSED
    requires Holds(zip, p.at, Record(codec, m)) && p.at + |Record(codec, m)| <= end <= |zip|
    ensures var (q, error) := AfterEntry(codec, zip, end, i, p);
      && (error.None? <==>
            && IsOpen(m) && IsSafe(PathOf(m)) && p.total + |m.content| <= MAX_TOTAL_UNCOMPRESSED
            && (IsFolder(m) || m.name !in p.tree.files))
      && (error.None? ==>
            && q.total == p.total + |m.content| && q.at == p.at + |Record(codec, m)|
            && q.tree.files == (if IsFolder(m) then p.tree.files else p.tree.files[m.name := m.content])
            && q.tree.folders == p.tree.folders + FolderEnds(m.name))
  {
    hide IsSafe, AfterHeader, FolderEnds, HasLocal, Record, HeaderAt, Get32;
    RecordRead(codec, zip, p.at, m);
    MemberTaken(codec, zip, m, p.(at := p.at + EntryLength(HeaderOf(codec, m))));
  }

  /** One member more of a tree that holds those before. */
  lemma OneMoreMember(members: seq<Member>, m: Member, t: Contents, u: Contents)
    requires IsTreeOf(members, t) && (IsFolder(m) || m.name !in t.files)
    requires u.files == if IsFolder(m) then t.files else t.files[m.name := m.content]
    requires u.folders == t.folders + FolderEnds(m.name)
    ensures IsTreeOf(members + [m], u)
  {
    hide IsFolder, IsFolderEnd;
    var more, n := members + [m], |members|;
    assert more[n] == m && forall i | 0 <= i < n :: more[i] == members[i];
    forall path | path in u.files ensures HasFile(more, path, u.files[path]) {
      if path in t.files && (IsFolder(m) || path != m.name) {
        assert HasFile(members, path, t.files[path]);
        var i :| 0 <= i < n && !IsFolder(members[i]) && members[i].name == path &&
          members[i].content == t.files[path];
        assert !IsFolder(more[i]) && more[i].name == path;
      } else {
        assert !IsFolder(more[n]) && more[n].name == path;
      }
    }
    forall folder ensures folder in u.folders <==> HasFolder(more, folder) {
      OneMoreFolder(members, m, folder);
    }
    forall i | 0 <= i < |more| && !IsFolder(more[i])
      ensures more[i].name in u.files && u.files[more[i].name] == more[i].content
    {
      if i < n {
        assert members[i].name in t.files;
      }
    }
  }

  lemma OneMoreFolder(members: seq<Member>, m: Member, folder: Path)
    ensures HasFolder(members + [m], folder) <==> HasFolder(members, folder) || folder in FolderEnds(m.name)
  {
    hide IsFolderEnd;
    var more, n := members + [m], |members|;
    if HasFolder(members, folder) {
      var i: nat, k: nat :| i < n && k < |members[i].name| &&
        IsFolderEnd(members[i].name, k) && folder == members[i].name[..k];
      assert IsFolderEnd(more[i].name, k) && folder == more[i].name[..k];
    }
    if folder in FolderEnds(m.name) {
      var k: nat :| k < |m.name| && IsFolderEnd(m.name, k) && folder == m.name[..k];
      assert IsFolderEnd(more[n].name, k) && folder == more[n].name[..k];
    }
    if HasFolder(more, folder) {
      var i: nat, k: nat :| i < |more| && k < |more[i].name| &&
        IsFolderEnd(more[i].name, k) && folder == more[i].name[..k];
      if i < n {
        assert IsFolderEnd(members[i].name, k) && folder == members[i].name[..k];
      } else {
        assert IsFolderEnd(m.name, k) && folder == m.name[..k];
      }
    }
  }

  /** And is readable with them exactly when it is itself, and no file before has its name. */
  lemma OneMoreReadable(members: seq<Member>, m: Member, t: Contents)
    requires IsTreeOf(members, t)
    ensures SizeOf(members + [m]) == SizeOf(members) + |m.content|
    ensures AreReadable(members + [m]) <==>
              && AreReadable(members) && IsOpen(m) && IsSafe(PathOf(m))
              && SizeOf(members) + |m.content| <= MAX_TOTAL_UNCOMPRESSED && (IsFolder(m) || m.name !in t.files)
  {
    hide IsFolder, IsSafe, IsConfined, PathOf, IsOpen, SizeOf;
    var more, n := members + [m], |members|;
    assert more[..n] == members;
    assert SizeOf(more) == SizeOf(members) + |m.content| by { LastSize(more); }
    SafeIsConfined(PathOf(m));
    assert forall x :: x in more <==> x in members || x == m;
    assert forall i | 0 <= i < n :: more[i] == members[i];
    if FilesDiffer(more) {
      forall i, j | 0 <= i < j < n && !IsFolder(members[i]) && !IsFolder(members[j])
        ensures members[i].name != members[j].name
      {
        assert more[i].name != more[j].name;
      }
    }
  }

  lemma LastSize(members: seq<Member>)
    requires members != []
    ensures SizeOf(members) == SizeOf(members[..|members| - 1]) + |members[|members| - 1].content|
  {
  }

  lemma NothingYet()
    ensures AreReadable([]) && IsTreeOf([], EMPTY_TREE) && SizeOf([]) == 0
  {
    hide IsConfined;
  }

  lemma {:induction false} DirectoryRead(codec: Codec, zip: Bytes, members: seq<Member>, start: Word, end: nat, n: nat)
    requires |zip| <= MAX_ZIP_BYTES && AreMembers(codec, members) && n <= |members|
    requires forall m <- members :: HasLocal(zip, m)
    requires Holds(zip, start, Directory(codec, members)) && start + |Directory(codec, members)| <= end <= |zip|
    ensures var (p, error) := AfterEntries(codec, zip, end, start, n);
      && (error.None? <==> AreReadable(members[..n]))
      && (error.None? ==>
            && AreMembers(codec, members[..n]) && p.at == start + |Directory(codec, members[..n])|
            && p.total == SizeOf(members[..n]) && IsTreeOf(members[..n], p.tree))
  {
    hide AfterEntry, Record, HasLocal, AreReadable, IsTreeOf, SizeOf, IsMember, Holds, PathOf, IsOpen, IsSafe;
    if n == 0 {
      NothingYet();
      assert members[..0] == [];
    } else {
      var m, before := members[n - 1], members[..n - 1];
      assert m in members;
      assert members[..n] == before + [m];
      DirectoryRead(codec, zip, members, start, end, n - 1);
      var (p, error) := AfterEntries(codec, zip, end, start, n - 1);
      RecordHeld(codec, zip, members, start, n - 1);
      if error.None? {
        assert p.total <= MAX_TOTAL_UNCOMPRESSED by { ReadableSize(before); }
        EntryTaken(codec, zip, end, n - 1, m, p);
        OneMoreReadable(before, m, p.tree);
        var (q, stopped) := AfterEntry(codec, zip, end, n - 1, p);
        if stopped.None? {
          OneMoreMember(before, m, p.tree, q.tree);
        }
      } else {
        ReadableBefore(before, m);
      }
    }
  }

  lemma ReadableSize(members: seq<Member>)
    ensures AreReadable(members) ==> SizeOf(members) <= MAX_TOTAL_UNCOMPRESSED
  {
    hide IsConfined;
  }

  lemma ReadableBefore(members: seq<Member>, m: Member)
    ensures AreReadable(members + [m]) ==> AreReadable(members)
  {
    hide IsConfined, IsFolder, PathOf, IsOpen;
    var more := members + [m];
    assert more[..|members|] == members;
    if AreReadable(more) {
      assert forall x :: x in members ==> x in more;
      forall i, j | 0 <= i < j < |members| && !IsFolder(members[i]) && !IsFolder(members[j])
        ensures members[i].name != members[j].name
      {
        assert more[i] == members[i] && more[j] == members[j];
      }
    }
  }

  /** ReadZip takes an archive exactly when it is within the limits, nothing in it is encrypted, every path is
      safe and no two files have the same; and then the tree holds the members and no more. Whatever the other
      flags, times, versions and attributes, extra fields, comments, and the local headers' own fields. */
  lemma ArchiveRead(codec: Codec, zip: Bytes, members: seq<Member>, start: Word, end: nat, comment: Short)
    requires IsArchive(codec, zip, members, start, end, comment)
    ensures Unzipped(codec, zip).1.None? <==>
              |zip| <= 4 * 1024 * 1024 && |members| <= 4096 && AreReadable(members)
    ensures Unzipped(codec, zip).1.None? ==> IsTreeOf(members, Unzipped(codec, zip).0)
  {
    hide AfterEntries, Directory, HasLocal, AreMembers, AreReadable, IsTreeOf, EndStart, EndRecordAt, LastEndRecord,
        Get32;
    if |zip| <= MAX_ZIP_BYTES {
      EndRead(zip, end, |members|, |Directory(codec, members)|, start, comment);
      assert members[..|members|] == members;
      DirectoryRead(codec, zip, members, start, end, |members|);
    }
  }

  /** And of any octets, it takes only those that begin with a local header and end with an end record: the last
      signature, in the last 65557 octets, of a zip in one part. */
  lemma AcceptedEndRecord(codec: Codec, zip: Bytes) returns (end: nat)
    requires Unzipped(codec, zip).1.None?
    ensures |zip| <= 4 * 1024 * 1024 && Holds(zip, 0, LOCAL_SIGNATURE)
    ensures |zip| - 65557 <= end <= |zip| - 22 && Holds(zip, end, END_SIGNATURE) && IsLastSignature(zip, end)
    ensures zip[end + 4..end + 8] == [0, 0, 0, 0] && zip[end + 8..end + 10] == zip[end + 10..end + 12]
    ensures LittleNumber(zip[end + 10..end + 12]) <= 4096
    ensures LittleNumber(zip[end + 12..end + 16]) + LittleNumber(zip[end + 16..end + 20]) <= end
  {
    hide Get32, AfterEntries, LastEndRecord, LittleNumber;
    end := FoundEndRecord(zip).0;
    SignatureRead(zip, 0);
    SignatureRead(zip, end);
    forall k: nat | end < k <= |zip| - 22 ensures !Holds(zip, k, END_SIGNATURE) {
      SignatureRead(zip, k);
    }
    ZeroOctets(zip, end + 4);
    ZeroOctets(zip, end + 6);
    SameOctets(zip, end + 8, end + 10);
    FieldIsNumber(zip, end + 10);
    FieldIsNumber(zip, end + 12);
    FieldIsNumber(zip, end + 16);
  }

  /** The number whose octets, least significant first, are `s`. */
  function LittleNumber(s: Bytes): (n: nat) {
    if s == [] then 0 else s[0] as int + 256 * LittleNumber(s[1..])
  }

  lemma FieldIsNumber(b: Bytes, at: nat)
    requires at + 2 <= |b|
    ensures Get16(b, at) == LittleNumber(b[at..at + 2])
    ensures at + 4 <= |b| ==> Get32(b, at) == LittleNumber(b[at..at + 4])
  {
    var s := b[at..at + 2];
    assert s[1..][1..] == [];
    if at + 4 <= |b| {
      var t := b[at..at + 4];
      assert t[1..][1..] == t[2..] && t[2..][1..] == t[3..] && t[3..][1..] == [];
      assert LittleNumber(t[3..]) == t[3] as int;
      assert LittleNumber(t[2..]) == t[2] as int + 256 * t[3] as int;
      assert LittleNumber(t[1..]) == t[1] as int + 256 * LittleNumber(t[2..]);
    }
  }

  lemma ZeroOctets(b: Bytes, at: nat)
    requires at + 2 <= |b| && Get16(b, at) == 0
    ensures b[at] == 0 && b[at + 1] == 0
  {
  }

  lemma SameOctets(b: Bytes, at: nat, other: nat)
    requires at + 2 <= |b| && other + 2 <= |b| && Get16(b, at) == Get16(b, other)
    ensures b[at] == b[other] && b[at + 1] == b[other + 1]
  {
  }

  // ---------------------------------------------------------------------------
  // Such archives
  // ---------------------------------------------------------------------------

  /** The local headers and data, one after the other. */
  function Front(members: seq<Member>): (s: Bytes) {
    if members == [] then [] else Front(members[..|members| - 1]) + LocalOctets(members[|members| - 1])
  }

  /** Each member's offset is where its local header is. */
  predicate AreInPlace(members: seq<Member>) {
    forall i | 0 <= i < |members| :: members[i].offset as int == |Front(members[..i])|
  }

  /** The plain archive of some members: headers and data, directory, end record, comment. */
  function Packed(codec: Codec, members: seq<Member>, comment: Short): (zip: Bytes)
    requires AreMembers(codec, members) && |members| <= 4096
    requires |Front(members)| < 0x1_0000_0000 && |Directory(codec, members)| < 0x1_0000_0000
  {
    Front(members) + Directory(codec, members)
    + (EndStart(|members|, |Directory(codec, members)|, |Front(members)|, |comment|) + comment)
  }

  lemma {:induction false} LocalInFront(members: seq<Member>, i: nat)
    requires i < |members|
    ensures Holds(Front(members), |Front(members[..i])|, LocalOctets(members[i]))
    decreases |members|
  {
    hide LocalOctets;
    if i + 1 < |members| {
      var init := members[..|members| - 1];
      assert init[..i] == members[..i];
      LocalInFront(init, i);
      var from, n := |Front(members[..i])|, |LocalOctets(members[i])|;
      assert Front(members)[from..from + n] == Front(init)[from..from + n];
    } else {
      assert members[..i] == members[..|members| - 1];
    }
  }

  /** A plain archive of at most 4 MiB is one, if no other end signature is in its comment or begins in the length
      before it. */
  lemma PackedIsArchive(codec: Codec, members: seq<Member>, comment: Short)
    requires AreMembers(codec, members) && 1 <= |members| <= 4096
    requires |Front(members)| < 0x1_0000_0000 && |Directory(codec, members)| < 0x1_0000_0000
    requires AreInPlace(members) && |Packed(codec, members, comment)| <= 4 * 1024 * 1024
    requires forall k: nat :: !Holds(Little16(|comment|) + comment, k, END_SIGNATURE)
    ensures var start := |Front(members)|;
      IsArchive(codec, Packed(codec, members, comment), members, start, start + |Directory(codec, members)|, comment)
  {
    hide LocalOctets, IsMember, Little16, Front, Directory;
    var zip, front, directory := Packed(codec, members, comment), Front(members), Directory(codec, members);
    var endStart := EndStart(|members|, |directory|, |front|, |comment|);
    var end := |front| + |directory|;
    assert Holds(zip, 0, [] + front + (directory + (endStart + comment)));
    HoldsPart(zip, 0, [], front, directory + (endStart + comment));
    HoldsPart(zip, 0, front, directory, endStart + comment);
    assert front + directory + (endStart + comment) + [] == zip;
    HoldsPart(zip, 0, front + directory, endStart + comment, []);
    forall m | m in members ensures HasLocal(zip, m) {
      var i :| 0 <= i < |members| && members[i] == m;
      LocalInFront(members, i);
      assert front[m.offset..m.offset + |LocalOctets(m)|] == zip[m.offset..m.offset + |LocalOctets(m)|];
    }
    StartsWithLocal(codec, zip, members);
    OneEndSignature(zip, end, |members|, |directory|, |front|, comment);
  }

  lemma StartsWithLocal(codec: Codec, zip: Bytes, members: seq<Member>)
    requires AreMembers(codec, members) && members != [] && AreInPlace(members)
    requires forall m <- members :: HasLocal(zip, m)
    ensures Holds(zip, 0, LOCAL_SIGNATURE)
  {
    hide LocalStart;
    var m := members[0];
    assert members[..0] == [];
    assert IsMember(codec, m) && HasLocal(zip, m) && m.offset == 0;
    LocalStartRead(m);
    HoldsMore(zip, 0, LocalOctets(m), 4);
    assert LocalOctets(m)[..4] == LocalStart(m)[0..4];
  }

  /** No end signature begins in the fields between the first and the comment's length: they have too many
      zeros. */
  lemma OneEndSignature(zip: Bytes, end: nat, n: nat, size: Word, start: Word, comment: Short)
    requires n <= 4096 && size < 0x100_0000 && start < 0x100_0000
    requires Holds(zip, end, EndStart(n, size, start, |comment|) + comment) && end + 22 + |comment| == |zip|
    requires forall k: nat :: !Holds(Little16(|comment|) + comment, k, END_SIGNATURE)
    ensures IsLastSignature(zip, end)
  {
    var s := EndStart(n, size, start, |comment|) + comment;
    forall k: nat | end < k <= |zip| - 22 ensures !Holds(zip, k, END_SIGNATURE) {
      if Holds(zip, k, END_SIGNATURE) {
        SliceOfSlice(zip, end, end + |s|, k - end, 4);
        assert Holds(s, k - end, END_SIGNATURE);
        if k >= end + 20 {
          TailSignature(s, k - end, n, size, start, comment);
        } else {
          FieldsHaveNone(s, n, size, start, comment, k - end);
        }
      }
    }
  }

  lemma TailSignature(s: Bytes, at: nat, n: nat, size: Word, start: Word, comment: Short)
    requires n <= 4096 && s == EndStart(n, size, start, |comment|) + comment
    requires 20 <= at && Holds(s, at, END_SIGNATURE)
    ensures Holds(Little16(|comment|) + comment, at - 20, END_SIGNATURE)
  {
    hide Little32, Little16;
    var tail := Little16(|comment|) + comment;
    assert s[20..] == tail;
    SliceOfSlice(s, 20, |s|, at - 20, 4);
  }

  lemma FieldsHaveNone(s: Bytes, n: nat, size: Word, start: Word, comment: Short, at: nat)
    requires n <= 4096 && size < 0x100_0000 && start < 0x100_0000
    requires s == EndStart(n, size, start, |comment|) + comment && 0 < at < 20
    ensures !Holds(s, at, END_SIGNATURE)
  {
    forall j: nat | j < 4 && Holds(s, at, END_SIGNATURE) ensures s[at + j] == END_SIGNATURE[j] {
      HoldsAt(s, at, END_SIGNATURE, j);
    }
    assert s[1] == 0x4b && s[2] == 5 && s[3] == 6 && s[4] == s[5] == s[6] == s[7] == 0;
    assert s[9] == s[11] && s[9] <= 0x10 && s[15] == 0 && s[19] == 0;
  }

  lemma HoldsAt(zip: Bytes, at: nat, octets: Bytes, k: nat)
    requires Holds(zip, at, octets) && k < |octets|
    ensures zip[at + k] == octets[k]
  {
    assert zip[at..at + |octets|][k] == zip[at + k];
  }
}
