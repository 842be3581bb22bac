/** The zip reader and writer of CARI files (sc/cari.cpp), in the format of PKWARE APPNOTE.TXT sections
    4.3.7 (local header), 4.3.12 (central directory) and 4.3.16 (end record). */
module CariZip {
  import opened Octets
  import opened CariTree

  const LOCAL_HEADER_SIG := 0x04034b50
  const CENTRAL_HEADER_SIG := 0x02014b50
  const END_OF_CENTRAL_DIR_SIG := 0x06054b50

  const MAX_ZIP_BYTES := 4 * 1024 * 1024
  const MAX_ENTRIES := 4096
  const MAX_TOTAL_UNCOMPRESSED := 16 * 1024 * 1024

  type Half = n: nat | n < 0x1_0000

  type Word = n: nat | n < 0x1_0000_0000

  /** What zlib computes. */
  datatype Codec = Codec(deflate: Bytes -> Bytes, inflate: (Bytes, nat) -> Option<Bytes>, crc: Bytes -> Word)

  /** Inflating undoes deflating, and gives as many octets as were asked for. */
  ghost predicate IsLawful(codec: Codec) {
    && (forall data: Bytes :: codec.inflate(codec.deflate(data), |data|) == Some(data))
    && forall b: Bytes, n: nat :: codec.inflate(b, n).Some? ==> |codec.inflate(b, n).value| == n
  }

  // ---------------------------------------------------------------------------
  // Little-endian fields
  // ---------------------------------------------------------------------------

  function Get16(b: Bytes, at: nat): (v: Half)
    requires at + 2 <= |b|
  {
    b[at] as int + b[at + 1] as int * 0x100
  }

  function Get32(b: Bytes, at: nat): (v: Word)
    requires at + 4 <= |b|
  {
    Get16(b, at) as int + Get16(b, at + 2) as int * 0x1_0000
  }

  function Put16(v: Half): (s: Bytes)
    ensures |s| == 2 && Get16(s, 0) == v
  {
    [v % 0x100, v / 0x100]
  }

  function Put32(v: Word): (s: Bytes)
    ensures |s| == 4 && Get32(s, 0) == v
  {
    Put16(v % 0x1_0000) + Put16(v / 0x1_0000)
  }

  lemma GetWithin(b: Bytes, at: nat, n: nat, k: nat)
    requires at + n <= |b|
    ensures k + 2 <= n ==> Get16(b[at..at + n], k) == Get16(b, at + k)
    ensures k + 4 <= n ==> Get32(b[at..at + n], k) == Get32(b, at + k)
  {
  }

  // ---------------------------------------------------------------------------
  // Reading
  // ---------------------------------------------------------------------------

  datatype ZipError =
    | TooBig
    | NotAZip
    | NoEndRecord
    | MultiPart
    | TooManyEntries
    | DirectoryOutOfRange
    | BadEntry(index: nat)
    | NameOutOfRange
    | Encrypted(name: Path)
    | Zip64
    | UnknownMethod(name: Path)
    | UnsafePath(name: Path)
    | TooMuch
    | BadLocalHeader(name: Path)
    | DataOutOfRange(name: Path)
    | BadSize(name: Path)
    | BadData(name: Path)
    | BadCrc(name: Path)
    | Twice(name: Path)

  /** The fields of a central directory entry that the reader uses. */
  datatype Header = Header(flags: Half, compression: Half, crc: Word, csize: Word, usize: Word,
                           nameLen: Half, extraLen: Half, commentLen: Half, localOffset: Word)

  function HeaderAt(zip: Bytes, at: nat): (h: Header)
    requires at + 46 <= |zip|
  {
    Header(Get16(zip, at + 8), Get16(zip, at + 10), Get32(zip, at + 16), Get32(zip, at + 20), Get32(zip, at + 24),
           Get16(zip, at + 28), Get16(zip, at + 30), Get16(zip, at + 32), Get32(zip, at + 42))
  }

  /** The last end record signature in [lowest, top). */
  function LastEndRecord(zip: Bytes, lowest: nat, top: nat): (at: Option<nat>)
    requires top + 3 <= |zip|
    ensures at.Some? ==> lowest <= at.value < top && Get32(zip, at.value) == END_OF_CENTRAL_DIR_SIG
    ensures forall k | (if at.Some? then at.value + 1 else lowest) <= k < top :: Get32(zip, k) != END_OF_CENTRAL_DIR_SIG
  {
    if top <= lowest then None
    else if Get32(zip, top - 1) == END_OF_CENTRAL_DIR_SIG then Some(top - 1)
    else LastEndRecord(zip, lowest, top - 1)
  }

  function LowestEndRecord(zip: Bytes): (lowest: nat) { if |zip| > 65557 then |zip| - 65557 else 0 }

  /** A file entry's octets, or what is wrong with them. */
  function ContentOf(codec: Codec, zip: Bytes, h: Header, name: Path): (r: (Bytes, Option<ZipError>)) {
    if h.localOffset as int + 30 > |zip| || Get32(zip, h.localOffset) != LOCAL_HEADER_SIG
    then ([], Some(BadLocalHeader(name)))
    else
      var dataAt := DataStart(zip, h.localOffset);
      if dataAt + h.csize > |zip| then ([], Some(DataOutOfRange(name)))
      else
        var compressed := zip[dataAt..dataAt + h.csize];
        if h.compression == 0 then
          if h.csize != h.usize then ([], Some(BadSize(name)))
          else if codec.crc(compressed) != h.crc then ([], Some(BadCrc(name)))
          else (compressed, None)
        else
          var inflated := codec.inflate(compressed, h.usize);
          if inflated.None? then ([], Some(BadData(name)))
          else if codec.crc(inflated.value) != h.crc then ([], Some(BadCrc(name)))
          else (inflated.value, None)
  }

  function DataStart(zip: Bytes, localOffset: nat): (at: nat)
    requires localOffset + 30 <= |zip|
  {
    localOffset + 30 + Get16(zip, localOffset + 26) as int + Get16(zip, localOffset + 28) as int
  }

  /** The tree so far, the octets unpacked, and where the next entry is. */
  datatype Progress = Progress(tree: Contents, total: nat, at: nat)

  function EntryName(zip: Bytes, at: nat): (name: Path)
    requires at + 46 <= |zip| && at + 46 + HeaderAt(zip, at).nameLen <= |zip|
  {
    zip[at + 46..at + 46 + HeaderAt(zip, at).nameLen]
  }

  function EntryLength(h: Header): (n: nat) { 46 + h.nameLen as int + h.extraLen as int + h.commentLen as int }

  predicate IsFolderName(name: Path) { name != [] && name[|name| - 1] == SLASH }

  /** What is refused before the path is looked at. */
  function HeaderError(h: Header, name: Path): (error: Option<ZipError>) {
    if h.flags % 2 != 0 then Some(Encrypted(name))
    else if h.csize == 0xFFFF_FFFF || h.usize == 0xFFFF_FFFF || h.localOffset == 0xFFFF_FFFF then Some(Zip64)
    else if h.compression != 0 && h.compression != 8 then Some(UnknownMethod(name))
    else None
  }

  /** Entry number `i` of a central directory that ends by `end`. */
  function AfterEntry(codec: Codec, zip: Bytes, end: nat, i: nat, p: Progress): (r: (Progress, Option<ZipError>))
    requires end <= |zip|
  {
    if p.at + 46 > end || Get32(zip, p.at) != CENTRAL_HEADER_SIG then (p, Some(BadEntry(i)))
    else
      var h := HeaderAt(zip, p.at);
      if p.at + 46 + h.nameLen > end then (p, Some(NameOutOfRange))
      else AfterHeader(codec, zip, h, EntryName(zip, p.at), p.(at := p.at + EntryLength(h)))
  }

  function AfterHeader(codec: Codec, zip: Bytes, h: Header, name: Path,
      p: Progress): (r: (Progress, Option<ZipError>)) {
    if HeaderError(h, name).Some? then (p, HeaderError(h, name))
    else if IsFolderName(name) then
      var folder := name[..|name| - 1];
      if !IsSafe(folder) then (p, Some(UnsafePath(folder))) else (p.(tree := WithFolder(p.tree, folder)), None)
    else if !IsSafe(name) then (p, Some(UnsafePath(name)))
    else
      var q := p.(total := p.total + h.usize);
      if q.total > MAX_TOTAL_UNCOMPRESSED then (q, Some(TooMuch))
      else
        var (data, error) := ContentOf(codec, zip, h, name);
        if error.Some? then (q, error)
        else if name in p.tree.files then (q, Some(Twice(name)))
        else (q.(tree := WithFile(p.tree, name, data)), None)
  }

  /** The first `n` entries of the central directory at `start`, up to one that is refused. */
  function AfterEntries(codec: Codec, zip: Bytes, end: nat, start: nat, n: nat): (r: (Progress, Option<ZipError>))
    requires end <= |zip|
  {
    if n == 0 then (Progress(EMPTY_TREE, 0, start), None)
    else
      var (p, error) := AfterEntries(codec, zip, end, start, n - 1);
      if error.Some? then (p, error) else AfterEntry(codec, zip, end, n - 1, p)
  }

  datatype EndRecord = EndRecord(disk: Half, startDisk: Half, entriesHere: Half, entries: Half, size: Word,
      offset: Word)

  function EndRecordAt(zip: Bytes, at: nat): (r: EndRecord)
    requires at + 22 <= |zip|
  {
    EndRecord(Get16(zip, at + 4), Get16(zip, at + 6), Get16(zip, at + 8), Get16(zip, at + 10), Get32(zip, at + 12),
              Get32(zip, at + 16))
  }

  /** Where the end record is, or why there is no use in looking further. */
  function FoundEndRecord(zip: Bytes): (r: (nat, Option<ZipError>))
    ensures r.1.None? ==> 22 <= r.0 + 22 <= |zip|
  {
    if |zip| > MAX_ZIP_BYTES then (0, Some(TooBig))
    else if |zip| < 22 || Get32(zip, 0) != LOCAL_HEADER_SIG then (0, Some(NotAZip))
    else
      var found := LastEndRecord(zip, LowestEndRecord(zip), |zip| - 21);
      if found.None? then (0, Some(NoEndRecord)) else (found.value, None)
  }

  function EndRecordError(r: EndRecord, at: nat): (error: Option<ZipError>) {
    if r.disk != 0 || r.startDisk != 0 || r.entries != r.entriesHere then Some(MultiPart)
    else if r.entries > MAX_ENTRIES then Some(TooManyEntries)
    else if r.offset as int + r.size as int > at then Some(DirectoryOutOfRange)
    else None
  }

  /** What ReadZip makes of any octets: the tree as far as it got, and the error that stopped it. */
  function Unzipped(codec: Codec, zip: Bytes): (r: (Contents, Option<ZipError>)) {
    var (at, error) := FoundEndRecord(zip);
    if error.Some? then (EMPTY_TREE, error)
    else
      var record := EndRecordAt(zip, at);
      if EndRecordError(record, at).Some? then (EMPTY_TREE, EndRecordError(record, at))
      else
        var (p, stopped) := AfterEntries(codec, zip, at, record.offset, record.entries);
        (p.tree, stopped)
  }

  method FindEndRecord(zip: Bytes) returns (at: nat, error: Option<ZipError>)
    ensures (at, error) == FoundEndRecord(zip)
  {
    if |zip| > MAX_ZIP_BYTES {
      return 0, Some(TooBig);
    }
    if |zip| < 22 || Get32(zip, 0) != LOCAL_HEADER_SIG {
      return 0, Some(NotAZip);
    }
    var lowest := LowestEndRecord(zip);
    at := |zip| - 22 + 1;
    while at > lowest
      invariant lowest <= at <= |zip| - 21
      invariant LastEndRecord(zip, lowest, |zip| - 21) == LastEndRecord(zip, lowest, at)
    {
      at := at - 1;
      if Get32(zip, at) == END_OF_CENTRAL_DIR_SIG {
        return at, None;
      }
    }
    return 0, Some(NoEndRecord);
  }

  method ReadContent(codec: Codec, zip: Bytes, h: Header, name: Path) returns (data: Bytes, error: Option<ZipError>)
    ensures (data, error) == ContentOf(codec, zip, h, name)
  {
    if h.localOffset as int + 30 > |zip| || Get32(zip, h.localOffset) != LOCAL_HEADER_SIG {
      return [], Some(BadLocalHeader(name));
    }
    var dataAt := h.localOffset as int + 30 + Get16(zip, h.localOffset + 26) as int +
        Get16(zip, h.localOffset + 28) as int;
    if dataAt + h.csize > |zip| {
      return [], Some(DataOutOfRange(name));
    }
    var compressed := zip[dataAt..dataAt + h.csize];
    if h.compression == 0 {
      if h.csize != h.usize {
        return [], Some(BadSize(name));
      }
      data := compressed;
    } else {
      var inflated := codec.inflate(compressed, h.usize);
      if inflated.None? {
        return [], Some(BadData(name));
      }
      data := inflated.value;
    }
    if codec.crc(data) != h.crc {
      return [], Some(BadCrc(name));
    }
    return data, None;
  }

  /** Unpacks the entry a header describes into `out`. */
  method ReadEntry(codec: Codec, zip: Bytes, h: Header, name: Path, out: Tree, total: nat)
      returns (total': nat, error: Option<ZipError>)
    modifies out
    ensures forall at: nat :: (Progress(out.View(), total', at), error) ==
              AfterHeader(codec, zip, h, name, Progress(old(out.View()), total, at))
  {
    hide ContentOf, IsSafe, WithFolder, WithFile, HeaderError;
    total' := total;
    error := HeaderError(h, name);
    if error.Some? {
      return;
    }
    var isFolder := IsFolderName(name);
    var path := if isFolder then name[..|name| - 1] else name;
    var safe := IsSafeZipPath(path);
    if !safe {
      return total, Some(UnsafePath(path));
    }
    if isFolder {
      out.AddFolder(path);
      return;
    }
    total' := total + h.usize;
    if total' > MAX_TOTAL_UNCOMPRESSED {
      return total', Some(TooMuch);
    }
    var data;
    data, error := ReadContent(codec, zip, h, name);
    if error.Some? {
      return;
    }
    if name in out.files {
      return total', Some(Twice(name));
    }
    out.AddFile(name, data);
  }

  method ReadZip(codec: Codec, zip: Bytes, out: Tree) returns (error: Option<ZipError>)
    modifies out
    ensures (out.View(), error) == Unzipped(codec, zip)
  {
    hide AfterHeader, FoundEndRecord, EndRecordError, Get16, Get32, HeaderAt;
    out.files, out.folders := map[], {};
    var end;
    end, error := FindEndRecord(zip);
    if error.Some? {
      return;
    }
    var record := EndRecordAt(zip, end);
    error := EndRecordError(record, end);
    if error.Some? {
      return;
    }
    var total: nat, at: nat := 0, record.offset;
    for i := 0 to record.entries
      invariant error.None?
      invariant (Progress(out.View(), total, at), None) == AfterEntries(codec, zip, end, record.offset, i)
    {
      assert AfterEntries(codec, zip, end, record.offset, i + 1) ==
             AfterEntry(codec, zip, end, i, Progress(out.View(), total, at));
      if at + 46 > end || Get32(zip, at) != CENTRAL_HEADER_SIG {
        error := Some(BadEntry(i));
      } else {
        var h := HeaderAt(zip, at);
        if at + 46 + h.nameLen > end {
          error := Some(NameOutOfRange);
        } else {
          var name := zip[at + 46..at + 46 + h.nameLen];
          at := at + 46 + h.nameLen + h.extraLen + h.commentLen;
          total, error := ReadEntry(codec, zip, h, name, out, total);
        }
      }
      if error.Some? {
        StoppedStays(codec, zip, end, record.offset, i + 1, record.entries);
        return;
      }
    }
  }

  lemma {:induction false} StoppedStays(codec: Codec, zip: Bytes, end: nat, start: nat, n: nat, m: nat)
    requires end <= |zip| && n <= m && AfterEntries(codec, zip, end, start, n).1.Some?
    ensures AfterEntries(codec, zip, end, start, m) == AfterEntries(codec, zip, end, start, n)
    decreases m
  {
    hide AfterEntry;
    if n < m {
      StoppedStays(codec, zip, end, start, n, m - 1);
    }
  }

  // ---------------------------------------------------------------------------
  // Writing
  // ---------------------------------------------------------------------------

  datatype Entry = Entry(name: Path, data: Bytes)

  /** The folders an entry of this name puts in the tree. */
  function FoldersNamed(name: Path): (folders: set<Path>) {
    if IsFolderName(name) then FoldersFrom(name[..|name| - 1], 0, []) else FileFolders(name)
  }

  /** The DOS time and date of now. */
  datatype Stamp = Stamp(time: Half, date: Half)

  function Low16(n: nat): (v: Half) { n % 0x1_0000 }

  function Low32(n: nat): (v: Word) { n % 0x1_0000_0000 }

  function LocalHeader(compression: Half, stamp: Stamp, crc: Word, csize: Word, usize: Word, nameLen: Half): (s: Bytes)
    ensures |s| == 30
  {
    Put32(LOCAL_HEADER_SIG) + Put16(20) + Put16(0x0800) + Put16(compression) + Put16(stamp.time) + Put16(stamp.date)
    + (Put32(crc) + Put32(csize) + Put32(usize) + Put16(nameLen) + Put16(0))
  }

  function CentralHeader(compression: Half, stamp: Stamp, crc: Word, csize: Word, usize: Word, nameLen: Half,
                         isFolder: bool, offset: Word): (s: Bytes)
    ensures |s| == 46
  {
    Put32(CENTRAL_HEADER_SIG) + Put16(20) + Put16(20) + Put16(0x0800) + Put16(compression) + Put16(stamp.time) +
        Put16(stamp.date)
    + (Put32(crc) + Put32(csize) + Put32(usize) + Put16(nameLen) + Put16(0) + Put16(0))
    + (Put16(0) + Put16(0) + Put32(if isFolder then 0x10 else 0) + Put32(offset))
  }

  function EndOfDirectory(entries: Half, size: Word, offset: Word): (s: Bytes)
    ensures |s| == 22
  {
    Put32(END_OF_CENTRAL_DIR_SIG) + Put16(0) + Put16(0) + Put16(entries) + Put16(entries) + Put32(size) +
        Put32(offset) + Put16(0)
  }

  function BodyOf(codec: Codec, e: Entry): (body: Bytes) { if IsFolderName(e.name) then [] else codec.deflate(e.data) }

  function CompressionOf(e: Entry): (compression: Half) { if IsFolderName(e.name) then 0 else 8 }

  function LocalPart(codec: Codec, stamp: Stamp, e: Entry): (s: Bytes) {
    LocalHeader(CompressionOf(e), stamp, codec.crc(e.data), Low32(|BodyOf(codec, e)|), Low32(|e.data|), Low16(|e.name|))
    + e.name + BodyOf(codec, e)
  }

  function CentralPart(codec: Codec, stamp: Stamp, e: Entry, offset: nat): (s: Bytes) {
    CentralHeader(CompressionOf(e), stamp, codec.crc(e.data), Low32(|BodyOf(codec, e)|), Low32(|e.data|),
        Low16(|e.name|),
                  IsFolderName(e.name), Low32(offset))
    + e.name
  }

  function Locals(codec: Codec, stamp: Stamp, entries: seq<Entry>): (s: Bytes) {
    if entries == [] then []
    else Locals(codec, stamp, entries[..|entries| - 1]) + LocalPart(codec, stamp, entries[|entries| - 1])
  }

  function Centrals(codec: Codec, stamp: Stamp, entries: seq<Entry>): (s: Bytes) {
    if entries == [] then []
    else
      var init := entries[..|entries| - 1];
      Centrals(codec, stamp, init) + CentralPart(codec, stamp, entries[|entries| - 1], |Locals(codec, stamp, init)|)
  }

  function Zipped(codec: Codec, stamp: Stamp, entries: seq<Entry>): (zip: Bytes) {
    var zip, central := Locals(codec, stamp, entries), Centrals(codec, stamp, entries);
    zip + central + EndOfDirectory(Low16(|entries|), Low32(|central|), Low32(|zip|))
  }

  /** Folders, with a slash at the end, then files. */
  function EntriesOf(t: Contents, folders: seq<Path>, files: seq<Path>): (entries: seq<Entry>)
    requires forall p <- files :: p in t.files
  {
    FolderEntries(folders) + FileEntries(t.files, files)
  }

  function FolderEntries(folders: seq<Path>): (entries: seq<Entry>)
    ensures |entries| == |folders| && forall i | 0 <= i < |entries| :: entries[i] == Entry(folders[i] + [SLASH], [])
  {
    seq(|folders|, i requires 0 <= i < |folders| => Entry(folders[i] + [SLASH], []))
  }

  function FileEntries(contents: map<Path, Bytes>, files: seq<Path>): (entries: seq<Entry>)
    requires forall p <- files :: p in contents
    ensures |entries| == |files| && forall i | 0 <= i < |entries| :: entries[i] == Entry(files[i], contents[files[i]])
  {
    seq(|files|, i requires 0 <= i < |files| => Entry(files[i], contents[files[i]]))
  }

  /** `folders` and `files` are the tree's in path order, `stamp` the time of day. */
  method WriteZip(codec: Codec, stamp: Stamp, t: Contents, folders: seq<Path>, files: seq<Path>) returns (zip: Bytes)
    requires forall p <- files :: p in t.files && p != []
    ensures zip == Zipped(codec, stamp, EntriesOf(t, folders, files))
  {
    hide LocalPart, CentralPart, EndOfDirectory, EntriesOf, Low16, Low32;
    var entries := ListEntries(t, folders, files);
    zip := [];
    var central := [];
    for i := 0 to |entries|
      invariant zip == Locals(codec, stamp, entries[..i]) && central == Centrals(codec, stamp, entries[..i])
    {
      var e := entries[i];
      assert entries[..i + 1][..i] == entries[..i];
      zip, central := WriteEntry(codec, stamp, e, zip, central);
    }
    assert entries[..|entries|] == entries;
    zip := zip + central + EndOfDirectory(Low16(|entries|), Low32(|central|), Low32(|zip|));
  }

  /** Appends an entry to the zip, and its directory entry to the directory. */
  method WriteEntry(codec: Codec, stamp: Stamp, e: Entry, zip: Bytes, central: Bytes)
      returns (zip': Bytes, central': Bytes)
    requires e.name != []
    ensures zip' == zip + LocalPart(codec, stamp, e) && central' == central + CentralPart(codec, stamp, e, |zip|)
  {
    hide LocalHeader, CentralHeader, Low16, Low32;
    var isFolder := e.name[|e.name| - 1] == SLASH;
    var body := if isFolder then [] else codec.deflate(e.data);
    var compression: Half := if isFolder then 0 else 8;
    var crc, csize, usize, nameLen := codec.crc(e.data), Low32(|body|), Low32(|e.data|), Low16(|e.name|);
    zip' := zip + (LocalHeader(compression, stamp, crc, csize, usize, nameLen) + e.name + body);
    central' := central + (CentralHeader(compression, stamp, crc, csize, usize, nameLen, isFolder, Low32(|zip|)) +
        e.name);
  }

  method ListEntries(t: Contents, folders: seq<Path>, files: seq<Path>) returns (entries: seq<Entry>)
    requires forall p <- files :: p in t.files && p != []
    ensures entries == EntriesOf(t, folders, files) && forall e <- entries :: e.name != []
  {
    entries := [];
    for i := 0 to |folders|
      invariant entries == FolderEntries(folders)[..i]
    {
      entries := entries + [Entry(folders[i] + [SLASH], [])];
    }
    for i := 0 to |files|
      invariant entries == FolderEntries(folders) + FileEntries(t.files, files)[..i]
    {
      entries := entries + [Entry(files[i], t.files[files[i]])];
    }
  }
}
