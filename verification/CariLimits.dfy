/** What ReadZip takes is within its limits, whatever the octets (sc/cari.cpp). */
module CariLimits {
  import opened Octets
  import opened CariTree
  import opened CariZip

  // ---------------------------------------------------------------------------
  // What a tree read should be
  // ---------------------------------------------------------------------------

  /** An entry of the directory. */
  datatype Listing = Listing(name: Path, header: Header)

  predicate IsFile(listing: Listing) { !IsFolderName(listing.name) }

  /** The octets of the files. */
  function SizeOf(listings: seq<Listing>): (total: nat) {
    if listings == [] then 0
    else
      var last := listings[|listings| - 1];
      SizeOf(listings[..|listings| - 1]) + if IsFile(last) then last.header.usize as int else 0
  }

  /** The octets are the entry's data, stored or deflated, with its size and CRC. */
  predicate Matches(codec: Codec, zip: Bytes, h: Header, content: Bytes) {
    && |content| == h.usize && codec.crc(content) == h.crc
    && h.localOffset + 30 <= |zip| && Get32(zip, h.localOffset) == LOCAL_HEADER_SIG
    && DataStart(zip, h.localOffset) + h.csize <= |zip|
    && var compressed := zip[DataStart(zip, h.localOffset)..DataStart(zip, h.localOffset) + h.csize];
       if h.compression == 0 then content == compressed
       else h.compression == 8 && codec.inflate(compressed, h.usize) == Some(content)
  }

  /** The files are those listed, each once, with the content its entry promises. */
  ghost predicate HoldsFiles(codec: Codec, zip: Bytes, listings: seq<Listing>, files: map<Path, Bytes>) {
    && (forall i, j | 0 <= i < j < |listings| && IsFile(listings[i]) && IsFile(listings[j]) ::
          listings[i].name != listings[j].name)
    && (forall name :: name in files <==> ListsFile(listings, name))
    && forall i | 0 <= i < |listings| && IsFile(listings[i]) ::
         listings[i].name in files && Matches(codec, zip, listings[i].header, files[listings[i].name])
  }

  ghost predicate ListsFile(listings: seq<Listing>, name: Path) {
    exists i | 0 <= i < |listings| :: IsFile(listings[i]) && listings[i].name == name
  }

  ghost predicate ListsFolder(listings: seq<Listing>, folder: Path) {
    exists i | 0 <= i < |listings| :: folder in FoldersNamed(listings[i].name)
  }

  /** The tree is what the directory lists, no more; and every name is as long as its header says. */
  ghost predicate Holds(codec: Codec, zip: Bytes, listings: seq<Listing>, t: Contents) {
    && HoldsFiles(codec, zip, listings, t.files)
    && (forall f :: f in t.folders <==> ListsFolder(listings, f))
    && forall i | 0 <= i < |listings| :: |listings[i].name| == listings[i].header.nameLen
  }

  ghost predicate IsWithinLimits(codec: Codec, zip: Bytes, n: nat, p: Progress, listings: seq<Listing>) {
    && IsClosed(p.tree) && |listings| == n && Holds(codec, zip, listings, p.tree)
    && p.total == SizeOf(listings) <= MAX_TOTAL_UNCOMPRESSED
  }

  // ---------------------------------------------------------------------------
  // One more entry
  // ---------------------------------------------------------------------------

  lemma ContentMatches(codec: Codec, zip: Bytes, h: Header, name: Path)
    requires IsLawful(codec) && ContentOf(codec, zip, h, name).1.None? && HeaderError(h, name).None?
    ensures Matches(codec, zip, h, ContentOf(codec, zip, h, name).0)
  {
  }

  lemma OneMoreListed(listings: seq<Listing>, last: Listing, path: Path)
    ensures ListsFile(listings + [last], path) <==> ListsFile(listings, path) || (IsFile(last) && last.name == path)
    ensures ListsFolder(listings + [last], path) <==> ListsFolder(listings, path) || path in FoldersNamed(last.name)
    ensures SizeOf(listings + [last]) == SizeOf(listings) + if IsFile(last) then last.header.usize as int else 0
  {
    hide IsFile, FoldersNamed;
    var more := listings + [last];
    assert more[..|listings|] == listings && more[|listings|] == last;
    if ListsFile(listings, path) {
      var i :| 0 <= i < |listings| && IsFile(listings[i]) && listings[i].name == path;
      assert more[i] == listings[i];
    }
    if ListsFolder(listings, path) {
      var i :| 0 <= i < |listings| && path in FoldersNamed(listings[i].name);
      assert more[i] == listings[i];
    }
  }

  lemma FolderHeld(codec: Codec, zip: Bytes, listings: seq<Listing>, t: Contents, last: Listing)
    requires Holds(codec, zip, listings, t) && !IsFile(last) && |last.name| == last.header.nameLen
    ensures Holds(codec, zip, listings + [last], t.(folders := t.folders + FoldersNamed(last.name)))
  {
    hide Matches, IsFile, FoldersNamed, ListsFile, ListsFolder;
    forall path
      ensures ListsFile(listings + [last], path) == ListsFile(listings, path)
      ensures ListsFolder(listings + [last], path) <==> path in t.folders + FoldersNamed(last.name)
    {
      OneMoreListed(listings, last, path);
    }
  }

  lemma FileHeld(codec: Codec, zip: Bytes, listings: seq<Listing>, t: Contents, last: Listing, content: Bytes)
    requires Holds(codec, zip, listings, t) && IsFile(last) && |last.name| == last.header.nameLen
    requires last.name !in t.files && Matches(codec, zip, last.header, content)
    ensures Holds(codec, zip, listings + [last],
                  Contents(t.files[last.name := content], t.folders + FoldersNamed(last.name)))
  {
    hide Matches, IsFile, FoldersNamed, ListsFile, ListsFolder;
    forall path
      ensures ListsFile(listings + [last], path) <==> path in t.files || path == last.name
      ensures ListsFolder(listings + [last], path) <==> path in t.folders + FoldersNamed(last.name)
    {
      OneMoreListed(listings, last, path);
    }
  }

  lemma HeaderKeepsLimits(codec: Codec, zip: Bytes, n: nat, p: Progress, h: Header, name: Path, listings: seq<Listing>)
    requires IsLawful(codec) && IsWithinLimits(codec, zip, n, p, listings) && |name| == h.nameLen
    requires AfterHeader(codec, zip, h, name, p).1.None?
    ensures IsWithinLimits(codec, zip, n + 1, AfterHeader(codec, zip, h, name, p).0, listings + [Listing(name, h)])
  {
    hide IsLawful, IsSafe, IsClosed, FoldersFrom, FileFolders, HeaderError, ContentOf, Matches, Holds, SizeOf;
    var last := Listing(name, h);
    OneMoreListed(listings, last, []);
    if IsFolderName(name) {
      AddFolderKeepsClosed(p.tree, name[..|name| - 1]);
      FolderHeld(codec, zip, listings, p.tree, last);
    } else {
      SafeIsNotEmpty(name);
      var content := ContentOf(codec, zip, h, name).0;
      AddFileKeepsClosed(p.tree, name, content);
      ContentMatches(codec, zip, h, name);
      FileHeld(codec, zip, listings, p.tree, last, content);
    }
  }

  lemma SafeIsNotEmpty(path: Path)
    requires IsSafe(path)
    ensures path != []
  {
  }

  // ---------------------------------------------------------------------------
  // The whole directory
  // ---------------------------------------------------------------------------

  /** The first `n` entries. */
  ghost function Listings(codec: Codec, zip: Bytes, end: nat, start: nat, n: nat): (listings: seq<Listing>)
    requires end <= |zip|
  {
    if n == 0 then []
    else
      WithListing(Listings(codec, zip, end, start, n - 1), zip, end, AfterEntries(codec, zip, end, start, n - 1).0.at)
  }

  function WithListing(before: seq<Listing>, zip: Bytes, end: nat, at: nat): (listings: seq<Listing>)
    requires end <= |zip|
  {
    if at + 46 > end || at + 46 + HeaderAt(zip, at).nameLen > end then before
    else before + [Listing(EntryName(zip, at), HeaderAt(zip, at))]
  }

  lemma {:induction false} EntriesKeepLimits(codec: Codec, zip: Bytes, end: nat, start: nat, n: nat)
    requires IsLawful(codec) && end <= |zip| && AfterEntries(codec, zip, end, start, n).1.None?
    ensures IsWithinLimits(codec, zip, n, AfterEntries(codec, zip, end, start, n).0,
              Listings(codec, zip, end, start, n))
  {
    hide IsLawful, IsWithinLimits, AfterEntry, WithListing;
    if n == 0 {
      NothingWithinLimits(codec, zip, start);
    } else {
      EntriesKeepLimits(codec, zip, end, start, n - 1);
      EntryKeepsLimits(codec, zip, end, n - 1, AfterEntries(codec, zip, end, start, n - 1).0,
                       Listings(codec, zip, end, start, n - 1));
    }
  }

  lemma EntryKeepsLimits(codec: Codec, zip: Bytes, end: nat, n: nat, p: Progress, listings: seq<Listing>)
    requires IsLawful(codec) && end <= |zip| && IsWithinLimits(codec, zip, n, p, listings)
    requires AfterEntry(codec, zip, end, n, p).1.None?
    ensures IsWithinLimits(codec, zip, n + 1, AfterEntry(codec, zip, end, n, p).0,
              WithListing(listings, zip, end, p.at))
  {
    hide IsLawful, IsWithinLimits, AfterHeader, HeaderAt, IsFolderName, Get16, Get32;
    var h := HeaderAt(zip, p.at);
    OnlyTheTreeCounts(codec, zip, n, p, p.at + EntryLength(h), listings);
    HeaderKeepsLimits(codec, zip, n, p.(at := p.at + EntryLength(h)), h, EntryName(zip, p.at), listings);
  }

  lemma NothingWithinLimits(codec: Codec, zip: Bytes, at: nat)
    ensures IsWithinLimits(codec, zip, 0, Progress(EMPTY_TREE, 0, at), [])
  {
  }

  lemma OnlyTheTreeCounts(codec: Codec, zip: Bytes, n: nat, p: Progress, at: nat, listings: seq<Listing>)
    requires IsWithinLimits(codec, zip, n, p, listings)
    ensures IsWithinLimits(codec, zip, n, p.(at := at), listings)
  {
  }

  /** The entries of the directory ReadZip reads. */
  ghost function Directory(codec: Codec, zip: Bytes): (listings: seq<Listing>) {
    var (at, error) := FoundEndRecord(zip);
    if error.Some? then []
    else
      var record := EndRecordAt(zip, at);
      Listings(codec, zip, at, record.offset, record.entries)
  }

  /** Whatever the octets, an accepted tree has only safe paths, folders closed under their parents, and what at
      most 4096 entries, files and folders together, list: files of at most 16 MiB in all, each the content its
      entry promises, and no folder that is not on the way to an entry. */
  lemma AcceptedIsWithinLimits(codec: Codec, zip: Bytes)
    requires IsLawful(codec) && Unzipped(codec, zip).1.None?
    ensures var t, listings := Unzipped(codec, zip).0, Directory(codec, zip);
      && IsClosed(t) && Holds(codec, zip, listings, t)
      && |listings| <= MAX_ENTRIES && SizeOf(listings) <= MAX_TOTAL_UNCOMPRESSED
  {
    hide IsLawful, IsClosed, Holds, FoundEndRecord, AfterEntries, Listings;
    var at := FoundEndRecord(zip).0;
    var record := EndRecordAt(zip, at);
    EntriesKeepLimits(codec, zip, at, record.offset, record.entries);
  }
}
