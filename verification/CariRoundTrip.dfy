/** What ReadZip makes of the trees WriteZip writes (sc/cari.cpp). */
module CariRoundTrip {
  import opened Octets
  import opened CariTree
  import opened CariZip
  import opened CariLimits
  import opened CariEntries

  /** The octets of the files, and the paths the tree names. */
  function ContentSize(contents: map<Path, Bytes>, files: seq<Path>): (n: nat)
    requires forall p <- files :: p in contents
  {
    if files == [] then 0 else ContentSize(contents, files[..|files| - 1]) + |contents[files[|files| - 1]]|
  }

  /** No file's path ends in a slash, which would make it a folder's. */
  predicate HasFileNames(t: Contents) {
    forall p | p in t.files :: p != [] && p[|p| - 1] != SLASH
  }

  /** The zip format can say how long the paths and the octets are, a folder's path with a slash after it. */
  predicate IsExpressibleTree(t: Contents) {
    && HasFileNames(t) && (forall f | f in t.folders :: |f| < 0xFFFF)
    && forall p | p in t.files :: |p| < 0x1_0000 && |t.files[p]| < 0x1_0000_0000
  }

  /** The limits ReadZip sets, and paths it takes. */
  predicate IsReadable(t: Contents, files: seq<Path>, zip: Bytes)
    requires forall p <- files :: p in t.files
  {
    && 1 <= |t.folders| + |t.files| <= MAX_ENTRIES && |zip| <= MAX_ZIP_BYTES
    && ContentSize(t.files, files) <= MAX_TOTAL_UNCOMPRESSED
    && (forall f | f in t.folders :: IsSafe(f)) && forall p | p in t.files :: IsSafe(p)
  }

  predicate ListsTree(t: Contents, folders: seq<Path>, files: seq<Path>) {
    Enumerates(folders, t.folders) && Enumerates(files, t.files.Keys)
  }

  lemma FolderEntryPath(f: Path)
    ensures var e := Entry(f + [SLASH], []); IsFolderName(e.name) && PathOf(e) == f
  {
  }

  lemma EntryAt(t: Contents, folders: seq<Path>, files: seq<Path>, i: nat)
    requires ListsTree(t, folders, files) && HasFileNames(t) && i < |folders| + |files|
    ensures var entries, n := EntriesOf(t, folders, files), |folders|;
      && |entries| == n + |files| && IsNamed(entries[i])
      && (i < n ==>
            && IsFolderName(entries[i].name) && PathOf(entries[i]) == folders[i] && folders[i] in t.folders
            && |entries[i].name| == |folders[i]| + 1 && entries[i].data == [])
      && (i >= n ==>
            && !IsFolderName(entries[i].name) && PathOf(entries[i]) == entries[i].name == files[i - n]
            && files[i - n] in t.files && entries[i].data == t.files[files[i - n]])
  {
    if i < |folders| {
      FolderEntryPath(folders[i]);
    }
  }

  lemma EntriesDiffer(t: Contents, folders: seq<Path>, files: seq<Path>)
    requires ListsTree(t, folders, files) && HasFileNames(t)
    ensures NamesDiffer(EntriesOf(t, folders, files))
  {
    hide HasFileNames, IsNamed, IsFolderName, EntriesOf;
    var entries, n := EntriesOf(t, folders, files), |folders|;
    EntriesCount(t, folders, files);
    forall i, j | 0 <= i < j < |entries|
      ensures entries[i].name != entries[j].name
    {
      EntryAt(t, folders, files, i);
      EntryAt(t, folders, files, j);
    }
  }

  lemma EntriesCount(t: Contents, folders: seq<Path>, files: seq<Path>)
    requires ListsTree(t, folders, files)
    ensures |EntriesOf(t, folders, files)| == |folders| + |files|
  {
  }

  lemma EntriesNamed(t: Contents, folders: seq<Path>, files: seq<Path>)
    requires ListsTree(t, folders, files) && HasFileNames(t)
    ensures AllNamed(EntriesOf(t, folders, files))
  {
    hide HasFileNames, IsNamed, EntriesOf;
    var entries := EntriesOf(t, folders, files);
    EntriesCount(t, folders, files);
    forall i | 0 <= i < |entries| ensures IsNamed(entries[i]) {
      EntryAt(t, folders, files, i);
    }
  }

  lemma EntriesExpressible(t: Contents, folders: seq<Path>, files: seq<Path>)
    requires ListsTree(t, folders, files) && HasFileNames(t)
    ensures AllExpressible(EntriesOf(t, folders, files)) <==> IsExpressibleTree(t)
  {
    hide HasFileNames, IsNamed, EntriesOf, IsFolderName, PathOf;
    var entries, n := EntriesOf(t, folders, files), |folders|;
    EntriesCount(t, folders, files);
    forall f | f in t.folders && AllExpressible(entries) ensures |f| < 0xFFFF {
      var i :| 0 <= i < n && folders[i] == f;
      EntryAt(t, folders, files, i);
      assert entries[i] in entries;
    }
    forall p | p in t.files && AllExpressible(entries) ensures |p| < 0x1_0000 && |t.files[p]| < 0x1_0000_0000 {
      var i :| 0 <= i < |files| && files[i] == p;
      EntryAt(t, folders, files, n + i);
      assert entries[n + i] in entries;
    }
    forall i | 0 <= i < |entries| && IsExpressibleTree(t) ensures IsExpressible(entries[i]) {
      EntryAt(t, folders, files, i);
    }
  }

  lemma EntriesSafe(t: Contents, folders: seq<Path>, files: seq<Path>)
    requires ListsTree(t, folders, files) && HasFileNames(t)
    ensures AllSafe(EntriesOf(t, folders, files)) <==>
      (forall f | f in t.folders :: IsSafe(f)) && (forall p | p in t.files :: IsSafe(p))
  {
    hide IsSafe, HasFileNames, IsNamed, EntriesOf, IsFolderName, PathOf;
    var entries, n := EntriesOf(t, folders, files), |folders|;
    EntriesCount(t, folders, files);
    forall f | f in t.folders && AllSafe(entries) ensures IsSafe(f) {
      var i :| 0 <= i < n && folders[i] == f;
      EntryAt(t, folders, files, i);
      assert entries[i] in entries;
    }
    forall p | p in t.files && AllSafe(entries) ensures IsSafe(p) {
      var i :| 0 <= i < |files| && files[i] == p;
      EntryAt(t, folders, files, n + i);
      assert entries[n + i] in entries;
    }
    forall i | 0 <= i < |entries| && (forall f | f in t.folders :: IsSafe(f)) && (forall p | p in t.files :: IsSafe(p))
      ensures IsSafe(PathOf(entries[i]))
    {
      EntryAt(t, folders, files, i);
    }
  }

  lemma DataSizeMore(entries: seq<Entry>, e: Entry)
    ensures DataSize(entries + [e]) == DataSize(entries) + if IsFolderName(e.name) then 0 else |e.data|
  {
    assert (entries + [e])[..|entries|] == entries;
  }

  lemma {:induction false} FoldersHaveNoData(folders: seq<Path>)
    ensures DataSize(FolderEntries(folders)) == 0
  {
    hide DataSize, IsFolderName;
    if folders == [] {
      NoEntriesNoData();
      assert FolderEntries(folders) == [];
    } else {
      var init, last := folders[..|folders| - 1], Entry(folders[|folders| - 1] + [SLASH], []);
      FoldersHaveNoData(init);
      assert FolderEntries(folders) == FolderEntries(init) + [last];
      DataSizeMore(FolderEntries(init), last);
      FolderEntryPath(folders[|folders| - 1]);
    }
  }

  lemma NoEntriesNoData()
    ensures DataSize([]) == 0
  {
  }

  lemma {:induction false} EntriesDataSize(t: Contents, folders: seq<Path>, files: seq<Path>)
    requires (forall p <- files :: p in t.files) && HasFileNames(t)
    ensures DataSize(EntriesOf(t, folders, files)) == ContentSize(t.files, files)
  {
    hide DataSize;
    if files == [] {
      FoldersHaveNoData(folders);
      assert EntriesOf(t, folders, files) == FolderEntries(folders);
    } else {
      var init, p := files[..|files| - 1], files[|files| - 1];
      EntriesDataSize(t, folders, init);
      assert EntriesOf(t, folders, files) == EntriesOf(t, folders, init) + [Entry(p, t.files[p])];
      DataSizeMore(EntriesOf(t, folders, init), Entry(p, t.files[p]));
    }
  }

  lemma HasFolderExactly(t: Contents, folders: seq<Path>, files: seq<Path>, f: Path)
    requires ListsTree(t, folders, files) && HasFileNames(t)
    ensures HasFolder(EntriesOf(t, folders, files), f) <==>
      (exists g :: g in t.folders && f in FoldersFrom(g, 0, [])) || exists p :: p in t.files && f in FileFolders(p)
  {
    hide FoldersFrom, FileFolders, HasFileNames, IsNamed, EntriesOf, IsFolderName;
    var entries, n := EntriesOf(t, folders, files), |folders|;
    EntriesCount(t, folders, files);
    if g :| g in t.folders && f in FoldersFrom(g, 0, []) {
      var i :| 0 <= i < n && folders[i] == g;
      EntryAt(t, folders, files, i);
      assert f in FoldersNamed(entries[i].name);
    }
    if p :| p in t.files && f in FileFolders(p) {
      var i :| 0 <= i < |files| && files[i] == p;
      EntryAt(t, folders, files, n + i);
      assert f in FoldersNamed(entries[n + i].name);
    }
    if HasFolder(entries, f) {
      var i :| 0 <= i < |entries| && f in FoldersNamed(entries[i].name);
      EntryAt(t, folders, files, i);
    }
  }

  lemma HasFileExactly(t: Contents, folders: seq<Path>, files: seq<Path>, p: Path)
    requires ListsTree(t, folders, files) && HasFileNames(t)
    ensures HasFile(EntriesOf(t, folders, files), p) <==> p in t.files
    ensures p in t.files ==>
              exists i | 0 <= i < |EntriesOf(t, folders, files)| :: var e := EntriesOf(t, folders, files)[i];
              !IsFolderName(e.name) && e.name == p && e.data == t.files[p]
  {
    hide HasFileNames, IsNamed, EntriesOf, IsFolderName, PathOf;
    var entries, n := EntriesOf(t, folders, files), |folders|;
    EntriesCount(t, folders, files);
    if p in t.files {
      var i :| 0 <= i < |files| && files[i] == p;
      EntryAt(t, folders, files, n + i);
      assert entries[n + i].name == p;
    }
    if HasFile(entries, p) {
      var i :| 0 <= i < |entries| && !IsFolderName(entries[i].name) && entries[i].name == p;
      EntryAt(t, folders, files, i);
    }
  }

  lemma TreeOfEntries(t: Contents, folders: seq<Path>, files: seq<Path>)
    requires ListsTree(t, folders, files) && HasFileNames(t)
    ensures TreeOf(EntriesOf(t, folders, files)) == Closure(t)
  {
    hide FoldersFrom, FileFolders, HasFolder, HasFile, HasFileNames, NamesDiffer, TreeOf, EntriesOf, IsFolderName;
    EntriesDiffer(t, folders, files);
    TreeOfExactly(EntriesOf(t, folders, files));
    var u := TreeOf(EntriesOf(t, folders, files));
    forall f ensures f in u.folders <==> f in Closure(t).folders {
      HasFolderExactly(t, folders, files, f);
    }
    forall p ensures p in u.files <==> p in t.files {
      HasFileExactly(t, folders, files, p);
    }
    forall p | p in t.files ensures u.files[p] == t.files[p] {
      HasFileExactly(t, folders, files, p);
    }
  }

  lemma ReadableIsWithin(t: Contents, folders: seq<Path>, files: seq<Path>, zip: Bytes)
    requires ListsTree(t, folders, files) && HasFileNames(t)
    ensures IsWithin(EntriesOf(t, folders, files), zip) <==> IsReadable(t, files, zip)
  {
    hide HasFileNames, AllSafe, IsSafe, DataSize, EntriesOf, ContentSize;
    EntriesSafe(t, folders, files);
    EntriesDataSize(t, folders, files);
    EntriesCount(t, folders, files);
    EnumeratesCounts(folders, t.folders);
    EnumeratesCounts(files, t.files.Keys);
    assert |t.files.Keys| == |t.files|;
  }

  lemma AcceptedHasFileNames(codec: Codec, zip: Bytes, t: Contents)
    requires IsLawful(codec) && Unzipped(codec, zip) == (Closure(t), None)
    ensures HasFileNames(t)
  {
    hide IsLawful, Unzipped, FoldersFrom, FileFolders;
    AcceptedIsExpressible(codec, zip);
  }

  /** For every tree: ReadZip gives back what WriteZip wrote, closed under its folders' and files' parents, octets
      and empty folders included, exactly when the format's fields can express it, it is not empty, its paths are
      safe and the limits are kept. A tree that can be expressed is refused otherwise, not changed. */
  lemma ReadZipUndoesWriteZip(codec: Codec, stamp: Stamp, t: Contents, folders: seq<Path>, files: seq<Path>)
    requires IsLawful(codec) && ListsTree(t, folders, files) && [] !in t.files.Keys
    ensures var zip := Zipped(codec, stamp, EntriesOf(t, folders, files));
      && (Unzipped(codec, zip) == (Closure(t), None) <==> IsExpressibleTree(t) && IsReadable(t, files, zip))
      && (IsExpressibleTree(t) ==> (Unzipped(codec, zip).1.None? <==> IsReadable(t, files, zip)))
  {
    hide IsLawful, AllExpressible, AllNamed, NamesDiffer, IsWithin, IsReadable, Closure, Zipped, Unzipped, EntriesOf,
        TreeOf, HasFileNames;
    var zip := Zipped(codec, stamp, EntriesOf(t, folders, files));
    if Unzipped(codec, zip) == (Closure(t), None) {
      AcceptedHasFileNames(codec, zip, t);
    }
    if HasFileNames(t) {
      EntriesNamed(t, folders, files);
      EntriesDiffer(t, folders, files);
      EntriesExpressible(t, folders, files);
      ReadableIsWithin(t, folders, files, zip);
      TreeOfEntries(t, folders, files);
      WrittenZipReadBack(codec, stamp, EntriesOf(t, folders, files));
      if AllExpressible(EntriesOf(t, folders, files)) {
        ExpressibleZipReadBack(codec, stamp, EntriesOf(t, folders, files));
      }
    }
  }

  /** A tree built with AddFolder, AddFile and Remove comes back as it was. */
  lemma BuiltTreeRoundTrip(codec: Codec, stamp: Stamp, edits: seq<Edit>, folders: seq<Path>, files: seq<Path>)
    requires IsLawful(codec) && (forall e <- edits :: SafeEdit(e)) && ListsTree(Built(edits), folders, files)
    ensures var t := Built(edits);
      var zip := Zipped(codec, stamp, EntriesOf(t, folders, files));
      Unzipped(codec, zip) == (t, None) <==>
        && t != EMPTY_TREE && |folders| + |files| <= MAX_ENTRIES && |zip| <= MAX_ZIP_BYTES
        && ContentSize(t.files, files) <= MAX_TOTAL_UNCOMPRESSED && IsExpressibleTree(t)
  {
    hide IsLawful, Zipped, Unzipped, Closure, Built, IsExpressibleTree, HasParents, EntriesOf;
    var t := Built(edits);
    BuiltIsClosed(edits);
    ReadZipUndoesWriteZip(codec, stamp, t, folders, files);
    EnumeratesCounts(folders, t.folders);
    EnumeratesCounts(files, t.files.Keys);
    assert |t.files.Keys| == |t.files|;
    if |t.folders| + |t.files| == 0 {
      assert t.folders == {} && t.files == map[];
    }
  }

  // ---------------------------------------------------------------------------
  // A path too long
  // ---------------------------------------------------------------------------

  const LONG_NAME: Path := seq(0x1_0000, _ => 97)

  const LONG_TREE := Contents(map[LONG_NAME := []], {})

  lemma LongNameIsSafe()
    ensures IsFileName(LONG_NAME) && |LONG_NAME| == 0x1_0000 && IsClosed(LONG_TREE)
  {
    forall from: nat, to: nat | IsPart(LONG_NAME, from, to) ensures NamesSomething(LONG_NAME[from..to]) {
      assert LONG_NAME[from..to][0] == 97;
    }
    SafeIsConfined(LONG_NAME);
  }

  lemma LoneEntrySize(codec: Codec, stamp: Stamp, e: Entry)
    ensures |Zipped(codec, stamp, [e])| == 98 + 2 * |e.name| + |BodyOf(codec, e)|
  {
    hide LocalHeader, CentralHeader, EndOfDirectory, BodyOf, Low16, Low32;
    assert [e][..0] == [];
    assert Locals(codec, stamp, []) == [] && Centrals(codec, stamp, []) == [];
  }

  lemma LongTreeReadable(codec: Codec, stamp: Stamp)
    requires |codec.deflate([])| <= 1000
    ensures IsReadable(LONG_TREE, [LONG_NAME], Zipped(codec, stamp, EntriesOf(LONG_TREE, [], [LONG_NAME])))
  {
    hide Zipped, LONG_NAME, IsSafe;
    LongNameIsSafe();
    var e := Entry(LONG_NAME, []);
    assert EntriesOf(LONG_TREE, [], [LONG_NAME]) == [e];
    LoneEntrySize(codec, stamp, e);
    assert [LONG_NAME][..0] == [];
    assert ContentSize(LONG_TREE.files, []) == 0 && ContentSize(LONG_TREE.files, [LONG_NAME]) == 0;
  }

  /** One empty file with a safe path of 65536 octets keeps every limit, and is lost all the same. */
  lemma LongNameLost(codec: Codec, stamp: Stamp)
    requires IsLawful(codec)
    ensures var zip := Zipped(codec, stamp, EntriesOf(LONG_TREE, [], [LONG_NAME]));
      && IsFileName(LONG_NAME) && LONG_TREE == Built([AddFile(LONG_NAME, [])])
      && (|codec.deflate([])| <= 1000 ==> IsReadable(LONG_TREE, [LONG_NAME], zip))
      && Unzipped(codec, zip) != (LONG_TREE, None)
  {
    hide IsLawful, Zipped, Unzipped, LONG_NAME, IsReadable, IsSafe, EntriesOf;
    LongNameIsSafe();
    ClosedIsItsClosure(LONG_TREE);
    if |codec.deflate([])| <= 1000 {
      LongTreeReadable(codec, stamp);
    }
    ReadZipUndoesWriteZip(codec, stamp, LONG_TREE, [], [LONG_NAME]);
  }
}
