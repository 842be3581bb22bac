/** A CARI file's folder tree and the paths it may hold (sc/cari.cpp), Annex AA.2 of ANSI/ASHRAE 135-2024.
    Paths are octet strings, as std::string holds them. */
module CariTree {
  import opened Octets

  const SLASH: Byte := 47
  const BACKSLASH: Byte := 92
  const COLON: Byte := 58
  const DOT: Byte := 46
  const DELETE: Byte := 0x7F

  type Path = Bytes

  // ---------------------------------------------------------------------------
  // Parts of a path
  // ---------------------------------------------------------------------------

  /** Where the part that begins at `at` ends. */
  function PartEnd(path: Path, at: nat): (end: nat)
    requires at <= |path|
    ensures at <= end <= |path| && SLASH !in path[at..end] && (end == |path| || path[end] == SLASH)
    decreases |path| - at
  {
    if at == |path| || path[at] == SLASH then at
    else
      assert forall end | at + 1 <= end <= |path| :: path[at..end] == [path[at]] + path[at + 1..end];
      PartEnd(path, at + 1)
  }

  /** The parts from `at` on, as std::getline reads them: nothing follows a slash at the end. */
  function Parts(path: Path, at: nat): (parts: seq<Bytes>)
    decreases |path| - at
  {
    if at >= |path| then []
    else
      var end := PartEnd(path, at);
      [path[at..end]] + Parts(path, end + 1)
  }

  method Split(path: Path) returns (parts: seq<Bytes>)
    ensures parts == Parts(path, 0)
  {
    parts := [];
    var at := 0;
    while at < |path|
      invariant Parts(path, 0) == parts + Parts(path, at)
      decreases |path| - at
    {
      var end := at;
      while end < |path| && path[end] != SLASH
        invariant at <= end <= |path| && PartEnd(path, at) == PartEnd(path, end)
      {
        end := end + 1;
      }
      parts, at := parts + [path[at..end]], end + 1;
    }
  }

  predicate NamesSomething(part: Bytes) { part != [] && part != [DOT] && part != [DOT, DOT] }

  predicate IsPlain(octets: Bytes) { forall c <- octets :: c >= 0x20 && c != DELETE }

  predicate GoodPart(part: Bytes) { NamesSomething(part) && IsPlain(part) }

  predicate GoodParts(parts: seq<Bytes>) { forall part <- parts :: GoodPart(part) }

  /** A path a zip may name, as its parts say. */
  predicate IsSafe(path: Path) {
    path != [] && path[0] != SLASH && BACKSLASH !in path && COLON !in path && GoodParts(Parts(path, 0))
  }

  method IsSafeZipPath(path: Path) returns (safe: bool)
    ensures safe == IsSafe(path)
  {
    if path == [] || path[0] == SLASH || BACKSLASH in path || COLON in path {
      return false;
    }
    var parts := Split(path);
    for i := 0 to |parts|
      invariant GoodParts(parts[..i])
    {
      var part := parts[i];
      assert part in parts;
      if part == [] || part == [DOT] || part == [DOT, DOT] {
        return false;
      }
      for k := 0 to |part|
        invariant forall j | 0 <= j < k :: part[j] >= 0x20 && part[j] != DELETE
      {
        if part[k] < 0x20 || part[k] == DELETE {
          assert part[k] in part;
          return false;
        }
      }
      assert GoodPart(part);
      assert parts[..i + 1] == parts[..i] + [part];
    }
    assert parts[..|parts|] == parts;
    return true;
  }

  // ---------------------------------------------------------------------------
  // The same paths, octet by octet
  // ---------------------------------------------------------------------------

  /** The octets [from, to) lie between slashes or the ends of the path. */
  predicate IsPart(path: Path, from: nat, to: nat) {
    && from <= to <= |path| && from < |path|
    && (from == 0 || path[from - 1] == SLASH) && (to == |path| || path[to] == SLASH) && SLASH !in path[from..to]
  }

  /** No part from `at` on is empty, "." or ".."; but a slash may end the path. */
  ghost predicate PartsName(path: Path, at: nat) {
    forall from: nat, to: nat | at <= from && IsPart(path, from, to) :: NamesSomething(path[from..to])
  }

  /** Relative, every part naming something, and no backslash, colon or control octet. */
  ghost predicate IsConfined(path: Path) {
    path != [] && BACKSLASH !in path && COLON !in path && IsPlain(path) && PartsName(path, 0)
  }

  lemma {:induction false} PartsAreParts(path: Path, at: nat)
    requires at == 0 || (at <= |path| && path[at - 1] == SLASH) || at == |path| + 1
    ensures GoodParts(Parts(path, at)) <==> IsPlain(Drop(path, at)) && PartsName(path, at)
    decreases |path| - at
  {
    hide IsPlain, PartsName, NamesSomething, GoodParts, Drop;
    if at < |path| {
      var end := PartEnd(path, at);
      var part, rest := path[at..end], Parts(path, end + 1);
      PartsAreParts(path, end + 1);
      OneMoreGoodPart(part, rest);
      NamesStep(path, at, end);
      PlainStep(path, at, end);
    } else {
      NothingLeft(path, at);
    }
  }

  lemma OneMoreGoodPart(part: Bytes, rest: seq<Bytes>)
    ensures GoodParts([part] + rest) <==> GoodPart(part) && GoodParts(rest)
  {
    assert forall p :: p in [part] + rest <==> p == part || p in rest;
  }

  lemma NothingLeft(path: Path, at: nat)
    requires at >= |path|
    ensures IsPlain(Drop(path, at)) && PartsName(path, at) && GoodParts(Parts(path, at))
  {
  }

  lemma PlainStep(path: Path, at: nat, end: nat)
    requires at <= end <= |path| && (end == |path| || path[end] == SLASH)
    ensures IsPlain(Drop(path, at)) <==> IsPlain(path[at..end]) && IsPlain(Drop(path, end + 1))
  {
    var all, part, rest := path[at..], path[at..end], Drop(path, end + 1);
    assert all == part + path[end..];
    if end < |path| {
      assert path[end..] == [SLASH] + rest;
    }
    assert forall c :: c in all <==> c in part || (end < |path| && c == SLASH) || c in rest;
  }

  lemma NamesStep(path: Path, at: nat, end: nat)
    requires IsPart(path, at, end)
    ensures PartsName(path, at) <==> NamesSomething(path[at..end]) && PartsName(path, end + 1)
  {
    forall from: nat, to: nat | at <= from && IsPart(path, from, to)
      ensures (from == at && to == end) || from >= end + 1
    {
      OnePartFrom(path, at, end, from, to);
    }
  }

  lemma OnePartFrom(path: Path, at: nat, end: nat, from: nat, to: nat)
    requires IsPart(path, at, end) && IsPart(path, from, to) && at <= from
    ensures (from == at && to == end) || from >= end + 1
  {
    assert forall i | at <= i < end :: path[i] == path[at..end][i - at];
    assert forall i | from <= i < to :: path[i] == path[from..to][i - from];
  }

  /** The reader's test of a path is exactly confinement below the folder it unpacks in. */
  lemma SafeIsConfined(path: Path)
    ensures IsSafe(path) <==> IsConfined(path)
  {
    PartsAreParts(path, 0);
    if path != [] && path[0] == SLASH {
      assert IsPart(path, 0, 0);
      assert path[0..0] == [];
    }
  }

  // ---------------------------------------------------------------------------
  // The tree
  // ---------------------------------------------------------------------------

  datatype Contents = Contents(files: map<Path, Bytes>, folders: set<Path>)

  const EMPTY_TREE := Contents(map[], {})

  function Extended(partial: Path, part: Bytes): (longer: Path) {
    if partial == [] then part else partial + [SLASH] + part
  }

  /** The folders AddFolder inserts for the parts from `at` on. */
  function FoldersFrom(path: Path, at: nat, partial: Path): (folders: set<Path>)
    decreases |path| - at
  {
    if at >= |path| then {}
    else
      var end := PartEnd(path, at);
      var longer := Extended(partial, path[at..end]);
      {longer} + FoldersFrom(path, end + 1, longer)
  }

  /** The same, of a path already split. */
  function PartialsOf(parts: seq<Bytes>, partial: Path): (folders: set<Path>) {
    if parts == [] then {}
    else
      var longer := Extended(partial, parts[0]);
      {longer} + PartialsOf(parts[1..], longer)
  }

  lemma {:induction false} PartialsOfParts(path: Path, at: nat, partial: Path)
    ensures PartialsOf(Parts(path, at), partial) == FoldersFrom(path, at, partial)
    decreases |path| - at
  {
    if at < |path| {
      var end := PartEnd(path, at);
      PartialsOfParts(path, end + 1, Extended(partial, path[at..end]));
    }
  }

  function LastSlash(path: Path): (at: Option<nat>)
    ensures at.Some? ==> at.value < |path| && path[at.value] == SLASH && SLASH !in path[at.value + 1..]
    ensures at.None? ==> SLASH !in path
  {
    if path == [] then None
    else if path[|path| - 1] == SLASH then Some(|path| - 1)
    else
      var init := path[..|path| - 1];
      assert path == init + [path[|path| - 1]];
      var at := LastSlash(init);
      assert at.Some? ==> path[at.value + 1..] == init[at.value + 1..] + [path[|path| - 1]];
      at
  }

  function WithFolder(t: Contents, path: Path): (u: Contents) {
    t.(folders := t.folders + FoldersFrom(path, 0, []))
  }

  function FileFolders(path: Path): (folders: set<Path>) {
    var slash := LastSlash(path);
    if slash.Some? then FoldersFrom(path[..slash.value], 0, []) else {}
  }

  function WithFile(t: Contents, path: Path, octets: Bytes): (u: Contents) {
    Contents(t.files[path := octets], t.folders + FileFolders(path))
  }

  class Tree {
    var files: map<Path, Bytes>
    var folders: set<Path>

    constructor ()
      ensures View() == EMPTY_TREE
    {
      files, folders := map[], {};
    }

    function View(): (t: Contents)
      reads this
    {
      Contents(files, folders)
    }

    method AddFolder(path: Path)
      modifies this`folders
      ensures View() == WithFolder(old(View()), path)
    {
      var parts := Split(path);
      var partial := [];
      PartialsOfParts(path, 0, []);
      for i := 0 to |parts|
        invariant old(folders) + PartialsOf(parts, []) == folders + PartialsOf(parts[i..], partial)
      {
        partial := Extended(partial, parts[i]);
        assert parts[i + 1..] == parts[i..][1..];
        folders := folders + {partial};
      }
    }

    method AddFile(path: Path, octets: Bytes)
      modifies this
      ensures View() == WithFile(old(View()), path, octets)
    {
      var slash := LastSlash(path);
      if slash.Some? {
        AddFolder(path[..slash.value]);
      }
      files := files[path := octets];
    }

    method Remove(path: Path)
      modifies this`files
      ensures View() == old(View()).(files := old(files) - {path})
    {
      files := files - {path};
    }
  }

  // ---------------------------------------------------------------------------
  // Folders closed under their parents
  // ---------------------------------------------------------------------------

  /** A folder name ends at `i`. */
  predicate IsCut(path: Path, i: nat) {
    0 < i <= |path| && path[i - 1] != SLASH && (i == |path| || path[i] == SLASH)
  }

  function CutsAfter(path: Path, at: nat): (folders: set<Path>) {
    set i: nat | at < i <= |path| && IsCut(path, i) :: path[..i]
  }

  /** Every folder on the way to `path` is there. */
  predicate HasParents(folders: set<Path>, path: Path) {
    forall i | 0 <= i < |path| && path[i] == SLASH :: path[..i] in folders
  }

  predicate IsFileName(path: Path) { IsSafe(path) && path[|path| - 1] != SLASH }

  /** Safe paths without a slash at the end, and folders closed under their parents. */
  predicate IsClosed(t: Contents) {
    && (forall p | p in t.files :: IsFileName(p) && HasParents(t.folders, p))
    && (forall p | p in t.folders :: IsFileName(p) && HasParents(t.folders, p))
  }

  lemma NoDoubleSlash(path: Path, i: nat)
    requires IsSafe(path) && i < |path| && path[i] == SLASH
    ensures i > 0 && path[i - 1] != SLASH && IsCut(path, i)
  {
    SafePartNames(path, i, i);
  }

  lemma SafePartNames(path: Path, from: nat, to: nat)
    requires IsSafe(path)
    ensures IsPart(path, from, to) ==> NamesSomething(path[from..to])
  {
    SafeIsConfined(path);
  }

  /** AddFolder's joining of parts inserts exactly the cuts of a safe path. */
  lemma {:induction false} FoldersAreCuts(path: Path, at: nat, partial: Path)
    requires IsSafe(path)
    requires (at == 0 && partial == []) || (0 < at <= |path| && path[at - 1] == SLASH && partial == path[..at - 1])
             || (at == |path| + 1 && partial == path)
    ensures FoldersFrom(path, at, partial) == CutsAfter(path, at)
    decreases |path| - at
  {
    hide IsSafe, IsCut, CutsAfter, Extended;
    if at < |path| {
      var end := PartEnd(path, at);
      PartialIsCut(path, at, partial);
      FoldersAreCuts(path, end + 1, path[..end]);
      CutsSplit(path, at, end);
    } else {
      assert CutsAfter(path, at) == {} by { NoCutsAfter(path, at); }
    }
  }

  lemma NoCutsAfter(path: Path, at: nat)
    requires at >= |path|
    ensures CutsAfter(path, at) == {}
  {
  }

  lemma PartialIsCut(path: Path, at: nat, partial: Path)
    requires IsSafe(path) && at < |path|
    requires (at == 0 && partial == []) || (0 < at && path[at - 1] == SLASH && partial == path[..at - 1])
    ensures var end := PartEnd(path, at);
              at < end && IsCut(path, end) && Extended(partial, path[at..end]) == path[..end]
  {
    var end := PartEnd(path, at);
    if at > 0 {
      NoDoubleSlash(path, at - 1);
      assert path[..end] == path[..at - 1] + [SLASH] + path[at..end];
    }
    if at == end {
      NoDoubleSlash(path, end);
    }
    assert path[end - 1] == path[at..end][end - 1 - at];
  }

  lemma CutsSplit(path: Path, at: nat, end: nat)
    requires at < end <= |path| && IsCut(path, end) && SLASH !in path[at..end]
    ensures CutsAfter(path, at) == {path[..end]} + CutsAfter(path, end + 1)
  {
    assert forall i | at <= i < end :: path[i] == path[at..end][i - at];
    forall i: nat | at < i <= |path| && IsCut(path, i)
      ensures path[..i] in {path[..end]} + CutsAfter(path, end + 1)
    {
      assert i >= end;
      if i > end {
        assert i != end + 1;
        assert path[..i] in CutsAfter(path, end + 1);
      }
    }
  }

  lemma SafeCut(path: Path, i: nat)
    requires IsSafe(path) && IsCut(path, i)
    ensures IsFileName(path[..i])
  {
    SafeIsConfined(path);
    var cut := path[..i];
    forall from: nat, to: nat | IsPart(cut, from, to)
      ensures NamesSomething(cut[from..to])
    {
      assert cut[from..to] == path[from..to];
      assert IsPart(path, from, to);
    }
    assert forall c <- cut :: c in path;
    SafeIsConfined(cut);
  }

  /** The folders inserted for a safe path: safe, closed, and the path itself if it is a folder's. */
  lemma FoldersClosed(path: Path)
    requires IsSafe(path)
    ensures var added := FoldersFrom(path, 0, []);
      && (forall p | p in added :: IsFileName(p) && HasParents(added, p))
      && (IsFileName(path) ==> path in added && HasParents(added, path))
      && added == CutsAfter(path, 0)
  {
    hide IsSafe, IsCut, HasParents, FoldersFrom;
    FoldersAreCuts(path, 0, []);
    ParentsAreCut(path);
    var added := CutsAfter(path, 0);
    forall p | p in added
      ensures IsFileName(p) && HasParents(added, p)
    {
      var i: nat :| 0 < i <= |path| && IsCut(path, i) && p == path[..i];
      SafeCut(path, i);
      FewerParents(added, path, i);
    }
    if IsFileName(path) {
      WholeIsCut(path);
    }
  }

  lemma ParentsAreCut(path: Path)
    requires IsSafe(path)
    ensures HasParents(CutsAfter(path, 0), path)
  {
    hide IsSafe;
    forall i | 0 <= i < |path| && path[i] == SLASH
      ensures path[..i] in CutsAfter(path, 0)
    {
      NoDoubleSlash(path, i);
    }
  }

  lemma FewerParents(folders: set<Path>, path: Path, i: nat)
    requires HasParents(folders, path) && i <= |path|
    ensures HasParents(folders, path[..i])
  {
    assert forall j | 0 <= j < i :: path[..i][j] == path[j] && path[..i][..j] == path[..j];
  }

  lemma WholeIsCut(path: Path)
    requires IsFileName(path)
    ensures path in CutsAfter(path, 0)
  {
    assert path[..|path|] == path && IsCut(path, |path|);
  }

  /** The folders inserted for a file are exactly its parents. */
  lemma FileFoldersExactly(path: Path)
    requires IsFileName(path)
    ensures FileFolders(path) == set i: nat | i < |path| && path[i] == SLASH :: path[..i]
    ensures forall p | p in FileFolders(path) :: IsFileName(p) && HasParents(FileFolders(path), p)
  {
    hide IsSafe, FoldersFrom, CutsAfter, LastSlash;
    var slash := LastSlash(path);
    if slash.Some? {
      NoDoubleSlash(path, slash.value);
      SafeCut(path, slash.value);
      FoldersClosed(path[..slash.value]);
      ParentsAreCuts(path, slash.value);
    }
  }

  lemma ParentsAreCuts(path: Path, at: nat)
    requires IsSafe(path) && at < |path| && path[at] == SLASH && SLASH !in path[at + 1..]
    ensures CutsAfter(path[..at], 0) == set i: nat | i < |path| && path[i] == SLASH :: path[..i]
  {
    hide IsSafe;
    var folder := path[..at];
    var parents := set i: nat | i < |path| && path[i] == SLASH :: path[..i];
    assert forall i | at < i < |path| :: path[at + 1..][i - at - 1] == path[i];
    forall i: nat | i < |path| && path[i] == SLASH
      ensures path[..i] in CutsAfter(folder, 0)
    {
      NoDoubleSlash(path, i);
      assert i <= at;
      assert folder[..i] == path[..i] && IsCut(folder, i);
    }
    forall i: nat | 0 < i <= |folder| && IsCut(folder, i)
      ensures folder[..i] in parents
    {
      assert folder[..i] == path[..i] && path[i] == SLASH;
    }
  }

  lemma HasMoreParents(folders: set<Path>, more: set<Path>, path: Path)
    requires HasParents(folders, path) && folders <= more
    ensures HasParents(more, path)
  {
  }

  lemma AddFolderKeepsClosed(t: Contents, path: Path)
    requires IsClosed(t) && IsSafe(path)
    ensures IsClosed(WithFolder(t, path)) && (IsFileName(path) ==> path in WithFolder(t, path).folders)
  {
    hide HasParents, IsFileName;
    FoldersClosed(path);
    var u := WithFolder(t, path);
    forall p | p in u.files || p in u.folders
      ensures IsFileName(p) && HasParents(u.folders, p)
    {
      if p in t.files || p in t.folders {
        HasMoreParents(t.folders, u.folders, p);
      } else {
        HasMoreParents(FoldersFrom(path, 0, []), u.folders, p);
      }
    }
  }

  lemma AddFileKeepsClosed(t: Contents, path: Path, octets: Bytes)
    requires IsClosed(t) && IsFileName(path)
    ensures IsClosed(WithFile(t, path, octets))
  {
    hide IsFileName, FileFolders;
    FileFoldersExactly(path);
    var u := WithFile(t, path, octets);
    assert HasParents(u.folders, path) by {
      assert forall i: nat | i < |path| && path[i] == SLASH :: path[..i] in FileFolders(path);
    }
    forall p | (p in u.files && p != path) || p in u.folders
      ensures IsFileName(p) && HasParents(u.folders, p)
    {
      if p in t.files || p in t.folders {
        HasMoreParents(t.folders, u.folders, p);
      } else {
        HasMoreParents(FileFolders(path), u.folders, p);
      }
    }
  }

  // ---------------------------------------------------------------------------
  // Closing a tree, and trees built with AddFile and AddFolder
  // ---------------------------------------------------------------------------

  /** The tree with every folder on the way to its folders and files. */
  function Closure(t: Contents): (u: Contents) {
    t.(folders := (set g, f | g in t.folders && f in FoldersFrom(g, 0, []) :: f) +
                  (set p, f | p in t.files && f in FileFolders(p) :: f))
  }

  lemma ClosedIsItsClosure(t: Contents)
    requires IsClosed(t)
    ensures Closure(t) == t
  {
    hide IsFileName, FileFolders, FoldersFrom;
    forall p | p in t.folders
      ensures p in FoldersFrom(p, 0, []) && FoldersFrom(p, 0, []) <= t.folders
    {
      ClosedFolder(t, p);
    }
    forall p | p in t.files
      ensures FileFolders(p) <= t.folders
    {
      FileFoldersExactly(p);
    }
  }

  lemma ClosedFolder(t: Contents, p: Path)
    requires IsClosed(t) && p in t.folders
    ensures p in FoldersFrom(p, 0, []) && FoldersFrom(p, 0, []) <= t.folders
  {
    FoldersClosed(p);
    forall i: nat | 0 < i <= |p| && IsCut(p, i)
      ensures p[..i] in t.folders
    {
      if i == |p| {
        assert p[..i] == p;
      }
    }
  }

  datatype Edit = AddFolder(path: Path) | AddFile(path: Path, octets: Bytes) | Remove(path: Path)

  function Edited(t: Contents, e: Edit): (u: Contents) {
    match e
    case AddFolder(path) => WithFolder(t, path)
    case AddFile(path, octets) => WithFile(t, path, octets)
    case Remove(path) => t.(files := t.files - {path})
  }

  function Built(edits: seq<Edit>): (t: Contents) {
    if edits == [] then EMPTY_TREE else Edited(Built(edits[..|edits| - 1]), edits[|edits| - 1])
  }

  predicate SafeEdit(e: Edit) {
    match e
    case AddFolder(path) => IsSafe(path)
    case AddFile(path, _) => IsFileName(path)
    case Remove(_) => true
  }

  lemma {:induction false} BuiltIsClosed(edits: seq<Edit>)
    requires forall e <- edits :: SafeEdit(e)
    ensures IsClosed(Built(edits)) && Closure(Built(edits)) == Built(edits)
  {
    hide HasParents, IsFileName, WithFolder, WithFile, Closure;
    if edits != [] {
      var init, last := edits[..|edits| - 1], edits[|edits| - 1];
      BuiltIsClosed(init);
      assert SafeEdit(last);
      match last
      case AddFolder(path) => AddFolderKeepsClosed(Built(init), path);
      case AddFile(path, octets) => AddFileKeepsClosed(Built(init), path, octets);
      case Remove(_) =>
    }
    ClosedIsItsClosure(Built(edits));
  }
}
