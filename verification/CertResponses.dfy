/** Which CARI responses --import-cari takes, and what it takes from them (ReadCariResponse in sc/cert_tool.cpp), said
    of the files of the response one by one. */
module CertResponses {
  import opened Octets
  import opened CertFiles
  import opened CertTool

  // ---------------------------------------------------------------------------
  // Paths
  // ---------------------------------------------------------------------------

  /** The name after the last slash begins with `prefix`. */
  predicate HasNamePrefix(path: Path, prefix: string) {
    exists k | 0 <= k <= |path| :: (k == 0 || path[k - 1] == '/') && '/' !in path[k..] && prefix <= path[k..]
  }

  lemma {:induction false} BaseNameExactly(path: Path)
    ensures var n := |BaseName(path)|;
      n <= |path| && BaseName(path) == path[|path| - n..] && '/' !in BaseName(path) &&
      (n == |path| || path[|path| - n - 1] == '/')
  {
    if path != "" && path[|path| - 1] != '/' {
      var init, last := path[..|path| - 1], path[|path| - 1];
      BaseNameExactly(init);
      assert path == init + [last];
    }
  }

  lemma NamePrefix(path: Path, prefix: string)
    ensures prefix <= BaseName(path) <==> HasNamePrefix(path, prefix)
  {
    hide BaseName;
    BaseNameExactly(path);
    var n := |path| - |BaseName(path)|;
    assert path[n..] == BaseName(path);
  }

  predicate MayBeOperational(path: Path, own: Path) { path == own || HasNamePrefix(path, "opr-") }

  predicate MayBeIssuer(path: Path) { "cert1/issuer/" <= path && HasNamePrefix(path, "iss-") }

  // ---------------------------------------------------------------------------
  // The certificate
  // ---------------------------------------------------------------------------

  function CertificateIn(t: Reader, r: Response, path: Path): (certificate: Option<string>) {
    if path in r.files then t.certificateIn(r.files[path]) else None
  }

  /** The file is a certificate for `key`. */
  predicate IsForKey(c: Crypto, t: Reader, r: Response, path: Path, key: nat) {
    CertificateIn(t, r, path).Some? && c.certificateKey(CertificateIn(t, r, path).value) == key
  }

  /** The file the certificate is taken from: the device's own if it is for the key, else the first opr- file in path
      order that is. */
  predicate IsSource(c: Crypto, t: Reader, r: Response, own: Path, key: nat, path: Path) {
    && IsForKey(c, t, r, path, key)
    && (path == own ||
        (HasNamePrefix(path, "opr-") && !IsForKey(c, t, r, own, key) &&
         exists i | 0 <= i < |r.paths| :: r.paths[i] == path &&
           forall j | 0 <= j < i :: !(HasNamePrefix(r.paths[j], "opr-") && IsForKey(c, t, r, r.paths[j], key))))
  }

  /** The first opr- file of a list that is for the key. */
  predicate IsFirst(c: Crypto, t: Reader, r: Response, paths: seq<Path>, own: Path, key: nat, i: nat) {
    && i < |paths| && IsEligible(c, t, r, paths[i], own, key)
    && forall j | 0 <= j < i :: !IsEligible(c, t, r, paths[j], own, key)
  }

  predicate IsEligible(c: Crypto, t: Reader, r: Response, path: Path, own: Path, key: nat) {
    HasNamePrefix(path, "opr-") && path != own && IsForKey(c, t, r, path, key)
  }

  predicate AreFiles(r: Response, paths: seq<Path>) { forall i | 0 <= i < |paths| :: paths[i] in r.files }

  lemma {:induction false} FirstInTwo(c: Crypto, t: Reader, r: Response, a: seq<Path>, b: seq<Path>, key: nat)
    requires AreFiles(r, a) && AreFiles(r, b)
    ensures FirstFor(c, t, r, a + b, key) ==
            if FirstFor(c, t, r, a, key).Some? then FirstFor(c, t, r, a, key) else FirstFor(c, t, r, b, key)
  {
    if a == [] {
      assert a + b == b;
    } else {
      assert (a + b)[1..] == a[1..] + b;
      FirstInTwo(c, t, r, a[1..], b, key);
    }
  }

  lemma FirstOfOne(c: Crypto, t: Reader, r: Response, path: Path, key: nat)
    requires path in r.files
    ensures FirstFor(c, t, r, [path], key) ==
            if IsForKey(c, t, r, path, key) then CertificateIn(t, r, path) else None
    ensures IsForKey(c, t, r, path, key) ==> CertificateIn(t, r, path).Some?
  {
  }

  /** Among the other opr- files. */
  lemma {:induction false} FirstOther(c: Crypto, t: Reader, r: Response, paths: seq<Path>, own: Path, key: nat)
    requires AreFiles(r, paths)
    ensures var found := FirstFor(c, t, r, Others(paths, r.files, own), key);
      && (found.None? ==> forall i | 0 <= i < |paths| :: !IsEligible(c, t, r, paths[i], own, key))
      && (found.Some? ==> exists i: nat :: IsFirst(c, t, r, paths, own, key, i) &&
                            CertificateIn(t, r, paths[i]) == found)
  {
    hide HasNamePrefix, FirstFor, BaseName, IsForKey, CertificateIn, IsFirst;
    if paths == [] {
      NothingFirst(c, t, r, key);
    } else {
      var init, last := paths[..|paths| - 1], paths[|paths| - 1];
      FirstOther(c, t, r, init, own, key);
      NamePrefix(last, "opr-");
      var others, more := Others(init, r.files, own), if IsOperationalPath(last) && last != own then [last] else [];
      FirstInTwo(c, t, r, others, more, key);
      FirstOfOne(c, t, r, last, key);
      NothingFirst(c, t, r, key);
      assert paths == init + [last];
      FirstOneMore(c, t, r, init, last, own, key);
    }
  }

  lemma NotThere(c: Crypto, t: Reader, r: Response, path: Path, key: nat)
    ensures IsForKey(c, t, r, path, key) ==> path in r.files && CertificateIn(t, r, path).Some?
  {
  }

  lemma FirstOneMore(c: Crypto, t: Reader, r: Response, init: seq<Path>, last: Path, own: Path, key: nat)
    ensures forall i: nat :: IsFirst(c, t, r, init, own, key, i) ==>
              i < |init| && (init + [last])[i] == init[i] && IsFirst(c, t, r, init + [last], own, key, i)
    ensures (forall i | 0 <= i < |init| :: !IsEligible(c, t, r, init[i], own, key)) ==>
              (IsFirst(c, t, r, init + [last], own, key, |init|) <==> IsEligible(c, t, r, last, own, key))
  {
    hide IsEligible;
  }

  lemma NothingFirst(c: Crypto, t: Reader, r: Response, key: nat)
    ensures FirstFor(c, t, r, [], key) == None
  {
  }

  lemma SourceAmongOthers(c: Crypto, t: Reader, r: Response, own: Path, key: nat)
    requires r.Valid() && !IsForKey(c, t, r, own, key)
    ensures var found := FirstFor(c, t, r, Others(r.paths, r.files, own), key);
      && (forall path | IsSource(c, t, r, own, key, path) :: found == CertificateIn(t, r, path))
      && (found.Some? ==> exists path :: IsSource(c, t, r, own, key, path))
  {
    hide HasNamePrefix, FirstFor, IsForKey, CertificateIn, Others;
    FirstOther(c, t, r, r.paths, own, key);
    var found := FirstFor(c, t, r, Others(r.paths, r.files, own), key);
    forall path | IsSource(c, t, r, own, key, path) ensures found == CertificateIn(t, r, path) {
      var i: nat :| i < |r.paths| && r.paths[i] == path &&
        forall j | 0 <= j < i :: !(HasNamePrefix(r.paths[j], "opr-") && IsForKey(c, t, r, r.paths[j], key));
      assert IsEligible(c, t, r, r.paths[i], own, key);
      var k: nat :| IsFirst(c, t, r, r.paths, own, key, k) && CertificateIn(t, r, r.paths[k]) == found;
      assert k == i;
    }
    if found.Some? {
      var k: nat :| IsFirst(c, t, r, r.paths, own, key, k) && CertificateIn(t, r, r.paths[k]) == found;
      forall j | 0 <= j < k ensures !(HasNamePrefix(r.paths[j], "opr-") && IsForKey(c, t, r, r.paths[j], key)) {
        assert !IsEligible(c, t, r, r.paths[j], own, key);
      }
      assert IsSource(c, t, r, own, key, r.paths[k]);
    }
  }

  /** What ReadCariResponse finds is the certificate of the source, and it finds one exactly when there is one. */
  lemma SourceExactly(c: Crypto, t: Reader, r: Response, own: Path, key: nat)
    requires r.Valid()
    ensures var found := FirstFor(c, t, r, Candidates(r, own), key);
      && (forall path | IsSource(c, t, r, own, key, path) :: found == CertificateIn(t, r, path))
      && (found.Some? ==> exists path :: IsSource(c, t, r, own, key, path))
  {
    hide HasNamePrefix, FirstFor, IsForKey, CertificateIn, Others;
    NotThere(c, t, r, own, key);
    var first, others := if own in r.files then [own] else [], Others(r.paths, r.files, own);
    FirstInTwo(c, t, r, first, others, key);
    NothingFirst(c, t, r, key);
    if own in r.files {
      FirstOfOne(c, t, r, own, key);
    }
    if IsForKey(c, t, r, own, key) {
      assert IsSource(c, t, r, own, key, own);
    } else {
      SourceAmongOthers(c, t, r, own, key);
    }
  }

  // ---------------------------------------------------------------------------
  // The issuers
  // ---------------------------------------------------------------------------

  predicate IsCaFile(c: Crypto, t: Reader, r: Response, path: Path) {
    CertificateIn(t, r, path).Some? && c.isCa(CertificateIn(t, r, path).value)
  }

  /** The issuer files, in path order. */
  function IssuerPaths(paths: seq<Path>): (issuers: seq<Path>)
    ensures forall p <- issuers :: p in paths && MayBeIssuer(p)
  {
    if paths == [] then []
    else
      var last := paths[|paths| - 1];
      IssuerPaths(paths[..|paths| - 1]) + if MayBeIssuer(last) then [last] else []
  }

  /** The certificates of all issuer files, in order, if every one is a CA's. */
  lemma {:induction false} IssuersOfExactly(c: Crypto, t: Reader, r: Response, paths: seq<Path>)
    requires AreFiles(r, paths)
    ensures var issuers, files := IssuersOf(c, t, paths, r.files), IssuerPaths(paths);
      && (issuers.Some? <==> forall p <- paths | MayBeIssuer(p) :: IsCaFile(c, t, r, p))
      && (issuers.Some? ==> |issuers.value| == |files| && forall i | 0 <= i < |files| ::
            CertificateIn(t, r, files[i]) == Some(issuers.value[i]))
  {
    hide HasNamePrefix, BaseName;
    if paths != [] {
      var init, last := paths[..|paths| - 1], paths[|paths| - 1];
      assert paths == init + [last];
      IssuersOfExactly(c, t, r, init);
      NamePrefix(last, "iss-");
    }
  }

  // ---------------------------------------------------------------------------
  // The response
  // ---------------------------------------------------------------------------

  /** A response is taken exactly when it has an unexpired certificate for the key where one is looked for, every
      issuer file is a CA certificate, there are at most two, and one of them signed it. What is taken is that
      certificate and those issuers, its first signer in front. */
  lemma ResponseTakenExactly(c: Crypto, t: Reader, r: Response, own: Path, key: nat)
    requires r.Valid()
    ensures var issuers := IssuerPaths(r.paths);
      Installable(c, t, r, own, key) <==>
        && |issuers| <= 2 && (forall p <- r.paths | MayBeIssuer(p) :: IsCaFile(c, t, r, p))
        && exists path :: IsSource(c, t, r, own, key, path) && !t.expired(CertificateIn(t, r, path).value)
             && exists p :: p in issuers && IsCaFile(c, t, r, p) &&
                  t.signed(CertificateIn(t, r, p).value, CertificateIn(t, r, path).value)
  {
    hide HasNamePrefix, IsFirst, MayBeIssuer, FirstFor, Candidates, IssuersOf, IssuerPaths;
    var found, issuers, files := FirstFor(c, t, r, Candidates(r, own), key), IssuersOf(c, t, r.paths, r.files),
        IssuerPaths(r.paths);
    SourceExactly(c, t, r, own, key);
    IssuersOfExactly(c, t, r, r.paths);
    if Installable(c, t, r, own, key) {
      var path :| IsSource(c, t, r, own, key, path);
      assert found == CertificateIn(t, r, path);
      var i :| 0 <= i < |issuers.value| && t.signed(issuers.value[i], found.value);
      assert files[i] in files;
    }
  }

  lemma TakenFromSource(c: Crypto, t: Reader, r: Response, own: Path, key: nat, f: ResponseFiles, path: Path)
    requires r.Valid() && Chosen(c, t, r, own, key, f) && IsSource(c, t, r, own, key, path)
    ensures CertificateIn(t, r, path) == Some(f.operational)
    ensures var issuers := IssuerPaths(r.paths);
      && |f.issuers| == |issuers| && t.signed(f.issuers[0], f.operational)
      && (forall p <- issuers :: IsCaFile(c, t, r, p) && CertificateIn(t, r, p).value in f.issuers)
      && (forall x <- f.issuers :: exists p :: p in issuers && CertificateIn(t, r, p) == Some(x))
      && var first := CertificateIn(t, r, issuers[0]).value;
         t.signed(first, f.operational) ==> f.issuers[0] == first
  {
    hide HasNamePrefix, IsFirst, MayBeIssuer, FirstFor, Candidates, IssuersOf, IssuerPaths;
    SourceExactly(c, t, r, own, key);
    IssuersOfExactly(c, t, r, r.paths);
    var list, files := IssuersOf(c, t, r.paths, r.files).value, IssuerPaths(r.paths);
    forall x ensures x in f.issuers <==> x in list {
      assert x in f.issuers <==> x in multiset(f.issuers);
      assert x in list <==> x in multiset(list);
    }
    forall x | x in f.issuers ensures exists p :: p in files && CertificateIn(t, r, p) == Some(x) {
      var i :| 0 <= i < |list| && list[i] == x;
      assert files[i] in files;
    }
    forall p | p in files ensures IsCaFile(c, t, r, p) && CertificateIn(t, r, p).value in f.issuers {
      var i :| 0 <= i < |files| && files[i] == p;
      assert list[i] in list;
    }
  }
}
