/** Making the node's certificate request and installing its answer (sc/cert_tool.cpp), on the files
    sc/cert_layout.cpp names, and the start that follows (sc/ScNode.cpp). */
module CertTool {
  import opened Octets
  import opened CertFiles
  import CertSteps
  import opened CertRequests
  import CertStore
  import Pem

  // ---------------------------------------------------------------------------
  // The node's files
  // ---------------------------------------------------------------------------

  const FILE_OPERATIONAL_CERTIFICATE := 2
  const FILE_ISSUER_CERTIFICATE_1 := 3
  const FILE_ISSUER_CERTIFICATE_2 := 4
  const FILE_CERTIFICATE_SIGNING_REQUEST := 5

  const OPR_FILE := "opr-node.pem"
  const CSR_FILE := "csr-node.pem"
  const KEY_FILE := "key-node.pem"
  const ISSUER_1_FILE := "cert1/issuer/iss-1.pem"
  const ISSUER_2_FILE := "cert1/issuer/iss-2.pem"
  const PENDING_KEY_FILE := "key-node-pending.pem"
  const REQUEST_ZIP := "node-cari-request.zip"

  /** The layout of a certificate directory, both paths ending in '/'. */
  function NodeFiles(certDir: Path, portFolder: Path): (l: Layout) {
    var port := certDir + portFolder;
    LayoutOf(port + OPR_FILE, port + CSR_FILE, port + KEY_FILE, certDir + ISSUER_1_FILE, certDir + ISSUER_2_FILE,
             certDir + PENDING_KEY_FILE)
  }

  /** The layout with these files. */
  function LayoutOf(opr: Path, csr: Path, key: Path, iss1: Path, iss2: Path, pending: Path): (l: Layout) {
    Layout(map[FILE_OPERATIONAL_CERTIFICATE := opr, FILE_ISSUER_CERTIFICATE_1 := iss1,
               FILE_ISSUER_CERTIFICATE_2 := iss2, FILE_CERTIFICATE_SIGNING_REQUEST := csr],
           map[FILE_ISSUER_CERTIFICATE_2 := FILE_ISSUER_CERTIFICATE_1], FILE_OPERATIONAL_CERTIFICATE,
           [FILE_ISSUER_CERTIFICATE_1, FILE_ISSUER_CERTIFICATE_2], key, pending, FILE_CERTIFICATE_SIGNING_REQUEST)
  }

  /** The octet `n` places from the end. */
  function FromEnd(path: Path, n: nat): char
    requires 0 < n <= |path|
  {
    path[|path| - n]
  }

  lemma Ending(prefix: Path, name: Path, n: nat)
    requires 0 < n <= |name|
    ensures FromEnd(prefix + name, n) == FromEnd(name, n)
  {
  }

  /** The roles of the node's files; none gets in the way of another, nor of its temporary file. */
  predicate IsNodeLayout(l: Layout) {
    && CertSteps.NodeLayout(l)
    && l.paths.Keys == {FILE_OPERATIONAL_CERTIFICATE, FILE_ISSUER_CERTIFICATE_1, FILE_ISSUER_CERTIFICATE_2,
                        FILE_CERTIFICATE_SIGNING_REQUEST}
    && l.operational == FILE_OPERATIONAL_CERTIFICATE && l.csr == FILE_CERTIFICATE_SIGNING_REQUEST
    && l.issuers == [FILE_ISSUER_CERTIFICATE_1, FILE_ISSUER_CERTIFICATE_2]
  }

  /** The files' names differ 5 places from the end, e e e 1 2 g, or 12 places from the end, o c k. */
  lemma PathsDiffer(certDir: Path, port: Path)
    ensures var (opr, csr, key) := (port + OPR_FILE, port + CSR_FILE, port + KEY_FILE);
      var (iss1, iss2, pending) := (certDir + ISSUER_1_FILE, certDir + ISSUER_2_FILE, certDir + PENDING_KEY_FILE);
      && opr != csr && opr != key && csr != key && iss1 != iss2 && iss1 != pending && iss2 != pending
      && iss1 !in {opr, csr, key} && iss2 !in {opr, csr, key} && pending !in {opr, csr, key}
  {
    Ending(port, OPR_FILE, 5); Ending(port, OPR_FILE, 12);
    Ending(port, CSR_FILE, 5); Ending(port, CSR_FILE, 12);
    Ending(port, KEY_FILE, 5); Ending(port, KEY_FILE, 12);
    Ending(certDir, ISSUER_1_FILE, 5);
    Ending(certDir, ISSUER_2_FILE, 5);
    Ending(certDir, PENDING_KEY_FILE, 5);
  }

  predicate EndsIn(path: Path, c: char) { path != "" && path[|path| - 1] == c }

  lemma EndsAsName(prefix: Path, name: Path)
    requires name != ""
    ensures EndsIn(prefix + name, name[|name| - 1])
  {
  }

  /** Every managed file is a .pem. */
  lemma ManagedEnd(certDir: Path, portFolder: Path)
    ensures forall q | q in NodeFiles(certDir, portFolder).Managed() :: EndsIn(q, 'm')
  {
    hide EndsIn;
    var l, port := NodeFiles(certDir, portFolder), certDir + portFolder;
    EndsAsName(port, OPR_FILE); EndsAsName(port, CSR_FILE); EndsAsName(port, KEY_FILE);
    EndsAsName(certDir, ISSUER_1_FILE); EndsAsName(certDir, ISSUER_2_FILE); EndsAsName(certDir, PENDING_KEY_FILE);
    assert l.paths.Values == {port + OPR_FILE, certDir + ISSUER_1_FILE, certDir + ISSUER_2_FILE, port + CSR_FILE} by {
      assert l.paths[FILE_OPERATIONAL_CERTIFICATE] == port + OPR_FILE;
      assert l.paths[FILE_ISSUER_CERTIFICATE_1] == certDir + ISSUER_1_FILE;
      assert l.paths[FILE_ISSUER_CERTIFICATE_2] == certDir + ISSUER_2_FILE;
      assert l.paths[FILE_CERTIFICATE_SIGNING_REQUEST] == port + CSR_FILE;
    }
  }

  /** Everything a node's layout needs but that no file is another's temporary one. */
  predicate IsAlmostNodeLayout(l: Layout) {
    && (forall i, j :: i in l.paths && j in l.paths && i != j ==> l.paths[i] != l.paths[j])
    && (forall i :: i in l.paths ==> l.paths[i] != "" && l.paths[i] != l.privateKey && l.paths[i] != l.pendingKey)
    && l.privateKey != "" && l.pendingKey != "" && l.pendingKey != l.privateKey
    && (forall i :: i in l.fallbacks ==> l.fallbacks[i] !in l.fallbacks)
    && l.paths.Keys == {FILE_OPERATIONAL_CERTIFICATE, FILE_ISSUER_CERTIFICATE_1, FILE_ISSUER_CERTIFICATE_2,
                        FILE_CERTIFICATE_SIGNING_REQUEST}
    && l.operational == FILE_OPERATIONAL_CERTIFICATE && l.csr == FILE_CERTIFICATE_SIGNING_REQUEST
    && l.issuers == [FILE_ISSUER_CERTIFICATE_1, FILE_ISSUER_CERTIFICATE_2] && l.operational !in l.fallbacks
  }

  lemma NodeFilesDiffer(certDir: Path, portFolder: Path)
    ensures IsAlmostNodeLayout(NodeFiles(certDir, portFolder))
  {
    var port := certDir + portFolder;
    PathsDiffer(certDir, port);
    var (opr, csr, key) := (port + OPR_FILE, port + CSR_FILE, port + KEY_FILE);
    var (iss1, iss2, pending) := (certDir + ISSUER_1_FILE, certDir + ISSUER_2_FILE, certDir + PENDING_KEY_FILE);
    assert opr != "" && csr != "" && key != "" && iss1 != "" && iss2 != "" && pending != "";
    DifferentFiles(opr, csr, key, iss1, iss2, pending);
  }

  lemma DifferentFiles(opr: Path, csr: Path, key: Path, iss1: Path, iss2: Path, pending: Path)
    requires opr != csr && opr != key && csr != key && iss1 != iss2 && iss1 != pending && iss2 != pending
    requires iss1 !in {opr, csr, key} && iss2 !in {opr, csr, key} && pending !in {opr, csr, key}
    requires opr != "" && csr != "" && key != "" && iss1 != "" && iss2 != "" && pending != ""
    ensures IsAlmostNodeLayout(LayoutOf(opr, csr, key, iss1, iss2, pending))
  {
  }

  lemma EndsDiffer(p: Path, q: Path, c: char, d: char)
    requires EndsIn(p, c) && EndsIn(q, d) && c != d
    ensures p != q
  {
  }

  lemma NodeFilesAreNodeLayout(certDir: Path, portFolder: Path)
    ensures IsNodeLayout(NodeFiles(certDir, portFolder))
    ensures certDir + REQUEST_ZIP !in NodeFiles(certDir, portFolder).Managed()
  {
    hide Layout.Managed, Tmp, EndsIn, NodeFiles;
    var l := NodeFiles(certDir, portFolder);
    NodeFilesDiffer(certDir, portFolder);
    ManagedEnd(certDir, portFolder);
    forall p, q | p in l.Managed() && q in l.Managed() ensures Tmp(p) != q {
      TmpEnds(p);
      EndsDiffer(Tmp(p), q, 'p', 'm');
    }
    EndsAsName(certDir, REQUEST_ZIP);
    forall q | q in l.Managed() ensures certDir + REQUEST_ZIP != q {
      EndsDiffer(certDir + REQUEST_ZIP, q, 'p', 'm');
    }
  }

  lemma TmpEnds(p: Path)
    ensures EndsIn(Tmp(p), 'p')
  {
    EndsAsName(p, ".tmp");
  }

  // ---------------------------------------------------------------------------
  // Choosing from a CARI response
  // ---------------------------------------------------------------------------

  /** What OpenSSL says about the certificates in a response. */
  datatype Reader = Reader(
    certificateIn: string -> Option<string>, // the certificate in PEM or DER octets, as its PEM block
    expired: string -> bool,
    signed: (string, string) -> bool)        // issuer, certificate
  {
    /** A PEM block OpenSSL writes is one the certificate store reads back. */
    ghost predicate Lawful(c: Crypto) {
      forall bytes, block :: certificateIn(bytes) == Some(block) ==>
        c.parses(block) && Pem.IsBlock(block, Pem.PemMarkers("CERTIFICATE"))
    }
  }

  /** The files of a response, in path order. */
  datatype Response = Response(paths: seq<Path>, files: map<Path, string>) {
    predicate Valid() { Enumerates(paths, files.Keys) }
  }

  function BaseName(path: Path): (name: string) {
    if path == "" || path[|path| - 1] == '/' then "" else BaseName(path[..|path| - 1]) + [path[|path| - 1]]
  }

  predicate IsOperationalPath(path: Path) { "opr-" <= BaseName(path) }

  predicate IsIssuerPath(path: Path) { "cert1/issuer/" <= path && "iss-" <= BaseName(path) }

  /** The files that may hold this device's certificate: its own place first, then any opr- file. */
  function Candidates(r: Response, own: Path): (paths: seq<Path>)
    requires r.Valid()
    ensures forall i | 0 <= i < |paths| :: paths[i] in r.files
  {
    (if own in r.files then [own] else []) + Others(r.paths, r.files, own)
  }

  function Others(paths: seq<Path>, files: map<Path, string>, own: Path): (others: seq<Path>)
    requires forall i | 0 <= i < |paths| :: paths[i] in files
    ensures forall i | 0 <= i < |others| :: others[i] in files
  {
    if paths == [] then []
    else
      var last := paths[|paths| - 1];
      Others(paths[..|paths| - 1], files, own) + if IsOperationalPath(last) && last != own then [last] else []
  }

  /** The certificate for `key` in one of the files. */
  function CertificateAt(c: Crypto, t: Reader, bytes: string, key: nat): (block: Option<string>) {
    var certificate := t.certificateIn(bytes);
    if certificate.Some? && c.certificateKey(certificate.value) == key then certificate else None
  }

  /** The first one in the order of `paths`. */
  function FirstFor(c: Crypto, t: Reader, r: Response, paths: seq<Path>, key: nat): (block: Option<string>)
    requires forall i | 0 <= i < |paths| :: paths[i] in r.files
  {
    if paths == [] then None
    else
      var here := CertificateAt(c, t, r.files[paths[0]], key);
      if here.Some? then here else FirstFor(c, t, r, paths[1..], key)
  }

  /** Every issuer in the response, in path order; None when one is not a CA certificate. */
  function IssuersOf(c: Crypto, t: Reader, paths: seq<Path>, files: map<Path, string>): (issuers: Option<seq<string>>)
    requires forall i | 0 <= i < |paths| :: paths[i] in files
  {
    if paths == [] then Some([])
    else
      var last := paths[|paths| - 1];
      var before := IssuersOf(c, t, paths[..|paths| - 1], files);
      if before.None? || !IsIssuerPath(last) then before
      else
        var certificate := t.certificateIn(files[last]);
        if certificate.None? || !c.isCa(certificate.value) then None else Some(before.value + [certificate.value])
  }

  datatype ResponseFiles = ResponseFiles(operational: string, issuers: seq<string>)

  /** The response can be installed: it has this device's unexpired certificate, and at most two issuers,
      all of them CAs and one of them its signer. */
  predicate Installable(c: Crypto, t: Reader, r: Response, own: Path, key: nat)
    requires r.Valid()
  {
    var operational, issuers := FirstFor(c, t, r, Candidates(r, own), key), IssuersOf(c, t, r.paths, r.files);
    && operational.Some? && !t.expired(operational.value)
    && issuers.Some? && |issuers.value| <= 2
    && exists i | 0 <= i < |issuers.value| :: t.signed(issuers.value[i], operational.value)
  }

  /** What is installed from it: the certificate, and the issuers with the signer first. */
  predicate Chosen(c: Crypto, t: Reader, r: Response, own: Path, key: nat, f: ResponseFiles)
    requires r.Valid()
  {
    && Some(f.operational) == FirstFor(c, t, r, Candidates(r, own), key)
    && IssuersOf(c, t, r.paths, r.files).Some?
    && multiset(f.issuers) == multiset(IssuersOf(c, t, r.paths, r.files).value)
    && |f.issuers| == |IssuersOf(c, t, r.paths, r.files).value|
    && 1 <= |f.issuers| <= 2 && t.signed(f.issuers[0], f.operational)
    && (t.signed(IssuersOf(c, t, r.paths, r.files).value[0], f.operational) ==>
          f.issuers == IssuersOf(c, t, r.paths, r.files).value)
  }

  lemma OneMoreOther(r: Response, own: Path, i: nat)
    requires r.Valid() && i < |r.paths|
    ensures var last := r.paths[i];
      Others(r.paths[..i + 1], r.files, own) ==
      Others(r.paths[..i], r.files, own) + if IsOperationalPath(last) && last != own then [last] else []
  {
    hide IsOperationalPath;
    assert r.paths[..i + 1][..i] == r.paths[..i];
  }

  lemma NoOthers(r: Response, own: Path)
    ensures Others(r.paths[..0], r.files, own) == []
  {
  }

  method CollectCandidates(r: Response, own: Path) returns (candidates: seq<Path>)
    requires r.Valid()
    ensures candidates == Candidates(r, own)
  {
    hide IsOperationalPath, Others;
    candidates := if own in r.files then [own] else [];
    ghost var first, others := candidates, [];
    NoOthers(r, own);
    for i := 0 to |r.paths|
      invariant candidates == first + others && others == Others(r.paths[..i], r.files, own)
    {
      OneMoreOther(r, own, i);
      if IsOperationalPath(r.paths[i]) && r.paths[i] != own {
        candidates := candidates + [r.paths[i]];
        others := others + [r.paths[i]];
      }
    }
    assert r.paths[..|r.paths|] == r.paths;
  }

  method CollectIssuers(c: Crypto, t: Reader, r: Response) returns (issuers: Option<seq<string>>)
    requires r.Valid()
    ensures issuers == IssuersOf(c, t, r.paths, r.files)
  {
    hide BaseName;
    var found := [];
    for i := 0 to |r.paths|
      invariant IssuersOf(c, t, r.paths[..i], r.files) == Some(found)
    {
      assert r.paths[..i + 1][..i] == r.paths[..i];
      if IsIssuerPath(r.paths[i]) {
        var certificate := t.certificateIn(r.files[r.paths[i]]);
        if certificate.None? || !c.isCa(certificate.value) {
          NoIssuers(c, t, r, i + 1);
          return None;
        }
        found := found + [certificate.value];
      }
    }
    assert r.paths[..|r.paths|] == r.paths;
    return Some(found);
  }

  lemma {:induction false} NoIssuers(c: Crypto, t: Reader, r: Response, n: nat)
    requires r.Valid() && n <= |r.paths| && IssuersOf(c, t, r.paths[..n], r.files).None?
    ensures IssuersOf(c, t, r.paths, r.files).None?
    decreases |r.paths| - n
  {
    hide BaseName;
    if n < |r.paths| {
      assert r.paths[..n + 1][..n] == r.paths[..n];
      NoIssuers(c, t, r, n + 1);
    } else {
      assert r.paths[..n] == r.paths;
    }
  }

  /** std::rotate(begin, signer, signer + 1): the signer moves to the front. */
  function ToFront(s: seq<string>, k: nat): (r: seq<string>)
    requires k < |s|
    ensures |r| == |s| && r[0] == s[k] && multiset(r) == multiset(s)
  {
    assert s == s[..k] + [s[k]] + s[k + 1..];
    [s[k]] + s[..k] + s[k + 1..]
  }

  /** The selection of ReadCariResponse. */
  method ChooseFiles(c: Crypto, t: Reader, r: Response, own: Path, key: nat) returns (f: Option<ResponseFiles>)
    requires r.Valid()
    ensures f.Some? <==> Installable(c, t, r, own, key)
    ensures f.Some? ==> Chosen(c, t, r, own, key, f.value)
  {
    hide Candidates, IssuersOf;
    var candidates := CollectCandidates(r, own);
    var operational: Option<string> := None;
    var k := 0;
    while k < |candidates| && operational.None?
      invariant 0 <= k <= |candidates|
      invariant FirstFor(c, t, r, candidates, key) ==
                if operational.Some? then operational else FirstFor(c, t, r, candidates[k..], key)
    {
      operational := CertificateAt(c, t, r.files[candidates[k]], key);
      k := k + 1;
    }
    if operational.None? || t.expired(operational.value) {
      return None;
    }
    var issuers := CollectIssuers(c, t, r);
    if issuers.None? {
      return None;
    }
    var signer := 0;
    while signer < |issuers.value| && !t.signed(issuers.value[signer], operational.value)
      invariant 0 <= signer <= |issuers.value|
      invariant forall i | 0 <= i < signer :: !t.signed(issuers.value[i], operational.value)
    {
      signer := signer + 1;
    }
    if signer == |issuers.value| {
      return None;
    }
    var ordered := ToFront(issuers.value, signer);
    if |ordered| > 2 {
      return None;
    }
    return Some(ResponseFiles(operational.value, ordered));
  }

  /** The device's own file wins over any other for the same key. */
  lemma OwnFileFirst(c: Crypto, t: Reader, r: Response, own: Path, key: nat)
    requires r.Valid() && own in r.files && CertificateAt(c, t, r.files[own], key).Some?
    ensures FirstFor(c, t, r, Candidates(r, own), key) == CertificateAt(c, t, r.files[own], key)
  {
    assert Candidates(r, own)[0] == own;
  }

  /** Whatever is chosen is a certificate for the key. */
  lemma {:induction false} FirstIsForKey(c: Crypto, t: Reader, r: Response, paths: seq<Path>, key: nat)
    requires forall i | 0 <= i < |paths| :: paths[i] in r.files
    requires FirstFor(c, t, r, paths, key).Some?
    ensures var block := FirstFor(c, t, r, paths, key).value;
            c.certificateKey(block) == key && exists bytes :: t.certificateIn(bytes) == Some(block)
  {
    if CertificateAt(c, t, r.files[paths[0]], key).None? {
      FirstIsForKey(c, t, r, paths[1..], key);
    }
  }

  lemma {:induction false} IssuersAreCertificates(c: Crypto, t: Reader, paths: seq<Path>, files: map<Path, string>,
      issuer: string)
    requires forall i | 0 <= i < |paths| :: paths[i] in files
    requires IssuersOf(c, t, paths, files).Some? && issuer in IssuersOf(c, t, paths, files).value
    ensures c.isCa(issuer) && exists bytes :: t.certificateIn(bytes) == Some(issuer)
  {
    hide BaseName;
    var n := |paths| - 1;
    var before := IssuersOf(c, t, paths[..n], files);
    if issuer in before.value {
      IssuersAreCertificates(c, t, paths[..n], files, issuer);
    }
  }

  // ---------------------------------------------------------------------------
  // The node's certificate directory
  // ---------------------------------------------------------------------------

  datatype RequestResult = AlreadyExists | Created | NotMade

  /** The new key and request are on disk, all of them. */
  predicate IsMade(l: Layout, disk: Disk, key: string, request: string) {
    FromDisk(disk, l.privateKey) == Some(key) && FromDisk(disk, l.OwnPath(l.csr)) == Some(request)
  }

  /** CertPem: the block, and the newline OpenSSL ends it with. */
  function CertPem(block: string): string { block + "\n" }

  /** The response's files are in place: a single issuer fills both slots. */
  predicate Imported(l: Layout, disk: Disk, f: ResponseFiles)
    requires l.WellFormed()
  {
    && 1 <= |f.issuers| <= 2
    && FromDisk(disk, l.OwnPath(FILE_OPERATIONAL_CERTIFICATE)) == Some(CertPem(f.operational))
    && FromDisk(disk, l.OwnPath(FILE_ISSUER_CERTIFICATE_1)) == Some(CertPem(f.issuers[0]))
    && FromDisk(disk, l.OwnPath(FILE_ISSUER_CERTIFICATE_2)) == Some(CertPem(f.issuers[|f.issuers| - 1]))
  }

  class Node {
    const layout: Layout
    const zipPath: Path     // the request for the CA
    const ownCertificate: Path // where a response should hold this device's certificate
    const crypto: Crypto
    const reader: Reader
    var disk: Disk
    ghost var failures: nat    // how many files could not be opened
    ghost var shortWrites: nat // how many writes stopped short

    constructor (certDir: Path, portFolder: Path, crypto: Crypto, reader: Reader, disk: Disk)
      ensures layout == NodeFiles(certDir, portFolder) && Valid()
      ensures this.crypto == crypto && this.reader == reader && this.disk == disk
    {
      layout, zipPath, ownCertificate := NodeFiles(certDir, portFolder), certDir + REQUEST_ZIP, portFolder + OPR_FILE;
      this.crypto, this.reader, this.disk := crypto, reader, disk;
      failures, shortWrites := 0, 0;
      NodeFilesAreNodeLayout(certDir, portFolder);
    }

    predicate Valid() { IsNodeLayout(layout) && zipPath !in layout.Managed() }

    /** An in-place write. Once the file is open the answer is true, however much of `bytes` gets there. */
    method WriteFile(path: Path, bytes: string) returns (ok: bool, written: nat)
      modifies this`disk, this`failures, this`shortWrites
      ensures written <= |bytes| && failures == old(failures) + (if ok then 0 else 1)
      ensures shortWrites == old(shortWrites) + if ok && written < |bytes| then 1 else 0
      ensures disk == if ok then old(disk)[path := bytes[..written]] else old(disk)
      ensures ok && written == |bytes| ==> disk == old(disk)[path := bytes]
    {
      ok, written := *, *;
      if written > |bytes| {
        written := |bytes|;
      }
      failures := failures + if ok then 0 else 1;
      if ok {
        disk := disk[path := bytes[..written]];
        shortWrites := shortWrites + if written < |bytes| then 1 else 0;
      }
      assert bytes[..|bytes|] == bytes;
    }

    function Request(): (request: Option<string>)
      requires Valid()
      reads this
    {
      FromDisk(disk, layout.paths[layout.csr])
    }

    /** The first key, and the request for it. */
    method MakeKeyAndRequest(key: string, request: string) returns (ok: bool, ghost whole: bool)
      requires Valid() && IsPair(crypto, key, request)
      requires Request().None?
      modifies this`disk, this`failures, this`shortWrites
      ensures failures >= old(failures) && shortWrites >= old(shortWrites) &&
                (whole <==> shortWrites == old(shortWrites))
      ensures ok <==> failures == old(failures)
      ensures forall p :: p != layout.privateKey && p != layout.paths[layout.csr] ==>
                FromDisk(disk, p) == FromDisk(old(disk), p)
      ensures whole ==> RequestIsHeld(layout, crypto, disk)
      ensures ok ==> Request().Some? && (whole <==> IsMade(layout, disk, key, request))
    {
      CertSteps.ManagedPaths(layout, layout.csr);
      var written;
      ok, written := WriteFile(layout.privateKey, key);
      whole := ok ==> written == |key|;
      if ok {
        ok, written := WriteFile(layout.paths[layout.csr], request);
        whole := whole && (ok ==> written == |request|);
      }
    }

    /** A new key is made only when there is none at all. */
    predicate MayMakeKey(before: Disk, made: Option<(string, string)>) {
      layout.privateKey !in before && layout.pendingKey !in before && made.Some?
    }

    /** The first half of EnsureNodeRequest: a key and a request, if there is neither. */
    method EnsureRequest(made: Option<(string, string)>) returns (ok: bool, ghost whole: bool)
      requires Valid()
      requires made.Some? ==> IsPair(crypto, made.value.0, made.value.1)
      modifies this`disk, this`failures, this`shortWrites
      ensures failures >= old(failures) && shortWrites >= old(shortWrites) &&
                (whole <==> shortWrites == old(shortWrites))
      ensures if old(Request()).Some? then ok && disk == old(disk) && failures == old(failures) && whole
              else if !MayMakeKey(old(disk), made) then !ok && disk == old(disk) && failures == old(failures) && whole
              else
                && (ok <==> failures == old(failures))
                && (forall p :: p != layout.privateKey && p != layout.paths[layout.csr] ==>
                      FromDisk(disk, p) == FromDisk(old(disk), p))
                && (ok ==> Request().Some? && (whole <==> IsMade(layout, disk, made.value.0, made.value.1)))
                && (whole ==> RequestIsHeld(layout, crypto, disk))
    {
      hide KeyAt;
      ok, whole := true, true;
      CertSteps.ManagedPaths(layout, layout.csr);
      if layout.paths[layout.csr] !in disk {
        if layout.privateKey in disk || layout.pendingKey in disk || made.None? {
          return false, true;
        }
        ok, whole := MakeKeyAndRequest(made.value.0, made.value.1);
      }
    }

    /** Makes the request for the CA if it is not there. `made` is the key and request OpenSSL made; `zip` what
        the request packs to; `whole` says that every write of the key and request got all its octets out, and
        `packed` that the zip did. What exists stays as it is, and the request on disk stays one for a held key. */
    method EnsureNodeRequest(made: Option<(string, string)>, zip: string)
        returns (r: RequestResult, ghost whole: bool, ghost packed: bool)
      requires Valid()
      requires made.Some? ==> IsPair(crypto, made.value.0, made.value.1)
      modifies this`disk, this`failures, this`shortWrites
      ensures whole && packed <==> shortWrites == old(shortWrites)
      ensures r == AlreadyExists <==> zipPath in old(disk)
      ensures r == AlreadyExists ==> disk == old(disk)
      ensures r == Created <==>
                && zipPath !in old(disk) && failures == old(failures)
                && (old(Request()).Some? || MayMakeKey(old(disk), made)) && Request().Some?
                && crypto.requestKey(Request().value).Some?
      ensures r == Created ==> zipPath in disk && (packed ==> disk[zipPath] == zip)
      ensures forall p :: p != zipPath && FromDisk(disk, p) != FromDisk(old(disk), p) ==>
                && p in {layout.privateKey, layout.paths[layout.csr]}
                && old(Request()).None? && MayMakeKey(old(disk), made)
      ensures forall p :: p in layout.Managed() && FromDisk(old(disk), p).Some? ==>
                FromDisk(disk, p) == FromDisk(old(disk), p)
      ensures FromDisk(disk, layout.pendingKey) == FromDisk(old(disk), layout.pendingKey)
      ensures RequestIsHeld(layout, crypto, old(disk)) && whole ==> RequestIsHeld(layout, crypto, disk)
      ensures r == Created && old(Request()).None? ==>
                made.Some? && (whole <==> IsMade(layout, disk, made.value.0, made.value.1))
    {
      hide KeyAt, IsPair, IsNodeLayout, Layout.WellFormed;
      whole, packed := true, true;
      NodePathsApart();
      if zipPath in disk {
        return AlreadyExists, whole, packed;
      }
      var ok;
      ok, whole := EnsureRequest(made);
      if !ok || crypto.requestKey(disk[layout.paths[layout.csr]]).None? {
        return NotMade, whole, packed;
      }
      OtherFileKeepsRequest(zipPath, zip);
      var written;
      ok, written := WriteFile(zipPath, zip);
      packed := ok ==> written == |zip|;
      return if ok then Created else NotMade, whole, packed;
    }

    lemma NodePathsApart()
      requires Valid()
      ensures layout.WellFormed() && layout.csr in layout.paths
      ensures {layout.privateKey, layout.pendingKey, layout.paths[layout.csr]} <= layout.Managed()
      ensures layout.paths[layout.csr] != "" && layout.pendingKey !in {layout.privateKey, layout.paths[layout.csr]}
      ensures layout.privateKey != "" && layout.privateKey != layout.paths[layout.csr]
    {
      CertSteps.ManagedPaths(layout, layout.csr);
    }

    lemma OtherFileKeepsRequest(path: Path, bytes: string)
      requires Valid() && path !in layout.Managed()
      ensures forall n | 0 <= n <= |bytes| ::
                RequestIsHeld(layout, crypto, disk[path := bytes[..n]]) == RequestIsHeld(layout, crypto, disk)
    {
      CertSteps.ManagedPaths(layout, layout.csr);
    }

    /** Overwrites the three certificate files in turn. A failed write leaves the later ones old. */
    method InstallFiles(f: ResponseFiles) returns (ok: bool, ghost whole: bool)
      requires Valid() && 1 <= |f.issuers| <= 2
      modifies this`disk, this`failures, this`shortWrites
      ensures failures >= old(failures) && shortWrites >= old(shortWrites) &&
                (whole <==> shortWrites == old(shortWrites))
      ensures ok <==> failures == old(failures)
      ensures FromDisk(disk, layout.privateKey) == FromDisk(old(disk), layout.privateKey)
      ensures FromDisk(disk, layout.pendingKey) == FromDisk(old(disk), layout.pendingKey)
      ensures ok ==> (whole <==> Imported(layout, disk, f))
    {
      hide CertPem, IsNodeLayout, Layout.WellFormed;
      NodePathsDiffer();
      var operational := layout.paths[FILE_OPERATIONAL_CERTIFICATE];
      var written;
      ok, written := WriteFile(operational, CertPem(f.operational));
      whole := ok ==> written == |CertPem(f.operational)|;
      if !ok {
        return;
      }
      ghost var rest;
      ok, rest := InstallIssuers(f);
      whole := whole && rest;
    }

    /** The two issuers; a single one fills both slots. */
    method InstallIssuers(f: ResponseFiles) returns (ok: bool, ghost whole: bool)
      requires Valid() && 1 <= |f.issuers| <= 2
      modifies this`disk, this`failures, this`shortWrites
      ensures failures >= old(failures) && shortWrites >= old(shortWrites) &&
                (whole <==> shortWrites == old(shortWrites))
      ensures ok <==> failures == old(failures)
      ensures forall p ::
                (p != layout.paths[FILE_ISSUER_CERTIFICATE_1] && p != layout.paths[FILE_ISSUER_CERTIFICATE_2]) ==>
                FromDisk(disk, p) == FromDisk(old(disk), p)
      ensures ok ==>
                (whole <==>
                   && FromDisk(disk, layout.OwnPath(FILE_ISSUER_CERTIFICATE_1)) == Some(CertPem(f.issuers[0]))
                   && FromDisk(disk, layout.OwnPath(FILE_ISSUER_CERTIFICATE_2)) ==
                       Some(CertPem(f.issuers[|f.issuers| - 1])))
    {
      hide CertPem, IsNodeLayout, Layout.WellFormed;
      NodePathsDiffer();
      var first, second := layout.paths[FILE_ISSUER_CERTIFICATE_1], layout.paths[FILE_ISSUER_CERTIFICATE_2];
      var written;
      ok, written := WriteFile(first, CertPem(f.issuers[0]));
      whole := ok ==> written == |CertPem(f.issuers[0])|;
      if !ok {
        return;
      }
      var other := if |f.issuers| > 1 then f.issuers[1] else f.issuers[0];
      ok, written := WriteFile(second, CertPem(other));
      whole := whole && (ok ==> written == |CertPem(other)|);
    }

    lemma NodePathsDiffer()
      requires Valid()
      ensures var paths, o, i1, i2 := layout.paths, FILE_OPERATIONAL_CERTIFICATE, FILE_ISSUER_CERTIFICATE_1,
                FILE_ISSUER_CERTIFICATE_2;
              && layout.WellFormed() && o in paths && i1 in paths && i2 in paths
              && paths[o] != paths[i1] && paths[o] != paths[i2] && paths[i1] != paths[i2]
              && (forall i :: i in paths ==>
                  paths[i] != "" && paths[i] != layout.privateKey && paths[i] != layout.pendingKey)
    {
    }

    /** Installs a CA's response, None when the zip could not be read. `chosen` is what was selected. */
    method ImportCariResponse(response: Option<Response>)
        returns (ok: bool, ghost whole: bool, chosen: Option<ResponseFiles>)
      requires Valid() && (response.Some? ==> response.value.Valid())
      modifies this`disk, this`failures, this`shortWrites
      ensures failures >= old(failures) && shortWrites >= old(shortWrites) &&
                (whole <==> shortWrites == old(shortWrites))
      ensures ok <==> chosen.Some? && failures == old(failures)
      ensures FromDisk(disk, layout.privateKey) == FromDisk(old(disk), layout.privateKey)
      ensures FromDisk(disk, layout.pendingKey) == FromDisk(old(disk), layout.pendingKey)
      ensures ok ==> chosen.Some?
      ensures chosen.None? ==> disk == old(disk)
      ensures var request := old(Request());
              chosen.Some? <==>
              && response.Some? && request.Some? && crypto.requestKey(request.value).Some?
              && Installable(crypto, reader, response.value, ownCertificate, crypto.requestKey(request.value).value)
      ensures chosen.Some? ==>
                && Chosen(crypto, reader, response.value, ownCertificate,
                    crypto.requestKey(old(Request()).value).value, chosen.value)
                && (ok ==> (whole <==> Imported(layout, disk, chosen.value)))
    {
      hide Installable, Imported, Candidates;
      CertSteps.ManagedPaths(layout, layout.csr);
      ok, whole, chosen := false, true, None;
      var csrPath := layout.paths[layout.csr];
      if response.None? || csrPath !in disk || crypto.requestKey(disk[csrPath]).None? {
        return;
      }
      chosen := ChooseFiles(crypto, reader, response.value, ownCertificate, crypto.requestKey(disk[csrPath]).value);
      if chosen.Some? {
        ok, whole := InstallFiles(chosen.value);
      }
    }
  }

  // ---------------------------------------------------------------------------
  // Import, then start
  // ---------------------------------------------------------------------------

  /** A PEM file OpenSSL wrote holds exactly its certificate. */
  lemma CertPemParses(c: Crypto, block: string)
    requires c.parses(block) && Pem.IsBlock(block, Pem.PemMarkers("CERTIFICATE"))
    ensures ParseCertificates(c, CertPem(block)) == Some([block])
  {
    hide Pem.IsBlock, Pem.PlainLabel, Pem.SplitPem;
    Pem.DashFreeLabelIsPlain("CERTIFICATE");
    Pem.LoneBlockSplits(block, "\n", Pem.PemMarkers("CERTIFICATE"));
  }

  /** Everything chosen from a response parses when written as PEM. */
  lemma ChosenParses(c: Crypto, t: Reader, r: Response, own: Path, key: nat, f: ResponseFiles)
    requires t.Lawful(c) && r.Valid() && Chosen(c, t, r, own, key, f)
    ensures ParseCertificates(c, CertPem(f.operational)) == Some([f.operational]) &&
              c.certificateKey(f.operational) == key
    ensures forall k | 0 <= k < |f.issuers| :: ParseCertificates(c, CertPem(f.issuers[k])) == Some([f.issuers[k]])
  {
    hide ParseCertificates, CertPem, Pem.IsBlock, Candidates;
    FirstIsForKey(c, t, r, Candidates(r, own), key);
    CertPemParses(c, f.operational);
    forall k | 0 <= k < |f.issuers| ensures ParseCertificates(c, CertPem(f.issuers[k])) == Some([f.issuers[k]]) {
      assert f.issuers[k] in multiset(f.issuers);
      IssuersAreCertificates(c, t, r.paths, r.files, f.issuers[k]);
      CertPemParses(c, f.issuers[k]);
    }
  }

  /** After a completed import of a response to a held request, and a start whose reconcile succeeds, the
      operational certificate is for the current key, its signer is in slot 1, and the issuers are those of
      the response and no others. */
  lemma StartAfterImport(l: Layout, c: Crypto, t: Reader, disk: Disk, r: Response, own: Path, key: nat,
      f: ResponseFiles)
    requires IsNodeLayout(l) && Imported(l, disk, f)
    requires t.Lawful(c) && r.Valid() && Chosen(c, t, r, own, key, f)
    requires KeyAt(c, disk, l.privateKey) == Some(key) || KeyAt(c, disk, l.pendingKey) == Some(key)
    ensures var s := CertSteps.AfterStart(l, c, disk, true);
            && Installed(l, c, s.disk) == Some(f.operational) && InstalledIsCurrent(l, c, s.disk)
            && t.signed(f.issuers[0], f.operational)
            && IssuersIn(l, c, s, l.issuers) == Some([f.issuers[0], f.issuers[|f.issuers| - 1]])
            && multiset(f.issuers) == multiset(IssuersOf(c, t, r.paths, r.files).value)
  {
    hide ParseCertificates, Candidates, CertPem, KeyAt, IssuersOf;
    ChosenParses(c, t, r, own, key, f);
    CertSteps.StartFacts(l, c, disk, true);
    var s := CertSteps.AfterStart(l, c, disk, true);
    StartKeepsFiles(l, c, disk);
    var first, second := FILE_ISSUER_CERTIFICATE_1, FILE_ISSUER_CERTIFICATE_2;
    assert FromDisk(s.disk, l.paths[first]) == FromDisk(disk, l.paths[first]);
    assert FromDisk(s.disk, l.paths[second]) == FromDisk(disk, l.paths[second]);
    TwoIssuers(l, c, s, f.issuers[0], f.issuers[|f.issuers| - 1]);
  }

  /** --import-cari, and the next start: the two together. */
  method ImportThenStart(node: Node, response: Option<Response>)
    returns (imported: bool, ghost whole: bool, started: bool, store: CertStore.CertStore,
        chosen: Option<ResponseFiles>)
    requires node.Valid() && (response.Some? ==> response.value.Valid()) && node.reader.Lawful(node.crypto)
    requires RequestIsHeld(node.layout, node.crypto, node.disk)
    modifies node`disk, node`failures, node`shortWrites
    ensures imported <==> chosen.Some? && node.failures == old(node.failures)
    ensures whole <==> node.shortWrites == old(node.shortWrites)
    ensures started <==> store.failures == 0
    ensures fresh(store) && store.layout == node.layout && store.crypto == node.crypto && store.Valid()
    ensures imported && whole && started ==>
              && chosen.Some? && Installed(store.layout, store.crypto, store.disk) == Some(chosen.value.operational)
              && InstalledIsCurrent(store.layout, store.crypto, store.disk)
              && 1 <= |chosen.value.issuers| <= 2 &&
                  node.reader.signed(chosen.value.issuers[0], chosen.value.operational)
              && IssuersIn(store.layout, store.crypto, store.Contents(), store.layout.issuers) ==
                 Some([chosen.value.issuers[0], chosen.value.issuers[|chosen.value.issuers| - 1]])
    ensures imported ==>
              && chosen.Some? && response.Some? && old(node.Request()).Some?
              && node.crypto.requestKey(old(node.Request()).value).Some?
              && Chosen(node.crypto, node.reader, response.value, node.ownCertificate,
                        node.crypto.requestKey(old(node.Request()).value).value, chosen.value)
  {
    hide Chosen, Installable, Imported, Installed, InstalledIsHeld, InstalledIsCurrent, IssuersIn, KeyAt,
         Layout.WellFormed, NeedsReconcile, Promoted, ParseCertificates, Enumerates, IssuersOf, FromDisk,
         Reader.Lawful;
    ghost var l, c := node.layout, node.crypto;
    ghost var request, before := node.Request(), node.disk;
    imported, whole, chosen := node.ImportCariResponse(response);
    store := new CertStore.CertStore(node.layout, node.crypto, node.disk);
    ghost var disk := store.disk;
    started := store.ReconcilePendingKey();
    if imported && whole && started {
      SameFileSameKey(c, before, disk, l.privateKey);
      SameFileSameKey(c, before, disk, l.pendingKey);
      StartAfterImport(l, c, node.reader, disk, response.value, node.ownCertificate,
          c.requestKey(request.value).value, chosen.value);
      assert store.Contents() == CertSteps.AfterStart(l, c, disk, true);
      ChosenSize(c, node.reader, response.value, node.ownCertificate, c.requestKey(request.value).value, chosen.value);
    }
  }

  lemma SameFileSameKey(c: Crypto, a: Disk, b: Disk, path: Path)
    requires FromDisk(a, path) == FromDisk(b, path)
    ensures KeyAt(c, a, path) == KeyAt(c, b, path)
  {
  }

  lemma ChosenSize(c: Crypto, t: Reader, r: Response, own: Path, key: nat, f: ResponseFiles)
    requires r.Valid() && Chosen(c, t, r, own, key, f)
    ensures 1 <= |f.issuers| <= 2
  {
  }

  lemma TwoIssuers(l: Layout, c: Crypto, s: Store, first: string, second: string)
    requires IsNodeLayout(l) && s.staged == map[]
    requires FromDisk(s.disk, l.paths[FILE_ISSUER_CERTIFICATE_1]) == Some(CertPem(first))
    requires FromDisk(s.disk, l.paths[FILE_ISSUER_CERTIFICATE_2]) == Some(CertPem(second))
    requires ParseCertificates(c, CertPem(first)) == Some([first]) &&
              ParseCertificates(c, CertPem(second)) == Some([second])
    ensures IssuersIn(l, c, s, l.issuers) == Some([first, second])
  {
    hide ParseCertificates, CertPem;
    assert Effective(l, s, FILE_ISSUER_CERTIFICATE_1) == CertPem(first);
    assert Effective(l, s, FILE_ISSUER_CERTIFICATE_2) == CertPem(second);
    var one := [FILE_ISSUER_CERTIFICATE_1];
    assert l.issuers[..1] == one && one[..0] == [];
    assert IssuersIn(l, c, s, one[..0]) == Some([]);
    assert [] + [first] == [first];
    assert IssuersIn(l, c, s, one) == Some([first]);
    assert |l.issuers| - 1 == 1 && l.issuers[1] == FILE_ISSUER_CERTIFICATE_2;
    assert l.issuers[..|l.issuers| - 1] == one;
    assert [first] + [second] == [first, second];
  }

  /** A start changes none of the certificate files. */
  lemma StartKeepsFiles(l: Layout, c: Crypto, disk: Disk)
    requires CertSteps.NodeLayout(l)
    ensures var s := CertSteps.AfterStart(l, c, disk, true);
            && Installed(l, c, s.disk) == Installed(l, c, disk)
            && forall i :: i in l.paths ==> FromDisk(s.disk, l.paths[i]) == FromDisk(disk, l.paths[i])
  {
    if NeedsReconcile(l, c, disk) {
      hide ParseCertificates;
      var s := Store(disk, map[], false);
      CertSteps.PromotedFacts(l, c, s, s.(disk := Promoted(l, disk)));
    }
  }
}
