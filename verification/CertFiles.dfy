/** The certificate files of a BACnet/SC node and what the certificate store keeps about them
    (sc/cert_store.cpp): files on disk, staged copies over them, and the checks before activation. */
module CertFiles {
  import opened Octets
  import Pem

  type Path = string

  /** File contents, one character an octet. */
  type Disk = map<Path, string>

  const MAX_FILE_BYTES := 64 * 1024
  const ERROR_INVALID_FILE_START_POSITION := 11
  const ERROR_FILE_FULL := 128
  const ERROR_VALUE_OUT_OF_RANGE := 37

  datatype Purpose = TlsServer | TlsClient

  /** What OpenSSL says about texts. A certificate is its PEM block; a public key is a number. */
  datatype Crypto = Crypto(
    parses: string -> bool,          // a CERTIFICATE block that PEM_read_bio_X509 accepts
    certificateKey: string -> nat,   // the public key in a certificate
    isCa: string -> bool,            // X509_check_ca
    verifies: (string, seq<string>, seq<string>, Purpose) -> bool, // leaf, intermediates, trusted issuers
    privateKey: string -> Option<nat>, // the public half of the private key in a key file
    requestKey: string -> Option<nat>) // the public key in a certificate signing request

  /** Where each File object's bytes live, and the roles the files have. */
  datatype Layout = Layout(paths: map<nat, Path>, fallbacks: map<nat, nat>, operational: nat, issuers: seq<nat>,
                           privateKey: Path, pendingKey: Path, csr: nat)
  {
    /** Files, keys and their temporary files are all different, and a File object that serves another
        one's contents is not served by a third. */
    predicate WellFormed() {
      && (forall i, j :: i in paths && j in paths && i != j ==> paths[i] != paths[j])
      && (forall i :: i in paths ==> paths[i] != "" && paths[i] != privateKey && paths[i] != pendingKey)
      && privateKey != "" && pendingKey != privateKey
      && (forall p, q :: p in Managed() && q in Managed() ==> Tmp(p) != q)
      && (forall i :: i in fallbacks ==> fallbacks[i] !in fallbacks)
      && operational in paths && operational !in fallbacks
    }

    function Managed(): set<Path> { paths.Values + {privateKey, pendingKey} }

    function OwnPath(i: nat): Path { if i in paths then paths[i] else "" }
  }

  function Tmp(path: Path): (tmp: Path) { path + ".tmp" }

  lemma TmpInjective(p: Path, q: Path)
    requires Tmp(p) == Tmp(q)
    ensures p == q
  {
    assert Tmp(p)[..|p|] == p && Tmp(q)[..|q|] == q;
  }

  /** Disk, staged copies by File object instance, and whether a commit swaps the pending key in. */
  datatype Store = Store(disk: Disk, staged: map<nat, string>, promotes: bool)

  // ---------------------------------------------------------------------------
  // Reading
  // ---------------------------------------------------------------------------

  /** The File object `i` serves instead, while it has neither a staged copy nor a file of its own. */
  function FallbackInstance(l: Layout, s: Store, i: nat): (r: Option<nat>) {
    if i in s.staged || l.OwnPath(i) == "" || l.OwnPath(i) in s.disk then None
    else if i in l.fallbacks && l.fallbacks[i] != 0 then Some(l.fallbacks[i])
    else None
  }

  function FromDisk(disk: Disk, path: Path): (r: Option<string>) {
    if path != "" && path in disk then Some(disk[path]) else None
  }

  function Read(l: Layout, s: Store, i: nat): (r: Option<string>)
    requires l.WellFormed()
    decreases if i in l.fallbacks then 1 else 0
  {
    if i in s.staged then Some(s.staged[i])
    else if FallbackInstance(l, s, i).Some? then Read(l, s, FallbackInstance(l, s, i).value)
    else FromDisk(s.disk, l.OwnPath(i))
  }

  /** The staged copy, else the file, else those of the File object it falls back to. */
  lemma ReadExactly(l: Layout, s: Store, i: nat)
    requires l.WellFormed()
    ensures Read(l, s, i) ==
            if i in s.staged then Some(s.staged[i])
            else if i !in l.paths then None
            else if l.paths[i] in s.disk then Some(s.disk[l.paths[i]])
            else if i !in l.fallbacks || l.fallbacks[i] == 0 then None
            else
              var j := l.fallbacks[i];
              if j in s.staged then Some(s.staged[j])
              else if j in l.paths && l.paths[j] in s.disk then Some(s.disk[l.paths[j]])
              else None
  {
    if FallbackInstance(l, s, i).Some? {
      assert FallbackInstance(l, s, FallbackInstance(l, s, i).value).None?;
    }
  }

  /** The contents after a commit; empty for a file that is missing. */
  function Effective(l: Layout, s: Store, i: nat): (bytes: string)
    requires l.WellFormed()
  {
    var r := Read(l, s, i);
    if r.Some? then r.value else ""
  }

  // ---------------------------------------------------------------------------
  // Writing
  // ---------------------------------------------------------------------------

  function Stage(l: Layout, s: Store, i: nat): (r: Option<Store>)
    requires l.WellFormed()
  {
    if i in s.staged then Some(s)
    else if i !in l.paths then None
    else Some(s.(staged := s.staged[i := Effective(l, s, i)]))
  }

  lemma StagedIsEffective(l: Layout, s: Store, i: nat)
    requires l.WellFormed() && (i in s.staged || i in l.paths)
    ensures Stage(l, s, i) == Some(s.(staged := s.staged[i := Effective(l, s, i)]))
  {
    if i in s.staged {
      assert s.staged == s.staged[i := s.staged[i]];
    }
  }

  datatype WriteResult = Acknowledged(start: nat) | Failed(errorCode: nat)

  /** `bytes` with `data` at `start`, grown to hold it. */
  function Overwritten(bytes: string, start: nat, data: string): (r: string)
    requires start <= |bytes|
    ensures |r| == if start + |data| > |bytes| then start + |data| else |bytes|
  {
    bytes[..start] + data + if start + |data| <= |bytes| then bytes[start + |data|..] else ""
  }

  /** Octet by octet: `data` from `start` on, and elsewhere what was there. */
  predicate IsOverwritten(bytes: string, start: nat, data: string, written: string) {
    && start <= |bytes| && |written| == (if start + |data| > |bytes| then start + |data| else |bytes|)
    && forall k | 0 <= k < |written| :: written[k] == if start <= k < start + |data| then data[k - start] else bytes[k]
  }

  /** AtomicWriteFile of `data` at `fileStart`, -1 to append, takes `s` to `t` and answers `r`. Whatever the
      answer, the file is then staged, and nothing else changes. */
  predicate Writes(l: Layout, s: Store, i: nat, fileStart: int, data: string, r: WriteResult, t: Store)
    requires l.WellFormed()
  {
    var bytes := Effective(l, s, i);
    var start := if fileStart == -1 then |bytes| else fileStart;
    && r == (if fileStart < -1 || start > |bytes| then Failed(ERROR_INVALID_FILE_START_POSITION)
             else if start + |data| > MAX_FILE_BYTES then Failed(ERROR_FILE_FULL)
             else Acknowledged(start))
    && i in t.staged && t == s.(staged := s.staged[i := t.staged[i]])
    && if r.Failed? then t.staged[i] == bytes else IsOverwritten(bytes, r.start, data, t.staged[i])
  }

  /** A text in pieces. */
  function Joined(pieces: seq<string>): (text: string) {
    if pieces == [] then "" else Joined(pieces[..|pieces| - 1]) + pieces[|pieces| - 1]
  }

  /** `pieces` are written one after the other from `from` on, each where the last ended: at that position, or
      appended if that is where the file ends. */
  predicate WritesInTurn(l: Layout, stores: seq<Store>, i: nat, from: nat, starts: seq<int>, pieces: seq<string>,
      answers: seq<WriteResult>)
    requires l.WellFormed()
  {
    && |stores| == |pieces| + 1 && |starts| == |answers| == |pieces|
    && forall k | 0 <= k < |pieces| ::
         && Writes(l, stores[k], i, starts[k], pieces[k], answers[k], stores[k + 1])
         && (if starts[k] == -1 then |Effective(l, stores[k], i)| else starts[k]) == from + |Joined(pieces[..k])|
  }

  /** However a text is cut up, it is written whole, over what was there, if and only if it fits; appended to the
      file, the pieces read back as their concatenation after what was there. */
  lemma PiecesAreWritten(l: Layout, stores: seq<Store>, i: nat, from: nat, starts: seq<int>, pieces: seq<string>,
      answers: seq<WriteResult>)
    requires l.WellFormed() && WritesInTurn(l, stores, i, from, starts, pieces, answers) && pieces != []
    ensures var (bytes, text) := (Effective(l, stores[0], i), Joined(pieces));
      && ((forall a <- answers :: a.Acknowledged?) <==> from <= |bytes| && from + |text| <= MAX_FILE_BYTES)
      && ((forall a <- answers :: a.Acknowledged?) ==>
            Read(l, stores[|pieces|], i) ==
            Some(bytes[..from] + text + if from + |text| <= |bytes| then bytes[from + |text|..] else ""))
      && (from == |bytes| && from + |text| <= MAX_FILE_BYTES ==>
            Read(l, stores[|pieces|], i) == Some(bytes + text))
  {
    hide Writes, Effective, Joined, Read;
    AllPieces(l, stores, i, from, starts, pieces, answers);
    var bytes := Effective(l, stores[0], i);
    assert bytes[..|bytes|] + Joined(pieces) + "" == bytes + Joined(pieces);
  }

  lemma {:induction false} AllPieces(l: Layout, stores: seq<Store>, i: nat, from: nat, starts: seq<int>,
      pieces: seq<string>, answers: seq<WriteResult>)
    requires l.WellFormed() && WritesInTurn(l, stores, i, from, starts, pieces, answers) && pieces != []
    ensures var (bytes, text) := (Effective(l, stores[0], i), Joined(pieces));
      && ((forall a <- answers :: a.Acknowledged?) <==> from <= |bytes| && from + |text| <= MAX_FILE_BYTES)
      && ((forall a <- answers :: a.Acknowledged?) ==>
            Read(l, stores[|pieces|], i) == Some(Overwritten(bytes, from, text)))
    decreases |pieces|
  {
    hide Writes, Effective, Read, Overwritten;
    var n := |pieces| - 1;
    var (bytes, before) := (Effective(l, stores[0], i), Joined(pieces[..n]));
    assert answers == answers[..n] + [answers[n]];
    WrittenNext(l, stores[n], i, starts[n], pieces[n], answers[n], stores[n + 1]);
    if n > 0 {
      PiecesBefore(l, stores, i, from, starts, pieces, answers);
      AllPieces(l, stores[..n + 1], i, from, starts[..n], pieces[..n], answers[..n]);
      ReadIsEffective(l, stores[n], i);
      if from <= |bytes| {
        OverwrittenTwice(bytes, from, before, pieces[n]);
      }
    } else {
      assert pieces[..0] == [] && answers[..0] == [];
      assert before + pieces[0] == pieces[0];
    }
  }

  lemma ReadIsEffective(l: Layout, s: Store, i: nat)
    requires l.WellFormed()
    ensures Read(l, s, i).Some? ==> Effective(l, s, i) == Read(l, s, i).value
  {
  }

  lemma PiecesBefore(l: Layout, stores: seq<Store>, i: nat, from: nat, starts: seq<int>, pieces: seq<string>,
      answers: seq<WriteResult>)
    requires l.WellFormed() && WritesInTurn(l, stores, i, from, starts, pieces, answers) && pieces != []
    ensures var n := |pieces| - 1;
      WritesInTurn(l, stores[..n + 1], i, from, starts[..n], pieces[..n], answers[..n])
  {
    hide Writes, Effective, Joined;
    var n := |pieces| - 1;
    assert forall k | 0 <= k < n :: pieces[..n][..k] == pieces[..k];
  }

  lemma WrittenNext(l: Layout, s: Store, i: nat, fileStart: int, data: string, r: WriteResult, t: Store)
    requires l.WellFormed() && Writes(l, s, i, fileStart, data, r, t)
    ensures var bytes := Effective(l, s, i);
      var start := if fileStart == -1 then |bytes| else fileStart;
      && (fileStart >= -1 ==> (r.Acknowledged? <==> start <= |bytes| && start + |data| <= MAX_FILE_BYTES))
      && (fileStart >= -1 && r.Acknowledged? ==> Read(l, t, i) == Some(Overwritten(bytes, start, data)))
  {
    hide Effective;
    var bytes := Effective(l, s, i);
    if fileStart >= -1 && r.Acknowledged? {
      assert t.staged[i] == Overwritten(bytes, r.start, data);
    }
  }

  lemma OverwrittenTwice(bytes: string, from: nat, first: string, second: string)
    requires from <= |bytes|
    ensures Overwritten(Overwritten(bytes, from, first), from + |first|, second) ==
            Overwritten(bytes, from, first + second)
  {
  }

  // ---------------------------------------------------------------------------
  // Certificates and keys
  // ---------------------------------------------------------------------------

  function ParseCertificates(c: Crypto, pem: string): (r: Option<seq<string>>) {
    match Pem.SplitPem(pem, Pem.PemMarkers("CERTIFICATE"))
    case Refused(_) => None
    case Blocks(blocks) =>
      if blocks == [] then if Pem.IsSpace(pem) then Some([]) else None
      else if forall i | 0 <= i < |blocks| :: c.parses(blocks[i]) then Some(blocks)
      else None
  }

  /** A text is parsed as some certificates exactly when it is those PEM blocks with only space around them, and
      OpenSSL reads every one. */
  lemma ParsesExactly(c: Crypto, pem: string, certificates: seq<string>)
    ensures ParseCertificates(c, pem) == Some(certificates) <==>
            (exists gaps :: Pem.Shape(pem, Pem.PemMarkers("CERTIFICATE"), gaps, certificates)) &&
            forall i | 0 <= i < |certificates| :: c.parses(certificates[i])
  {
    hide Pem.Shape, Pem.SplitPem, Pem.PlainLabel, Pem.IsSpace;
    Pem.DashFreeLabelIsPlain("CERTIFICATE");
    Pem.SplitExactly(pem, Pem.PemMarkers("CERTIFICATE"), certificates);
    if certificates == [] && Pem.SplitPem(pem, Pem.PemMarkers("CERTIFICATE")) == Pem.Blocks([]) {
      var gaps :| Pem.Shape(pem, Pem.PemMarkers("CERTIFICATE"), gaps, []);
      NoBlockIsSpace(pem, Pem.PemMarkers("CERTIFICATE"), gaps);
    }
  }

  lemma NoBlockIsSpace(pem: string, m: Pem.Markers, gaps: seq<string>)
    requires Pem.Shape(pem, m, gaps, [])
    ensures Pem.IsSpace(pem)
  {
  }

  /** The public half of the key in a key file. */
  function KeyAt(c: Crypto, disk: Disk, path: Path): (key: Option<nat>) {
    var pem := FromDisk(disk, path);
    if pem.None? then None else c.privateKey(pem.value)
  }

  /** An issuer alone, or all of them together: what a chain may end in. */
  predicate MayTrust(trusted: seq<string>, issuers: seq<string>) {
    trusted != [] && (trusted == issuers || (|trusted| == 1 && trusted[0] in issuers))
  }

  /** X509_verify_cert accepts the leaf against something that may be trusted. */
  ghost predicate IsVouchedFor(c: Crypto, leaf: string, intermediates: seq<string>, issuers: seq<string>,
      purpose: Purpose) {
    exists trusted :: MayTrust(trusted, issuers) && c.verifies(leaf, intermediates, trusted, purpose)
  }

  predicate CertificateFor(c: Crypto, certificate: string, key: Option<nat>) {
    key == Some(c.certificateKey(certificate))
  }

  /** X509_verify_cert against each issuer alone, then against all of them. */
  predicate ChainsToIssuers(c: Crypto, leaf: string, intermediates: seq<string>, issuers: seq<string>,
      purpose: Purpose) {
    || (exists i | 0 <= i < |issuers| :: c.verifies(leaf, intermediates, [issuers[i]], purpose))
    || (|issuers| >= 2 && c.verifies(leaf, intermediates, issuers, purpose))
  }

  /** Every issuer certificate in the files of `instances`; None when one of them is not only certificates. */
  function IssuersIn(l: Layout, c: Crypto, s: Store, instances: seq<nat>): (r: Option<seq<string>>)
    requires l.WellFormed()
  {
    if instances == [] then Some([])
    else
      var before := IssuersIn(l, c, s, instances[..|instances| - 1]);
      var last := ParseCertificates(c, Effective(l, s, instances[|instances| - 1]));
      if before.None? || last.None? then None else Some(before.value + last.value)
  }

  /** Those are the certificates of all the files, and of no other; or one of the files is at fault. */
  lemma {:induction false} IssuersExactly(l: Layout, c: Crypto, s: Store, instances: seq<nat>)
    requires l.WellFormed()
    ensures var r := IssuersIn(l, c, s, instances);
      && (r.Some? <==> forall i <- instances :: ParseCertificates(c, Effective(l, s, i)).Some?)
      && (r.Some? ==> forall x :: x in r.value <==> IsIssuer(l, c, s, instances, x))
  {
    hide ParseCertificates, Effective;
    if instances != [] {
      var init, last := instances[..|instances| - 1], instances[|instances| - 1];
      assert instances == init + [last];
      IssuersExactly(l, c, s, init);
    }
  }

  predicate IsIssuer(l: Layout, c: Crypto, s: Store, instances: seq<nat>, certificate: string)
    requires l.WellFormed()
  {
    exists i <- instances ::
      ParseCertificates(c, Effective(l, s, i)).Some? && certificate in ParseCertificates(c, Effective(l, s, i)).value
  }

  /** The operational certificate's file, parsed; empty counts as none. */
  function OperationalIn(l: Layout, c: Crypto, s: Store): (r: Option<seq<string>>)
    requires l.WellFormed()
    ensures r.Some? ==> r.value != []
  {
    var r := ParseCertificates(c, Effective(l, s, l.operational));
    if r.None? || r.value == [] then None else r
  }

  predicate ForCurrentKey(l: Layout, c: Crypto, disk: Disk, certificate: string) {
    CertificateFor(c, certificate, KeyAt(c, disk, l.privateKey))
  }

  predicate ForPendingKey(l: Layout, c: Crypto, disk: Disk, certificate: string) {
    CertificateFor(c, certificate, KeyAt(c, disk, l.pendingKey))
  }

  /** The files as they would be after a commit let the device run BACnet/SC: issuers are there, and the
      operational certificate is for a key the device holds, is not a CA's and chains to them both ways. */
  predicate Activatable(l: Layout, c: Crypto, s: Store)
    requires l.WellFormed()
  {
    var issuers, operational := IssuersIn(l, c, s, l.issuers), OperationalIn(l, c, s);
    && issuers.Some? && issuers.value != [] && operational.Some?
    && var leaf, chain := operational.value[0], operational.value[1..];
       && (ForCurrentKey(l, c, s.disk, leaf) || ForPendingKey(l, c, s.disk, leaf))
       && !c.isCa(leaf)
       && ChainsToIssuers(c, leaf, chain, issuers.value, TlsServer)
       && ChainsToIssuers(c, leaf, chain, issuers.value, TlsClient)
  }

  /** A chain verifies exactly when it does against an issuer alone or against all of them. */
  lemma ChainsExactly(c: Crypto, leaf: string, intermediates: seq<string>, issuers: seq<string>, purpose: Purpose)
    ensures ChainsToIssuers(c, leaf, intermediates, issuers, purpose) <==>
            IsVouchedFor(c, leaf, intermediates, issuers, purpose)
  {
    forall trusted | MayTrust(trusted, issuers) && c.verifies(leaf, intermediates, trusted, purpose)
      ensures ChainsToIssuers(c, leaf, intermediates, issuers, purpose)
    {
      if |trusted| == 1 {
        var i :| 0 <= i < |issuers| && issuers[i] == trusted[0];
        assert trusted == [issuers[i]];
      }
    }
    if i :| 0 <= i < |issuers| && c.verifies(leaf, intermediates, [issuers[i]], purpose) {
      assert MayTrust([issuers[i]], issuers);
    } else if |issuers| >= 2 && c.verifies(leaf, intermediates, issuers, purpose) {
      assert MayTrust(issuers, issuers);
    }
  }

  /** A certificate is put in use exactly when it is for a key the device holds, is no CA's, and for either role
      verifies against issuers in effect. */
  lemma ActivatableExactly(l: Layout, c: Crypto, s: Store)
    requires l.WellFormed()
    ensures Activatable(l, c, s) <==>
              && IssuersIn(l, c, s, l.issuers).Some? && OperationalIn(l, c, s).Some?
              && var (leaf, chain) := (OperationalIn(l, c, s).value[0], OperationalIn(l, c, s).value[1..]);
                 && Some(c.certificateKey(leaf)) in {KeyAt(c, s.disk, l.privateKey), KeyAt(c, s.disk, l.pendingKey)}
                 && !c.isCa(leaf)
                 && IsVouchedFor(c, leaf, chain, IssuersIn(l, c, s, l.issuers).value, TlsServer)
                 && IsVouchedFor(c, leaf, chain, IssuersIn(l, c, s, l.issuers).value, TlsClient)
  {
    hide ParseCertificates, KeyAt, OperationalIn, IssuersIn, ChainsToIssuers;
    var issuers, operational := IssuersIn(l, c, s, l.issuers), OperationalIn(l, c, s);
    if issuers.Some? && operational.Some? {
      var (leaf, chain) := (operational.value[0], operational.value[1..]);
      ChainsExactly(c, leaf, chain, issuers.value, TlsServer);
      ChainsExactly(c, leaf, chain, issuers.value, TlsClient);
    }
  }

  /** The flag ValidateStaged leaves: set when only the pending key fits, untouched when it does not get
      as far as the keys. */
  function PromotesAfterValidate(l: Layout, c: Crypto, s: Store): (promotes: bool)
    requires l.WellFormed()
  {
    var issuers, operational := IssuersIn(l, c, s, l.issuers), OperationalIn(l, c, s);
    if issuers.None? || issuers.value == [] || operational.None? then s.promotes
    else !ForCurrentKey(l, c, s.disk, operational.value[0]) && ForPendingKey(l, c, s.disk, operational.value[0])
  }

  // ---------------------------------------------------------------------------
  // The installed certificate
  // ---------------------------------------------------------------------------

  /** The operational certificate on disk, if there is one that parses. */
  function Installed(l: Layout, c: Crypto, disk: Disk): (r: Option<string>)
    requires l.WellFormed()
  {
    var bytes := FromDisk(disk, l.paths[l.operational]);
    if bytes.None? then None
    else
      var certificates := ParseCertificates(c, bytes.value);
      if certificates.None? || certificates.value == [] then None else Some(certificates.value[0])
  }

  /** It can be used: TLS loads it with `privateKeyPath`. */
  predicate InstalledIsCurrent(l: Layout, c: Crypto, disk: Disk)
    requires l.WellFormed()
  {
    Installed(l, c, disk).Some? ==> ForCurrentKey(l, c, disk, Installed(l, c, disk).value)
  }

  /** It is not lost: the device holds its key, as the current or as the pending one. */
  predicate InstalledIsHeld(l: Layout, c: Crypto, disk: Disk)
    requires l.WellFormed()
  {
    Installed(l, c, disk).Some? ==>
      ForCurrentKey(l, c, disk, Installed(l, c, disk).value) || ForPendingKey(l, c, disk, Installed(l, c, disk).value)
  }

  /** rename(2) over an existing file. */
  function Move(disk: Disk, from: Path, to: Path): (r: Disk)
    requires from in disk && from != to
  {
    disk[to := disk[from]] - {from}
  }

  /** ReconcilePendingKey has a swap to finish: the certificate is for the pending key and not the current. */
  predicate NeedsReconcile(l: Layout, c: Crypto, disk: Disk)
    requires l.WellFormed()
  {
    && l.pendingKey != "" && l.pendingKey in disk && Installed(l, c, disk).Some?
    && !ForCurrentKey(l, c, disk, Installed(l, c, disk).value) && ForPendingKey(l, c, disk, Installed(l, c, disk).value)
  }

  function Promoted(l: Layout, disk: Disk): (r: Disk)
    requires l.WellFormed() && l.pendingKey in disk
  {
    Move(disk, l.pendingKey, l.privateKey)
  }

  // ---------------------------------------------------------------------------
  // What leaves reads alone
  // ---------------------------------------------------------------------------

  /** The same files, whatever else changed on disk. */
  predicate SameFiles(l: Layout, a: Disk, b: Disk) {
    forall i :: i in l.paths ==> FromDisk(a, l.paths[i]) == FromDisk(b, l.paths[i])
  }

  /** Every File object reads the same. */
  ghost predicate SameReads(l: Layout, s: Store, t: Store)
    requires l.WellFormed()
  {
    forall i: nat :: Read(l, s, i) == Read(l, t, i)
  }

  lemma SameFilesSameReads(l: Layout, s: Store, t: Store)
    requires l.WellFormed() && s.staged == t.staged && SameFiles(l, s.disk, t.disk)
    ensures SameReads(l, s, t)
  {
    forall i: nat ensures Read(l, s, i) == Read(l, t, i) {
      SameRead(l, s, t, i);
    }
  }

  lemma SameFile(l: Layout, a: Disk, b: Disk, i: nat)
    requires l.WellFormed() && SameFiles(l, a, b)
    ensures FromDisk(a, l.OwnPath(i)) == FromDisk(b, l.OwnPath(i))
    ensures l.OwnPath(i) != "" ==> (l.OwnPath(i) in a <==> l.OwnPath(i) in b)
  {
    if i in l.paths {
      assert FromDisk(a, l.paths[i]) == FromDisk(b, l.paths[i]);
    }
  }

  lemma SameRead(l: Layout, s: Store, t: Store, i: nat)
    requires l.WellFormed() && s.staged == t.staged && SameFiles(l, s.disk, t.disk)
    ensures Read(l, s, i) == Read(l, t, i)
    decreases if i in l.fallbacks then 1 else 0
  {
    SameFile(l, s.disk, t.disk, i);
    if FallbackInstance(l, s, i).Some? {
      SameRead(l, s, t, FallbackInstance(l, s, i).value);
    }
  }

  /** A staged file put in its place on disk reads the same: through its staged copy, and without. */
  lemma PlacedFileSameReads(l: Layout, s: Store, t: Store, i: nat)
    requires l.WellFormed() && i in s.staged && i in l.paths && t.staged == s.staged
    requires forall j :: j in l.paths && j != i ==> FromDisk(s.disk, l.paths[j]) == FromDisk(t.disk, l.paths[j])
    ensures SameReads(l, s, t)
  {
    forall j: nat ensures Read(l, s, j) == Read(l, t, j) {
      PlacedFileSameRead(l, s, t, i, j);
    }
  }

  lemma PlacedFileSameRead(l: Layout, s: Store, t: Store, i: nat, j: nat)
    requires l.WellFormed() && i in s.staged && i in l.paths && t.staged == s.staged
    requires forall j :: j in l.paths && j != i ==> FromDisk(s.disk, l.paths[j]) == FromDisk(t.disk, l.paths[j])
    ensures Read(l, s, j) == Read(l, t, j)
    decreases if j in l.fallbacks then 1 else 0
  {
    if j != i && j in l.paths {
      assert FromDisk(s.disk, l.paths[j]) == FromDisk(t.disk, l.paths[j]);
    }
    if FallbackInstance(l, s, j).Some? {
      PlacedFileSameRead(l, s, t, i, FallbackInstance(l, s, j).value);
    }
  }

  /** Once every staged file is in its place, the stage can go. */
  lemma ClearedStageSameReads(l: Layout, s: Store, t: Store)
    requires l.WellFormed() && t.disk == s.disk && t.staged == map[]
    requires forall i :: i in s.staged ==> i in l.paths && FromDisk(s.disk, l.paths[i]) == Some(s.staged[i])
    ensures SameReads(l, s, t)
  {
    forall i: nat ensures Read(l, s, i) == Read(l, t, i) {
      ClearedStageSameRead(l, s, t, i);
    }
  }

  lemma ClearedStageSameRead(l: Layout, s: Store, t: Store, i: nat)
    requires l.WellFormed() && t.disk == s.disk && t.staged == map[]
    requires forall i :: i in s.staged ==> i in l.paths && FromDisk(s.disk, l.paths[i]) == Some(s.staged[i])
    ensures Read(l, s, i) == Read(l, t, i)
    decreases if i in l.fallbacks then 1 else 0
  {
    if i in s.staged {
      assert FromDisk(s.disk, l.paths[i]) == Some(s.staged[i]);
    } else if FallbackInstance(l, s, i).Some? {
      ClearedStageSameRead(l, s, t, FallbackInstance(l, s, i).value);
    }
  }

  /** A write that only stages its file - a refused one - leaves every file's contents, except that a
      missing file now reads as empty. */
  lemma StageKeepsContents(l: Layout, s: Store, i: nat, j: nat)
    requires l.WellFormed() && Stage(l, s, i).Some?
    ensures Effective(l, Stage(l, s, i).value, j) == Effective(l, s, j)
    ensures Read(l, Stage(l, s, i).value, j) != Read(l, s, j) <==>
              Read(l, s, j).None? && (j == i || FallbackInstance(l, s, j) == Some(i))
    ensures Read(l, Stage(l, s, i).value, j) != Read(l, s, j) ==> Read(l, Stage(l, s, i).value, j) == Some("")
    decreases if j in l.fallbacks then 1 else 0
  {
    var t := Stage(l, s, i).value;
    if j != i && FallbackInstance(l, s, j).Some? {
      StageKeepsContents(l, s, i, FallbackInstance(l, s, j).value);
    }
  }

  /** Stores that read the same hold the same certificates. */
  lemma {:induction false} SameReadsSameCertificates(l: Layout, c: Crypto, s: Store, t: Store, instances: seq<nat>)
    requires l.WellFormed() && SameReads(l, s, t)
    ensures IssuersIn(l, c, s, instances) == IssuersIn(l, c, t, instances)
    ensures OperationalIn(l, c, s) == OperationalIn(l, c, t)
  {
    hide ParseCertificates, Read;
    assert Read(l, s, l.operational) == Read(l, t, l.operational);
    if instances != [] {
      var i := instances[|instances| - 1];
      assert Read(l, s, i) == Read(l, t, i);
      SameReadsSameCertificates(l, c, s, t, instances[..|instances| - 1]);
    }
  }

  lemma EmptyHasNoCertificate(c: Crypto)
    ensures ParseCertificates(c, "") == Some([])
  {
    Pem.SpaceHasNoBlock("", Pem.PemMarkers("CERTIFICATE"));
  }

  /** With nothing staged, the operational certificate is the installed one. */
  lemma InstalledIsOperational(l: Layout, c: Crypto, s: Store)
    requires l.WellFormed() && s.staged == map[]
    ensures OperationalIn(l, c, s).Some? <==> Installed(l, c, s.disk).Some?
    ensures OperationalIn(l, c, s).Some? ==> Installed(l, c, s.disk) == Some(OperationalIn(l, c, s).value[0])
  {
    hide ParseCertificates;
    EmptyHasNoCertificate(c);
    assert FallbackInstance(l, s, l.operational) == None;
  }

  /** A committed set validates again, now with the current key: the verdict was on what the commit gave. */
  lemma CommittedStaysActivatable(l: Layout, c: Crypto, s: Store, t: Store)
    requires l.WellFormed() && SameReads(l, s, t) && Activatable(l, c, s)
    requires t.staged == map[] && InstalledIsCurrent(l, c, t.disk)
    ensures Activatable(l, c, t) && !PromotesAfterValidate(l, c, t)
  {
    hide ParseCertificates, Read, KeyAt, ChainsToIssuers, Installed, OperationalIn, IssuersIn;
    SameReadsSameCertificates(l, c, s, t, l.issuers);
    InstalledIsOperational(l, c, t);
  }
}
