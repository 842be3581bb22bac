/** The certificate store (sc/cert_store.cpp): staged writes over the certificate files, their validation,
    the commit, and the device's key pairs. */
module CertStore {
  import opened Octets
  import opened CertFiles
  import opened CertSteps
  import opened CertRefusal
  import opened CertRequests
  import Pem

  class CertStore {
    const layout: Layout
    const crypto: Crypto
    var disk: Disk
    var staged: map<nat, string>
    var promotes: bool
    ghost var failures: nat // how many disk operations have failed

    /** SetLayout on the disk as the process finds it. */
    constructor (layout: Layout, crypto: Crypto, disk: Disk)
      requires layout.WellFormed()
      ensures this.layout == layout && this.crypto == crypto && Contents() == Store(disk, map[], false) && Valid()
      ensures failures == 0
    {
      this.layout, this.crypto, this.disk := layout, crypto, disk;
      staged, promotes, failures := map[], false, 0;
    }

    /** Only managed files are ever staged. */
    predicate Valid()
      reads this
    {
      layout.WellFormed() && staged.Keys <= layout.paths.Keys
    }

    function Contents(): (s: Store)
      reads this
    {
      Store(disk, staged, promotes)
    }

    // -------------------------------------------------------------------------
    // Disk primitives: each may fail, and says whether it did
    // -------------------------------------------------------------------------

    method WriteTempFile(path: Path, bytes: string) returns (ok: bool)
      modifies this`disk, this`failures
      ensures disk == if ok then old(disk)[Tmp(path) := bytes] else old(disk) - {Tmp(path)}
      ensures failures == old(failures) + if ok then 0 else 1
    {
      disk := disk - {Tmp(path)};
      ok := *;
      failures := failures + if ok then 0 else 1;
      if ok {
        disk := disk[Tmp(path) := bytes];
      }
    }

    method RemoveTemp(path: Path)
      modifies this`disk
      ensures disk == old(disk) - {Tmp(path)}
    {
      disk := disk - {Tmp(path)};
    }

    method ReplaceWithTemp(path: Path) returns (ok: bool)
      modifies this`disk, this`failures
      ensures disk == if ok then Replaced(old(disk), path) else old(disk)
      ensures failures == old(failures) + if ok then 0 else 1
    {
      ok := *;
      failures := failures + if ok then 0 else 1;
      if ok {
        disk := Replaced(disk, path);
      }
    }

    method PromotePendingKey() returns (ok: bool)
      requires layout.WellFormed()
      modifies this`disk, this`failures
      ensures failures == old(failures) + if ok then 0 else 1
      ensures ok ==> layout.pendingKey != "" && layout.pendingKey in old(disk) && disk == Promoted(layout, old(disk))
      ensures !ok ==> disk == old(disk)
    {
      ok := *;
      ok := ok && layout.pendingKey != "" && layout.pendingKey in disk;
      failures := failures + if ok then 0 else 1;
      if ok {
        disk := Move(disk, layout.pendingKey, layout.privateKey);
      }
    }

    // -------------------------------------------------------------------------
    // Writes
    // -------------------------------------------------------------------------

    /** Stage: the copy is made from what the File object reads now. */
    method StageFile(i: nat) returns (ok: bool)
      requires Valid()
      modifies this`staged
      ensures Valid() && ok == Stage(layout, old(Contents()), i).Some?
      ensures ok ==> Contents() == Stage(layout, old(Contents()), i).value && i in staged
      ensures !ok ==> Contents() == old(Contents())
    {
      if i in staged {
        return true;
      }
      if i !in layout.paths {
        return false;
      }
      var r := CertFiles.Read(layout, Contents(), i);
      staged := staged[i := if r.Some? then r.value else ""];
      return true;
    }

    /** AtomicWriteFile. The file is staged before its start position is looked at, so a refused write can
        leave a staged copy. */
    method Write(i: nat, fileStart: int, data: string) returns (r: WriteResult)
      requires Valid()
      modifies this`staged
      ensures Valid()
      ensures if i !in layout.paths
              then r == Failed(ERROR_INVALID_FILE_START_POSITION) && Contents() == old(Contents())
              else Writes(layout, old(Contents()), i, fileStart, data, r, Contents())
    {
      hide Effective, CertFiles.Read, Layout.WellFormed;
      ghost var before := Contents();
      if i in layout.paths {
        StagedIsEffective(layout, before, i);
      }
      var ok := StageFile(i);
      if !ok {
        return Failed(ERROR_INVALID_FILE_START_POSITION);
      }
      if fileStart < -1 {
        return Failed(ERROR_INVALID_FILE_START_POSITION);
      }
      var bytes := staged[i];
      var start := if fileStart == -1 then |bytes| else fileStart;
      if start > |bytes| {
        return Failed(ERROR_INVALID_FILE_START_POSITION);
      }
      if start + |data| > MAX_FILE_BYTES {
        return Failed(ERROR_FILE_FULL);
      }
      staged := staged[i := Overwritten(bytes, start, data)];
      return Acknowledged(start);
    }

    /** File_Size: None is success. */
    method Resize(i: nat, newSize: nat) returns (refused: Option<nat>)
      requires Valid()
      modifies this`staged
      ensures Valid()
      ensures newSize > MAX_FILE_BYTES ==> refused == Some(ERROR_VALUE_OUT_OF_RANGE) && Contents() == old(Contents())
      ensures newSize <= MAX_FILE_BYTES ==>
                var target := Stage(layout, old(Contents()), i);
                if target.None? then refused.Some? && Contents() == old(Contents())
                else
                  var bytes := target.value.staged[i];
                  && refused == None && i in staged && |staged[i]| == newSize
                  && (forall k | 0 <= k < newSize :: staged[i][k] == if k < |bytes| then bytes[k] else 0 as char)
                  && Contents() == target.value.(staged := target.value.staged[i := staged[i]])
    {
      if newSize > MAX_FILE_BYTES {
        return Some(ERROR_VALUE_OUT_OF_RANGE);
      }
      var ok := StageFile(i);
      if !ok {
        return Some(0);
      }
      var bytes := staged[i];
      var resized := if newSize <= |bytes| then bytes[..newSize] else bytes + seq(newSize - |bytes|, _ => 0 as char);
      staged := staged[i := resized];
      return None;
    }

    method DiscardStaged()
      requires Valid()
      modifies this`staged, this`promotes
      ensures Valid() && Device(Contents(), Idle) == Next(layout, crypto, Device(old(Contents()), Idle), Discard)
    {
      staged := map[];
      promotes := false;
    }

    // -------------------------------------------------------------------------
    // Validation
    // -------------------------------------------------------------------------

    method ParseBlocks(pem: string) returns (r: Option<seq<string>>)
      ensures r == ParseCertificates(crypto, pem)
    {
      hide Pem.SplitPem, Pem.IsSpace;
      var split := Pem.SplitPemBlocks(pem, Pem.PemMarkers("CERTIFICATE"));
      if split.Refused? {
        return None;
      }
      var blocks := split.blocks;
      if blocks == [] {
        return if Pem.IsSpace(pem) then Some([]) else None;
      }
      for i := 0 to |blocks|
        invariant forall j | 0 <= j < i :: crypto.parses(blocks[j])
      {
        if !crypto.parses(blocks[i]) {
          return None;
        }
      }
      return Some(blocks);
    }

    method VerifyChain(leaf: string, intermediates: seq<string>, issuers: seq<string>, purpose: Purpose)
      returns (chained: bool)
      ensures chained <==>
                exists trusted :: MayTrust(trusted, issuers) && crypto.verifies(leaf, intermediates, trusted, purpose)
    {
      ChainsExactly(crypto, leaf, intermediates, issuers, purpose);
      chained := false;
      var attempt := 0;
      while !chained && attempt <= |issuers|
        invariant 0 <= attempt <= |issuers| + 1
        invariant chained ==> ChainsToIssuers(crypto, leaf, intermediates, issuers, purpose)
        invariant !chained ==>
                    forall i | 0 <= i < attempt && i < |issuers| ::
                      !crypto.verifies(leaf, intermediates, [issuers[i]], purpose)
        invariant !chained && attempt == |issuers| + 1 ==> !crypto.verifies(leaf, intermediates, issuers, purpose)
        decreases |issuers| + 1 - attempt
      {
        if attempt == |issuers| && |issuers| < 2 {
          break;
        }
        var store := if attempt == |issuers| then issuers else [issuers[attempt]];
        chained := crypto.verifies(leaf, intermediates, store, purpose);
        attempt := attempt + 1;
      }
    }

    method CollectIssuers() returns (r: Option<seq<string>>)
      requires layout.WellFormed()
      ensures r == IssuersIn(layout, crypto, Contents(), layout.issuers)
    {
      hide ParseCertificates, Effective;
      var issuers := [];
      for i := 0 to |layout.issuers|
        invariant IssuersIn(layout, crypto, Contents(), layout.issuers[..i]) == Some(issuers)
      {
        assert layout.issuers[..i + 1][..i] == layout.issuers[..i];
        var certificates := ParseBlocks(Effective(layout, Contents(), layout.issuers[i]));
        if certificates.None? {
          IssuersNone(i + 1);
          return None;
        }
        issuers := issuers + certificates.value;
      }
      assert layout.issuers[..|layout.issuers|] == layout.issuers;
      return Some(issuers);
    }

    lemma {:induction false} IssuersNone(n: nat)
      requires layout.WellFormed() && n <= |layout.issuers|
      requires IssuersIn(layout, crypto, Contents(), layout.issuers[..n]).None?
      ensures IssuersIn(layout, crypto, Contents(), layout.issuers).None?
      decreases |layout.issuers| - n
    {
      hide ParseCertificates, Effective;
      if n < |layout.issuers| {
        assert layout.issuers[..n + 1][..n] == layout.issuers[..n];
        IssuersNone(n + 1);
      } else {
        assert layout.issuers[..n] == layout.issuers;
      }
    }

    method ValidateStaged() returns (ok: bool)
      requires Valid()
      modifies this`promotes
      ensures Valid() && ok == Activatable(layout, crypto, old(Contents()))
      ensures Contents() == old(Contents()).(promotes := PromotesAfterValidate(layout, crypto, old(Contents())))
      ensures ok ==> Validated(layout, crypto, Contents())
      ensures var (issuers, operational) := (IssuersIn(layout, crypto, old(Contents()), layout.issuers),
                OperationalIn(layout, crypto, old(Contents())));
              ok <==>
                && issuers.Some? && operational.Some? && !crypto.isCa(operational.value[0])
                && (KeyAt(crypto, disk, layout.privateKey) == Some(crypto.certificateKey(operational.value[0])) ||
                    KeyAt(crypto, disk, layout.pendingKey) == Some(crypto.certificateKey(operational.value[0])))
                && (exists trusted :: MayTrust(trusted, issuers.value) &&
                      crypto.verifies(operational.value[0], operational.value[1..], trusted, TlsServer))
                && (exists trusted :: MayTrust(trusted, issuers.value) &&
                      crypto.verifies(operational.value[0], operational.value[1..], trusted, TlsClient))
    {
      hide ParseCertificates, Effective, ChainsToIssuers, IssuersIn, KeyAt;
      ghost var before := Contents();
      var issuers := CollectIssuers();
      if issuers.None? || issuers.value == [] {
        return false;
      }
      var operational := ParseBlocks(Effective(layout, Contents(), layout.operational));
      if operational.None? || operational.value == [] {
        return false;
      }
      var leaf, chain := operational.value[0], operational.value[1..];
      promotes := false;
      var key, pendingKey := KeyAt(crypto, disk, layout.privateKey), KeyAt(crypto, disk, layout.pendingKey);
      if !CertificateFor(crypto, leaf, key) {
        if !CertificateFor(crypto, leaf, pendingKey) {
          return false;
        }
        promotes := true;
      }
      SameFilesSameReads(layout, before, Contents());
      SameReadsSameCertificates(layout, crypto, before, Contents(), layout.issuers);
      ChainsExactly(crypto, leaf, chain, issuers.value, TlsServer);
      ChainsExactly(crypto, leaf, chain, issuers.value, TlsClient);
      if crypto.isCa(leaf) {
        return false;
      }
      var server := VerifyChain(leaf, chain, issuers.value, TlsServer);
      if !server {
        return false;
      }
      ok := VerifyChain(leaf, chain, issuers.value, TlsClient);
    }

    // -------------------------------------------------------------------------
    // Commit
    // -------------------------------------------------------------------------

    /** The staged instances in ascending order, as std::map iterates them. */
    method StagedInOrder() returns (order: seq<nat>)
      ensures Enumerates(order, staged.Keys)
      ensures forall i, j | 0 <= i < j < |order| :: order[i] < order[j]
    {
      order := [];
      var left := staged.Keys;
      while left != {}
        invariant left <= staged.Keys
        invariant forall i, j | 0 <= i < j < |order| :: order[i] < order[j]
        invariant forall i, k | 0 <= i < |order| && k in left :: order[i] < k
        invariant forall i | 0 <= i < |order| :: order[i] in staged.Keys
        invariant forall k | k in staged.Keys :: k in order || k in left
        decreases left
      {
        ghost var smallest := HasLeast(left);
        var least :| least in left && forall k | k in left :: least <= k;
        order := order + [least];
        left := left - {least};
      }
    }

    static lemma {:induction false} HasLeast(keys: set<nat>) returns (least: nat)
      requires keys != {}
      ensures least in keys && forall k | k in keys :: least <= k
    {
      var one :| one in keys;
      least := one;
      if keys != {one} {
        var rest := keys - {one};
        var other := HasLeast(rest);
        least := if other <= one then other else one;
        assert forall k | k in keys :: k == one || k in rest;
      }
    }

    lemma OneMoreTemp(order: seq<nat>, n: nat)
      requires n < |order|
      ensures Temps(layout, order, n + 1) == Temps(layout, order, n) + {Tmp(layout.OwnPath(order[n]))}
    {
    }

    /** The temporary files written so far, removed one after the other. */
    method RemoveTemps(order: seq<nat>, n: nat)
      requires n <= |order| && forall i | 0 <= i < |order| :: order[i] in layout.paths
      modifies this`disk
      ensures disk == old(disk) - Temps(layout, order, n)
    {
      var written := 0;
      while written < n
        invariant 0 <= written <= n
        invariant disk == old(disk) - Temps(layout, order, written)
      {
        RemoveTemp(layout.paths[order[written]]);
        OneMoreTemp(order, written);
        written := written + 1;
      }
    }

    /** Writes every staged file to its temporary file; after a failure removes them all again. */
    method PrepareTemps(order: seq<nat>) returns (ok: bool, ghost events: seq<Event>)
      requires Valid() && order != [] && Enumerates(order, staged.Keys)
      modifies this`disk, this`failures
      ensures Valid() && CommitSteps(events)
      ensures failures >= old(failures) && (ok <==> failures == old(failures))
      ensures Device(Contents(), if ok then Replacing(order, 0) else Idle) ==
              Run(layout, crypto, Device(old(Contents()), Preparing(order, 0)), events)
    {
      hide Run, Activatable, PromotesAfterValidate, MayGenerateCsr, AfterStart, Temps;
      events := [];
      ghost var start := Device(Contents(), Preparing(order, 0));
      RunNothing(start);
      var done := 0;
      while done < |order|
        invariant 0 <= done <= |order| && CommitSteps(events) && Valid() && staged == old(staged)
        invariant failures == old(failures)
        invariant Run(layout, crypto, start, events) ==
                  Device(Contents(), if done == |order| then Replacing(order, 0) else Preparing(order, done))
      {
        var i := order[done];
        ghost var before := disk;
        ok := WriteTempFile(layout.paths[i], staged[i]);
        RunExtends(layout, crypto, start, events, TempWrite(ok));
        events := events + [TempWrite(ok)];
        if !ok {
          RemoveTemps(order, done);
          OneMoreTemp(order, done);
          assert disk == before - Temps(layout, order, done + 1);
          return;
        }
        done := done + 1;
      }
      ok := true;
    }

    lemma RunNothing(d: Device)
      requires layout.WellFormed()
      ensures Run(layout, crypto, d, []) == d
    {
    }

    /** Renames every temporary file into place; the stage goes with the last one. */
    method ReplaceFiles(order: seq<nat>) returns (ok: bool, ghost events: seq<Event>)
      requires Valid() && order != [] && Enumerates(order, staged.Keys)
      modifies this`disk, this`staged, this`failures
      ensures Valid() && CommitSteps(events) && promotes == old(promotes)
      ensures failures >= old(failures) && (ok <==> failures == old(failures))
      ensures Device(Contents(), if ok && promotes then Promoting else Idle) ==
              Run(layout, crypto, Device(old(Contents()), Replacing(order, 0)), events)
      ensures staged == if ok then map[] else old(staged)
    {
      hide Run, Activatable, PromotesAfterValidate, AfterStart, Replaced;
      events := [];
      ghost var start := Device(Contents(), Replacing(order, 0));
      RunNothing(start);
      var done := 0;
      while done < |order|
        invariant 0 <= done <= |order| && CommitSteps(events) && Valid() && staged == old(staged)
        invariant failures == old(failures)
        invariant Run(layout, crypto, start, events) ==
                  if done < |order| then Device(Contents(), Replacing(order, done))
                  else Device(Contents().(staged := map[]), if promotes then Promoting else Idle)
      {
        ok := ReplaceWithTemp(layout.paths[order[done]]);
        RunExtends(layout, crypto, start, events, Rename(ok));
        events := events + [Rename(ok)];
        if !ok {
          return;
        }
        done := done + 1;
      }
      staged := map[];
      ok := true;
    }

    /** What a commit starts with: with nothing staged there is at most a promotion left to do. */
    ghost predicate StartsCommit(started: Device)
      reads this
    {
      && started.store == Contents()
      && match started.task
         case Preparing(order, done) => staged != map[] && done == 0 && Enumerates(order, staged.Keys)
         case Promoting => staged == map[] && promotes
         case Idle => staged == map[] && !promotes
         case _ => false
    }

    /** An accepted stage, or only the promotion left over from one. */
    ghost predicate MayCommit()
      requires layout.WellFormed()
      reads this
    {
      if staged != map[] then Validated(layout, crypto, Contents()) else AwaitsPromotion(layout, crypto, Contents())
    }

    /** Puts the staged files in place, then swaps the keys if that is due. `events` are the machine's steps
        that it took, from `started` on; wherever one failed, every File object reads as before. */
    method CommitStaged() returns (ok: bool, ghost started: Device, ghost events: seq<Event>)
      requires Valid()
      modifies this`disk, this`staged, this`promotes, this`failures
      ensures Valid() && CommitSteps(events) && old(StartsCommit(started))
      ensures failures >= old(failures) && (ok <==> failures == old(failures))
      ensures Device(Contents(), Idle) == Run(layout, crypto, started, events)
      ensures SameReads(layout, old(Contents()), Contents())
      ensures ok ==> staged == map[] && !promotes && Placed(layout, old(staged), disk)
      ensures !ok ==> staged == old(staged) || (staged == map[] && promotes && Placed(layout, old(staged), disk))
      ensures old(MayCommit()) ==>
                && (ok ==> InstalledIsCurrent(layout, crypto, disk))
                && (!ok ==> staged == old(staged) || AwaitsPromotion(layout, crypto, Contents()))
                && (InstalledIsHeld(layout, crypto, old(disk)) ==> InstalledIsHeld(layout, crypto, disk))
      ensures old(staged) != map[] ==>
                && started.task.Preparing? && Enumerates(started.task.order, old(staged).Keys)
                && (!ok && RefusesQuietly(layout, old(Contents()), started.task.order) ==>
                      SameManaged(layout, old(disk), disk))
      ensures !ok && !old(promotes) ==> staged == old(staged)
    {
      hide RefusesQuietly, SameManaged, Run, Safe, AwaitsPromotion, Placed, SameReads, Validated, InstalledIsHeld,
           InstalledIsCurrent, Installed, Activatable, Orderly, PromotesAfterValidate, MayGenerateCsr, AfterStart;
      var order := StagedInOrder();
      ghost var valid, held := MayCommit(), InstalledIsHeld(layout, crypto, disk);
      events := [];
      if order != [] {
        assert order[0] in staged;
        started := Device(Contents(), Preparing(order, 0));
        CommitStarts(layout, crypto, Contents(), order);
        ok, events := PrepareTemps(order);
        if ok {
          ghost var more;
          ok, more := ReplaceFiles(order);
          RunConcat(layout, crypto, started, events, more);
          events := events + more;
        }
      } else {
        assert staged == map[];
        started := Device(Contents(), if promotes then Promoting else Idle);
        NothingStaged(started, valid, held);
        RunNothing(started);
        ok := true;
      }
      if ok && promotes {
        ok := PromotePendingKey();
        RunExtends(layout, crypto, started, events, Promote(ok));
        events := events + [Promote(ok)];
        if ok {
          promotes := false;
        }
      }
      CommitRun(layout, crypto, valid, held, started, events);
      RefusedQuietly(old(Contents()), started, events);
    }

    // -------------------------------------------------------------------------
    // Keys
    // -------------------------------------------------------------------------

    /** At start-up: finishes a key swap that an activation did not. */
    method ReconcilePendingKey() returns (ok: bool)
      requires Valid()
      modifies this`disk, this`failures
      ensures Valid()
      ensures failures >= old(failures) && (ok <==> failures == old(failures))
      ensures NeedsReconcile(layout, crypto, old(disk)) ==>
                disk == if ok then Promoted(layout, old(disk)) else old(disk)
      ensures !NeedsReconcile(layout, crypto, old(disk)) ==> ok && disk == old(disk)
      ensures var key, pending := KeyAt(crypto, old(disk), layout.privateKey),
                KeyAt(crypto, old(disk), layout.pendingKey);
              var leaf := Installed(layout, crypto, old(disk));
              if leaf.Some? && key != Some(crypto.certificateKey(leaf.value)) &&
                 pending == Some(crypto.certificateKey(leaf.value))
              then layout.pendingKey in old(disk) && disk == if ok then Promoted(layout, old(disk)) else old(disk)
              else ok && disk == old(disk)
      ensures InstalledIsHeld(layout, crypto, old(disk)) ==>
                InstalledIsHeld(layout, crypto, disk) && (ok ==> InstalledIsCurrent(layout, crypto, disk))
    {
      hide KeyAt, ParseCertificates, Pem.SplitPem, Pem.IsSpace;
      if InstalledIsHeld(layout, crypto, disk) {
        StartFacts(layout, crypto, disk, true);
      }
      if layout.pendingKey == "" || layout.pendingKey !in disk {
        return true;
      }
      var path := layout.paths[layout.operational];
      if path !in disk {
        return true;
      }
      var operational := ParseBlocks(disk[path]);
      if operational.None? || operational.value == [] {
        return true;
      }
      var leaf := operational.value[0];
      var certForCurrent := CertificateFor(crypto, leaf, KeyAt(crypto, disk, layout.privateKey));
      var certForPending := CertificateFor(crypto, leaf, KeyAt(crypto, disk, layout.pendingKey));
      if certForCurrent || !certForPending {
        return true;
      }
      ok := PromotePendingKey();
    }

    /** Writes and flushes both new files next to the old ones. */
    method WriteKeyAndRequest(key: string, request: string) returns (ok: bool, ghost events: seq<Event>)
      requires Valid() && NodeLayout(layout) && layout.csr in layout.paths
      modifies this`disk, this`failures
      ensures CommitSteps(events)
      ensures failures >= old(failures) && (ok <==> failures == old(failures))
      ensures Device(Contents(), if ok then ReplacingKey(request) else Idle) ==
              Run(layout, crypto, Device(old(Contents()), WritingKey(key, request)), events)
      ensures ok ==> FromDisk(disk, Tmp(layout.pendingKey)) == Some(key)
      ensures ok ==> FromDisk(disk, Tmp(layout.paths[layout.csr])) == Some(request)
      ensures SameManaged(layout, old(disk), disk)
    {
      hide Run, Activatable, PromotesAfterValidate, MayGenerateCsr, AfterStart, Replaced, Layout.WellFormed,
           Layout.Managed, Tmp;
      ghost var start := Device(Contents(), WritingKey(key, request));
      CsrTemps(layout);
      events := [];
      RunNothing(start);
      ok := WriteTempFile(layout.pendingKey, key);
      RunExtends(layout, crypto, start, events, TempWrite(ok));
      events := events + [TempWrite(ok)];
      if !ok {
        return;
      }
      ok := WriteTempFile(layout.paths[layout.csr], request);
      RunExtends(layout, crypto, start, events, TempWrite(ok));
      events := events + [TempWrite(ok)];
      if !ok {
        RemoveTemp(layout.pendingKey);
        assert disk == Run(layout, crypto, start, events).store.disk;
      }
    }

    /** Replaces the key first, then the request. */
    method ReplaceKeyAndRequest(key: string, request: string) returns (ok: bool, ghost events: seq<Event>)
      requires Valid() && NodeLayout(layout) && layout.csr in layout.paths && layout.pendingKey != ""
      requires FromDisk(disk, Tmp(layout.pendingKey)) == Some(key)
      requires FromDisk(disk, Tmp(layout.paths[layout.csr])) == Some(request)
      modifies this`disk, this`failures
      ensures CommitSteps(events)
      ensures failures >= old(failures) && (ok <==> failures == old(failures))
      ensures Device(Contents(), Idle) == Run(layout, crypto, Device(old(Contents()), ReplacingKey(request)), events)
      ensures OnlyGenerated(layout, old(disk), disk, key, request, ok)
    {
      hide Run, Activatable, PromotesAfterValidate, MayGenerateCsr, AfterStart, Replaced, Layout.WellFormed,
           Layout.Managed, Tmp;
      ghost var start := Device(Contents(), ReplacingKey(request));
      var csrPath := layout.paths[layout.csr];
      CsrTemps(layout);
      events := [];
      RunNothing(start);
      ReplacedFile(disk, layout.pendingKey);
      ok := ReplaceWithTemp(layout.pendingKey);
      RunExtends(layout, crypto, start, events, Rename(ok));
      events := events + [Rename(ok)];
      if !ok {
        RemoveTemp(layout.pendingKey);
        RemoveTemp(csrPath);
        assert disk == Run(layout, crypto, start, events).store.disk;
        return;
      }
      ReplacedFile(disk, csrPath);
      ok := ReplaceWithTemp(csrPath);
      RunExtends(layout, crypto, start, events, Rename(ok));
      events := events + [Rename(ok)];
    }

    lemma ReplacedFile(d: Disk, path: Path)
      requires path != "" && Tmp(path) in d && Tmp(path) != path
      ensures FromDisk(Replaced(d, path), path) == Some(d[Tmp(path)])
      ensures forall p :: p != path && p != Tmp(path) ==> FromDisk(Replaced(d, path), p) == FromDisk(d, p)
    {
    }

    /** GENERATE_CSR_FILE, with the new key pair and request OpenSSL made, or None when it could not. `events`
        are the machine's steps: none, or the request for the key made and then writes and renames. The pending
        key is the old one or the one made, and a certificate for the current key stays held. */
    method GenerateKeyAndCsr(made: Option<(string, string)>) returns (ok: bool, ghost events: seq<Event>)
      requires Valid() && NodeLayout(layout)
      modifies this`disk, this`failures
      ensures Valid() && Device(Contents(), Idle) == Run(layout, crypto, Device(old(Contents()), Idle), events)
      ensures ok <==>
                && made.Some? && failures == old(failures) && staged == map[] && layout.csr in layout.paths
                && layout.pendingKey != "" && OperationalIn(layout, crypto, old(Contents())).Some?
      ensures ok ==> events != []
      ensures events == [] ==> disk == old(disk)
      ensures events != [] ==>
                && made.Some? && events[0] == GenerateCsr(made.value.0, made.value.1) && CommitSteps(events[1..])
                && MayGenerateCsr(layout, crypto, old(Contents()))
                && OnlyGenerated(layout, old(disk), disk, made.value.0, made.value.1, ok)
      ensures InstalledIsCurrent(layout, crypto, old(disk)) ==> InstalledIsHeld(layout, crypto, disk)
    {
      hide Run, Activatable, PromotesAfterValidate, AfterStart, ParseCertificates, Effective;
      ghost var start := Device(Contents(), Idle);
      RunNothing(start);
      if staged != map[] || layout.csr !in layout.paths || layout.pendingKey == "" {
        return false, [];
      }
      var operational := ParseBlocks(Effective(layout, Contents(), layout.operational));
      if operational.None? || operational.value == [] || made.None? {
        return false, [];
      }
      var (key, request) := made.value;
      RunExtends(layout, crypto, start, [], GenerateCsr(key, request));
      assert [] + [GenerateCsr(key, request)] == [GenerateCsr(key, request)];
      ghost var steps;
      ok, steps := WriteKeyAndRequest(key, request);
      RunConcat(layout, crypto, start, [GenerateCsr(key, request)], steps);
      events := [GenerateCsr(key, request)] + steps;
      ghost var written := disk;
      if ok {
        ghost var more;
        ok, more := ReplaceKeyAndRequest(key, request);
        RunConcat(layout, crypto, start, events, more);
        events := events + more;
        steps := steps + more;
        assert events == [GenerateCsr(key, request)] + steps;
      }
      GeneratedAfterWrites(old(disk), written, disk, key, request, ok);
      assert events[1..] == steps;
      KeepsHeld(start.store, key, request, steps);
    }

    lemma GeneratedAfterWrites(before: Disk, written: Disk, after: Disk, key: string, request: string, ok: bool)
      requires layout.WellFormed() && layout.csr in layout.paths && SameManaged(layout, before, written)
      requires OnlyGenerated(layout, written, after, key, request, ok) || (!ok && written == after)
      ensures OnlyGenerated(layout, before, after, key, request, ok)
    {
      ManagedPaths(layout, layout.csr);
    }

    /** Asked for while the installed certificate is current, a new key pair leaves it held. */
    lemma KeepsHeld(s: Store, key: string, request: string, steps: seq<Event>)
      requires NodeLayout(layout) && s.staged.Keys <= layout.paths.Keys && CommitSteps(steps)
      ensures InstalledIsCurrent(layout, crypto, s.disk) ==>
                InstalledIsHeld(layout, crypto,
                                Run(layout, crypto, Device(s, Idle), [GenerateCsr(key, request)] + steps).store.disk)
    {
      hide Run, Next, Installed, KeyAt;
      var d, events := Device(s, Idle), [GenerateCsr(key, request)] + steps;
      if InstalledIsCurrent(layout, crypto, s.disk) {
        RunNothing(d);
        forall k: nat | k < |events| ensures Careful(layout, crypto, Run(layout, crypto, d, events[..k]), events[k]) {
          if k == 0 {
            assert events[..0] == [];
          } else {
            assert events[k] == steps[k - 1];
          }
        }
        RunKeepsSafe(layout, crypto, d, events);
      }
    }

    /** What a commit that fails leaves, if it is one that changes nothing. */
    lemma RefusedQuietly(s: Store, started: Device, events: seq<Event>)
      requires layout.WellFormed() && s.staged.Keys <= layout.paths.Keys && CommitSteps(events) && started.store == s
      requires s.staged != map[] ==>
                 started.task.Preparing? && started.task.done == 0 && Enumerates(started.task.order, s.staged.Keys)
      ensures s.staged != map[] && RefusesQuietly(layout, s, started.task.order) ==>
                var d := Run(layout, crypto, started, events);
                Refused(d) ==> SameManaged(layout, s.disk, d.store.disk)
    {
      hide RefusesQuietly, Run, SameManaged, CommitSteps;
      if s.staged != map[] && RefusesQuietly(layout, s, started.task.order) {
        NoOrderOfSome(started.task.order, s.staged.Keys);
        QuietRun(layout, crypto, s, started.task.order, events);
      }
    }

    lemma NothingStaged(d: Device, valid: bool, held: bool)
      requires layout.WellFormed() && d.store.staged == map[]
      requires valid == AwaitsPromotion(layout, crypto, d.store) &&
                held == InstalledIsHeld(layout, crypto, d.store.disk)
      requires d.task == if d.store.promotes then Promoting else Idle
      ensures CommitReached(layout, crypto, map[], valid, held, d)
    {
    }
  }

  /** No managed file but the pending key and the request changes: the pending key only to `key`, the request
      only in the end. */
  predicate OnlyGenerated(l: Layout, before: Disk, after: Disk, key: string, request: string, ok: bool)
    requires l.csr in l.paths
  {
    && (forall p :: p in l.Managed() && p != l.pendingKey && p != l.paths[l.csr] ==>
        FromDisk(after, p) == FromDisk(before, p))
    && (FromDisk(after, l.pendingKey) == Some(key) ||
        (!ok && FromDisk(after, l.pendingKey) == FromDisk(before, l.pendingKey)))
    && FromDisk(after, l.paths[l.csr]) == if ok then Some(request) else FromDisk(before, l.paths[l.csr])
  }

  lemma LoneFile(l: Layout, s: Store, order: seq<nat>)
    requires s.staged.Keys <= l.paths.Keys && Enumerates(order, s.staged.Keys)
    ensures |s.staged| == 1 && !s.promotes ==> RefusesQuietly(l, s, order)
  {
    EnumeratesCounts(order, s.staged.Keys);
    assert |s.staged.Keys| == |s.staged|;
  }

  /** No issuer in effect, nor all of them together, vouches for the operational certificate in this role. */
  ghost predicate Unverified(l: Layout, c: Crypto, s: Store, purpose: Purpose)
    requires l.WellFormed()
  {
    var issuers, operational := IssuersIn(l, c, s, l.issuers), OperationalIn(l, c, s);
    issuers.Some? && operational.Some? ==>
      forall trusted | MayTrust(trusted, issuers.value) ::
        !c.verifies(operational.value[0], operational.value[1..], trusted, purpose)
  }

  /** ReinitializeDevice ACTIVATE_CHANGES (ApplyStagedCertificates in sc/ScNode.cpp). A true answer to a
      staged set means it is in place, usable, and would be accepted again, whatever was installed before. A
      false one can still have changed the disk, but a held certificate stays held. */
  method ApplyStagedCertificates(store: CertStore) returns (applied: bool)
    requires store.Valid()
    modifies store`disk, store`staged, store`promotes, store`failures
    ensures store.Valid()
    ensures old(store.staged) != map[] ==>
              (applied <==>
                 Activatable(store.layout, store.crypto, old(store.Contents())) &&
                 store.failures == old(store.failures))
    ensures old(store.staged) != map[] &&
              (Unverified(store.layout, store.crypto, old(store.Contents()), TlsServer) ||
               Unverified(store.layout, store.crypto, old(store.Contents()), TlsClient)) ==>
              !applied && store.disk == old(store.disk) && store.staged == old(store.staged)
    ensures InstalledIsHeld(store.layout, store.crypto, old(store.disk)) ==>
              InstalledIsHeld(store.layout, store.crypto, store.disk)
    ensures SameReads(store.layout, old(store.Contents()), store.Contents())
    ensures old(store.staged) == map[] ==> applied && store.Contents() == old(store.Contents())
    ensures old(store.staged) != map[] && applied ==>
              && Activatable(store.layout, store.crypto, old(store.Contents()))
              && store.staged == map[] && Placed(store.layout, old(store.staged), store.disk)
              && InstalledIsCurrent(store.layout, store.crypto, store.disk)
              && Activatable(store.layout, store.crypto, store.Contents())
    ensures !Activatable(store.layout, store.crypto, old(store.Contents())) && old(store.staged) != map[] ==>
              !applied && store.disk == old(store.disk) && store.staged == old(store.staged)
    ensures !applied && |old(store.staged)| == 1 &&
              !PromotesAfterValidate(store.layout, store.crypto, old(store.Contents())) ==>
              store.staged == old(store.staged) && SameManaged(store.layout, old(store.disk), store.disk)
  {
    hide Activatable, PromotesAfterValidate, InstalledIsHeld, InstalledIsCurrent, SameReads, Validated, Run,
         RefusesQuietly, SameManaged, Placed, Enumerates, AwaitsPromotion, CommitSteps, OperationalIn, IssuersIn;
    ghost var l, before := store.layout, store.Contents();
    ActivatableExactly(l, store.crypto, before);
    SameReadsReflexive(l, before);
    SameManagedReflexive(l, before.disk);
    if store.staged == map[] {
      return true;
    }
    applied := store.ValidateStaged();
    ghost var validated := store.Contents();
    SameFilesSameReads(l, before, validated);
    if applied {
      ghost var started, events;
      applied, started, events := store.CommitStaged();
      LoneFile(l, validated, started.task.order);
      SameReadsTransitive(l, before, validated, store.Contents());
      if applied {
        CommittedStaysActivatable(l, store.crypto, before, store.Contents());
      }
    }
  }
}
