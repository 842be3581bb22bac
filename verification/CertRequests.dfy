/** The signing request on disk, over the runs of the certificate store (sc/cert_store.cpp). */
module CertRequests {
  import opened Octets
  import opened CertFiles
  import opened CertSteps

  function RequestOn(l: Layout, disk: Disk): (request: Option<string>) { FromDisk(disk, l.OwnPath(l.csr)) }

  /** The signing request on disk is for a key the device holds. */
  predicate RequestIsHeld(l: Layout, c: Crypto, disk: Disk)
    requires l.WellFormed()
  {
    var request := RequestOn(l, disk);
    request.Some? && c.requestKey(request.value).Some? ==>
      KeyAt(c, disk, l.privateKey) == c.requestKey(request.value) ||
          KeyAt(c, disk, l.pendingKey) == c.requestKey(request.value)
  }

  /** It is for the pending key if there is one, and for the current key if not: what a promotion keeps. */
  predicate RequestFits(l: Layout, c: Crypto, disk: Disk) {
    var request := RequestOn(l, disk);
    request.Some? && c.requestKey(request.value).Some? ==>
      KeyAt(c, disk, if FromDisk(disk, l.pendingKey).Some? then l.pendingKey else l.privateKey) ==
          c.requestKey(request.value)
  }

  predicate IsPair(c: Crypto, key: string, request: string) {
    c.privateKey(key).Some? && c.requestKey(request) == c.privateKey(key)
  }

  /** The temporary file of `path`. */
  function TempOf(disk: Disk, path: Path): (bytes: Option<string>) { FromDisk(disk, Tmp(path)) }

  /** The request fits, except between the two renames of GENERATE_CSR_FILE, where the one about to be put in
      place does. */
  predicate RequestSound(l: Layout, c: Crypto, d: Device)
    requires l.WellFormed()
  {
    var disk := d.store.disk;
    && l.csr in l.paths && l.csr !in d.store.staged
    && (d.task.ReplacingRequest? || RequestFits(l, c, disk))
    && match d.task
       case WritingKey(key, request) => l.pendingKey != "" && IsPair(c, key, request)
       case WritingRequest(key, request) =>
         l.pendingKey != "" && IsPair(c, key, request) && TempOf(disk, l.pendingKey) == Some(key)
       case ReplacingKey(request) =>
         && l.pendingKey != "" && TempOf(disk, l.pendingKey).Some? && TempOf(disk, l.paths[l.csr]) == Some(request)
         && IsPair(c, TempOf(disk, l.pendingKey).value, request)
       case ReplacingRequest =>
         && l.pendingKey != "" && FromDisk(disk, l.pendingKey).Some? && TempOf(disk, l.paths[l.csr]).Some?
         && IsPair(c, FromDisk(disk, l.pendingKey).value, TempOf(disk, l.paths[l.csr]).value)
       case _ => true
  }

  /** Nobody writes the request's File object, OpenSSL makes a request for the key it makes, and the window
      between the two renames ends with the second. */
  predicate KeepsRequest(l: Layout, c: Crypto, d: Device, e: Event) {
    && (e.Write? ==> e.instance != l.csr)
    && (e.GenerateCsr? ==> IsPair(c, e.key, e.request))
    && (d.task.ReplacingRequest? ==> !e.Crash? && e != Rename(false))
  }

  lemma FittingIsHeld(l: Layout, c: Crypto, disk: Disk)
    requires l.WellFormed() && RequestFits(l, c, disk)
    ensures RequestIsHeld(l, c, disk)
  {
  }

  lemma SameManagedFits(l: Layout, c: Crypto, a: Disk, b: Disk)
    requires l.WellFormed() && l.csr in l.paths && SameManaged(l, a, b)
    ensures RequestFits(l, c, a) == RequestFits(l, c, b)
  {
    ManagedPaths(l, l.csr);
  }

  lemma TempKeepsFits(l: Layout, c: Crypto, s: Store, tmp: Path, bytes: string, gone: set<Path>)
    requires l.WellFormed() && l.csr in l.paths && tmp !in l.Managed() && forall p | p in gone :: p !in l.Managed()
    ensures RequestFits(l, c, s.disk[tmp := bytes]) == RequestFits(l, c, s.disk)
    ensures RequestFits(l, c, s.disk - gone) == RequestFits(l, c, s.disk)
  {
    ManagedPaths(l, l.csr);
  }

  lemma CsrTemps(l: Layout)
    requires l.WellFormed() && l.csr in l.paths
    ensures Tmp(l.pendingKey) != Tmp(l.paths[l.csr]) && Tmp(l.pendingKey) != "" && Tmp(l.paths[l.csr]) != ""
    ensures l.pendingKey != l.paths[l.csr] && l.paths[l.csr] != ""
    ensures Tmp(l.pendingKey) !in l.Managed() && Tmp(l.paths[l.csr]) !in l.Managed()
    ensures l.pendingKey in l.Managed() && l.paths[l.csr] in l.Managed() && l.privateKey in l.Managed()
  {
    ManagedPaths(l, l.csr);
    if Tmp(l.pendingKey) == Tmp(l.paths[l.csr]) {
      TmpInjective(l.pendingKey, l.paths[l.csr]);
    }
  }

  /** One step of GENERATE_CSR_FILE. */
  lemma GenerationStep(l: Layout, c: Crypto, d: Device, e: Event)
    requires l.WellFormed() && RequestSound(l, c, d) && KeepsRequest(l, c, d, e)
    requires d.task.WritingKey? || d.task.WritingRequest? || d.task.ReplacingKey? || d.task.ReplacingRequest?
    requires e.TempWrite? || e.Rename? || e.Scribble?
    ensures RequestSound(l, c, Next(l, c, d, e))
  {
    hide RequestSound, Next;
    match d.task
    case WritingKey(_, _) => WritingKeyStep(l, c, d, e);
    case WritingRequest(_, _) => WritingRequestStep(l, c, d, e);
    case ReplacingKey(_) => ReplacingKeyStep(l, c, d, e);
    case ReplacingRequest => ReplacingRequestStep(l, c, d, e);
  }

  lemma WritingKeyStep(l: Layout, c: Crypto, d: Device, e: Event)
    requires l.WellFormed() && RequestSound(l, c, d) && d.task.WritingKey? && (e.TempWrite? || e.Rename? || e.Scribble?)
    ensures RequestSound(l, c, Next(l, c, d, e))
  {
    hide Layout.WellFormed, Layout.Managed, Tmp, RequestFits, IsPair;
    CsrTemps(l);
    var tmp := Tmp(l.pendingKey);
    TempKeepsFits(l, c, d.store, tmp, if e.Scribble? && e.left.Some? then e.left.value else d.task.key, {tmp});
  }

  lemma WritingRequestStep(l: Layout, c: Crypto, d: Device, e: Event)
    requires l.WellFormed() && RequestSound(l, c, d) && d.task.WritingRequest? &&
              (e.TempWrite? || e.Rename? || e.Scribble?)
    ensures RequestSound(l, c, Next(l, c, d, e))
  {
    hide Layout.WellFormed, Layout.Managed, Tmp, RequestFits, IsPair;
    CsrTemps(l);
    var tmp := Tmp(l.paths[l.csr]);
    TempKeepsFits(l, c, d.store, tmp, if e.Scribble? && e.left.Some? then e.left.value else d.task.request, {tmp});
    TempKeepsFits(l, c, d.store, tmp, "", {Tmp(l.pendingKey), tmp});
  }

  lemma ReplacingKeyStep(l: Layout, c: Crypto, d: Device, e: Event)
    requires l.WellFormed() && RequestSound(l, c, d) && d.task.ReplacingKey? &&
              (e.TempWrite? || e.Rename? || e.Scribble?)
    ensures RequestSound(l, c, Next(l, c, d, e))
  {
    hide Layout.WellFormed, Layout.Managed, Tmp, RequestFits, IsPair;
    CsrTemps(l);
    TempKeepsFits(l, c, d.store, Tmp(l.pendingKey), "", {Tmp(l.pendingKey), Tmp(l.paths[l.csr])});
  }

  lemma ReplacingRequestStep(l: Layout, c: Crypto, d: Device, e: Event)
    requires l.WellFormed() && RequestSound(l, c, d) && KeepsRequest(l, c, d, e) && d.task.ReplacingRequest?
    requires e.TempWrite? || e.Rename? || e.Scribble?
    ensures RequestSound(l, c, Next(l, c, d, e))
  {
    hide Layout.WellFormed, Layout.Managed, Tmp;
    CsrTemps(l);
  }

  /** The swap of the keys keeps a fitting request fitting. */
  lemma PromotedFits(l: Layout, c: Crypto, disk: Disk)
    requires l.WellFormed() && l.csr in l.paths && l.pendingKey != "" && l.pendingKey in disk && RequestFits(l, c, disk)
    ensures RequestFits(l, c, Promoted(l, disk))
  {
    CsrTemps(l);
  }

  /** One step of a commit. */
  lemma CommitKeepsRequest(l: Layout, c: Crypto, d: Device, e: Event)
    requires l.WellFormed() && Orderly(l, d) && RequestSound(l, c, d) &&
              (e.TempWrite? || e.Rename? || e.Promote? || e.Scribble?)
    requires d.task.Preparing? || d.task.Replacing? || d.task.Promoting?
    ensures RequestSound(l, c, Next(l, c, d, e)) && Orderly(l, Next(l, c, d, e))
  {
    hide Orderly, SameManaged, RequestFits;
    var f := Next(l, c, d, e);
    if e.TempWrite? && d.task.Preparing? {
      PreparingStep(l, d, e.ok);
      SameManagedFits(l, c, d.store.disk, f.store.disk);
    } else if e.Scribble? && d.task.Preparing? {
      ScribbleStep(l, d, e.left);
      SameManagedFits(l, c, d.store.disk, f.store.disk);
    } else if e.Rename? && d.task.Replacing? {
      ReplacingStep(l, c, d, e.ok);
      if e.ok { RenameFits(l, c, d); }
    } else if e.Promote? && d.task.Promoting? {
      PromotingStep(l, c, d, e.ok);
      if e.ok && l.pendingKey != "" && l.pendingKey in d.store.disk {
        PromotedFits(l, c, d.store.disk);
      }
    }
  }

  lemma RenameFits(l: Layout, c: Crypto, d: Device)
    requires l.WellFormed() && Orderly(l, d) && d.task.Replacing? && RequestSound(l, c, d)
    ensures RequestFits(l, c, Next(l, c, d, Rename(true)).store.disk)
  {
    hide Validated, KeyAt, SameReads, RequestFits, Orderly, Next, Layout.WellFormed, Layout.Managed;
    OneLeft(l, d);
    var i := d.task.order[d.task.done];
    RenamedDisk(l, c, d);
    ReplaceKeepsFacts(l, c, d.store, d.store.(disk := Replaced(d.store.disk, l.paths[i])), i);
    CsrTemps(l);
    ManagedPaths(l, i);
    DifferentTemps(l, i, l.csr);
    DifferentTemps(l, l.csr, i);
    KeysApart(l, i);
    SameFilesFit(l, c, d.store.disk, Next(l, c, d, Rename(true)).store.disk);
  }

  lemma OneLeft(l: Layout, d: Device)
    requires l.WellFormed() && Orderly(l, d) && d.task.Replacing?
    ensures d.task.done < |d.task.order|
  {
  }

  lemma RenamedDisk(l: Layout, c: Crypto, d: Device)
    requires l.WellFormed() && Orderly(l, d) && d.task.Replacing?
    ensures var i := d.task.order[d.task.done];
            && i in d.store.staged && i in l.paths
            && FromDisk(d.store.disk, Tmp(l.paths[i])) == Some(d.store.staged[i])
            && Next(l, c, d, Rename(true)).store.disk == Replaced(d.store.disk, l.paths[i])
  {
    var i := d.task.order[d.task.done];
    assert i in d.store.staged && FromDisk(d.store.disk, Tmp(l.OwnPath(i))) == Some(d.store.staged[i]);
  }

  lemma KeysApart(l: Layout, i: nat)
    requires l.WellFormed() && i in l.paths
    ensures l.paths[i] != l.privateKey && l.paths[i] != l.pendingKey
    ensures Tmp(l.paths[i]) != l.privateKey && Tmp(l.paths[i]) != l.pendingKey
  {
    ManagedPaths(l, i);
  }

  lemma SameFilesFit(l: Layout, c: Crypto, a: Disk, b: Disk)
    requires RequestOn(l, a) == RequestOn(l, b) && FromDisk(a, l.pendingKey) == FromDisk(b, l.pendingKey)
    requires FromDisk(a, l.privateKey) == FromDisk(b, l.privateKey)
    ensures RequestFits(l, c, a) == RequestFits(l, c, b)
  {
  }

  lemma StepKeepsRequest(l: Layout, c: Crypto, d: Device, e: Event)
    requires l.WellFormed() && Orderly(l, d) && RequestSound(l, c, d) && KeepsRequest(l, c, d, e)
    ensures RequestSound(l, c, Next(l, c, d, e)) && Orderly(l, Next(l, c, d, e))
  {
    hide RequestFits, Activatable, PromotesAfterValidate;
    if e.TempWrite? || e.Rename? || e.Promote? || e.Scribble? {
      if d.task.Preparing? || d.task.Replacing? || d.task.Promoting? {
        CommitKeepsRequest(l, c, d, e);
      } else if !e.Promote? && !d.task.Idle? && !d.task.Down? {
        GenerationStep(l, c, d, e);
        GenerationKeepsOrderly(l, c, d, e);
      }
    } else if e.Start? {
      if d.task.Down? && e.promoted && NeedsReconcile(l, c, d.store.disk) {
        PromotedFits(l, c, d.store.disk);
      }
    } else if e.Activate? {
      NoOrderOfSome(e.order, d.store.staged.Keys);
    }
  }

  lemma GenerationKeepsOrderly(l: Layout, c: Crypto, d: Device, e: Event)
    requires l.WellFormed() && Orderly(l, d) && (e.TempWrite? || e.Rename? || e.Scribble?)
    requires d.task.WritingKey? || d.task.WritingRequest? || d.task.ReplacingKey? || d.task.ReplacingRequest?
    ensures Orderly(l, Next(l, c, d, e))
  {
  }

  /** In every run, with failures and crashes everywhere but between the two renames of GENERATE_CSR_FILE, the
      request on disk is for a key the device holds, outside that window. */
  lemma {:induction false} RunKeepsRequest(l: Layout, c: Crypto, d: Device, events: seq<Event>)
    requires l.WellFormed() && Orderly(l, d) && RequestSound(l, c, d)
    requires forall k: nat | k < |events| :: KeepsRequest(l, c, Run(l, c, d, events[..k]), events[k])
    ensures var e := Run(l, c, d, events);
            RequestSound(l, c, e) && Orderly(l, e) && (!e.task.ReplacingRequest? ==> RequestIsHeld(l, c, e.store.disk))
  {
    hide Orderly, KeepsRequest, Next;
    if events != [] {
      var n := |events| - 1;
      var prefix := events[..n];
      forall k: nat | k < n ensures KeepsRequest(l, c, Run(l, c, d, prefix[..k]), prefix[k]) {
        assert prefix[..k] == events[..k];
        assert KeepsRequest(l, c, Run(l, c, d, events[..k]), events[k]);
      }
      assert KeepsRequest(l, c, Run(l, c, d, events[..n]), events[n]);
      RunKeepsRequest(l, c, d, prefix);
      StepKeepsRequest(l, c, Run(l, c, d, prefix), events[n]);
    }
    var e := Run(l, c, d, events);
    if !e.task.ReplacingRequest? {
      FittingIsHeld(l, c, e.store.disk);
    }
  }

  // ---------------------------------------------------------------------------
  // Stopped in the window
  // ---------------------------------------------------------------------------

  /** GENERATE_CSR_FILE replaces the pending key before the request. Stopped in between, it leaves the old
      request, which is then for a held key exactly when it was for the current one. */
  lemma HalfGeneratedRequestExactly(l: Layout, c: Crypto, s: Store, key: string, request: string, before: string)
    requires NodeLayout(l) && MayGenerateCsr(l, c, s)
    requires RequestOn(l, s.disk) == Some(before) && c.requestKey(before).Some? &&
              c.privateKey(key) != c.requestKey(before)
    ensures RequestIsHeld(l, c, KeyGenerated(l, c, s, key, request).store.disk) <==>
            KeyAt(c, s.disk, l.privateKey) == c.requestKey(before)
  {
    hide KeyAt, KeyGenerated;
    KeyGeneratedFacts(l, c, s, key, request);
    KeyGeneratedKeepsRequest(l, c, s, key, request);
  }

  lemma KeyGeneratedKeepsRequest(l: Layout, c: Crypto, s: Store, key: string, request: string)
    requires NodeLayout(l) && MayGenerateCsr(l, c, s)
    ensures RequestOn(l, KeyGenerated(l, c, s, key, request).store.disk) == RequestOn(l, s.disk)
  {
    hide KeyGenerated, OperationalIn, Layout.WellFormed, Layout.Managed, Tmp;
    KeyGeneratedDisk(l, c, s, key, request);
    CsrTemps(l);
  }
}
