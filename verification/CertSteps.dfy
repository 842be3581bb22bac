/** The certificate store as a machine of single durable steps. A temporary file's write, a rename or a key
    promotion is one step, any of them can fail, and between any two the process can crash, which loses
    everything but the disk. */
module CertSteps {
  import opened Octets
  import opened CertFiles

  /** What the device is in the middle of. `order` is the staged files in the order they are written,
      `done` how many have had the current step. */
  datatype Task =
    | Idle
    | Preparing(order: seq<nat>, done: nat)
    | Replacing(order: seq<nat>, done: nat)
    | Promoting
    | WritingKey(key: string, request: string)
    | WritingRequest(key: string, request: string)
    | ReplacingKey(request: string)
    | ReplacingRequest
    | Down

  datatype Device = Device(store: Store, task: Task)

  datatype Event =
    | Write(instance: nat, bytes: string)     // AtomicWriteFile or File_Size, once staged
    | Discard
    | Activate(order: seq<nat>)               // ACTIVATE_CHANGES: validate, and if accepted start the commit
    | GenerateCsr(key: string, request: string)
    | TempWrite(ok: bool)
    | Scribble(left: Option<string>)          // a temporary file half written, or its leftover removed
    | Rename(ok: bool)
    | Promote(ok: bool)
    | Crash
    | Start(promoted: bool)                   // the next start, and whether a promotion it needs works

  // ---------------------------------------------------------------------------
  // Steps
  // ---------------------------------------------------------------------------

  /** The temporary files of the first `n` of `order`. */
  function Temps(l: Layout, order: seq<nat>, n: nat): set<Path>
    requires n <= |order|
  {
    set i | 0 <= i < n :: Tmp(l.OwnPath(order[i]))
  }

  function AfterActivate(l: Layout, c: Crypto, s: Store, order: seq<nat>): (d: Device)
    requires l.WellFormed()
  {
    if s.staged == map[] || !Enumerates(order, s.staged.Keys) then Device(s, Idle)
    else
      var validated := s.(promotes := PromotesAfterValidate(l, c, s));
      Device(validated, if Activatable(l, c, s) then Preparing(order, 0) else Idle)
  }

  /** GENERATE_CSR_FILE's checks. */
  predicate MayGenerateCsr(l: Layout, c: Crypto, s: Store)
    requires l.WellFormed()
  {
    s.staged == map[] && l.csr in l.paths && l.pendingKey != "" && OperationalIn(l, c, s).Some?
  }

  function AfterTempWrite(l: Layout, d: Device, ok: bool): (e: Device) {
    match d.task
    case Preparing(order, done) =>
      if done >= |order| || order[done] !in d.store.staged then d
      else if !ok then Device(d.store.(disk := d.store.disk - Temps(l, order, done + 1)), Idle)
      else
        var tmp := Tmp(l.OwnPath(order[done]));
        Device(d.store.(disk := d.store.disk[tmp := d.store.staged[order[done]]]),
               if done + 1 == |order| then Replacing(order, 0) else Preparing(order, done + 1))
    case WritingKey(key, request) =>
      if ok then Device(d.store.(disk := d.store.disk[Tmp(l.pendingKey) := key]), WritingRequest(key, request))
      else Device(d.store.(disk := d.store.disk - {Tmp(l.pendingKey)}), Idle)
    case WritingRequest(key, request) =>
      if ok then Device(d.store.(disk := d.store.disk[Tmp(l.OwnPath(l.csr)) := request]), ReplacingKey(request))
      else Device(d.store.(disk := d.store.disk - {Tmp(l.pendingKey), Tmp(l.OwnPath(l.csr))}), Idle)
    case _ => d
  }

  /** The temporary file being written. */
  function CurrentTemp(l: Layout, task: Task): (tmp: Option<Path>) {
    match task
    case Preparing(order, done) => if done < |order| then Some(Tmp(l.OwnPath(order[done]))) else None
    case WritingKey(_, _) => Some(Tmp(l.pendingKey))
    case WritingRequest(_, _) => Some(Tmp(l.OwnPath(l.csr)))
    case _ => None
  }

  function AfterScribble(l: Layout, d: Device, left: Option<string>): (e: Device) {
    var tmp := CurrentTemp(l, d.task);
    if tmp.None? then d
    else if left.None? then d.(store := d.store.(disk := d.store.disk - {tmp.value}))
    else d.(store := d.store.(disk := d.store.disk[tmp.value := left.value]))
  }

  /** `path` replaced by its temporary file, if that works. */
  function Replaced(disk: Disk, path: Path): (r: Disk) {
    if Tmp(path) in disk && Tmp(path) != path then Move(disk, Tmp(path), path) else disk
  }

  function AfterRename(l: Layout, d: Device, ok: bool): (e: Device) {
    match d.task
    case Replacing(order, done) =>
      if done >= |order| then d
      else if !ok then d.(task := Idle)
      else
        var replaced := d.store.(disk := Replaced(d.store.disk, l.OwnPath(order[done])));
        if done + 1 < |order| then Device(replaced, Replacing(order, done + 1))
        else Device(replaced.(staged := map[]), if d.store.promotes then Promoting else Idle)
    case ReplacingKey(request) =>
      if ok then Device(d.store.(disk := Replaced(d.store.disk, l.pendingKey)), ReplacingRequest)
      else Device(d.store.(disk := d.store.disk - {Tmp(l.pendingKey), Tmp(l.OwnPath(l.csr))}), Idle)
    case ReplacingRequest =>
      if ok then Device(d.store.(disk := Replaced(d.store.disk, l.OwnPath(l.csr))), Idle) else d.(task := Idle)
    case _ => d
  }

  function AfterPromote(l: Layout, d: Device, ok: bool): (e: Device)
    requires l.WellFormed()
  {
    if !d.task.Promoting? then d
    else if ok && l.pendingKey != "" && l.pendingKey in d.store.disk then
      Device(d.store.(disk := Promoted(l, d.store.disk), promotes := false), Idle)
    else d.(task := Idle)
  }

  /** SetLayout and ReconcilePendingKey; the device goes on even when the swap fails. */
  function AfterStart(l: Layout, c: Crypto, disk: Disk, promoted: bool): (s: Store)
    requires l.WellFormed()
  {
    Store(if promoted && NeedsReconcile(l, c, disk) then Promoted(l, disk) else disk, map[], false)
  }

  /** A step the device is not ready for changes nothing. */
  function Next(l: Layout, c: Crypto, d: Device, e: Event): (r: Device)
    requires l.WellFormed()
  {
    match e
    case Crash => Device(Store(d.store.disk, map[], false), Down)
    case Start(promoted) => if d.task.Down? then Device(AfterStart(l, c, d.store.disk, promoted), Idle) else d
    case Write(instance, bytes) =>
      if d.task.Idle? && instance in l.paths then d.(store := d.store.(staged := d.store.staged[instance := bytes]))
          else d
    case Discard => if d.task.Idle? then d.(store := d.store.(staged := map[], promotes := false)) else d
    case Activate(order) => if d.task.Idle? then AfterActivate(l, c, d.store, order) else d
    case GenerateCsr(key, request) =>
      if d.task.Idle? && MayGenerateCsr(l, c, d.store) then d.(task := WritingKey(key, request)) else d
    case TempWrite(ok) => AfterTempWrite(l, d, ok)
    case Scribble(left) => AfterScribble(l, d, left)
    case Rename(ok) => AfterRename(l, d, ok)
    case Promote(ok) => AfterPromote(l, d, ok)
  }

  function Run(l: Layout, c: Crypto, d: Device, events: seq<Event>): (r: Device)
    requires l.WellFormed()
  {
    if events == [] then d
    else Next(l, c, Run(l, c, d, events[..|events| - 1]), events[|events| - 1])
  }

  lemma RunExtends(l: Layout, c: Crypto, d: Device, events: seq<Event>, e: Event)
    requires l.WellFormed()
    ensures Run(l, c, d, events + [e]) == Next(l, c, Run(l, c, d, events), e)
  {
    assert (events + [e])[..|events|] == events;
  }

  lemma {:induction false} RunConcat(l: Layout, c: Crypto, d: Device, first: seq<Event>, more: seq<Event>)
    requires l.WellFormed()
    ensures Run(l, c, d, first + more) == Run(l, c, Run(l, c, d, first), more)
    decreases |more|
  {
    if more == [] {
      assert first + more == first;
    } else {
      var n := |more| - 1;
      assert first + more == (first + more[..n]) + [more[n]];
      RunExtends(l, c, d, first + more[..n], more[n]);
      RunConcat(l, c, d, first, more[..n]);
    }
  }

  // ---------------------------------------------------------------------------
  // The invariant, over volatile and durable state
  // ---------------------------------------------------------------------------

  /** The commit in progress was validated: the certificate it installs, or leaves, is for a held key, and
      the flag says which. */
  predicate Validated(l: Layout, c: Crypto, s: Store)
    requires l.WellFormed()
  {
    var operational := OperationalIn(l, c, s);
    && operational.Some?
    && var leaf := operational.value[0];
       && (ForCurrentKey(l, c, s.disk, leaf) || ForPendingKey(l, c, s.disk, leaf))
       && s.promotes == !ForCurrentKey(l, c, s.disk, leaf)
  }

  /** The temporary files of `order` from `from` up to `to` hold the staged contents. */
  predicate TempsHold(l: Layout, s: Store, order: seq<nat>, from: nat, to: nat)
    requires to <= |order|
  {
    forall i | from <= i < to ::
      order[i] in s.staged &&
      FromDisk(s.disk, Tmp(l.OwnPath(order[i]))) == Some(s.staged[order[i]])
  }

  /** The first `n` files of `order` are in place. */
  predicate FilesHold(l: Layout, s: Store, order: seq<nat>, n: nat)
    requires n <= |order|
  {
    forall i | 0 <= i < n :: order[i] in s.staged && FromDisk(s.disk, l.OwnPath(order[i])) == Some(s.staged[order[i]])
  }

  /** The commit in progress, as far as the files go: what is renamed is what was staged. */
  predicate Orderly(l: Layout, d: Device)
    requires l.WellFormed()
  {
    && d.store.staged.Keys <= l.paths.Keys
    && match d.task
       case Preparing(order, done) =>
         done < |order| && Enumerates(order, d.store.staged.Keys) && TempsHold(l, d.store, order, 0, done)
       case Replacing(order, done) =>
         && done < |order| && Enumerates(order, d.store.staged.Keys)
         && FilesHold(l, d.store, order, done) && TempsHold(l, d.store, order, done, |order|)
       case Promoting => d.store.staged == map[]
       case _ => true
  }

  /** The swap of the keys is all that is left: the installed certificate is for the pending key only. */
  predicate AwaitsPromotion(l: Layout, c: Crypto, s: Store)
    requires l.WellFormed()
  {
    && s.promotes && Installed(l, c, s.disk).Some?
    && ForPendingKey(l, c, s.disk, Installed(l, c, s.disk).value)
    && !ForCurrentKey(l, c, s.disk, Installed(l, c, s.disk).value)
  }

  /** A commit in progress, of a validated stage. */
  predicate OnCourse(l: Layout, c: Crypto, d: Device)
    requires l.WellFormed()
  {
    match d.task
    case Preparing(_, _) => Validated(l, c, d.store)
    case Replacing(_, _) => Validated(l, c, d.store)
    case Promoting => AwaitsPromotion(l, c, d.store)
    case _ => true
  }

  predicate Safe(l: Layout, c: Crypto, d: Device)
    requires l.WellFormed()
  {
    && Orderly(l, d) && InstalledIsHeld(l, c, d.store.disk) && OnCourse(l, c, d)
    && match d.task
       case Idle => true
       case Preparing(_, _) => true
       case Replacing(_, _) => true
       case Promoting => true
       case Down => d.store.staged == map[] && !d.store.promotes
       case _ =>
         d.store.staged == map[] && l.csr in l.paths && l.pendingKey != "" && InstalledIsCurrent(l, c, d.store.disk)
  }

  /** The one thing the device's operator must see to: a new key pair is asked for only when the installed
      certificate is for the current key. */
  predicate Careful(l: Layout, c: Crypto, d: Device, e: Event)
    requires l.WellFormed()
  {
    e.GenerateCsr? ==> InstalledIsCurrent(l, c, d.store.disk)
  }

  /** `a` and `b` agree on every managed file and key. */
  predicate SameManaged(l: Layout, a: Disk, b: Disk) {
    forall p :: p in l.Managed() ==> FromDisk(a, p) == FromDisk(b, p)
  }

  lemma ManagedPaths(l: Layout, i: nat)
    requires l.WellFormed() && i in l.paths
    ensures l.paths[i] in l.Managed() && l.privateKey in l.Managed() && l.pendingKey in l.Managed()
    ensures Tmp(l.paths[i]) !in l.Managed() && Tmp(l.pendingKey) !in l.Managed() && Tmp(l.privateKey) !in l.Managed()
  {
    assert i in l.paths && l.paths[i] in l.paths.Values;
  }

  lemma SameManagedSameFacts(l: Layout, c: Crypto, s: Store, t: Store)
    requires l.WellFormed() && SameManaged(l, s.disk, t.disk) && s.staged == t.staged && s.promotes == t.promotes
    ensures SameReads(l, s, t)
    ensures Installed(l, c, s.disk) == Installed(l, c, t.disk)
    ensures KeyAt(c, s.disk, l.privateKey) == KeyAt(c, t.disk, l.privateKey)
    ensures KeyAt(c, s.disk, l.pendingKey) == KeyAt(c, t.disk, l.pendingKey)
    ensures InstalledIsHeld(l, c, s.disk) == InstalledIsHeld(l, c, t.disk)
    ensures InstalledIsCurrent(l, c, s.disk) == InstalledIsCurrent(l, c, t.disk)
    ensures Validated(l, c, s) == Validated(l, c, t)
  {
    hide ParseCertificates;
    ManagedPaths(l, l.operational);
    forall i | i in l.paths ensures FromDisk(s.disk, l.paths[i]) == FromDisk(t.disk, l.paths[i]) {
      ManagedPaths(l, i);
    }
    assert FromDisk(s.disk, l.privateKey) == FromDisk(t.disk, l.privateKey);
    assert FromDisk(s.disk, l.pendingKey) == FromDisk(t.disk, l.pendingKey);
    assert FromDisk(s.disk, l.paths[l.operational]) == FromDisk(t.disk, l.paths[l.operational]);
    SameFilesSameReads(l, s, t);
    assert Read(l, s, l.operational) == Read(l, t, l.operational);
  }

  /** Writing or removing temporary files changes no managed file. */
  lemma TempsAreNotManaged(l: Layout, s: Store, tmp: Path, bytes: string, gone: set<Path>)
    requires l.WellFormed() && tmp !in l.Managed() && gone !! l.Managed()
    ensures SameManaged(l, s.disk, s.disk[tmp := bytes]) && SameManaged(l, s.disk, s.disk - gone)
  {
  }

  lemma OrderedTempsNotManaged(l: Layout, order: seq<nat>, n: nat)
    requires l.WellFormed() && n <= |order| && forall i | 0 <= i < |order| :: order[i] in l.paths
    ensures Temps(l, order, n) !! l.Managed()
  {
    forall p | p in Temps(l, order, n) ensures p !in l.Managed() {
      var i :| 0 <= i < n && p == Tmp(l.OwnPath(order[i]));
      ManagedPaths(l, order[i]);
    }
  }

  // ---------------------------------------------------------------------------
  // Every step keeps it
  // ---------------------------------------------------------------------------

  lemma PreparingStep(l: Layout, d: Device, ok: bool)
    requires l.WellFormed() && d.task.Preparing? && Orderly(l, d)
    ensures var e := AfterTempWrite(l, d, ok);
            && Orderly(l, e) && SameManaged(l, d.store.disk, e.store.disk) && e.store == d.store.(disk := e.store.disk)
            && (if ok then e.task.Preparing? || e.task.Replacing? else e.task.Idle?)
  {
    var order, done, e := d.task.order, d.task.done, AfterTempWrite(l, d, ok);
    var i := order[done];
    ManagedPaths(l, i);
    OrderedTempsNotManaged(l, order, done + 1);
    TempsAreNotManaged(l, d.store, Tmp(l.paths[i]), d.store.staged[i], Temps(l, order, done + 1));
    if ok {
      forall j | 0 <= j < done + 1
        ensures order[j] in e.store.staged &&
                  FromDisk(e.store.disk, Tmp(l.OwnPath(order[j]))) == Some(e.store.staged[order[j]])
      {
        if j < done {
          DifferentTemps(l, order[j], i);
          assert FromDisk(d.store.disk, Tmp(l.OwnPath(order[j]))) == Some(d.store.staged[order[j]]);
        }
      }
    }
  }

  lemma DifferentTemps(l: Layout, i: nat, j: nat)
    requires l.WellFormed() && i in l.paths && j in l.paths && i != j
    ensures Tmp(l.paths[i]) != Tmp(l.paths[j]) && l.paths[i] != l.paths[j]
    ensures Tmp(l.paths[i]) != l.paths[j] && Tmp(l.paths[i]) != l.paths[i]
  {
    if Tmp(l.paths[i]) == Tmp(l.paths[j]) { TmpInjective(l.paths[i], l.paths[j]); }
    ManagedPaths(l, i);
    ManagedPaths(l, j);
  }

  /** One rename of the commit: one more file in place, every read and both keys as before. */
  lemma ReplaceKeepsFacts(l: Layout, c: Crypto, s: Store, t: Store, i: nat)
    requires l.WellFormed() && i in s.staged && i in l.paths
    requires FromDisk(s.disk, Tmp(l.paths[i])) == Some(s.staged[i])
    requires t == s.(disk := Replaced(s.disk, l.paths[i]))
    ensures SameReads(l, s, t) && FromDisk(t.disk, l.paths[i]) == Some(s.staged[i])
    ensures KeyAt(c, s.disk, l.privateKey) == KeyAt(c, t.disk, l.privateKey)
    ensures KeyAt(c, s.disk, l.pendingKey) == KeyAt(c, t.disk, l.pendingKey)
    ensures Validated(l, c, s) == Validated(l, c, t)
    ensures forall p :: p != Tmp(l.paths[i]) && p != l.paths[i] ==> FromDisk(s.disk, p) == FromDisk(t.disk, p)
  {
    hide ParseCertificates;
    ManagedPaths(l, i);
    forall j | j in l.paths && j != i ensures FromDisk(s.disk, l.paths[j]) == FromDisk(t.disk, l.paths[j]) {
      ManagedPaths(l, j);
    }
    PlacedFileSameReads(l, s, t, i);
    assert Read(l, s, l.operational) == Read(l, t, l.operational);
  }

  lemma ReplaceKeepsHeld(l: Layout, c: Crypto, s: Store, t: Store, i: nat)
    requires l.WellFormed() && i in s.staged && i in l.paths && Validated(l, c, s) && InstalledIsHeld(l, c, s.disk)
    requires FromDisk(s.disk, Tmp(l.paths[i])) == Some(s.staged[i])
    requires t == s.(disk := Replaced(s.disk, l.paths[i]))
    ensures InstalledIsHeld(l, c, t.disk)
  {
    hide ParseCertificates;
    ReplaceKeepsFacts(l, c, s, t, i);
    if i == l.operational {
      assert Effective(l, s, i) == s.staged[i];
    } else {
      ManagedPaths(l, l.operational);
      ManagedPaths(l, i);
    }
  }

  lemma ReplaceKeepsOrder(l: Layout, s: Store, t: Store, order: seq<nat>, done: nat)
    requires l.WellFormed() && done < |order| && Enumerates(order, s.staged.Keys) && s.staged.Keys <= l.paths.Keys
    requires FilesHold(l, s, order, done) && TempsHold(l, s, order, done, |order|)
    requires t.staged == s.staged && FromDisk(t.disk, l.paths[order[done]]) == Some(s.staged[order[done]])
    requires forall p :: p != Tmp(l.paths[order[done]]) && p != l.paths[order[done]] ==>
              FromDisk(s.disk, p) == FromDisk(t.disk, p)
    ensures FilesHold(l, t, order, done + 1) && TempsHold(l, t, order, done + 1, |order|)
  {
    var i := order[done];
    forall j | 0 <= j < |order| && j != done
      ensures order[j] in l.paths
      ensures FromDisk(s.disk, l.OwnPath(order[j])) == FromDisk(t.disk, l.OwnPath(order[j]))
      ensures FromDisk(s.disk, Tmp(l.OwnPath(order[j]))) == FromDisk(t.disk, Tmp(l.OwnPath(order[j])))
    {
      DifferentTemps(l, order[j], i);
      DifferentTemps(l, i, order[j]);
    }
  }

  /** Every file of `was` is on disk with the contents it has there. */
  predicate Placed(l: Layout, was: map<nat, string>, disk: Disk) {
    forall i :: i in was ==> FromDisk(disk, l.OwnPath(i)) == Some(was[i])
  }

  /** With the last file in place the stage is cleared, and nothing reads differently. */
  lemma ClearReads(l: Layout, s: Store, order: seq<nat>)
    requires l.WellFormed() && Enumerates(order, s.staged.Keys) && s.staged.Keys <= l.paths.Keys
    requires FilesHold(l, s, order, |order|)
    ensures SameReads(l, s, s.(staged := map[])) && Placed(l, s.staged, s.disk)
  {
    forall i | i in s.staged ensures i in l.paths && FromDisk(s.disk, l.paths[i]) == Some(s.staged[i]) {
      var k :| 0 <= k < |order| && order[k] == i;
      assert FromDisk(s.disk, l.OwnPath(order[k])) == Some(s.staged[order[k]]);
    }
    ClearedStageSameReads(l, s, s.(staged := map[]));
  }

  /** The validated certificate is then the installed one. */
  lemma ClearInstalls(l: Layout, c: Crypto, s: Store, t: Store)
    requires l.WellFormed() && Validated(l, c, s) && SameReads(l, s, t) && t == s.(staged := map[])
    ensures Validated(l, c, t) && Installed(l, c, t.disk) == Some(OperationalIn(l, c, t).value[0])
  {
    SameReadsSameCertificates(l, c, s, t, []);
    InstalledIsOperational(l, c, t);
  }

  /** The store after one more rename, and after the stage is cleared if it was the last. */
  lemma ReplacingStep(l: Layout, c: Crypto, d: Device, ok: bool)
    requires l.WellFormed() && d.task.Replacing? && Orderly(l, d)
    ensures var e := AfterRename(l, d, ok);
            && Orderly(l, e) && SameReads(l, d.store, e.store) && e.store.promotes == d.store.promotes
            && (e.task.Replacing? ==> e.store.staged == d.store.staged)
            && (if !ok then e == d.(task := Idle)
                else if e.task.Replacing? then e.store.staged == d.store.staged
                else e.store.staged == map[] && Placed(l, d.store.staged, e.store.disk)
                     && e.task == if d.store.promotes then Promoting else Idle)
    ensures OnCourse(l, c, d) ==> OnCourse(l, c, AfterRename(l, d, ok))
    ensures OnCourse(l, c, d) && InstalledIsHeld(l, c, d.store.disk) ==>
              InstalledIsHeld(l, c, AfterRename(l, d, ok).store.disk)
    ensures var e := AfterRename(l, d, ok);
            OnCourse(l, c, d) && ok && e.task == Idle ==> InstalledIsCurrent(l, c, e.store.disk)
  {
    hide Installed, KeyAt, Read, OperationalIn, SameReads, ForCurrentKey, ForPendingKey, Validated, AwaitsPromotion,
         InstalledIsHeld, InstalledIsCurrent;
    if ok {
      var order, done := d.task.order, d.task.done;
      var i := order[done];
      assert i in d.store.staged && FromDisk(d.store.disk, Tmp(l.OwnPath(i))) == Some(d.store.staged[i]);
      var replaced := d.store.(disk := Replaced(d.store.disk, l.paths[i]));
      ReplaceKeepsFacts(l, c, d.store, replaced, i);
      ReplaceKeepsOrder(l, d.store, replaced, order, done);
      if OnCourse(l, c, d) && InstalledIsHeld(l, c, d.store.disk) { ReplaceKeepsHeld(l, c, d.store, replaced, i); }
      if done + 1 == |order| {
        var cleared := replaced.(staged := map[]);
        ClearReads(l, replaced, order);
        SameReadsTransitive(l, d.store, replaced, cleared);
        if OnCourse(l, c, d) {
          ClearInstalls(l, c, replaced, cleared);
          InstalledMatches(l, c, cleared);
        }
      }
    } else {
      SameReadsReflexive(l, d.store);
    }
  }

  /** With the validated certificate installed, the flag says which key it is for. */
  lemma InstalledMatches(l: Layout, c: Crypto, t: Store)
    requires l.WellFormed() && Validated(l, c, t) && Installed(l, c, t.disk) == Some(OperationalIn(l, c, t).value[0])
    ensures !t.promotes ==> InstalledIsCurrent(l, c, t.disk)
    ensures t.promotes ==> AwaitsPromotion(l, c, t)
  {
    hide Installed, OperationalIn;
  }

  lemma SameReadsReflexive(l: Layout, s: Store)
    requires l.WellFormed()
    ensures SameReads(l, s, s)
  {
  }

  lemma SameReadsTransitive(l: Layout, s: Store, t: Store, u: Store)
    requires l.WellFormed() && SameReads(l, s, t) && SameReads(l, t, u)
    ensures SameReads(l, s, u)
  {
    forall i: nat ensures Read(l, s, i) == Read(l, u, i) {
      assert Read(l, s, i) == Read(l, t, i) && Read(l, t, i) == Read(l, u, i);
    }
  }

  /** The swap of the keys: only the two key files change, and the pending key is now the current one. */
  lemma PromotedFacts(l: Layout, c: Crypto, s: Store, t: Store)
    requires l.WellFormed() && l.pendingKey in s.disk && l.pendingKey != ""
    requires t.disk == Promoted(l, s.disk) && t.staged == s.staged
    ensures SameReads(l, s, t) && Installed(l, c, t.disk) == Installed(l, c, s.disk)
    ensures KeyAt(c, t.disk, l.privateKey) == KeyAt(c, s.disk, l.pendingKey)
    ensures KeyAt(c, t.disk, l.pendingKey) == None
    ensures forall i :: i in l.paths ==> FromDisk(s.disk, l.paths[i]) == FromDisk(t.disk, l.paths[i])
  {
    forall i | i in l.paths ensures FromDisk(s.disk, l.paths[i]) == FromDisk(t.disk, l.paths[i]) {
      ManagedPaths(l, i);
    }
    SameFilesSameReads(l, s, t);
  }

  lemma PromotingStep(l: Layout, c: Crypto, d: Device, ok: bool)
    requires l.WellFormed() && d.task.Promoting? && Orderly(l, d)
    ensures var e := AfterPromote(l, d, ok);
            && Orderly(l, e) && SameReads(l, d.store, e.store) && e.store.staged == map[] && e.task == Idle
            && (e == d.(task := Idle) ||
                (ok && !e.store.promotes && (OnCourse(l, c, d) ==> InstalledIsCurrent(l, c, e.store.disk))))
            && (forall was :: Placed(l, was, d.store.disk) && was.Keys <= l.paths.Keys ==> Placed(l, was, e.store.disk))
    ensures OnCourse(l, c, d) ==> InstalledIsHeld(l, c, AfterPromote(l, d, ok).store.disk)
  {
    hide Installed, KeyAt, SameReads, Read;
    if ok && l.pendingKey != "" && l.pendingKey in d.store.disk {
      PromotedFacts(l, c, d.store, AfterPromote(l, d, ok).store);
    } else {
      SameReadsReflexive(l, d.store);
    }
  }

  /** Replacing the pending key file leaves the installed certificate and the current key alone. */
  lemma NewPendingKeyFacts(l: Layout, c: Crypto, s: Store, t: Store)
    requires l.WellFormed() && l.csr in l.paths && l.pendingKey != ""
    requires t.disk == Replaced(s.disk, l.pendingKey) && t.staged == s.staged
    ensures Installed(l, c, t.disk) == Installed(l, c, s.disk)
    ensures KeyAt(c, t.disk, l.privateKey) == KeyAt(c, s.disk, l.privateKey)
    ensures Tmp(l.pendingKey) in s.disk ==> KeyAt(c, t.disk, l.pendingKey) == c.privateKey(s.disk[Tmp(l.pendingKey)])
  {
    hide ParseCertificates;
    ManagedPaths(l, l.operational);
    ManagedPaths(l, l.csr);
  }

  lemma NewRequestFacts(l: Layout, c: Crypto, s: Store, t: Store)
    requires l.WellFormed() && l.csr in l.paths && l.csr != l.operational
    requires t.disk == Replaced(s.disk, l.paths[l.csr]) && t.staged == s.staged
    ensures Installed(l, c, t.disk) == Installed(l, c, s.disk)
    ensures KeyAt(c, t.disk, l.privateKey) == KeyAt(c, s.disk, l.privateKey)
    ensures KeyAt(c, t.disk, l.pendingKey) == KeyAt(c, s.disk, l.pendingKey)
  {
    hide ParseCertificates;
    ManagedPaths(l, l.operational);
    ManagedPaths(l, l.csr);
  }

  lemma CsrTempsNotManaged(l: Layout, c: Crypto, d: Device, e: Event)
    requires l.WellFormed() && l.csr in l.paths
    requires d.task.WritingKey? || d.task.WritingRequest? || d.task.ReplacingKey? || d.task.ReplacingRequest?
    requires e.TempWrite? || (e.Rename? && !e.ok)
    ensures SameManaged(l, d.store.disk, Next(l, c, d, e).store.disk)
  {
    hide Activatable, PromotesAfterValidate, MayGenerateCsr, AfterStart, Run, AfterActivate;
    ManagedPaths(l, l.csr);
  }

  lemma CsrKeepsSafe(l: Layout, c: Crypto, d: Device, e: Event)
    requires l.WellFormed() && Safe(l, c, d) && l.csr != l.operational
    requires d.task.WritingKey? || d.task.WritingRequest? || d.task.ReplacingKey? || d.task.ReplacingRequest?
    requires e.TempWrite? || e.Rename?
    ensures Safe(l, c, Next(l, c, d, e))
  {
    hide Installed, KeyAt, Validated, SameReads, OperationalIn, SameManaged;
    var t := Next(l, c, d, e).store;
    if e.TempWrite? || !e.ok {
      CsrTempsNotManaged(l, c, d, e);
      SameManagedSameFacts(l, c, d.store, t);
    } else if d.task.ReplacingKey? {
      NewPendingKeyFacts(l, c, d.store, t);
    } else if d.task.ReplacingRequest? {
      NewRequestFacts(l, c, d.store, t);
    }
  }

  lemma ScribbleStep(l: Layout, d: Device, left: Option<string>)
    requires l.WellFormed() && Orderly(l, d) &&
              (CurrentTemp(l, d.task).Some? && !d.task.Preparing? ==> l.csr in l.paths)
    ensures var e := AfterScribble(l, d, left);
            Orderly(l, e) && e == Device(d.store.(disk := e.store.disk), d.task) &&
                SameManaged(l, d.store.disk, e.store.disk)
  {
    var tmp, e := CurrentTemp(l, d.task), AfterScribble(l, d, left);
    if tmp.Some? {
      if d.task.Preparing? { ManagedPaths(l, d.task.order[d.task.done]); } else { ManagedPaths(l, l.csr); }
      TempsAreNotManaged(l, d.store, tmp.value, if left.Some? then left.value else "", {tmp.value});
      if d.task.Preparing? {
        var order, done := d.task.order, d.task.done;
        forall j | 0 <= j < done
          ensures order[j] in e.store.staged &&
                    FromDisk(e.store.disk, Tmp(l.OwnPath(order[j]))) == Some(e.store.staged[order[j]])
        {
          DifferentTemps(l, order[j], order[done]);
          assert FromDisk(d.store.disk, Tmp(l.OwnPath(order[j]))) == Some(d.store.staged[order[j]]);
        }
      }
    }
  }

  /** A step that touches only temporary files keeps the facts about keys and certificates. */
  lemma TempStepKeepsSafe(l: Layout, c: Crypto, d: Device, e: Device)
    requires l.WellFormed() && Safe(l, c, d) && Orderly(l, e) && SameManaged(l, d.store.disk, e.store.disk)
    requires e.store == d.store.(disk := e.store.disk)
    requires e.task == d.task || e.task.Idle? || (d.task.Preparing? && (e.task.Preparing? || e.task.Replacing?))
    ensures Safe(l, c, e) && SameReads(l, d.store, e.store)
  {
    hide Installed, KeyAt, Validated, InstalledIsHeld, InstalledIsCurrent, SameReads, SameManaged, Orderly;
    SameManagedSameFacts(l, c, d.store, e.store);
  }

  lemma NoOrderOfSome(order: seq<nat>, keys: set<nat>)
    ensures Enumerates(order, keys) && order == [] ==> keys == {}
  {
  }

  lemma ActivateKeepsSafe(l: Layout, c: Crypto, s: Store, order: seq<nat>)
    requires l.WellFormed() && Safe(l, c, Device(s, Idle))
    ensures Safe(l, c, AfterActivate(l, c, s, order)) && SameReads(l, s, AfterActivate(l, c, s, order).store)
  {
    hide Pem.SplitPem, ParseCertificates, ChainsToIssuers;
    var t := AfterActivate(l, c, s, order);
    SameFilesSameReads(l, s, t.store);
    assert Read(l, s, l.operational) == Read(l, t.store, l.operational);
    NoOrderOfSome(order, s.staged.Keys);
  }

  lemma StartFacts(l: Layout, c: Crypto, disk: Disk, promoted: bool)
    requires l.WellFormed() && InstalledIsHeld(l, c, disk)
    ensures InstalledIsHeld(l, c, AfterStart(l, c, disk, promoted).disk)
    ensures promoted ==> InstalledIsCurrent(l, c, AfterStart(l, c, disk, promoted).disk)
  {
    if NeedsReconcile(l, c, disk) {
      var s := Store(disk, map[], false);
      PromotedFacts(l, c, s, s.(disk := Promoted(l, disk)));
    }
  }

  /** The node's layout: the request is a file of its own. */
  predicate NodeLayout(l: Layout) { l.WellFormed() && l.csr != l.operational }

  lemma StepKeepsSafe(l: Layout, c: Crypto, d: Device, e: Event)
    requires NodeLayout(l) && Safe(l, c, d) && Careful(l, c, d, e)
    ensures Safe(l, c, Next(l, c, d, e))
  {
    match e
    case TempWrite(ok) =>
      if d.task.Preparing? {
        PreparingStep(l, d, ok);
        TempStepKeepsSafe(l, c, d, AfterTempWrite(l, d, ok));
      } else if d.task.WritingKey? || d.task.WritingRequest? {
        CsrKeepsSafe(l, c, d, e);
      }
    case Scribble(left) =>
      ScribbleStep(l, d, left);
      TempStepKeepsSafe(l, c, d, AfterScribble(l, d, left));
    case Rename(ok) =>
      if d.task.Replacing? {
        ReplacingStep(l, c, d, ok);
      } else if d.task.ReplacingKey? || d.task.ReplacingRequest? {
        CsrKeepsSafe(l, c, d, e);
      }
    case Promote(ok) => if d.task.Promoting? { PromotingStep(l, c, d, ok); }
    case Activate(order) => if d.task.Idle? { ActivateKeepsSafe(l, c, d.store, order); }
    case Start(promoted) => if d.task.Down? { StartFacts(l, c, d.store.disk, promoted); }
    case _ =>
  }

  // ---------------------------------------------------------------------------
  // Over whole runs
  // ---------------------------------------------------------------------------

  predicate CarefulRun(l: Layout, c: Crypto, d: Device, events: seq<Event>)
    requires l.WellFormed()
  {
    forall k: nat | k < |events| :: Careful(l, c, Run(l, c, d, events[..k]), events[k])
  }

  /** In every run of writes, activations, discards, new key pairs, failures, crashes and restarts, the
      certificate installed on disk is always for a key the device still holds. */
  lemma {:induction false} RunKeepsSafe(l: Layout, c: Crypto, d: Device, events: seq<Event>)
    requires NodeLayout(l) && Safe(l, c, d) && CarefulRun(l, c, d, events)
    ensures Safe(l, c, Run(l, c, d, events)) && InstalledIsHeld(l, c, Run(l, c, d, events).store.disk)
  {
    if events != [] {
      var n := |events| - 1;
      var prefix := events[..n];
      forall k: nat | k < n ensures Careful(l, c, Run(l, c, d, prefix[..k]), prefix[k]) {
        assert prefix[..k] == events[..k];
        assert Careful(l, c, Run(l, c, d, events[..k]), events[k]);
      }
      assert Careful(l, c, Run(l, c, d, events[..n]), events[n]);
      RunKeepsSafe(l, c, d, prefix);
      StepKeepsSafe(l, c, Run(l, c, d, prefix), events[n]);
    }
  }

  /** After every restart whose ReconcilePendingKey succeeds, it is for the current key, whatever step the
      crash came after. */
  lemma RestartRecovers(l: Layout, c: Crypto, d: Device, events: seq<Event>)
    requires NodeLayout(l) && Safe(l, c, d) && CarefulRun(l, c, d, events)
    ensures var restarted := Run(l, c, d, events + [Crash] + [Start(true)]);
            restarted.task == Idle && InstalledIsCurrent(l, c, restarted.store.disk)
  {
    hide Run, Safe, CarefulRun, InstalledIsHeld, InstalledIsCurrent, AfterStart, AfterActivate, AfterTempWrite,
        AfterRename,
         AfterScribble, AfterPromote, MayGenerateCsr;
    RunKeepsSafe(l, c, d, events);
    RunExtends(l, c, d, events, Crash);
    RunExtends(l, c, d, events + [Crash], Start(true));
    StartFacts(l, c, Run(l, c, d, events).store.disk, true);
  }

  // ---------------------------------------------------------------------------
  // Over one commit
  // ---------------------------------------------------------------------------

  predicate IsCommitStep(e: Event) { e.TempWrite? || e.Rename? || e.Promote? }

  /** Only steps of a commit. */
  predicate CommitSteps(events: seq<Event>) {
    forall k | 0 <= k < |events| :: IsCommitStep(events[k])
  }

  /** Where a commit of `was` has got to. It is done when nothing is staged and no promotion is due; then
      every file of `was` is in place. `valid` says that it started from a validated stage, `held` that the
      certificate installed before was for a held key. */
  predicate CommitReached(l: Layout, c: Crypto, was: map<nat, string>, valid: bool, held: bool, d: Device)
    requires l.WellFormed()
  {
    && Orderly(l, d) && (valid ==> OnCourse(l, c, d)) && (valid && held ==> InstalledIsHeld(l, c, d.store.disk))
    && match d.task
       case Preparing(_, _) => d.store.staged == was
       case Replacing(_, _) => d.store.staged == was
       case Promoting => Placed(l, was, d.store.disk) && d.store.promotes
       case Idle =>
         if d.store.staged != map[] then d.store.staged == was
         else
           && Placed(l, was, d.store.disk)
           && (valid ==> if d.store.promotes then AwaitsPromotion(l, c, d.store)
               else InstalledIsCurrent(l, c, d.store.disk))
       case _ => false
  }

  lemma CommitStarts(l: Layout, c: Crypto, s: Store, order: seq<nat>)
    requires l.WellFormed() && s.staged.Keys <= l.paths.Keys && order != [] && Enumerates(order, s.staged.Keys)
    ensures CommitReached(l, c, s.staged, Validated(l, c, s), InstalledIsHeld(l, c, s.disk),
              Device(s, Preparing(order, 0)))
  {
  }

  lemma CommitStep(l: Layout, c: Crypto, was: map<nat, string>, valid: bool, held: bool, d: Device, e: Event)
    requires l.WellFormed() && IsCommitStep(e) && CommitReached(l, c, was, valid, held, d)
    requires was.Keys <= l.paths.Keys
    ensures CommitReached(l, c, was, valid, held, Next(l, c, d, e)) && SameReads(l, d.store, Next(l, c, d, e).store)
  {
    hide Orderly, SameReads, InstalledIsCurrent, InstalledIsHeld, Placed, SameManaged, Validated, AwaitsPromotion;
    var f := Next(l, c, d, e);
    if e.TempWrite? && d.task.Preparing? {
      StagedNotEmpty(l, d);
      PreparingStep(l, d, e.ok);
      SameManagedSameFacts(l, c, d.store, f.store);
    } else if e.Rename? && d.task.Replacing? {
      StagedNotEmpty(l, d);
      ReplacingStep(l, c, d, e.ok);
    } else if e.Promote? && d.task.Promoting? {
      PromotingDone(l, d);
      PromotingStep(l, c, d, e.ok);
    } else {
      SameReadsReflexive(l, d.store);
    }
  }

  lemma StagedNotEmpty(l: Layout, d: Device)
    requires l.WellFormed() && Orderly(l, d) && (d.task.Preparing? || d.task.Replacing?)
    ensures d.store.staged != map[]
  {
    assert d.task.order[d.task.done] in d.store.staged;
  }

  lemma PromotingDone(l: Layout, d: Device)
    requires l.WellFormed() && Orderly(l, d) && d.task.Promoting?
    ensures d.store.staged == map[]
  {
  }

  /** No step of a commit, failing or not, changes what any File object reads, those served through a
      fallback included; a held certificate stays held; and a validated one ends up current, whatever was
      installed before. */
  lemma {:induction false} CommitRun(l: Layout, c: Crypto, valid: bool, held: bool, d: Device, events: seq<Event>)
    requires l.WellFormed() && CommitReached(l, c, d.store.staged, valid, held, d)
    requires CommitSteps(events)
    ensures var e := Run(l, c, d, events);
            CommitReached(l, c, d.store.staged, valid, held, e) && SameReads(l, d.store, e.store)
  {
    hide CommitReached, SameReads, Next;
    if events == [] {
      SameReadsReflexive(l, d.store);
    } else {
      var prefix, last := events[..|events| - 1], events[|events| - 1];
      CommitRun(l, c, valid, held, d, prefix);
      var e := Run(l, c, d, prefix);
      StagedIsManaged(l, c, valid, held, d);
      CommitStep(l, c, d.store.staged, valid, held, e, last);
      SameReadsTransitive(l, d.store, e.store, Next(l, c, e, last).store);
    }
  }

  lemma StagedIsManaged(l: Layout, c: Crypto, valid: bool, held: bool, d: Device)
    requires l.WellFormed() && CommitReached(l, c, d.store.staged, valid, held, d)
    ensures d.store.staged.Keys <= l.paths.Keys
  {
  }

  /** A validated commit that gets done leaves a certificate for the current key, even where the one it
      replaces was for no key the device holds. */
  lemma CommitMakesCurrent(l: Layout, c: Crypto, s: Store, order: seq<nat>, events: seq<Event>)
    requires l.WellFormed() && s.staged.Keys <= l.paths.Keys && order != [] && Enumerates(order, s.staged.Keys)
    requires Validated(l, c, s) && CommitSteps(events)
    ensures var e := Run(l, c, Device(s, Preparing(order, 0)), events);
            e.task == Idle && e.store.staged == map[] && !e.store.promotes ==>
              InstalledIsCurrent(l, c, e.store.disk) && Placed(l, s.staged, e.store.disk)
  {
    hide Run, Validated, InstalledIsCurrent, Placed, AwaitsPromotion, InstalledIsHeld;
    CommitStarts(l, c, s, order);
    CommitRun(l, c, true, InstalledIsHeld(l, c, s.disk), Device(s, Preparing(order, 0)), events);
  }

  // ---------------------------------------------------------------------------
  // Where the code itself does not see to it
  // ---------------------------------------------------------------------------

  /** A commit whose promotion fails leaves the device idle, nothing staged, and the installed certificate
      for the pending key and no other. */
  lemma FailedPromotion(l: Layout, c: Crypto, d: Device)
    requires l.WellFormed() && Orderly(l, d) && OnCourse(l, c, d) && d.task.Promoting?
    ensures var e := Next(l, c, d, Promote(false));
            e.task == Idle && e.store.staged == map[] && AwaitsPromotion(l, c, e.store)
  {
    hide Installed, KeyAt;
  }

  /** GENERATE_CSR_FILE up to and including the replacement of the pending key, nothing failing. */
  function KeyGenerated(l: Layout, c: Crypto, s: Store, key: string, request: string): (d: Device)
    requires l.WellFormed()
  {
    var started := Next(l, c, Device(s, Idle), GenerateCsr(key, request));
    Next(l, c, Next(l, c, Next(l, c, started, TempWrite(true)), TempWrite(true)), Rename(true))
  }

  lemma KeyGeneratedDisk(l: Layout, c: Crypto, s: Store, key: string, request: string)
    requires l.WellFormed() && MayGenerateCsr(l, c, s)
    ensures var written := s.disk[Tmp(l.pendingKey) := key][Tmp(l.paths[l.csr]) := request];
            KeyGenerated(l, c, s, key, request).store == s.(disk := Replaced(written, l.pendingKey))
  {
    hide Layout.WellFormed, MayGenerateCsr, Replaced, AfterActivate, AfterStart, AfterPromote, AfterScribble, Tmp;
    assert l.csr in l.paths by { CsrIsManaged(l, c, s); }
  }

  lemma CsrIsManaged(l: Layout, c: Crypto, s: Store)
    requires l.WellFormed() && MayGenerateCsr(l, c, s)
    ensures l.csr in l.paths
  {
  }

  lemma KeyGeneratedFacts(l: Layout, c: Crypto, s: Store, key: string, request: string)
    requires NodeLayout(l) && MayGenerateCsr(l, c, s)
    ensures var disk := KeyGenerated(l, c, s, key, request).store.disk;
            && Installed(l, c, disk) == Installed(l, c, s.disk)
            && KeyAt(c, disk, l.privateKey) == KeyAt(c, s.disk, l.privateKey)
            && KeyAt(c, disk, l.pendingKey) == c.privateKey(key)
  {
    hide Installed, KeyAt, OperationalIn, SameReads, SameManaged, InstalledIsHeld, InstalledIsCurrent, Validated,
         KeyGenerated;
    KeyGeneratedDisk(l, c, s, key, request);
    var keyTemp, requestTemp := Tmp(l.pendingKey), Tmp(l.paths[l.csr]);
    var s1 := s.(disk := s.disk[keyTemp := key]);
    var s2 := s1.(disk := s1.disk[requestTemp := request]);
    ManagedPaths(l, l.csr);
    TempsAreNotManaged(l, s, keyTemp, key, {});
    SameManagedSameFacts(l, c, s, s1);
    TempsAreNotManaged(l, s1, requestTemp, request, {});
    SameManagedSameFacts(l, c, s1, s2);
    if keyTemp == requestTemp {
      TmpInjective(l.pendingKey, l.paths[l.csr]);
    }
    NewPendingKeyFacts(l, c, s2, KeyGenerated(l, c, s, key, request).store);
  }

  /** GENERATE_CSR_FILE checks only that nothing is staged. Once its new key - one that fits no installed
      certificate - is in place, the certificate is still usable exactly when it was for the current key. */
  lemma GenerationKeepsHeldExactly(l: Layout, c: Crypto, s: Store, key: string, request: string)
    requires NodeLayout(l) && MayGenerateCsr(l, c, s) && Installed(l, c, s.disk).Some?
    requires c.privateKey(key) != Some(c.certificateKey(Installed(l, c, s.disk).value))
    ensures InstalledIsHeld(l, c, KeyGenerated(l, c, s, key, request).store.disk) <==> InstalledIsCurrent(l, c, s.disk)
  {
    hide Installed, KeyAt, Next;
    KeyGeneratedFacts(l, c, s, key, request);
  }

  /** Asked for then, a new key pair loses the installed certificate's key: nothing refuses the call, and with
      the new key in place no key on the device fits. */
  lemma NewKeyAfterFailedPromotion(l: Layout, c: Crypto, d: Device, key: string, request: string)
    requires NodeLayout(l) && Orderly(l, d) && OnCourse(l, c, d) && d.task.Promoting? && l.csr in l.paths
    requires c.privateKey(key) != Some(c.certificateKey(Installed(l, c, d.store.disk).value))
    ensures var s := Next(l, c, d, Promote(false)).store;
            MayGenerateCsr(l, c, s) && !InstalledIsHeld(l, c, KeyGenerated(l, c, s, key, request).store.disk)
  {
    hide Installed, KeyAt, KeyGenerated, OperationalIn;
    var s := Next(l, c, d, Promote(false)).store;
    FailedPromotion(l, c, d);
    assert l.pendingKey != "" by { HeldKeyHasAPlace(l, c, s.disk); }
    InstalledIsOperational(l, c, s);
    GenerationKeepsHeldExactly(l, c, s, key, request);
  }

  lemma HeldKeyHasAPlace(l: Layout, c: Crypto, disk: Disk)
    requires KeyAt(c, disk, l.pendingKey).Some?
    ensures l.pendingKey != ""
  {
  }
}
