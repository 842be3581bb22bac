/** When a commit that fails leaves the files as they were (sc/cert_store.cpp, sc/ScNode.cpp). */
module CertRefusal {
  import opened Octets
  import opened CertFiles
  import opened CertSteps

  /** A commit that stopped: something is still staged, or the promotion still due. */
  predicate Refused(d: Device) { d.task == Idle && (d.store.staged != map[] || d.store.promotes) }

  /** How many of the files a refused commit can have put in place: with a promotion left to fail all of them,
      without one all but the last. */
  function MayBePlaced(s: Store, order: seq<nat>): (n: nat) {
    if s.promotes || order == [] then |order| else |order| - 1
  }

  /** Those of them that were staged unchanged make no difference. */
  predicate RefusesQuietly(l: Layout, s: Store, order: seq<nat>)
    requires s.staged.Keys <= l.paths.Keys
  {
    forall i | 0 <= i < MayBePlaced(s, order) && order[i] in s.staged ::
      FromDisk(s.disk, l.paths[order[i]]) == Some(s.staged[order[i]])
  }

  // ---------------------------------------------------------------------------
  // Quiet refusals
  // ---------------------------------------------------------------------------

  /** As long as the commit can still be refused, every managed file is as it was. */
  predicate IsQuiet(l: Layout, s: Store, order: seq<nat>, d: Device)
    requires l.WellFormed()
  {
    && Orderly(l, d)
    && match d.task
       case Preparing(o, _) =>
         o == order && d.store == s.(disk := d.store.disk) && SameManaged(l, s.disk, d.store.disk)
       case Replacing(o, _) =>
         o == order && d.store == s.(disk := d.store.disk) && SameManaged(l, s.disk, d.store.disk)
       case Promoting => d.store.promotes && SameManaged(l, s.disk, d.store.disk)
       case Idle => Refused(d) ==> SameManaged(l, s.disk, d.store.disk)
       case _ => false
  }

  lemma SameManagedReflexive(l: Layout, a: Disk)
    ensures SameManaged(l, a, a)
  {
  }

  lemma SameManagedTransitive(l: Layout, a: Disk, b: Disk, e: Disk)
    requires SameManaged(l, a, b) && SameManaged(l, b, e)
    ensures SameManaged(l, a, e)
  {
  }

  /** A rename of an unchanged file changes no managed file. */
  lemma UnchangedRename(l: Layout, c: Crypto, s: Store, t: Store, i: nat)
    requires l.WellFormed() && i in s.staged && i in l.paths
    requires FromDisk(s.disk, Tmp(l.paths[i])) == Some(s.staged[i])
    requires FromDisk(s.disk, l.paths[i]) == Some(s.staged[i])
    requires t == s.(disk := Replaced(s.disk, l.paths[i]))
    ensures SameManaged(l, s.disk, t.disk)
  {
    hide Validated, SameReads, KeyAt;
    ReplaceKeepsFacts(l, c, s, t, i);
    ManagedPaths(l, i);
  }

  lemma QuietStep(l: Layout, c: Crypto, s: Store, order: seq<nat>, d: Device, e: Event)
    requires l.WellFormed() && s.staged.Keys <= l.paths.Keys && RefusesQuietly(l, s, order)
    requires IsQuiet(l, s, order, d) && IsCommitStep(e)
    ensures IsQuiet(l, s, order, Next(l, c, d, e))
  {
    hide SameManaged, Placed, RefusesQuietly, SameReads;
    if e.TempWrite? && d.task.Preparing? {
      PreparingStep(l, d, e.ok);
      SameManagedTransitive(l, s.disk, d.store.disk, Next(l, c, d, e).store.disk);
    } else if e.Rename? && d.task.Replacing? {
      ReplacingStep(l, c, d, e.ok);
      if e.ok {
        QuietRename(l, c, s, order, d);
      }
    } else if e.Promote? && d.task.Promoting? {
      PromotingStep(l, c, d, e.ok);
    }
  }

  lemma QuietRename(l: Layout, c: Crypto, s: Store, order: seq<nat>, d: Device)
    requires l.WellFormed() && s.staged.Keys <= l.paths.Keys && RefusesQuietly(l, s, order)
    requires IsQuiet(l, s, order, d) && d.task.Replacing?
    ensures var f := Next(l, c, d, Rename(true));
            f.task.Replacing? || f.task.Promoting? || Refused(f) ==> SameManaged(l, s.disk, f.store.disk)
  {
    hide SameManaged, SameReads, Validated;
    var i, f := order[d.task.done], Next(l, c, d, Rename(true));
    assert i in d.store.staged && FromDisk(d.store.disk, Tmp(l.OwnPath(i))) == Some(d.store.staged[i]);
    if d.task.done < MayBePlaced(s, order) {
      assert FromDisk(s.disk, l.paths[i]) == Some(s.staged[i]);
      SameManagedPath(l, s.disk, d.store.disk, i);
      UnchangedRename(l, c, d.store, d.store.(disk := Replaced(d.store.disk, l.paths[i])), i);
      SameManagedTransitive(l, s.disk, d.store.disk, f.store.disk);
    }
  }

  lemma SameManagedPath(l: Layout, a: Disk, b: Disk, i: nat)
    requires l.WellFormed() && i in l.paths && SameManaged(l, a, b)
    ensures FromDisk(a, l.paths[i]) == FromDisk(b, l.paths[i])
  {
    ManagedPaths(l, i);
  }

  lemma DifferentManaged(l: Layout, a: Disk, b: Disk, i: nat)
    requires l.WellFormed() && i in l.paths && FromDisk(a, l.paths[i]) != FromDisk(b, l.paths[i])
    ensures !SameManaged(l, a, b)
  {
    ManagedPaths(l, i);
  }

  lemma {:induction false} QuietRun(l: Layout, c: Crypto, s: Store, order: seq<nat>, events: seq<Event>)
    requires l.WellFormed() && s.staged.Keys <= l.paths.Keys && order != [] && Enumerates(order, s.staged.Keys)
    requires RefusesQuietly(l, s, order) && CommitSteps(events)
    ensures IsQuiet(l, s, order, Run(l, c, Device(s, Preparing(order, 0)), events))
  {
    hide Next, RefusesQuietly, IsQuiet;
    if events == [] {
      StartsQuiet(l, s, order);
    } else {
      var prefix, last := events[..|events| - 1], events[|events| - 1];
      QuietRun(l, c, s, order, prefix);
      QuietStep(l, c, s, order, Run(l, c, Device(s, Preparing(order, 0)), prefix), last);
    }
  }

  lemma StartsQuiet(l: Layout, s: Store, order: seq<nat>)
    requires l.WellFormed() && s.staged.Keys <= l.paths.Keys && order != [] && Enumerates(order, s.staged.Keys)
    ensures IsQuiet(l, s, order, Device(s, Preparing(order, 0)))
  {
  }

  // ---------------------------------------------------------------------------
  // Refusals that change a file
  // ---------------------------------------------------------------------------

  /** Every temporary file is written. */
  lemma {:induction false} AllWritten(l: Layout, c: Crypto, s: Store, order: seq<nat>, n: nat)
      returns (events: seq<Event>)
    requires l.WellFormed() && s.staged.Keys <= l.paths.Keys && order != [] && Enumerates(order, s.staged.Keys)
    requires n <= |order|
    ensures CommitSteps(events)
    ensures var d := Run(l, c, Device(s, Preparing(order, 0)), events);
            && Orderly(l, d) && d.store == s.(disk := d.store.disk)
            && d.task == if n == |order| then Replacing(order, 0) else Preparing(order, n)
  {
    hide Orderly, SameManaged;
    var start := Device(s, Preparing(order, 0));
    if n == 0 {
      events := [];
      StartsQuiet(l, s, order);
      QuietIsOrderly(l, s, order, start);
    } else {
      var before := AllWritten(l, c, s, order, n - 1);
      var d := Run(l, c, start, before);
      PreparingStep(l, d, true);
      StagedAt(l, s, order, n - 1);
      events := before + [TempWrite(true)];
      RunExtends(l, c, start, before, TempWrite(true));
    }
  }

  lemma QuietIsOrderly(l: Layout, s: Store, order: seq<nat>, d: Device)
    requires l.WellFormed() && IsQuiet(l, s, order, d)
    ensures Orderly(l, d)
  {
  }

  lemma StagedAt(l: Layout, s: Store, order: seq<nat>, i: nat)
    requires s.staged.Keys <= l.paths.Keys && Enumerates(order, s.staged.Keys) && i < |order|
    ensures order[i] in s.staged && order[i] in l.paths
  {
  }

  /** And the first `n` of them renamed. */
  lemma {:induction false} SomePlaced(l: Layout, c: Crypto, s: Store, order: seq<nat>, n: nat)
      returns (events: seq<Event>)
    requires l.WellFormed() && s.staged.Keys <= l.paths.Keys && order != [] && Enumerates(order, s.staged.Keys)
    requires n < |order|
    ensures CommitSteps(events)
    ensures var d := Run(l, c, Device(s, Preparing(order, 0)), events);
            Orderly(l, d) && d.store == s.(disk := d.store.disk) && d.task == Replacing(order, n)
  {
    hide Orderly, SameReads, Placed, OnCourse, InstalledIsHeld, InstalledIsCurrent;
    var start := Device(s, Preparing(order, 0));
    if n == 0 {
      events := AllWritten(l, c, s, order, |order|);
    } else {
      var before := SomePlaced(l, c, s, order, n - 1);
      var d := Run(l, c, start, before);
      ReplacingStep(l, c, d, true);
      events := before + [Rename(true)];
      RunExtends(l, c, start, before, Rename(true));
    }
  }

  /** A refused commit that has put file number `i` of the order in place. */
  lemma PlacedAndRefused(l: Layout, c: Crypto, s: Store, order: seq<nat>, i: nat) returns (events: seq<Event>)
    requires l.WellFormed() && s.staged.Keys <= l.paths.Keys && order != [] && Enumerates(order, s.staged.Keys)
    requires i < MayBePlaced(s, order)
    ensures CommitSteps(events)
    ensures var d := Run(l, c, Device(s, Preparing(order, 0)), events);
            && Refused(d) && order[i] in s.staged
            && FromDisk(d.store.disk, l.OwnPath(order[i])) == Some(s.staged[order[i]])
  {
    hide Orderly, Next, Refused, Run;
    var start := Device(s, Preparing(order, 0));
    StagedAt(l, s, order, i);
    if i + 1 < |order| {
      var before := SomePlaced(l, c, s, order, i + 1);
      FailedRename(l, c, s, order, i, Run(l, c, start, before));
      events := before + [Rename(false)];
      RunExtends(l, c, start, before, Rename(false));
    } else {
      var before := SomePlaced(l, c, s, order, i);
      FailedSwap(l, c, s, order, i, Run(l, c, start, before));
      var renamed := before + [Rename(true)];
      RunExtends(l, c, start, before, Rename(true));
      events := renamed + [Promote(false)];
      RunExtends(l, c, start, renamed, Promote(false));
    }
  }

  /** The rename after that of file number `i` fails. */
  lemma FailedRename(l: Layout, c: Crypto, s: Store, order: seq<nat>, i: nat, d: Device)
    requires l.WellFormed() && i + 1 < |order| && order[i] in s.staged
    requires Orderly(l, d) && d.store == s.(disk := d.store.disk) && d.task == Replacing(order, i + 1)
    ensures var f := Next(l, c, d, Rename(false));
            Refused(f) && FromDisk(f.store.disk, l.OwnPath(order[i])) == Some(s.staged[order[i]])
  {
    assert order[i] in d.store.staged;
  }

  /** The last file is placed, and the promotion fails. */
  lemma FailedSwap(l: Layout, c: Crypto, s: Store, order: seq<nat>, i: nat, d: Device)
    requires l.WellFormed() && i + 1 == |order| && order[i] in s.staged && s.promotes
    requires Orderly(l, d) && d.store == s.(disk := d.store.disk) && d.task == Replacing(order, i)
    ensures var f := Next(l, c, Next(l, c, d, Rename(true)), Promote(false));
            Refused(f) && FromDisk(f.store.disk, l.OwnPath(order[i])) == Some(s.staged[order[i]])
  {
    hide SameReads, OnCourse, InstalledIsHeld, InstalledIsCurrent, Orderly;
    ReplacingStep(l, c, d, true);
  }

  /** A commit that fails is sure to leave every managed file as it was exactly when every file it can have put in
      place by then was staged as it is on disk: with several files staged, or a promotion due, "nothing changed"
      is not the whole truth. */
  lemma RefusalQuietExactly(l: Layout, c: Crypto, s: Store, order: seq<nat>)
    requires l.WellFormed() && s.staged.Keys <= l.paths.Keys && order != [] && Enumerates(order, s.staged.Keys)
    ensures RefusesQuietly(l, s, order) <==>
              forall events | CommitSteps(events) && Refused(Run(l, c, Device(s, Preparing(order, 0)), events)) ::
                SameManaged(l, s.disk, Run(l, c, Device(s, Preparing(order, 0)), events).store.disk)
  {
    hide Run, CommitSteps, SameManaged;
    var start := Device(s, Preparing(order, 0));
    if RefusesQuietly(l, s, order) {
      forall events | CommitSteps(events) && Refused(Run(l, c, start, events))
        ensures SameManaged(l, s.disk, Run(l, c, start, events).store.disk)
      {
        QuietRun(l, c, s, order, events);
      }
    } else {
      var i :| 0 <= i < MayBePlaced(s, order) && order[i] in s.staged &&
        FromDisk(s.disk, l.paths[order[i]]) != Some(s.staged[order[i]]);
      var events := PlacedAndRefused(l, c, s, order, i);
      var disk := Run(l, c, start, events).store.disk;
      DifferentManaged(l, s.disk, disk, order[i]);
    }
  }

  /** One staged file and no promotion: a refusal changes nothing. */
  lemma LoneFileRefusesQuietly(l: Layout, s: Store, order: seq<nat>)
    requires s.staged.Keys <= l.paths.Keys && |order| == 1 && !s.promotes
    ensures RefusesQuietly(l, s, order)
  {
  }
}
