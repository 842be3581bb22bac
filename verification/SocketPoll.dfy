/** The round-robin poll over the bound UDP sockets (common/CASExampleHelper.cpp, HelperReceiveMessage). */
module SocketPoll {
  import opened Octets

  /** Who is polled on one call: binding `i` gives a datagram when it is bound and its queue is not empty. */
  type Waiting = seq<bool>

  /** The first waiting binding from `start` on, going round once; `k` places are behind us already. */
  function FirstWaiting(waiting: Waiting, start: nat, k: nat): (r: Option<nat>)
    requires start < |waiting| && k <= |waiting|
    ensures r.Some? ==> r.value < |waiting| && waiting[r.value]
    decreases |waiting| - k
  {
    if k == |waiting| then None
    else
      var i := (start + k) % |waiting|;
      if waiting[i] then Some(i) else FirstWaiting(waiting, start, k + 1)
  }

  /** Where the next call starts: after the binding served, or one further when none was. */
  function NextStart(waiting: Waiting, start: nat): (next: nat)
    requires start < |waiting|
    ensures next < |waiting|
  {
    var served := FirstWaiting(waiting, start, 0);
    ((if served.Some? then served.value else start) + 1) % |waiting|
  }

  /** How many places round the ring `i` is from `start`. */
  function Distance(start: nat, i: nat, n: nat): (d: nat)
    requires start < n && i < n
    ensures d < n
  {
    if start <= i then i - start else i + n - start
  }

  class Helper {
    var bound: seq<bool>
    var nextBindingToCheck: nat

    constructor (bound: seq<bool>)
      ensures this.bound == bound && nextBindingToCheck == 0
    {
      this.bound, nextBindingToCheck := bound, 0;
    }

    predicate Valid()
      reads this
    {
      bound != [] ==> nextBindingToCheck < |bound|
    }

    /** `queued` says which sockets have a datagram; the answer is the binding whose datagram was taken. */
    method ReceiveMessage(queued: seq<bool>) returns (served: Option<nat>)
      requires Valid() && |queued| == |bound|
      modifies this`nextBindingToCheck
      ensures Valid()
      ensures bound == [] ==> served == None && nextBindingToCheck == old(nextBindingToCheck)
      ensures bound != [] ==>
                var waiting := Ready(bound, queued);
                && served == FirstWaiting(waiting, old(nextBindingToCheck), 0)
                && nextBindingToCheck == NextStart(waiting, old(nextBindingToCheck))
    {
      if bound == [] {
        return None;
      }
      var n := |bound|;
      ghost var waiting := Ready(bound, queued);
      for k := 0 to n
        invariant nextBindingToCheck == old(nextBindingToCheck)
        invariant FirstWaiting(waiting, nextBindingToCheck, 0) == FirstWaiting(waiting, nextBindingToCheck, k)
      {
        var i := (nextBindingToCheck + k) % n;
        if bound[i] && queued[i] {
          nextBindingToCheck := (i + 1) % n;
          return Some(i);
        }
      }
      nextBindingToCheck := (nextBindingToCheck + 1) % n;
      return None;
    }
  }

  function Ready(bound: seq<bool>, queued: seq<bool>): (waiting: Waiting)
    requires |queued| == |bound|
    ensures |waiting| == |bound| && forall i | 0 <= i < |bound| :: waiting[i] == (bound[i] && queued[i])
  {
    seq(|bound|, i requires 0 <= i < |bound| => bound[i] && queued[i])
  }

  // ---------------------------------------------------------------------------
  // Nobody starves
  // ---------------------------------------------------------------------------

  lemma DistanceAhead(start: nat, i: nat, n: nat)
    requires start < n && i < n
    ensures (start + Distance(start, i, n)) % n == i
  {
    if start > i { assert (i + n) % n == i by { RoundOnce(i, n); } }
  }

  lemma RoundOnce(i: nat, n: nat)
    requires i < n
    ensures (i + n) % n == i
  {
    assert (i + n) == n * 1 + i;
  }

  /** The one served is no further round than any that waits. */
  lemma {:induction false} FirstIsNearest(waiting: Waiting, start: nat, k: nat, i: nat)
    requires start < |waiting| && i < |waiting| && waiting[i] && k <= Distance(start, i, |waiting|)
    ensures FirstWaiting(waiting, start, k).Some?
    ensures k <= Distance(start, FirstWaiting(waiting, start, k).value, |waiting|) <= Distance(start, i, |waiting|)
    decreases |waiting| - k
  {
    var n := |waiting|;
    var at := (start + k) % n;
    DistanceAhead(start, i, n);
    PlaceAt(start, k, n);
    if !waiting[at] {
      FirstIsNearest(waiting, start, k + 1, i);
    }
  }

  lemma PlaceAt(start: nat, k: nat, n: nat)
    requires start < n && k < n
    ensures Distance(start, (start + k) % n, n) == k
  {
    if start + k >= n { RoundOnce(start + k - n, n); }
  }

  /** A call that serves another binding brings the start strictly nearer to a waiting one. */
  lemma DistanceDecreases(waiting: Waiting, start: nat, i: nat)
    requires start < |waiting| && i < |waiting| && waiting[i] && FirstWaiting(waiting, start, 0) != Some(i)
    ensures FirstWaiting(waiting, start, 0).Some?
    ensures Distance(NextStart(waiting, start), i, |waiting|) < Distance(start, i, |waiting|)
  {
    hide Distance;
    FirstIsNearest(waiting, start, 0, i);
    var served := FirstWaiting(waiting, start, 0).value;
    NextPlace(served, |waiting|);
    Nearer(start, served, i, |waiting|);
  }

  lemma NextPlace(i: nat, n: nat)
    requires i < n
    ensures (i + 1) % n == if i + 1 < n then i + 1 else 0
  {
  }

  lemma Nearer(start: nat, served: nat, i: nat, n: nat)
    requires start < n && served < n && i < n && served != i && Distance(start, served, n) <= Distance(start, i, n)
    ensures Distance(if served + 1 < n then served + 1 else 0, i, n) < Distance(start, i, n)
  {
  }

  /** The start after `k` calls. */
  function StartAfter(calls: seq<Waiting>, start: nat, n: nat, k: nat): (s: nat)
    requires start < n && k <= |calls| && forall j | 0 <= j < |calls| :: |calls[j]| == n
    ensures s < n
  {
    if k == 0 then start else NextStart(calls[k - 1], StartAfter(calls, start, n, k - 1))
  }

  predicate ServedAt(calls: seq<Waiting>, start: nat, n: nat, k: nat, i: nat)
    requires start < n && k < |calls| && forall j | 0 <= j < |calls| :: |calls[j]| == n
  {
    FirstWaiting(calls[k], StartAfter(calls, start, n, k), 0) == Some(i)
  }

  /** With n sockets, one that stays waiting is served within n calls, whatever the others' traffic. */
  lemma ServedWithinN(calls: seq<Waiting>, start: nat, n: nat, i: nat)
    requires start < n && i < n && |calls| == n
    requires forall j | 0 <= j < n :: |calls[j]| == n && calls[j][i]
    ensures exists k | 0 <= k < n :: ServedAt(calls, start, n, k, i)
  {
    if forall k | 0 <= k < n :: !ServedAt(calls, start, n, k, i) {
      NotServedNearer(calls, start, n, i, n);
    }
  }

  lemma {:induction false} NotServedNearer(calls: seq<Waiting>, start: nat, n: nat, i: nat, k: nat)
    requires start < n && i < n && k <= |calls| == n
    requires forall j | 0 <= j < n :: |calls[j]| == n && calls[j][i]
    requires forall j | 0 <= j < n :: !ServedAt(calls, start, n, j, i)
    ensures Distance(StartAfter(calls, start, n, k), i, n) + k <= Distance(start, i, n)
  {
    if k > 0 {
      NotServedNearer(calls, start, n, i, k - 1);
      assert !ServedAt(calls, start, n, k - 1, i);
      DistanceDecreases(calls[k - 1], StartAfter(calls, start, n, k - 1), i);
    }
  }
}
