/** Which interface each link-local IPv6 sender was heard on, in 32 slots (common/SimpleUDP6.cpp). */
module SenderCache {
  import opened Octets

  const MAX_REMEMBERED_SENDERS := 32

  type Address = Bytes

  predicate IsLinkLocal(a: Address) {
    |a| == 16 && a[0] == 0xFE && 0x80 <= a[1] < 0xC0
  }

  // ---------------------------------------------------------------------------
  // What the history of senders says should be remembered
  // ---------------------------------------------------------------------------

  /** One datagram's sender and the interface it came in on. */
  datatype Sender = Sender(address: Address, interfaceIndex: nat)

  /** Only a link-local sender on a known interface is remembered. */
  predicate Counts(s: Sender) { s.interfaceIndex != 0 && IsLinkLocal(s.address) }

  /** The newest 32. */
  function Newest(insertions: seq<Address>): (window: seq<Address>) {
    if |insertions| <= MAX_REMEMBERED_SENDERS then insertions else insertions[|insertions| - MAX_REMEMBERED_SENDERS..]
  }

  /** First in, first out: an address is inserted when it is not among the newest 32 insertions. */
  function Insertions(heard: seq<Sender>): (insertions: seq<Address>) {
    if heard == [] then []
    else
      var before, last := Insertions(heard[..|heard| - 1]), heard[|heard| - 1];
      if !Counts(last) || last.address in Newest(before) then before else before + [last.address]
  }

  /** An unbounded map's answer: the interface the address was last heard on. */
  function LastInterface(heard: seq<Sender>, a: Address): (r: Option<nat>) {
    if heard == [] then None
    else
      var last := heard[|heard| - 1];
      if Counts(last) && last.address == a then Some(last.interfaceIndex) else LastInterface(heard[..|heard| - 1], a)
  }

  /** A link-local address (fe80::/10) heard on a known interface: what is remembered, and nothing else. */
  predicate IsKept(s: Sender) {
    s.interfaceIndex != 0 && |s.address| == 16 && s.address[0] == 0xFE && s.address[1] as int / 0x40 == 2
  }

  /** Such a sender's address is among the newest 32 insertions right after it is heard, with its interface; any other
      changes nothing. */
  lemma HeardIsRemembered(heard: seq<Sender>, s: Sender)
    ensures var more := heard + [s];
      if IsKept(s)
      then
        && s.address in Newest(Insertions(more)) && LastInterface(more, s.address) == Some(s.interfaceIndex)
        && forall a :: a != s.address ==> LastInterface(more, a) == LastInterface(heard, a)
      else Insertions(more) == Insertions(heard) && forall a :: LastInterface(more, a) == LastInterface(heard, a)
  {
    Append(heard, s);
    if IsKept(s) && s.address !in Newest(Insertions(heard)) {
      NewestAppend(Insertions(heard), s.address);
    }
  }

  /** An address counts as new until 32 others have been inserted after it, and no longer. */
  lemma NewestAre32(insertions: seq<Address>, a: Address)
    ensures a in Newest(insertions) <==>
            exists k: nat :: k < |insertions| && |insertions| - k <= 32 && insertions[k] == a
  {
    if a in Newest(insertions) {
      var k := FromNewest(insertions, a);
      assert insertions[k] == a;
    }
    forall k: nat | k < |insertions| && |insertions| - k <= 32 && insertions[k] == a ensures a in Newest(insertions) {
      InNewest(insertions, k);
    }
  }

  predicate Distinct(addresses: seq<Address>) {
    forall i, j | 0 <= i < j < |addresses| :: addresses[i] != addresses[j]
  }

  /** No address is among the newest insertions twice. */
  lemma {:induction false} NewestAreDistinct(heard: seq<Sender>)
    ensures Distinct(Newest(Insertions(heard)))
  {
    hide Insertions, LastInterface;
    if heard == [] {
      NothingInserted();
    } else {
      var prefix, last := heard[..|heard| - 1], heard[|heard| - 1];
      NewestAreDistinct(prefix);
      assert heard == prefix + [last];
      Append(prefix, last);
      if last.address !in Newest(Insertions(prefix)) {
        OneMoreIsDistinct(Insertions(prefix), last.address);
      }
    }
  }

  lemma NothingInserted()
    ensures Insertions([]) == []
  {
  }

  lemma OneMoreIsDistinct(insertions: seq<Address>, a: Address)
    requires Distinct(Newest(insertions)) && a !in Newest(insertions)
    ensures Distinct(Newest(insertions + [a]))
  {
    hide Distinct;
    NewestAppend(insertions, a);
    var window := Newest(insertions);
    if |insertions| < MAX_REMEMBERED_SENDERS {
      assert window[0..] == insertions;
      DistinctExtends(window, 0, a);
    } else {
      DistinctExtends(window, 1, a);
    }
  }

  lemma DistinctExtends(s: seq<Address>, dropped: nat, a: Address)
    requires Distinct(s) && a !in s && dropped <= |s|
    ensures Distinct(s[dropped..] + [a])
  {
    var t := s[dropped..] + [a];
    forall i, j | 0 <= i < j < |t| ensures t[i] != t[j] {
      assert t[i] == s[i + dropped];
      if j < |s| - dropped { assert t[j] == s[j + dropped]; }
    }
  }

  lemma NewestAppend(insertions: seq<Address>, a: Address)
    ensures Newest(insertions + [a]) ==
            (if |insertions| < MAX_REMEMBERED_SENDERS then insertions else Newest(insertions)[1..]) + [a]
  {
  }

  /** Everything inserted has been heard. */
  lemma {:induction false} InsertedWasHeard(heard: seq<Sender>, a: Address)
    requires a in Insertions(heard)
    ensures LastInterface(heard, a).Some?
  {
    var last := heard[|heard| - 1];
    if !(Counts(last) && last.address == a) {
      InsertedWasHeard(heard[..|heard| - 1], a);
    }
  }

  // ---------------------------------------------------------------------------
  // Slots
  // ---------------------------------------------------------------------------

  /** The newest of the first `m` insertions that went into slot `i`. */
  function NewestIn(m: nat, i: nat): (k: int)
    requires m > 0
  {
    m - 1 - (m - 1 - i) % MAX_REMEMBERED_SENDERS
  }

  lemma NewestInWindow(m: nat, i: nat)
    requires i < m && i < MAX_REMEMBERED_SENDERS
    ensures 0 <= NewestIn(m, i) && m - MAX_REMEMBERED_SENDERS <= NewestIn(m, i) < m
    ensures NewestIn(m, i) % MAX_REMEMBERED_SENDERS == i
  {
  }

  lemma SlotOfNewest(m: nat, k: nat)
    requires m - MAX_REMEMBERED_SENDERS <= k < m
    ensures NewestIn(m, k % MAX_REMEMBERED_SENDERS) == k && k % MAX_REMEMBERED_SENDERS <= k
  {
    var i := k % MAX_REMEMBERED_SENDERS;
    assert (m - 1 - i) % MAX_REMEMBERED_SENDERS == m - 1 - k;
  }

  lemma NextInsertion(m: nat, i: nat)
    requires i < MAX_REMEMBERED_SENDERS
    ensures i == m % MAX_REMEMBERED_SENDERS ==> NewestIn(m + 1, i) == m
    ensures m > 0 && i != m % MAX_REMEMBERED_SENDERS ==> NewestIn(m + 1, i) == NewestIn(m, i)
  {
  }

  /** Two slots never hold the same address. */
  lemma DifferentSlots(heard: seq<Sender>, i: nat, j: nat)
    requires i < MAX_REMEMBERED_SENDERS && j < MAX_REMEMBERED_SENDERS && i != j
    requires i < |Insertions(heard)| && j < |Insertions(heard)|
    ensures var insertions := Insertions(heard); var m := |insertions|;
            && 0 <= NewestIn(m, i) < m && 0 <= NewestIn(m, j) < m
            && insertions[NewestIn(m, i)] != insertions[NewestIn(m, j)]
  {
    hide NewestIn, Insertions;
    var insertions := Insertions(heard);
    var m := |insertions|;
    NewestAreDistinct(heard);
    NewestInWindow(m, i);
    NewestInWindow(m, j);
    NewestAt(insertions, NewestIn(m, i));
    NewestAt(insertions, NewestIn(m, j));
  }

  lemma NewestAt(insertions: seq<Address>, k: nat)
    requires |insertions| - MAX_REMEMBERED_SENDERS <= k < |insertions|
    ensures var first := |insertions| - |Newest(insertions)|;
            first <= k && k - first < |Newest(insertions)| && Newest(insertions)[k - first] == insertions[k]
  {
  }

  datatype Slot = Slot(inUse: bool, address: Address, interfaceIndex: nat)

  class SimpleUDP6 {
    const senders: array<Slot>
    const joined: seq<nat>    // the interfaces the multicast group was joined on
    var nextSender: nat
    ghost var heard: seq<Sender>

    constructor (joined: seq<nat>)
      ensures Valid() && fresh(senders) && heard == [] && this.joined == joined
    {
      senders := new Slot[MAX_REMEMBERED_SENDERS](_ => Slot(false, [], 0));
      this.joined, nextSender, heard := joined, 0, [];
    }

    /** Slot `i` holds its newest insertion, with the interface its address was last heard on. */
    ghost predicate SlotHolds(i: nat)
      requires i < senders.Length
      reads this, senders
    {
      var insertions := Insertions(heard);
      var m := |insertions|;
      if i < m then
        0 <= NewestIn(m, i) < m &&
        senders[i] == Slot(true, insertions[NewestIn(m, i)], Known(heard, insertions[NewestIn(m, i)]))
      else !senders[i].inUse
    }

    ghost predicate Valid()
      reads this, senders
    {
      && senders.Length == MAX_REMEMBERED_SENDERS
      && nextSender == |Insertions(heard)| % MAX_REMEMBERED_SENDERS
      && forall i | 0 <= i < MAX_REMEMBERED_SENDERS :: SlotHolds(i)
    }

    /** The slot that holds `a`, if any: exactly when `a` is among the newest insertions. */
    method FindSender(a: Address) returns (r: Option<nat>)
      requires Valid()
      ensures r.Some? <==> a in Newest(Insertions(heard))
      ensures r.Some? ==> r.value < senders.Length && senders[r.value].inUse && senders[r.value].address == a
    {
      ghost var insertions := Insertions(heard);
      ghost var m := |insertions|;
      for index := 0 to MAX_REMEMBERED_SENDERS
        invariant forall i | 0 <= i < index :: !(senders[i].inUse && senders[i].address == a)
      {
        if senders[index].inUse && senders[index].address == a {
          assert SlotHolds(index);
          NewestInWindow(m, index);
          InNewest(insertions, NewestIn(m, index));
          return Some(index);
        }
      }
      NewestIsHeld(a);
      return None;
    }

    lemma NewestIsHeld(a: Address)
      requires Valid()
      ensures a in Newest(Insertions(heard)) ==>
                exists i | 0 <= i < senders.Length :: senders[i].inUse && senders[i].address == a
    {
      var insertions := Insertions(heard);
      if a in Newest(insertions) {
        var k := FromNewest(insertions, a);
        SlotOfNewest(|insertions|, k);
        assert SlotHolds(k % MAX_REMEMBERED_SENDERS);
      }
    }

    method RememberSender(a: Address, interfaceIndex: nat)
      requires Valid()
      modifies this, senders
      ensures Valid() && heard == old(heard) + [Sender(a, interfaceIndex)]
    {
      hide NewestIn, Insertions, LastInterface, Newest;
      ghost var sender, before := Sender(a, interfaceIndex), heard;
      Append(before, sender);
      if interfaceIndex == 0 || !IsLinkLocal(a) {
        heard := heard + [sender];
        forall i | 0 <= i < MAX_REMEMBERED_SENDERS ensures SlotHolds(i) {
          assert old(SlotHolds(i));
          var insertions := Insertions(before);
          if i < |insertions| {
            var a := insertions[NewestIn(|insertions|, i)];
            assert LastInterface(heard, a) == LastInterface(before, a);
          }
        }
        return;
      }
      var found := FindSender(a);
      ghost var insertions := Insertions(heard);
      ghost var m := |insertions|;
      heard := heard + [sender];
      if found.Some? {
        var slot := found.value;
        senders[slot] := senders[slot].(interfaceIndex := interfaceIndex);
        assert old(SlotHolds(slot));
        forall i | 0 <= i < MAX_REMEMBERED_SENDERS ensures SlotHolds(i) {
          assert old(SlotHolds(i));
          if i != slot && i < m { DifferentSlots(before, i, slot); }
        }
      } else {
        var slot := nextSender;
        nextSender := (nextSender + 1) % MAX_REMEMBERED_SENDERS;
        senders[slot] := Slot(true, a, interfaceIndex);
        forall i | 0 <= i < MAX_REMEMBERED_SENDERS ensures SlotHolds(i) {
          assert old(SlotHolds(i));
          NextInsertion(m, i);
          if i < m && i != slot { NewestInWindow(m, i); InNewest(insertions, NewestIn(m, i)); }
        }
      }
    }

    /** Agrees with an unbounded map on the newest 32 insertions, and falls back on the first joined interface
        for every other address. */
    method InterfaceOf(a: Address) returns (r: nat)
      requires Valid()
      ensures a in Newest(Insertions(heard)) ==> Some(r) == LastInterface(heard, a)
      ensures a !in Newest(Insertions(heard)) ==> r == if joined == [] then 0 else joined[0]
    {
      var found := FindSender(a);
      if found.Some? {
        assert SlotHolds(found.value);
        InsertedWasHeard(heard, a);
        return senders[found.value].interfaceIndex;
      }
      return if joined == [] then 0 else joined[0];
    }
  }

  ghost function Known(heard: seq<Sender>, a: Address): nat {
    if LastInterface(heard, a).Some? then LastInterface(heard, a).value else 0
  }

  lemma Append(heard: seq<Sender>, s: Sender)
    ensures Insertions(heard + [s]) ==
            if !Counts(s) || s.address in Newest(Insertions(heard)) then Insertions(heard)
                else Insertions(heard) + [s.address]
    ensures forall a :: LastInterface(heard + [s], a) ==
                        if Counts(s) && s.address == a then Some(s.interfaceIndex) else LastInterface(heard, a)
  {
    assert (heard + [s])[..|heard|] == heard;
  }

  lemma InNewest(insertions: seq<Address>, k: nat)
    requires |insertions| - MAX_REMEMBERED_SENDERS <= k < |insertions|
    ensures insertions[k] in Newest(insertions)
  {
    if |insertions| > MAX_REMEMBERED_SENDERS {
      assert Newest(insertions)[k - (|insertions| - MAX_REMEMBERED_SENDERS)] == insertions[k];
    }
  }

  lemma FromNewest(insertions: seq<Address>, a: Address) returns (k: nat)
    requires a in Newest(insertions)
    ensures |insertions| - MAX_REMEMBERED_SENDERS <= k < |insertions| && insertions[k] == a
  {
    var window := Newest(insertions);
    var j :| 0 <= j < |window| && window[j] == a;
    k := |insertions| - |window| + j;
  }
}
