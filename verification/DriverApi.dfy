/** The resources a driver holds: kernel/DriverApi.cpp. Lists are sequences, changed by the functions that
    module PodArray proves its operations to compute on an array. */
module DriverApi {
  import opened Lists
  import opened Maths
  import opened PodArray
  import opened Ranges

  datatype State = Inactive | Active | Failed

  /** Everything one driver holds. Devices and ports are named by number. */
  datatype Holdings = Holdings(state: State, memory: seq<MemoryRange>, devices: seq<nat>, ports: seq<nat>)

  /** The first range of the list is wholly inside [start, end): the case unsubscribe_memory gets wrong. */
  ghost predicate FirstCovered(s: seq<MemoryRange>, start: nat, end: nat) {
    s != [] && s[0].start < end && s[0].end > start && start <= s[0].start && s[0].end <= end
  }

  class DriverApi {
    var state: State
    var subscribedMemory: seq<MemoryRange>
    var subscribedPciDevices: seq<nat>
    var subscribedIoPorts: seq<nat>

    ghost predicate Valid()
      reads this
    {
      Ordered(0, subscribedMemory)
    }

    ghost function Held(): Holdings
      reads this
    {
      Holdings(state, subscribedMemory, subscribedPciDevices, subscribedIoPorts)
    }

    constructor ()
      ensures Valid() && Held() == Holdings(Inactive, [], [], [])
    {
      state, subscribedMemory, subscribedPciDevices, subscribedIoPorts := Inactive, [], [], [];
    }

    // ------------------------------------------------------------- memory

    method IsSubscribedToMemory(start: nat, size: nat) returns (found: bool)
      requires Valid()
      ensures found <==> Meets(subscribedMemory, start, start + size)
    {
      var end := start + size;
      var i := 0;
      while i < |subscribedMemory|
        invariant 0 <= i <= |subscribedMemory|
        invariant forall j | 0 <= j < i :: subscribedMemory[j].end <= start
      {
        var subscribed := subscribedMemory[i];
        if subscribed.start >= end {
          break;
        }
        if subscribed.end <= start {
          i := i + 1;
          continue;
        }
        return true;
      }
      found := false;
    }

    /** The second half of subscribe_memory: put [start, end) into the list, merging what it touches. */
    method AddRange(start: nat, end: nat)
      requires Valid() && start <= end
      modifies this`subscribedMemory
      ensures Valid() && Bytes(subscribedMemory) == old(Bytes(subscribedMemory)) + Span(start, end)
      ensures old(Canonical(subscribedMemory)) && start < end ==> Canonical(subscribedMemory)
    {
      ghost var s := subscribedMemory;
      ghost var gap: nat := if Canonical(s) && start < end then 1 else 0;
      var i: nat := 0;
      while i < |subscribedMemory|
        invariant i <= |subscribedMemory| && subscribedMemory == s
        invariant forall j | 0 <= j < i :: s[j].end < start
      {
        if subscribedMemory[i].start > end {
          InsertFacts(gap, s, i, start, end);
          subscribedMemory := With(subscribedMemory, i, MemoryRange(start, end));
          return;
        }
        if subscribedMemory[i].end < start {
          i := i + 1;
          continue;
        }
        GrowRange(i, start, end, gap);
        return;
      }
      InsertFacts(gap, s, i, start, end);
      assert s[..i] + [MemoryRange(start, end)] + s[i..] == s + [MemoryRange(start, end)];
      subscribedMemory := subscribedMemory + [MemoryRange(start, end)];
    }

    /** Range i is the first that [start, end) touches: grow it, and let it swallow its successors. */
    method GrowRange(i: nat, start: nat, end: nat, ghost gap: nat)
      requires gap <= 1 && Ordered(gap, subscribedMemory) && start + gap <= end && i < |subscribedMemory|
      requires forall j | 0 <= j < i :: subscribedMemory[j].end < start
      requires subscribedMemory[i].start <= end && start <= subscribedMemory[i].end
      modifies this`subscribedMemory
      ensures Ordered(gap, subscribedMemory)
      ensures Bytes(subscribedMemory) == old(Bytes(subscribedMemory)) + Span(start, end)
    {
      ghost var s, k := subscribedMemory, i + 1;
      if start < subscribedMemory[i].start {
        subscribedMemory := subscribedMemory[i := subscribedMemory[i].(start := start)];
      }
      if end > subscribedMemory[i].end {
        subscribedMemory := subscribedMemory[i := subscribedMemory[i].(end := end)];
        GrownFirst(s, i, start, end);
        assert EndsAscend(s);
        k := SwallowFollowers(s, i, start, end);
      } else {
        GrownFirst(s, i, start, end);
      }
      MergeFacts(gap, s, i, k, start, end);
    }

    method SwallowFollowers(ghost s: seq<MemoryRange>, i: nat, ghost start: nat, end: nat) returns (ghost k: nat)
      requires EndsAscend(s) && i < |s| && s[i].start <= end && subscribedMemory == Grown(s, i, i + 1, start, end)
      modifies this`subscribedMemory
      ensures i < k <= |s| && s[k - 1].start <= end && subscribedMemory == Grown(s, i, k, start, end)
      ensures k < |s| ==> s[k].start > end
    {
      k := i + 1;
      GrownFacts(s, i, k, start, end);
      while i + 1 < |subscribedMemory| && subscribedMemory[i + 1].start <= end
        invariant i < k <= |s| && s[k - 1].start <= end && subscribedMemory == Grown(s, i, k, start, end)
        invariant |subscribedMemory| == i + 1 + |s| - k && (k < |s| ==> subscribedMemory[i + 1] == s[k])
        decreases |s| - k
      {
        SwallowNext(s, i, k, start, end);
        k := k + 1;
      }
    }

    method SwallowNext(ghost s: seq<MemoryRange>, i: nat, ghost k: nat, ghost start: nat, ghost end: nat)
      requires i < k < |s| && EndsRise(s, k) && subscribedMemory == Grown(s, i, k, start, end)
      requires i + 1 < |subscribedMemory|
      modifies this`subscribedMemory
      ensures subscribedMemory == Swallowed(old(subscribedMemory), i) == Grown(s, i, k + 1, start, end)
      ensures |subscribedMemory| == i + |s| - k && (k + 1 < |s| ==> subscribedMemory[i + 1] == s[k + 1])
    {
      SwallowStep(s, i, k, start, end);
      GrownFacts(s, i, k + 1, start, end);
      var swollen := Max(subscribedMemory[i].end, subscribedMemory[i + 1].end);
      subscribedMemory := subscribedMemory[i := subscribedMemory[i].(end := swollen)];
      subscribedMemory := Removed(subscribedMemory, i + 1);
    }

    /** One overlapped range: drop it when it is covered (the next one then takes its place), and
        otherwise keep its left half, its right half or both. */
    method CutRange(i: nat, start: nat, end: nat) returns (next: nat)
      requires i < |subscribedMemory| && subscribedMemory[i].start < end && subscribedMemory[i].end > start
      modifies this`subscribedMemory
      ensures if Covered(old(subscribedMemory)[i], start, end)
        then next == i && subscribedMemory == Removed(old(subscribedMemory), i)
        else next == i + 1 && subscribedMemory == CutAt(old(subscribedMemory), i, start, end)
    {
      var subscribed := subscribedMemory[i];
      if subscribed.start >= start && subscribed.end <= end {
        subscribedMemory := Removed(subscribedMemory, i);
        return i;
      } else if start > subscribed.start {
        subscribedMemory := subscribedMemory[i := subscribed.(end := start)];
        if subscribed.end > end {
          subscribedMemory := With(subscribedMemory, i + 1, MemoryRange(end, subscribed.end));
        }
      } else if end < subscribed.end {
        subscribedMemory := subscribedMemory[i := subscribed.(start := end)];
      }
      next := i + 1;
    }

    method UnsubscribeRange(i: nat, start: nat, end: nat, ghost gap: nat, ghost s: seq<MemoryRange>, ghost k: nat)
      returns (next: nat)
      requires i < |subscribedMemory| && subscribedMemory[i].start < end && subscribedMemory[i].end > start
      requires gap <= 1 && start + gap <= end && Unsubscribing(gap, s, subscribedMemory, i, k, start, end)
      modifies this`subscribedMemory
      ensures Unsubscribing(gap, s, subscribedMemory, next, k + 1, start, end)
      ensures |subscribedMemory| - next < |old(subscribedMemory)| - i
        || (|subscribedMemory| - next == |old(subscribedMemory)| - i
          && next < |subscribedMemory| && subscribedMemory[next].start >= end)
    {
      if Covered(subscribedMemory[i], start, end) {
        DropStep(gap, s, subscribedMemory, i, k, start, end);
      } else {
        CutInPlace(gap, s, subscribedMemory, i, k, start, end);
      }
      next := CutRange(i, start, end);
    }

    /** unsubscribe_memory. The covered first range is where PodArray's remove keeps the wrong element. */
    method UnsubscribeMemory(start: nat, size: nat)
      requires Valid()
      modifies this`subscribedMemory
      ensures Valid() && Unsubscribed(old(subscribedMemory), subscribedMemory, start, start + size)
    {
      ghost var s := subscribedMemory;
      ghost var gap: nat := if Canonical(s) && size > 0 then 1 else 0;
      UnsubscribeBegins(gap, s, start, start + size);
      var i, k := CutRanges(start, start + size, gap);
      UnsubscribeEnds(gap, s, subscribedMemory, i, k, start, start + size);
    }

    method CutRanges(start: nat, end: nat, ghost gap: nat) returns (i: nat, ghost k: nat)
      requires gap <= 1 && start + gap <= end
      requires Unsubscribing(gap, subscribedMemory, subscribedMemory, 0, 0, start, end)
      modifies this`subscribedMemory
      ensures Unsubscribing(gap, old(subscribedMemory), subscribedMemory, i, k, start, end)
      ensures i < |subscribedMemory| ==> subscribedMemory[i].start >= end
    {
      ghost var s := subscribedMemory;
      i, k := 0, 0;
      while i < |subscribedMemory|
        invariant Unsubscribing(gap, s, subscribedMemory, i, k, start, end)
        decreases |subscribedMemory| - i, i < |subscribedMemory| && subscribedMemory[i].start < end
      {
        var subscribed := subscribedMemory[i];
        if subscribed.start >= end {
          break;
        }
        if subscribed.end <= start {
          PassStep(gap, s, subscribedMemory, i, k, start, end);
          i, k := i + 1, k + 1;
          continue;
        }
        i := UnsubscribeRange(i, start, end, gap, s, k);
        k := k + 1;
      }
    }

    /** unsubscribe_all_memory, unsubscribe_all_pci and unsubscribe_all_ioPort, as every driver that
        ends calls them. */
    method ReleaseAll()
      modifies this`subscribedMemory, this`subscribedPciDevices, this`subscribedIoPorts
      ensures Held() == Holdings(state, [], [], [])
    {
      subscribedMemory, subscribedPciDevices, subscribedIoPorts := [], [], [];
    }

    /** subscribe_memory: refused if it overlaps the heap or what another active driver holds. */
    method SubscribeMemory(drivers: seq<DriverApi>, heap: MemoryRange, start: nat, size: nat) returns (ok: bool)
      requires Valid() && forall d | d in drivers :: d.Valid()
      modifies this`subscribedMemory
      ensures Valid()
      ensures ok <==>
        (!(start < heap.end && start + size > heap.start)
        && forall d | d in drivers && d != this && old(d.state) == Active ::
          !Meets(old(d.subscribedMemory), start, start + size))
      ensures ok ==> Bytes(subscribedMemory) == old(Bytes(subscribedMemory)) + Span(start, start + size)
      ensures !ok ==> subscribedMemory == old(subscribedMemory)
      ensures old(Canonical(subscribedMemory)) && size > 0 ==> Canonical(subscribedMemory)
    {
      if start < heap.end && start + size > heap.start {
        return false;
      }
      for i := 0 to |drivers|
        invariant subscribedMemory == old(subscribedMemory)
        invariant forall j | 0 <= j < i && drivers[j] != this && drivers[j].state == Active ::
          !Meets(drivers[j].subscribedMemory, start, start + size)
      {
        if drivers[i] == this || drivers[i].state != Active {
          continue;
        }
        var taken := drivers[i].IsSubscribedToMemory(start, size);
        if taken {
          return false;
        }
      }
      AddRange(start, start + size);
      ok := true;
    }

    // -------------------------------------------- PCI devices and I/O ports

    method IsSubscribedToPci(device: nat) returns (found: bool)
      ensures found <==> device in subscribedPciDevices
    {
      found := Has(subscribedPciDevices, device);
    }

    method SubscribePci(drivers: seq<DriverApi>, device: nat) returns (ok: bool)
      modifies this`subscribedPciDevices
      ensures ok <==>
        device in old(subscribedPciDevices) || forall d | d in drivers :: device !in old(d.subscribedPciDevices)
      ensures forall y :: y in subscribedPciDevices <==> y in old(subscribedPciDevices) || (ok && y == device)
      ensures subscribedPciDevices ==
        old(subscribedPciDevices) + if ok && device !in old(subscribedPciDevices) then [device] else []
    {
      ok := IsSubscribedToPci(device);
      if ok {
        return;
      }
      for i := 0 to |drivers|
        invariant subscribedPciDevices == old(subscribedPciDevices)
        invariant forall j | 0 <= j < i :: device !in drivers[j].subscribedPciDevices
      {
        var taken := drivers[i].IsSubscribedToPci(device);
        if taken {
          return false;
        }
      }
      subscribedPciDevices := subscribedPciDevices + [device];
      ok := true;
    }

    method UnsubscribePci(device: nat)
      modifies this`subscribedPciDevices
      ensures subscribedPciDevices == Released(old(subscribedPciDevices), device)
    {
      var i := FindFirst(subscribedPciDevices, device);
      subscribedPciDevices := Removed(subscribedPciDevices, i);
    }

    method IsSubscribedToIoPort(port: nat) returns (found: bool)
      ensures found <==> port in subscribedIoPorts
    {
      found := Has(subscribedIoPorts, port);
    }

    method SubscribeIoPort(drivers: seq<DriverApi>, port: nat) returns (ok: bool)
      modifies this`subscribedIoPorts
      ensures ok <==> port in old(subscribedIoPorts) || forall d | d in drivers :: port !in old(d.subscribedIoPorts)
      ensures forall y :: y in subscribedIoPorts <==> y in old(subscribedIoPorts) || (ok && y == port)
      ensures subscribedIoPorts ==
        old(subscribedIoPorts) + if ok && port !in old(subscribedIoPorts) then [port] else []
    {
      ok := IsSubscribedToIoPort(port);
      if ok {
        return;
      }
      for i := 0 to |drivers|
        invariant subscribedIoPorts == old(subscribedIoPorts)
        invariant forall j | 0 <= j < i :: port !in drivers[j].subscribedIoPorts
      {
        var taken := drivers[i].IsSubscribedToIoPort(port);
        if taken {
          return false;
        }
      }
      subscribedIoPorts := subscribedIoPorts + [port];
      ok := true;
    }

    method UnsubscribeIoPort(port: nat)
      modifies this`subscribedIoPorts
      ensures subscribedIoPorts == Released(old(subscribedIoPorts), port)
    {
      var i := FindFirst(subscribedIoPorts, port);
      subscribedIoPorts := Removed(subscribedIoPorts, i);
    }
  }

  // ------------------------------------------------------ lists of numbers

  method Has(s: seq<nat>, x: nat) returns (found: bool)
    ensures found <==> x in s
  {
    for i := 0 to |s|
      invariant x !in s[..i]
    {
      if s[i] == x {
        return true;
      }
    }
    found := false;
  }

  method FindFirst(s: seq<nat>, x: nat) returns (i: nat)
    ensures i == FirstIndex(s, x)
  {
    i := 0;
    while i < |s| && s[i] != x
      invariant i <= |s| && forall j | 0 <= j < i :: s[j] != x
    {
      i := i + 1;
    }
  }

  /** What the search-and-remove loops of unsubscribe_pci and unsubscribe_ioPort leave. */
  function Released(s: seq<nat>, x: nat): seq<nat> {
    Removed(s, FirstIndex(s, x))
  }

  /** Unsubscribing never adds anything. It lets go of x exactly when x is listed once and is not
      the front of a longer list, where PodArray's remove keeps it; and it takes out that one entry
      and keeps every other exactly when x is not the front of a longer list of different entries. */
  lemma ReleasedIff(s: seq<nat>, x: nat)
    ensures forall y | y in Released(s, x) :: y in s
    ensures x !in s ==> Released(s, x) == s
    ensures |s| > 1 && s[0] == x ==> Released(s, x) == [x] + s[..|s| - 2]
    ensures x !in Released(s, x) <==> x !in s || (x !in s[FirstIndex(s, x) + 1..] && (s[0] != x || |s| == 1))
    ensures x in s ==>
      (Released(s, x) == Without(s, FirstIndex(s, x)) <==>
       FirstIndex(s, x) > 0 || |s| == 1 || forall k | 0 <= k < |s| :: s[k] == s[0])
  {
    if x in s {
      RemovedIsDeletedIff(s, FirstIndex(s, x));
    }
  }

  /** Releasing the first of three keeps it, twice, and loses the last. */
  lemma FrontReleaseLosesAnother()
    ensures Released([1, 2, 3], 1) == [1, 1]
  {
  }

  /** No byte of the list is at or behind the end: only an empty range may be. */
  ghost predicate EndsBy(s: seq<MemoryRange>, end: nat) {
    forall r | r in s && r.start < r.end :: r.end <= end
  }

  lemma EndsByLast(s: seq<MemoryRange>, end: nat)
    requires Canonical(s) && s != []
    ensures EndsBy(s, end) <==> s[|s| - 1].end <= end
  {
    assert s[|s| - 1] in s;
  }

  /** Dropping the whole list is right exactly when all of its bytes are covered. For a canonical list
      that is when its last range is covered too. */
  lemma CoveredLoss(s: seq<MemoryRange>, start: nat, end: nat)
    requires Ordered(0, s) && FirstCovered(s, start, end)
    ensures Bytes(s) - Span(start, end) == iset{} <==> EndsBy(s, end)
    ensures Canonical(s) ==> (EndsBy(s, end) <==> s[|s| - 1].end <= end)
  {
    if Canonical(s) {
      EndsByLast(s, end);
    }
    if EndsBy(s, end) {
      forall n | n in Bytes(s) ensures n in Span(start, end) {
        var r :| r in s && r.start <= n < r.end;
      }
    } else {
      var r :| r in s && r.start < r.end && r.end > end;
      assert Owns(s, r.end - 1);
      assert r.end - 1 in Bytes(s) - Span(start, end);
    }
  }

  /** What unsubscribing [start, end) makes of list s. */
  ghost predicate Unsubscribed(s: seq<MemoryRange>, t: seq<MemoryRange>, start: nat, end: nat) {
    && Bytes(t) <= Bytes(s) && (s == [] ==> t == [])
    && (FirstCovered(s, start, end) ==> t == [])
    && (!FirstCovered(s, start, end) ==> Bytes(t) == Bytes(s) - Span(start, end))
    && (Bytes(t) == Bytes(s) - Span(start, end) <==> (FirstCovered(s, start, end) ==> EndsBy(s, end)))
    && (Canonical(s) && start < end ==> Canonical(t))
  }

  /** Giving back the first of two ranges loses the other one too. */
  lemma CoveredFirstLosesAll(t: seq<MemoryRange>)
    requires Unsubscribed([MemoryRange(0, 1), MemoryRange(2, 3)], t, 0, 1)
    ensures t == [] && 2 in Bytes([MemoryRange(0, 1), MemoryRange(2, 3)]) - Span(0, 1)
  {
    assert MemoryRange(2, 3) in [MemoryRange(0, 1), MemoryRange(2, 3)];
  }

  predicate Covered(r: MemoryRange, start: nat, end: nat) {
    start <= r.start && r.end <= end
  }

  function CutAt(s: seq<MemoryRange>, i: nat, start: nat, end: nat): seq<MemoryRange>
    requires i < |s|
  {
    s[..i] + Remainder(s[i], start, end) + s[i + 1..]
  }

  /** The loop of unsubscribe_memory with t so far: either the covered first range of s is stuck at the
      front, or the first ranges of s are cut, or a range was split and all of s is. */
  ghost predicate Unsubscribing(gap: nat, s: seq<MemoryRange>, t: seq<MemoryRange>, i: nat, k: nat,
                                start: nat, end: nat)
  {
    if s == [] then t == []
    else if FirstCovered(s, start, end) then i == 0 && (t != [] ==> t[0] == s[0])
    else Cut(gap, s, t, i, k, start, end) || CutDone(gap, s, t, i, start, end)
  }

  lemma UnsubscribeBegins(gap: nat, s: seq<MemoryRange>, start: nat, end: nat)
    requires Ordered(gap, s)
    ensures Unsubscribing(gap, s, s, 0, 0, start, end)
  {
  }

  lemma PassStep(gap: nat, s: seq<MemoryRange>, t: seq<MemoryRange>, i: nat, k: nat, start: nat, end: nat)
    requires gap <= 1 && start + gap <= end && Unsubscribing(gap, s, t, i, k, start, end) && i < |t|
    requires t[i].start < end && t[i].end <= start
    ensures Unsubscribing(gap, s, t, i + 1, k + 1, start, end)
  {
    if s != [] && !FirstCovered(s, start, end) {
      CutStep(gap, s, t, i, k, start, end);
      assert CutAt(t, i, start, end) == t;
    }
  }

  lemma DropStep(gap: nat, s: seq<MemoryRange>, t: seq<MemoryRange>, i: nat, k: nat, start: nat, end: nat)
    requires gap <= 1 && start + gap <= end && Unsubscribing(gap, s, t, i, k, start, end) && i < |t|
    requires t[i].start < end && t[i].end > start && Covered(t[i], start, end)
    ensures Unsubscribing(gap, s, Removed(t, i), i, k + 1, start, end)
  {
    if s != [] && !FirstCovered(s, start, end) {
      CutStep(gap, s, t, i, k, start, end);
      assert CutAt(t, i, start, end) == Removed(t, i);
    }
  }

  lemma CutInPlace(gap: nat, s: seq<MemoryRange>, t: seq<MemoryRange>, i: nat, k: nat, start: nat, end: nat)
    requires gap <= 1 && start + gap <= end && Unsubscribing(gap, s, t, i, k, start, end) && i < |t|
    requires t[i].start < end && t[i].end > start && !Covered(t[i], start, end)
    ensures Unsubscribing(gap, s, CutAt(t, i, start, end), i + 1, k + 1, start, end)
    ensures |CutAt(t, i, start, end)| > |t| ==> CutAt(t, i, start, end)[i + 1].start >= end
  {
    if s != [] && !FirstCovered(s, start, end) {
      CutStep(gap, s, t, i, k, start, end);
    }
  }

  lemma UnsubscribeEnds(gap: nat, s: seq<MemoryRange>, t: seq<MemoryRange>, i: nat, k: nat, start: nat, end: nat)
    requires gap <= 1 && Unsubscribing(gap, s, t, i, k, start, end) && (i < |t| ==> t[i].start >= end)
    requires Ordered(0, s) && (Canonical(s) && start < end ==> gap == 1)
    ensures Unsubscribed(s, t, start, end) && Ordered(gap, t)
  {
    if s == [] {
      assert Bytes(s) == iset{};
    } else if FirstCovered(s, start, end) {
      CoveredLoss(s, start, end);
    } else if Cut(gap, s, t, i, k, start, end) {
      CutEnds(gap, s, t, i, k, start, end);
    }
  }

  /** The first k ranges of s have been cut and are the first i of t; the others are still to come. */
  ghost predicate Cut(gap: nat, s: seq<MemoryRange>, t: seq<MemoryRange>, i: nat, k: nat, start: nat, end: nat) {
    && i <= |t| && k <= |s| && t[i..] == s[k..] && Ordered(gap, t) && (i == 0 ==> t == s)
    && Bytes(t[..i]) == Bytes(s[..k]) - Span(start, end)
  }

  /** All of s has been cut, and range i of t is past the end. */
  ghost predicate CutDone(gap: nat, s: seq<MemoryRange>, t: seq<MemoryRange>, i: nat, start: nat, end: nat) {
    i < |t| && t[i].start >= end && Ordered(gap, t) && Bytes(t) == Bytes(s) - Span(start, end)
  }

  lemma CutStep(gap: nat, s: seq<MemoryRange>, t: seq<MemoryRange>, i: nat, k: nat, start: nat, end: nat)
    requires gap <= 1 && Cut(gap, s, t, i, k, start, end) && i < |t| && start + gap <= end && t[i].start < end
    ensures var pieces := Remainder(t[i], start, end);
      var cut := t[..i] + pieces + t[i + 1..];
      && (pieces != [] || i > 0 ==> Cut(gap, s, cut, i + |pieces|, k + 1, start, end))
      && (|pieces| == 2 ==> CutDone(gap, s, cut, i + 1, start, end))
  {
    var pieces := Remainder(t[i], start, end);
    var cut := t[..i] + pieces + t[i + 1..];
    RemainderFacts(gap, t[i], start, end);
    ReplaceOrdered(gap, t, i, pieces);
    assert t[i] == s[k] && t[i + 1..] == s[k + 1..];
    assert s[..k + 1] == s[..k] + [s[k]];
    BytesConcat(s[..k], [s[k]]);
    BytesOne(s[k]);
    assert cut[..i + |pieces|] == t[..i] + pieces && cut[i + |pieces|..] == t[i + 1..];
    BytesConcat(t[..i], pieces);
    if |pieces| == 2 {
      CutEnds(gap, s, cut, i + 2, k + 1, start, end);
    }
  }

  lemma CutEnds(gap: nat, s: seq<MemoryRange>, t: seq<MemoryRange>, i: nat, k: nat, start: nat, end: nat)
    requires gap <= 1 && Cut(gap, s, t, i, k, start, end) && (i < |t| ==> t[i].start >= end)
    ensures Bytes(t) == Bytes(s) - Span(start, end)
  {
    assert s == s[..k] + s[k..] && t == t[..i] + t[i..];
    BytesConcat(s[..k], s[k..]);
    BytesConcat(t[..i], t[i..]);
    forall n | Owns(t[i..], n) ensures n >= end {
      var r :| r in t[i..] && r.start <= n < r.end;
      assert t[i..][0] == t[i];
    }
  }

  ghost function Grown(s: seq<MemoryRange>, i: nat, k: nat, start: nat, end: nat): seq<MemoryRange>
    requires i < k <= |s|
  {
    s[..i] + [MemoryRange(Min(start, s[i].start), Max(end, s[k - 1].end))] + s[k..]
  }

  lemma GrownFirst(s: seq<MemoryRange>, i: nat, start: nat, end: nat)
    requires i < |s|
    ensures Grown(s, i, i + 1, start, end) == s[i := MemoryRange(Min(start, s[i].start), Max(end, s[i].end))]
  {
  }

  lemma GrownFacts(s: seq<MemoryRange>, i: nat, k: nat, start: nat, end: nat)
    requires i < k <= |s|
    ensures |Grown(s, i, k, start, end)| == i + 1 + |s| - k
    ensures k < |s| ==> Grown(s, i, k, start, end)[i + 1] == s[k]
  {
  }

  /** Range i swallows the one after it. */
  function Swallowed(t: seq<MemoryRange>, i: nat): seq<MemoryRange>
    requires i + 1 < |t|
  {
    Removed(t[i := t[i].(end := Max(t[i].end, t[i + 1].end))], i + 1)
  }

  ghost predicate EndsRise(s: seq<MemoryRange>, k: nat)
    requires 0 < k < |s|
  {
    s[k - 1].end <= s[k].end
  }

  ghost predicate EndsAscend(s: seq<MemoryRange>) {
    forall k {:trigger EndsRise(s, k)} | 0 < k < |s| :: EndsRise(s, k)
  }

  lemma SwallowStep(s: seq<MemoryRange>, i: nat, k: nat, start: nat, end: nat)
    requires i < k < |s| && EndsRise(s, k)
    ensures Swallowed(Grown(s, i, k, start, end), i) == Grown(s, i, k + 1, start, end)
  {
  }

  // ------------------------------------------------------- ownership over runs

  ghost predicate Separate(g: Holdings, h: Holdings) {
    && Bytes(g.memory) !! Bytes(h.memory)
    && (forall x | x in g.devices :: x !in h.devices)
    && (forall x | x in g.ports :: x !in h.ports)
  }

  /** A driver that is neither active nor starting holds nothing, and no driver holds heap memory. */
  ghost predicate HeldRightly(heap: MemoryRange, h: Holdings, starting: bool) {
    && Ordered(0, h.memory) && Bytes(h.memory) !! Span(heap.start, heap.end)
    && (h.state == Active || starting || (h.memory == [] && h.devices == [] && h.ports == []))
  }

  /** Every device and port has at most one holder, memory is held by at most one driver and by
      none in the heap, and only active drivers hold anything: except the one that is starting. */
  ghost predicate Exclusive(heap: MemoryRange, hs: seq<Holdings>, starting: nat) {
    && (forall d | 0 <= d < |hs| :: HeldRightly(heap, hs[d], d == starting))
    && (forall c, d {:trigger Separate(hs[c], hs[d])} | 0 <= c < |hs| && 0 <= d < |hs| && c != d ::
          Separate(hs[c], hs[d]))
  }

  /** Only driver d changed, to something that is right by itself and beside every other. */
  lemma OneChanged(heap: MemoryRange, hs: seq<Holdings>, d: nat, h: Holdings, starting: nat, after: nat)
    requires d < |hs| && Exclusive(heap, hs, starting) && (after == starting || d == starting)
    requires HeldRightly(heap, h, d == after)
    requires forall c | 0 <= c < |hs| && c != d :: Separate(hs[c], h)
    ensures after == starting || after == |hs| ==> Exclusive(heap, hs[d := h], after)
  {
  }

  lemma GrantedExclusive(heap: MemoryRange, hs: seq<Holdings>, d: nat, h: Holdings, start: nat, end: nat, starting: nat)
    requires d < |hs| && Exclusive(heap, hs, starting)
    requires d == starting || (starting == |hs| && hs[d].state == Active)
    requires Grantable(heap, hs, d, start, end)
    requires h == hs[d].(memory := h.memory) && Ordered(0, h.memory)
    requires Bytes(h.memory) == Bytes(hs[d].memory) + Span(start, end)
    ensures Exclusive(heap, hs[d := h], starting)
  {
    forall c | 0 <= c < |hs| && c != d ensures Separate(hs[c], h) {
      assert Separate(hs[c], hs[d]);
      if hs[c].state == Active {
        MeetsIffShared(hs[c].memory, start, end);
      }
    }
    OneChanged(heap, hs, d, h, starting, starting);
  }

  lemma TakenExclusive(heap: MemoryRange, hs: seq<Holdings>, d: nat, h: Holdings, starting: nat)
    requires d < |hs| && Exclusive(heap, hs, starting)
    requires d == starting || (starting == |hs| && hs[d].state == Active)
    requires h == hs[d].(devices := h.devices, ports := h.ports)
    requires forall c, x | 0 <= c < |hs| && c != d && x in h.devices && x !in hs[d].devices :: x !in hs[c].devices
    requires forall c, x | 0 <= c < |hs| && c != d && x in h.ports && x !in hs[d].ports :: x !in hs[c].ports
    ensures Exclusive(heap, hs[d := h], starting)
  {
    forall c | 0 <= c < |hs| && c != d ensures Separate(hs[c], h) {
      assert Separate(hs[c], hs[d]);
    }
    OneChanged(heap, hs, d, h, starting, starting);
  }

  ghost predicate Within(h: Holdings, was: Holdings) {
    && Ordered(0, h.memory) && Bytes(h.memory) <= Bytes(was.memory) && (was.memory == [] ==> h.memory == [])
    && (forall x | x in h.devices :: x in was.devices)
    && (forall x | x in h.ports :: x in was.ports)
  }

  lemma ShrunkExclusive(heap: MemoryRange, hs: seq<Holdings>, d: nat, h: Holdings, starting: nat)
    requires d < |hs| && Exclusive(heap, hs, starting) && Within(h, hs[d]) && h.state == hs[d].state
    ensures Exclusive(heap, hs[d := h], starting)
  {
    assert h.devices != [] ==> h.devices[0] in hs[d].devices;
    assert h.ports != [] ==> h.ports[0] in hs[d].ports;
    forall c | 0 <= c < |hs| && c != d ensures Separate(hs[c], h) {
      assert Separate(hs[c], hs[d]);
    }
    OneChanged(heap, hs, d, h, starting, starting);
  }

  /** Driver d becomes active with what it has, or ends with nothing. */
  lemma SettledExclusive(heap: MemoryRange, hs: seq<Holdings>, d: nat, h: Holdings, starting: nat)
    requires d < |hs| && Exclusive(heap, hs, starting) && (starting == d || starting == |hs|)
    requires h == hs[d].(state := Active) || h == Holdings(h.state, [], [], [])
    ensures Exclusive(heap, hs[d := h], |hs|)
  {
    forall c | 0 <= c < |hs| && c != d ensures Separate(hs[c], h) {
      assert Separate(hs[c], hs[d]);
    }
    OneChanged(heap, hs, d, h, starting, |hs|);
  }

  datatype Request =
    | SubscribeMemory(start: nat, size: nat)
    | UnsubscribeMemory(start: nat, size: nat)
    | SubscribePci(device: nat)
    | UnsubscribePci(device: nat)
    | SubscribeIoPort(port: nat)
    | UnsubscribeIoPort(port: nat)

  ghost predicate Grantable(heap: MemoryRange, hs: seq<Holdings>, d: nat, start: nat, end: nat) {
    && !(start < heap.end && end > heap.start)
    && forall c | 0 <= c < |hs| && c != d && hs[c].state == Active :: !Meets(hs[c].memory, start, end)
  }

  /** What a request of driver d makes of its holdings. */
  ghost predicate Performed(heap: MemoryRange, hs: seq<Holdings>, d: nat, request: Request, h: Holdings)
    requires d < |hs|
  {
    var was := hs[d];
    match request
    case SubscribeMemory(start, size) =>
      && h == was.(memory := h.memory)
      && (if Grantable(heap, hs, d, start, start + size)
          then Bytes(h.memory) == Bytes(was.memory) + Span(start, start + size) else h == was)
      && (Canonical(was.memory) && size > 0 ==> Canonical(h.memory))
    case UnsubscribeMemory(start, size) =>
      h == was.(memory := h.memory) && Unsubscribed(was.memory, h.memory, start, start + size)
    case SubscribePci(x) =>
      h == if forall c | 0 <= c < |hs| :: x !in hs[c].devices then was.(devices := was.devices + [x]) else was
    case UnsubscribePci(x) => h == was.(devices := Released(was.devices, x))
    case SubscribeIoPort(x) =>
      h == if forall c | 0 <= c < |hs| :: x !in hs[c].ports then was.(ports := was.ports + [x]) else was
    case UnsubscribeIoPort(x) => h == was.(ports := Released(was.ports, x))
  }

  lemma SubscribedMemory(heap: MemoryRange, hs: seq<Holdings>, d: nat, h: Holdings, start: nat, size: nat, ok: bool,
                         starting: nat)
    requires d < |hs| && Exclusive(heap, hs, starting)
    requires d == starting || (starting == |hs| && hs[d].state == Active)
    requires ok <==> Grantable(heap, hs, d, start, start + size)
    requires h == hs[d].(memory := h.memory) && Ordered(0, h.memory) && (!ok ==> h == hs[d])
    requires ok ==> Bytes(h.memory) == Bytes(hs[d].memory) + Span(start, start + size)
    requires Canonical(hs[d].memory) && size > 0 ==> Canonical(h.memory)
    ensures Exclusive(heap, hs[d := h], starting)
    ensures Performed(heap, hs, d, Request.SubscribeMemory(start, size), h)
  {
    if ok {
      GrantedExclusive(heap, hs, d, h, start, start + size, starting);
    } else {
      assert hs[d := h] == hs;
    }
  }

  /** The holdings of driver d before, between and after the requests of its start or stop. */
  ghost predicate PerformedAll(heap: MemoryRange, hs: seq<Holdings>, d: nat, requests: seq<Request>,
                               trace: seq<Holdings>)
    requires d < |hs|
  {
    && |trace| == |requests| + 1 && trace[0] == hs[d]
    && forall i | 0 <= i < |requests| :: PerformedAt(heap, hs, d, requests, trace, i)
  }

  ghost predicate PerformedAt(heap: MemoryRange, hs: seq<Holdings>, d: nat, requests: seq<Request>,
                              trace: seq<Holdings>, i: int)
    requires d < |hs| && 0 <= i < |requests| && |trace| > i + 1
  {
    Performed(heap, hs[d := trace[i]], d, requests[i], trace[i + 1])
  }

  lemma PerformedOneMore(heap: MemoryRange, hs: seq<Holdings>, d: nat, requests: seq<Request>, n: nat,
                         trace: seq<Holdings>, h: Holdings)
    requires d < |hs| && n < |requests| && PerformedAll(heap, hs, d, requests[..n], trace)
    requires Performed(heap, hs[d := trace[n]], d, requests[n], h)
    ensures PerformedAll(heap, hs, d, requests[..n + 1], trace + [h])
  {
    var longer, more := requests[..n + 1], trace + [h];
    forall i | 0 <= i < |longer| ensures PerformedAt(heap, hs, d, longer, more, i) {
      if i < n {
        assert PerformedAt(heap, hs, d, requests[..n], trace, i);
      }
    }
  }

  /** What happens to one driver. A start carries out the requests of its _on_start, a stop those of its
      _on_stop. */
  datatype Event =
    | Start(requests: seq<Request>, started: bool)
    | Stop(requests: seq<Request>, stopped: bool)
    | Fail
    | Ask(request: Request)

  class Drivers {
    const heap: MemoryRange
    const apis: seq<DriverApi>

    constructor (heap: MemoryRange, apis: seq<DriverApi>)
      requires forall c, d | 0 <= c < d < |apis| :: apis[c] != apis[d]
      requires forall d | d in apis :: d.Held() == Holdings(Inactive, [], [], [])
      ensures this.heap == heap && this.apis == apis && Valid(|apis|)
    {
      this.heap, this.apis := heap, apis;
    }

    ghost function Books(): (hs: seq<Holdings>)
      reads apis
      ensures |hs| == |apis| && forall d | 0 <= d < |hs| :: hs[d] == apis[d].Held()
    {
      seq(|apis|, d requires 0 <= d < |apis| reads apis => apis[d].Held())
    }

    ghost predicate Valid(starting: nat)
      reads apis
    {
      (forall c, d | 0 <= c < d < |apis| :: apis[c] != apis[d]) && Exclusive(heap, Books(), starting)
    }

    /** A driver may ask for something while it starts, when no other asks, or while it is active. */
    ghost predicate MayAsk(d: nat, starting: nat)
      requires d < |apis|
      reads apis
    {
      d == starting || (starting == |apis| && apis[d].state == Active)
    }

    method SubscribeMemory(d: nat, start: nat, size: nat, ghost starting: nat)
      requires d < |apis| && Valid(starting) && MayAsk(d, starting)
      modifies apis[d]
      ensures Valid(starting) && Books() == old(Books())[d := apis[d].Held()]
      ensures Performed(heap, old(Books()), d, Request.SubscribeMemory(start, size), apis[d].Held())
    {
      ghost var hs := Books();
      OthersMeet(hs, d, start, start + size);
      var ok := apis[d].SubscribeMemory(apis, heap, start, size);
      ghost var h := apis[d].Held();
      SubscribedMemory(heap, hs, d, h, start, size, ok, starting);
      assert Books() == hs[d := h];
    }

    /** The books and the drivers agree on who holds memory in the way. */
    lemma OthersMeet(hs: seq<Holdings>, d: nat, start: nat, end: nat)
      requires d < |apis| && hs == Books() && forall c, e | 0 <= c < e < |apis| :: apis[c] != apis[e]
      requires forall c | 0 <= c < |apis| :: Ordered(0, hs[c].memory)
      ensures forall e | e in apis :: e.Valid()
      ensures Grantable(heap, hs, d, start, end) <==>
        !(start < heap.end && end > heap.start)
        && (forall e | e in apis && e != apis[d] && e.state == Active :: !Meets(e.subscribedMemory, start, end))
    {
      assert forall c | 0 <= c < |apis| :: apis[c] in apis;
    }

    method SubscribePci(d: nat, device: nat, ghost starting: nat)
      requires d < |apis| && Valid(starting) && MayAsk(d, starting)
      modifies apis[d]
      ensures Valid(starting) && Books() == old(Books())[d := apis[d].Held()]
      ensures Performed(heap, old(Books()), d, Request.SubscribePci(device), apis[d].Held())
    {
      ghost var hs := Books();
      var ok := apis[d].SubscribePci(apis, device);
      TakenExclusive(heap, hs, d, apis[d].Held(), starting);
      assert Books() == hs[d := apis[d].Held()];
    }

    method SubscribeIoPort(d: nat, port: nat, ghost starting: nat)
      requires d < |apis| && Valid(starting) && MayAsk(d, starting)
      modifies apis[d]
      ensures Valid(starting) && Books() == old(Books())[d := apis[d].Held()]
      ensures Performed(heap, old(Books()), d, Request.SubscribeIoPort(port), apis[d].Held())
    {
      ghost var hs := Books();
      var ok := apis[d].SubscribeIoPort(apis, port);
      TakenExclusive(heap, hs, d, apis[d].Held(), starting);
      assert Books() == hs[d := apis[d].Held()];
    }

    method UnsubscribeMemory(d: nat, start: nat, size: nat, ghost starting: nat)
      requires d < |apis| && Valid(starting)
      modifies apis[d]
      ensures Valid(starting) && Books() == old(Books())[d := apis[d].Held()]
      ensures Performed(heap, old(Books()), d, Request.UnsubscribeMemory(start, size), apis[d].Held())
    {
      ghost var hs := Books();
      assert HeldRightly(heap, hs[d], d == starting);
      apis[d].UnsubscribeMemory(start, size);
      ShrunkExclusive(heap, hs, d, apis[d].Held(), starting);
      assert Books() == hs[d := apis[d].Held()];
    }

    method UnsubscribePci(d: nat, device: nat, ghost starting: nat)
      requires d < |apis| && Valid(starting)
      modifies apis[d]
      ensures Valid(starting) && Books() == old(Books())[d := apis[d].Held()]
      ensures Performed(heap, old(Books()), d, Request.UnsubscribePci(device), apis[d].Held())
    {
      ghost var hs := Books();
      assert HeldRightly(heap, hs[d], d == starting);
      ReleasedIff(apis[d].subscribedPciDevices, device);
      apis[d].UnsubscribePci(device);
      ShrunkExclusive(heap, hs, d, apis[d].Held(), starting);
      assert Books() == hs[d := apis[d].Held()];
    }

    method UnsubscribeIoPort(d: nat, port: nat, ghost starting: nat)
      requires d < |apis| && Valid(starting)
      modifies apis[d]
      ensures Valid(starting) && Books() == old(Books())[d := apis[d].Held()]
      ensures Performed(heap, old(Books()), d, Request.UnsubscribeIoPort(port), apis[d].Held())
    {
      ghost var hs := Books();
      assert HeldRightly(heap, hs[d], d == starting);
      ReleasedIff(apis[d].subscribedIoPorts, port);
      apis[d].UnsubscribeIoPort(port);
      ShrunkExclusive(heap, hs, d, apis[d].Held(), starting);
      assert Books() == hs[d := apis[d].Held()];
    }

    method Perform(d: nat, request: Request, ghost starting: nat)
      requires d < |apis| && Valid(starting) && MayAsk(d, starting)
      modifies apis[d]
      ensures Valid(starting) && Books() == old(Books())[d := apis[d].Held()]
      ensures Performed(heap, old(Books()), d, request, apis[d].Held())
    {
      match request {
        case SubscribeMemory(start, size) => SubscribeMemory(d, start, size, starting);
        case UnsubscribeMemory(start, size) => UnsubscribeMemory(d, start, size, starting);
        case SubscribePci(device) => SubscribePci(d, device, starting);
        case UnsubscribePci(device) => UnsubscribePci(d, device, starting);
        case SubscribeIoPort(port) => SubscribeIoPort(d, port, starting);
        case UnsubscribeIoPort(port) => UnsubscribeIoPort(d, port, starting);
      }
    }

    /** The requests of an _on_start or an _on_stop. */
    method PerformAll(d: nat, requests: seq<Request>, ghost starting: nat) returns (ghost trace: seq<Holdings>)
      requires d < |apis| && Valid(starting) && MayAsk(d, starting)
      modifies apis[d]
      ensures Valid(starting) && Books() == old(Books())[d := apis[d].Held()]
      ensures PerformedAll(heap, old(Books()), d, requests, trace) && apis[d].Held() == trace[|requests|]
      ensures apis[d].state == old(apis[d].state)
    {
      ghost var hs := Books();
      trace := [hs[d]];
      for i := 0 to |requests|
        invariant Valid(starting) && PerformedAll(heap, hs, d, requests[..i], trace) && Books() == hs[d := trace[i]]
        invariant apis[d].state == hs[d].state
      {
        Perform(d, requests[i], starting);
        PerformedOneMore(heap, hs, d, requests, i, trace, apis[d].Held());
        trace := trace + [apis[d].Held()];
      }
      assert requests[..|requests|] == requests;
    }

    /** start_driver: a driver that is active already is left alone; one that fails to start lets go
        of everything it got. */
    method Start(d: nat, requests: seq<Request>, started: bool) returns (ghost trace: seq<Holdings>)
      requires d < |apis| && Valid(|apis|)
      modifies apis[d]
      ensures Valid(|apis|) && Books() == old(Books())[d := apis[d].Held()]
      ensures old(apis[d].state) == Active ==> apis[d].Held() == old(apis[d].Held())
      ensures old(apis[d].state) != Active ==>
        PerformedAll(heap, old(Books()), d, requests, trace)
        && apis[d].Held() == if started then trace[|requests|].(state := Active) else Holdings(Failed, [], [], [])
    {
      trace := [];
      if apis[d].state == Active {
        assert Books() == old(Books())[d := apis[d].Held()];
        return;
      }
      trace := PerformAll(d, requests, d);
      ghost var hs := Books();
      if !started {
        apis[d].state := Failed;
        apis[d].ReleaseAll();
      } else {
        apis[d].state := Active;
      }
      SettledExclusive(heap, hs, d, apis[d].Held(), d);
      assert Books() == hs[d := apis[d].Held()];
    }

    /** stop_driver: a driver whose _on_stop fails stays active, with what the requests of its _on_stop
        left it. */
    method Stop(d: nat, requests: seq<Request>, stopped: bool) returns (ghost trace: seq<Holdings>)
      requires d < |apis| && Valid(|apis|)
      modifies apis[d]
      ensures Valid(|apis|) && Books() == old(Books())[d := apis[d].Held()]
      ensures old(apis[d].state) != Active ==> apis[d].Held() == old(apis[d].Held())
      ensures old(apis[d].state) == Active ==>
        PerformedAll(heap, old(Books()), d, requests, trace)
        && apis[d].Held() == if stopped then Holdings(Inactive, [], [], []) else trace[|requests|]
    {
      trace := [];
      if apis[d].state != Active {
        assert Books() == old(Books())[d := apis[d].Held()];
        return;
      }
      trace := PerformAll(d, requests, |apis|);
      if !stopped {
        return;
      }
      ghost var hs := Books();
      apis[d].state := Inactive;
      apis[d].ReleaseAll();
      SettledExclusive(heap, hs, d, apis[d].Held(), |apis|);
      assert Books() == hs[d := apis[d].Held()];
    }

    /** fail_driver */
    method Fail(d: nat)
      requires d < |apis| && Valid(|apis|)
      modifies apis[d]
      ensures Valid(|apis|) && Books() == old(Books())[d := Holdings(Failed, [], [], [])]
    {
      ghost var hs := Books();
      apis[d].state := Failed;
      apis[d].ReleaseAll();
      SettledExclusive(heap, hs, d, apis[d].Held(), |apis|);
      assert Books() == hs[d := apis[d].Held()];
    }

    /** One event of driver d. */
    method Apply(d: nat, event: Event)
      requires d < |apis| && Valid(|apis|)
      modifies apis[d]
      ensures Valid(|apis|) && Happened(heap, old(Books()), d, event, Books())
    {
      ghost var hs, trace := Books(), [];
      match event {
        case Start(requests, started) => trace := Start(d, requests, started);
        case Stop(requests, stopped) => trace := Stop(d, requests, stopped);
        case Fail => Fail(d);
        case Ask(request) =>
          if apis[d].state == Active {
            Perform(d, request, |apis|);
          }
      }
      assert Books() == hs[d := Books()[d]];
      assert HappenedWith(heap, hs, d, event, Books(), trace);
    }

    /** Any run of starts, stops, failures and requests of active drivers, each on one driver. */
    method Run(events: seq<(nat, Event)>) returns (ghost history: seq<seq<Holdings>>)
      requires Valid(|apis|) && forall i | 0 <= i < |events| :: events[i].0 < |apis|
      modifies apis
      ensures Valid(|apis|)
      ensures IsHistory(heap, |apis|, events, old(Books()), Books(), history)
    {
      history := [Books()];
      for i := 0 to |events|
        invariant Valid(|apis|) && IsHistory(heap, |apis|, events[..i], old(Books()), Books(), history)
      {
        Apply(events[i].0, events[i].1);
        HistoryGrows(heap, |apis|, events, i, history, Books());
        history := history + [Books()];
      }
      assert events[..|events|] == events;
    }
  }

  ghost predicate StartedBy(heap: MemoryRange, hs: seq<Holdings>, d: nat, requests: seq<Request>, started: bool,
                            h: Holdings, trace: seq<Holdings>)
    requires d < |hs|
  {
    PerformedAll(heap, hs, d, requests, trace)
    && h == if started then trace[|requests|].(state := Active) else Holdings(Failed, [], [], [])
  }

  ghost predicate StoppedBy(heap: MemoryRange, hs: seq<Holdings>, d: nat, requests: seq<Request>, stopped: bool,
                            h: Holdings, trace: seq<Holdings>)
    requires d < |hs|
  {
    PerformedAll(heap, hs, d, requests, trace)
    && h == if stopped then Holdings(Inactive, [], [], []) else trace[|requests|]
  }

  /** What an event of driver d makes of the books: only its own holdings change, and those as its
      requests say. */
  ghost predicate Happened(heap: MemoryRange, hs: seq<Holdings>, d: nat, event: Event, after: seq<Holdings>)
    requires d < |hs|
  {
    exists trace :: HappenedWith(heap, hs, d, event, after, trace)
  }

  /** `trace` is what the driver holds between the requests of its start or stop. */
  ghost predicate HappenedWith(heap: MemoryRange, hs: seq<Holdings>, d: nat, event: Event, after: seq<Holdings>,
                               trace: seq<Holdings>)
    requires d < |hs|
  {
    && |after| == |hs| && after == hs[d := after[d]]
    && match event
       case Start(requests, started) =>
         if hs[d].state == Active then after == hs
         else StartedBy(heap, hs, d, requests, started, after[d], trace)
       case Stop(requests, stopped) =>
         if hs[d].state != Active then after == hs
         else StoppedBy(heap, hs, d, requests, stopped, after[d], trace)
       case Fail => after[d] == Holdings(Failed, [], [], [])
       case Ask(request) =>
         if hs[d].state != Active then after == hs else Performed(heap, hs, d, request, after[d])
  }

  ghost predicate HappenedAt(heap: MemoryRange, events: seq<(nat, Event)>, history: seq<seq<Holdings>>, i: int)
    requires 0 <= i < |events| && |history| > i + 1 && events[i].0 < |history[i]|
  {
    Happened(heap, history[i], events[i].0, events[i].1, history[i + 1])
  }

  /** The books before, between and after the events. */
  ghost predicate IsHistory(heap: MemoryRange, drivers: nat, events: seq<(nat, Event)>, first: seq<Holdings>,
                            last: seq<Holdings>, history: seq<seq<Holdings>>)
    requires forall i | 0 <= i < |events| :: events[i].0 < drivers
  {
    && |history| == |events| + 1 && history[0] == first && history[|events|] == last
    && (forall i | 0 <= i < |history| :: |history[i]| == drivers)
    && (forall i | 0 <= i < |events| :: HappenedAt(heap, events, history, i))
  }

  lemma HistoryGrows(heap: MemoryRange, drivers: nat, events: seq<(nat, Event)>, n: nat, history: seq<seq<Holdings>>,
                     now: seq<Holdings>)
    requires n < |events| && |history| == n + 1 && |now| == drivers
    requires forall i | 0 <= i < |events| :: events[i].0 < drivers
    requires IsHistory(heap, drivers, events[..n], history[0], history[n], history)
    requires Happened(heap, history[n], events[n].0, events[n].1, now)
    ensures IsHistory(heap, drivers, events[..n + 1], history[0], now, history + [now])
  {
    var longer, more := history + [now], events[..n + 1];
    forall i | 0 <= i < |more| ensures HappenedAt(heap, more, longer, i) {
      if i < n {
        assert HappenedAt(heap, events[..n], history, i);
      }
    }
  }
}
