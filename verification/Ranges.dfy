/** Memory ranges and the byte sets that lists of them stand for. */
module Ranges {
  import opened Maths

  datatype MemoryRange = MemoryRange(start: nat, end: nat)

  ghost predicate Owns(s: seq<MemoryRange>, n: int) {
    exists r :: r in s && r.start <= n < r.end
  }

  ghost function Bytes(s: seq<MemoryRange>): iset<int> {
    iset n: int | Owns(s, n)
  }

  predicate Between(start: int, n: int, end: int) {
    start <= n < end
  }

  ghost function Span(start: int, end: int): iset<int> {
    iset n: int | Between(start, n, end)
  }

  /** Ascending ranges that do not overlap; with gap 1, also none empty and none touching. */
  ghost predicate Ordered(gap: nat, s: seq<MemoryRange>) {
    && (forall i | 0 <= i < |s| :: s[i].start + gap <= s[i].end)
    && (forall i, j | 0 <= i < j < |s| :: s[i].end + gap <= s[j].start)
  }

  ghost predicate Canonical(s: seq<MemoryRange>) {
    Ordered(1, s)
  }

  /** The overlap test of is_subscribed_to_memory. */
  ghost predicate Meets(s: seq<MemoryRange>, start: nat, end: nat) {
    exists r :: r in s && r.start < end && r.end > start
  }

  /** For a range that is not empty the test is true exactly when the byte sets meet. */
  lemma MeetsIffShared(s: seq<MemoryRange>, start: nat, end: nat)
    requires Ordered(0, s)
    ensures Canonical(s) && start < end ==>
      (Meets(s, start, end) <==> exists n :: n in Bytes(s) && n in Span(start, end))
    ensures !Meets(s, start, end) ==> Bytes(s) !! Span(start, end)
  {
    if Canonical(s) && start < end && Meets(s, start, end) {
      var r :| r in s && r.start < end && r.end > start;
      var n := Max(r.start, start);
      assert Owns(s, n) && n in Span(start, end);
    }
  }

  lemma BytesConcat(s: seq<MemoryRange>, t: seq<MemoryRange>)
    ensures Bytes(s + t) == Bytes(s) + Bytes(t)
  {
  }

  lemma BytesOne(r: MemoryRange)
    ensures Bytes([r]) == Span(r.start, r.end)
  {
  }

  /** A canonical list is the only one for its set of bytes. */
  lemma {:induction false} CanonicalUnique(s: seq<MemoryRange>, t: seq<MemoryRange>)
    requires Canonical(s) && Canonical(t) && Bytes(s) == Bytes(t)
    ensures s == t
  {
    if s == [] || t == [] {
      EmptyBytes(s);
      EmptyBytes(t);
    } else {
      SameFirst(s, t);
      TailBytes(s);
      TailBytes(t);
      CanonicalUnique(s[1..], t[1..]);
    }
  }

  lemma EmptyBytes(s: seq<MemoryRange>)
    requires Canonical(s)
    ensures Bytes(s) == iset{} <==> s == []
  {
    if s != [] {
      assert Owns(s, s[0].start);
      assert s[0].start in Bytes(s);
    }
  }

  lemma TailBytes(s: seq<MemoryRange>)
    requires Canonical(s) && s != []
    ensures Canonical(s[1..]) && Bytes(s[1..]) == Bytes(s) - Span(s[0].start, s[0].end)
  {
  }

  lemma SameFirst(s: seq<MemoryRange>, t: seq<MemoryRange>)
    requires Canonical(s) && Canonical(t) && Bytes(s) == Bytes(t) && s != [] && t != []
    ensures s[0] == t[0]
  {
    FirstStart(s, t);
    FirstStart(t, s);
    FirstEnd(s, t);
    FirstEnd(t, s);
  }

  lemma FirstStart(s: seq<MemoryRange>, t: seq<MemoryRange>)
    requires Canonical(s) && Canonical(t) && Bytes(s) == Bytes(t) && s != [] && t != []
    ensures t[0].start <= s[0].start
  {
    assert Owns(s, s[0].start);
    assert s[0].start in Bytes(t);
    var r :| r in t && r.start <= s[0].start < r.end;
    assert t[0].start <= r.start;
  }

  lemma FirstEnd(s: seq<MemoryRange>, t: seq<MemoryRange>)
    requires Canonical(s) && Canonical(t) && Bytes(s) == Bytes(t) && s != [] && t != [] && s[0].start == t[0].start
    ensures s[0].end <= t[0].end
  {
    forall r | r in t ensures !(r.start <= t[0].end < r.end) {
    }
    assert t[0].end !in Bytes(s);
    assert s[0] in s;
  }

  lemma SpliceOrdered(gap: nat, s: seq<MemoryRange>, i: nat, m: MemoryRange, k: nat)
    requires Ordered(gap, s) && i <= k <= |s| && m.start + gap <= m.end
    requires i > 0 ==> s[i - 1].end + gap <= m.start
    requires k < |s| ==> m.end + gap <= s[k].start
    ensures Ordered(gap, s[..i] + [m] + s[k..])
  {
  }

  lemma SpliceBytes(s: seq<MemoryRange>, i: nat, m: MemoryRange, k: nat, added: iset<int>)
    requires i <= k <= |s| && Span(m.start, m.end) == Bytes(s[i..k]) + added
    ensures Bytes(s[..i] + [m] + s[k..]) == Bytes(s) + added
  {
    BytesConcat(s[..i] + [m], s[k..]);
    BytesConcat(s[..i], [m]);
    BytesOne(m);
    assert s == s[..i] + (s[i..k] + s[k..]);
    BytesConcat(s[..i], s[i..k] + s[k..]);
    BytesConcat(s[i..k], s[k..]);
  }

  lemma TouchedBytes(s: seq<MemoryRange>, start: nat, end: nat)
    requires Ordered(0, s) && s != [] && start <= s[0].end && s[|s| - 1].start <= end && start <= end
    ensures Span(Min(start, s[0].start), Max(end, s[|s| - 1].end)) == Bytes(s) + Span(start, end)
  {
  }

  /** Ranges i up to k of the list touch [start, end) and become one with it. */
  lemma MergeFacts(gap: nat, s: seq<MemoryRange>, i: nat, k: nat, start: nat, end: nat)
    requires gap <= 1 && Ordered(gap, s) && i < k <= |s| && start + gap <= end
    requires forall j | 0 <= j < i :: s[j].end < start
    requires start <= s[i].end && s[k - 1].start <= end
    requires k < |s| ==> Max(end, s[k - 1].end) + gap <= s[k].start
    ensures var m := MemoryRange(Min(start, s[i].start), Max(end, s[k - 1].end));
      && Ordered(gap, s[..i] + [m] + s[k..])
      && Bytes(s[..i] + [m] + s[k..]) == Bytes(s) + Span(start, end)
  {
    var m := MemoryRange(Min(start, s[i].start), Max(end, s[k - 1].end));
    SpliceOrdered(gap, s, i, m, k);
    TouchedBytes(s[i..k], start, end);
    SpliceBytes(s, i, m, k, Span(start, end));
  }

  lemma InsertFacts(gap: nat, s: seq<MemoryRange>, i: nat, start: nat, end: nat)
    requires gap <= 1 && Ordered(gap, s) && i <= |s| && start + gap <= end
    requires forall j | 0 <= j < i :: s[j].end < start
    requires i < |s| ==> end < s[i].start
    ensures Ordered(gap, s[..i] + [MemoryRange(start, end)] + s[i..])
    ensures Bytes(s[..i] + [MemoryRange(start, end)] + s[i..]) == Bytes(s) + Span(start, end)
  {
  }

  /** What unsubscribing [start, end) leaves of one range. */
  function Remainder(r: MemoryRange, start: nat, end: nat): seq<MemoryRange> {
    if r.start >= end || r.end <= start then
      [r]
    else
      var left := if r.start < start then [MemoryRange(r.start, start)] else [];
      var right := if end < r.end then [MemoryRange(end, r.end)] else [];
      left + right
  }

  lemma RemainderFacts(gap: nat, r: MemoryRange, start: nat, end: nat)
    requires gap <= 1 && r.start + gap <= r.end && start + gap <= end
    ensures Bytes(Remainder(r, start, end)) == Span(r.start, r.end) - Span(start, end)
    ensures Ordered(gap, Remainder(r, start, end))
    ensures forall p | p in Remainder(r, start, end) :: r.start <= p.start && p.end <= r.end
  {
  }

  /** Replacing range i by pieces of itself. */
  lemma ReplaceOrdered(gap: nat, s: seq<MemoryRange>, i: nat, pieces: seq<MemoryRange>)
    requires Ordered(gap, s) && i < |s| && Ordered(gap, pieces)
    requires forall p | p in pieces :: s[i].start <= p.start && p.end <= s[i].end
    ensures Ordered(gap, s[..i] + pieces + s[i + 1..])
  {
  }
}
