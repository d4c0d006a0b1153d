/** The kernel heap: common/MemoryPool.hpp, and the paged pool of kernel/memory/PagedPool.hpp.

    The free list is modelled as a sequence of blocks. `headers` is the size field each block header
    holds in memory. */
module MemoryPool {
  import opened Blocks
  import opened Lists
  import opened Wrappers

  // size_t counters wrap
  const WORD := 0x1_0000_0000_0000_0000

  // and `unsigned` keeps 32 bits of them
  const U32_RANGE := 0x1_0000_0000

  /** A size_t stored in an `unsigned`. */
  function Narrow(x: nat): (r: nat)
    ensures r <= x && r < U32_RANGE && (r == x <==> x < U32_RANGE)
  {
    x % U32_RANGE
  }

  lemma NarrowKeepsLowBits(x: nat)
    ensures (x - Narrow(x)) % U32_RANGE == 0
  {
  }

  /** What malloc looks for when it is asked for `size` bytes. */
  function Required(size: nat, alignment: nat): nat
    requires alignment > 0
  {
    Narrow(Align(size, alignment))
  }

  function Align(x: nat, alignment: nat): nat
    requires alignment > 0
  {
    x + if x % alignment != 0 then alignment - x % alignment else 0
  }

  predicate Aligned(alignment: nat, b: Block)
    requires alignment > 0
  {
    b.addr % alignment == 0 && b.size % alignment == 0
  }

  predicate OnBoundary(alignment: nat, address: nat)
    requires alignment > 0
  {
    address % alignment == 0
  }

  ghost predicate AlignedBlocks(alignment: nat, blocks: multiset<Block>)
    requires alignment > 0
  {
    forall b {:trigger Aligned(alignment, b)} | b in blocks :: Aligned(alignment, b)
  }

  lemma AddAligned(a: int, b: int, m: nat)
    requires m > 0 && a % m == 0 && b % m == 0
    ensures (a + b) % m == 0 && (a - b) % m == 0
  {
    var p, q := a / m, b / m;
    assert a == p * m && b == q * m;
    assert a + b == (p + q) * m && a - b == (p - q) * m;
    MultipleAligned(p + q, m);
    MultipleAligned(p - q, m);
  }

  lemma AtLeastOnce(k: int, m: nat)
    ensures k >= 1 ==> k * m >= m
    ensures k <= -1 ==> k * m <= 0 - m
  {
  }

  lemma MultipleAligned(k: int, m: nat)
    requires m > 0
    ensures k * m % m == 0
  {
    var q := k * m / m;
    AtLeastOnce(k - q, m);
    assert (k - q) * m == k * m % m;
  }

  /** Align rounds up to the next multiple, and leaves multiples alone. */
  lemma AlignFacts(x: nat, m: nat)
    requires m > 0
    ensures x <= Align(x, m) < x + m && Align(x, m) % m == 0
    ensures Align(Align(x, m), m) == Align(x, m)
  {
    var q := x / m;
    assert x == q * m + x % m;
    if x % m != 0 {
      assert Align(x, m) == (q + 1) * m;
      MultipleAligned(q + 1, m);
    }
  }

  /** Index i is the first block of the list that is big enough, or there is none. */
  ghost predicate FirstFit(s: seq<Block>, size: nat, i: nat) {
    && i <= |s|
    && (forall j | 0 <= j < i :: s[j].size < size)
    && (i < |s| ==> s[i].size >= size)
  }

  /** Block i is big enough, and no smaller one is. */
  ghost predicate SmallestFit(s: seq<Block>, size: nat, i: nat) {
    i < |s| && s[i].size >= size && forall b | b in s && b.size >= size :: s[i].size <= b.size
  }

  lemma FirstFitIsSmallest(s: seq<Block>, size: nat, i: nat)
    requires Sorted(s) && FirstFit(s, size, i)
    ensures if Fits(s, size) then SmallestFit(s, size, i) else i == |s|
  {
    if i < |s| {
      SortedBelow(s, i);
      assert s[i] in s;
    }
  }

  /** The size a block is handed out with: what was asked for if the remainder, or what is left of
      it in 32 bits, is worth keeping, and otherwise all of it. */
  function GrantedSize(h: nat, alignment: nat, size: nat, required: nat): nat {
    if size >= required && Narrow(size - required) > h && Narrow(size - required) >= alignment then required else size
  }

  /** A block is handed out whole or cut to what is looked for. If the rest is below 2^32 it is cut
      exactly when the rest is more than a header and no less than the alignment: little is wasted. */
  predicate CutWell(h: nat, alignment: nat, found: Block, required: nat, granted: Block) {
    var rest := found.size - required;
    && granted.addr == found.addr && required <= granted.size <= found.size
    && (granted.size == required || granted.size == found.size)
    && (rest < U32_RANGE && granted.size < found.size ==> rest > h && rest >= alignment)
    && (rest < U32_RANGE ==> granted.size <= required + h || granted.size < required + alignment)
  }

  lemma GrantedIsCutWell(h: nat, alignment: nat, found: Block, required: nat)
    requires required <= found.size
    ensures CutWell(h, alignment, found, required, Head(found, GrantedSize(h, alignment, found.size, required)))
    ensures GrantedSize(h, alignment, found.size, required) < found.size ==>
      (found.size - required) % U32_RANGE > h && (found.size - required) % U32_RANGE >= alignment
    ensures GrantedSize(h, alignment, found.size, required) > required ==>
      (found.size - required) % U32_RANGE <= h || (found.size - required) % U32_RANGE < alignment
  {
  }

  /** The part of block b behind what is granted that goes back to the free list. */
  ghost function Tail(h: nat, b: Block, granted: nat): multiset<Block> {
    if granted <= b.size && Narrow(b.size - granted) > h
    then multiset{Block(b.addr + h + granted, Narrow(b.size - granted) - h)}
    else multiset{}
  }

  ghost predicate LostAt(h: nat, b: Block, granted: nat, n: int)
    requires granted <= b.size
  {
    b.addr + h + granted + Narrow(b.size - granted) <= n < End(h, b)
  }

  /** The part of block b that is neither granted nor goes back to the free list. */
  ghost function Lost(h: nat, b: Block, granted: nat): iset<int>
    requires granted <= b.size
  {
    iset n: int | LostAt(h, b, granted, n)
  }

  /** Splitting a block loses nothing exactly when the remainder fits 32 bits. */
  lemma SplitLosesNothingIff(h: nat, b: Block, granted: nat)
    requires granted <= b.size
    ensures Lost(h, b, granted) == iset{} <==> b.size - granted < U32_RANGE
  {
    if b.size - granted >= U32_RANGE {
      assert End(h, b) - 1 in Lost(h, b, granted);
    }
  }

  /** Nothing of the block that malloc found is lost exactly when the remainder fits 32 bits, or its
      low 32 bits are not worth keeping, so that the block is not split at all. */
  lemma LosesNothingIff(h: nat, alignment: nat, b: Block, required: nat)
    requires required <= b.size
    ensures var remainder := b.size - required;
      Lost(h, b, GrantedSize(h, alignment, b.size, required)) == iset{} <==>
        remainder < U32_RANGE || Narrow(remainder) <= h || Narrow(remainder) < alignment
  {
    SplitLosesNothingIff(h, b, GrantedSize(h, alignment, b.size, required));
  }

  /** What is lost of a block that is split: the bytes at its end, a multiple of 2^32 of them. */
  lemma LosesTheEnd(h: nat, b: Block, granted: nat, n: int)
    requires granted <= b.size
    ensures n in Lost(h, b, granted) <==>
      End(h, b) - (b.size - granted) / U32_RANGE * U32_RANGE <= n < End(h, b)
  {
  }

  /** A free block of 6 GiB asked for 16 bytes: 4 GiB are lost. */
  lemma LosesFourGibibytes(h: nat, alignment: nat)
    requires h < 0x4000_0000 && alignment < 0x4000_0000
    ensures var b := Block(0, 0x1_8000_0000);
      && GrantedSize(h, alignment, b.size, 16) == 16
      && forall n :: LostAt(h, b, 16, n) <==> h + 0x8000_0000 <= n < h + 0x1_8000_0000
  {
  }

  /** From a block of this many bytes enough is granted. */
  predicate Suffices(h: nat, alignment: nat, size: nat, found: nat)
    requires alignment > 0
  {
    GrantedSize(h, alignment, found, Required(size, alignment)) >= size
  }

  /** Enough is granted from every block that is found exactly when the bytes asked for, rounded up,
      fit 32 bits. */
  lemma GrantedSufficesIff(h: nat, alignment: nat, size: nat)
    requires 0 < alignment <= U32_RANGE
    ensures (forall found: nat | found >= Required(size, alignment) :: Suffices(h, alignment, size, found)) <==>
      Align(size, alignment) < U32_RANGE
  {
    AlignFacts(size, alignment);
    if Align(size, alignment) >= U32_RANGE {
      NarrowDrops(Align(size, alignment));
      assert !Suffices(h, alignment, size, Required(size, alignment));
    }
  }

  lemma NarrowDrops(x: nat)
    requires x >= U32_RANGE
    ensures Narrow(x) <= x - U32_RANGE
  {
  }

  class MemoryPool {
    const alignment: nat
    const headerSize: nat
    const pageSize: nat

    // the size_t counter, before it is reduced modulo WORD
    var available: int
    var used: int
    var needsCompacting: bool
    var availableBlocks: seq<Block>
    var headers: map<nat, nat>

    // the blocks handed out, oldest first; those and the free ones; every byte ever added, and
    // those of them that are not lost; header bytes won by merging
    ghost var live: seq<Block>
    ghost var blocks: multiset<Block>
    ghost var added: iset<int>
    ghost var owned: iset<int>
    ghost var reclaimed: nat

    /** The invariant of every public state. */
    ghost predicate Valid()
      reads this
    {
      Consistent() && Sorted(availableBlocks)
    }

    ghost predicate Consistent()
      reads this
    {
      && alignment > 0 && headerSize > 0 && pageSize > headerSize && OnBoundary(alignment, U32_RANGE)
      && owned <= added
      && Tiles(headerSize, owned, blocks)
      && blocks == multiset(availableBlocks) + multiset(live)
      && available == Sum(availableBlocks) - reclaimed
      && LiveRecorded()
      && (RightlySized() ==> AlignedBlocks(alignment, blocks))
    }

    /** Headers and pages are multiples of the alignment: then every address the pool gives is too. */
    predicate RightlySized() {
      alignment > 0 && OnBoundary(alignment, headerSize) && OnBoundary(alignment, pageSize)
    }

    ghost function Now(): Contents
      reads this
    {
      Contents(availableBlocks, live, owned)
    }

    function AvailableWord(): nat
      reads this
    {
      available % WORD
    }

    /** A counter that fell below zero has wrapped around. */
    lemma AvailableWordIs()
      ensures AvailableWord() < WORD
      ensures 0 <= available < WORD ==> AvailableWord() == available
      ensures -WORD <= available < 0 ==> AvailableWord() == available + WORD
    {
    }

    /** PagedPool(): the kernel heap starts with no memory at all. */
    constructor (alignment: nat, headerSize: nat, pageSize: nat)
      requires alignment > 0 && headerSize > 0 && pageSize > headerSize && OnBoundary(alignment, U32_RANGE)
      ensures Valid() && live == [] && added == owned == iset{} && availableBlocks == []
      ensures this.alignment == alignment && this.headerSize == headerSize && this.pageSize == pageSize
    {
      this.alignment, this.headerSize, this.pageSize := alignment, headerSize, pageSize;
      available, used, needsCompacting := 0, 0, false;
      availableBlocks, headers := [], map[];
      live, blocks, added, owned, reclaimed := [], multiset{}, iset{}, iset{}, 0;
    }

    // ---------------------------------------------------------------- search

    method SearchForwards(size: nat) returns (i: nat)
      ensures FirstFit(availableBlocks, size, i)
    {
      i := 0;
      while i < |availableBlocks| && availableBlocks[i].size < size
        invariant i <= |availableBlocks|
        invariant forall j | 0 <= j < i :: availableBlocks[j].size < size
      {
        i := i + 1;
      }
    }

    method SearchBackwards(size: nat) returns (i: nat)
      requires Sorted(availableBlocks)
      ensures FirstFit(availableBlocks, size, i)
    {
      i := |availableBlocks|;
      var k := |availableBlocks|;
      while k > 0
        invariant 0 <= k <= |availableBlocks| && i == |availableBlocks|
        invariant (forall j | k <= j < |availableBlocks| :: availableBlocks[j].size < size)
               || (k > 0 && availableBlocks[k - 1].size >= size)
      {
        k := k - 1;
        if availableBlocks[k].size >= size && (k == 0 || availableBlocks[k - 1].size < size) {
          if k > 0 {
            SortedBelow(availableBlocks, k - 1);
          }
          return k;
        }
      }
    }

    /** Small blocks are looked for from the small end, large ones from the other. */
    method Search(required: nat) returns (i: nat)
      requires Sorted(availableBlocks)
      ensures FirstFit(availableBlocks, required, i)
      ensures if Fits(availableBlocks, required) then SmallestFit(availableBlocks, required, i)
        else i == |availableBlocks|
    {
      if required < pageSize {
        i := SearchForwards(required);
      } else {
        i := SearchBackwards(required);
      }
      FirstFitIsSmallest(availableBlocks, required, i);
    }

    /** claim_block: put a block into the free list where its size belongs. */
    method ClaimBlock(reclaim: Block) returns (ghost k: nat)
      requires Sorted(availableBlocks) && reclaim !in availableBlocks
      modifies this`available, this`availableBlocks
      ensures k <= |old(availableBlocks)| && availableBlocks == With(old(availableBlocks), k, reclaim)
      ensures Sorted(availableBlocks)
      ensures available == old(available) + reclaim.size
    {
      available := available + reclaim.size;
      var i: nat;
      if reclaim.size < pageSize {
        i := 0;
        while i < |availableBlocks| && availableBlocks[i].size < reclaim.size
          invariant i <= |availableBlocks|
          invariant forall j | 0 <= j < i :: availableBlocks[j].size < reclaim.size
        {
          i := i + 1;
        }
      } else {
        i := |availableBlocks|;
        while i > 0 && availableBlocks[i - 1].size > reclaim.size
          invariant i <= |availableBlocks|
          invariant forall j | i <= j < |availableBlocks| :: availableBlocks[j].size > reclaim.size
        {
          i := i - 1;
        }
      }
      k := i;
      WithSorted(availableBlocks, k, reclaim);
      availableBlocks := availableBlocks[..i] + [reclaim] + availableBlocks[i..];
    }

    // ---------------------------------------------------------------- malloc

    method PopBlock(i: nat) returns (block: Block)
      requires Sorted(availableBlocks) && i < |availableBlocks|
      modifies this`available, this`availableBlocks
      ensures block == old(availableBlocks)[i] && availableBlocks == Without(old(availableBlocks), i)
      ensures Sorted(availableBlocks)
      ensures multiset(availableBlocks) == multiset(old(availableBlocks)) - multiset{block}
      ensures Sum(availableBlocks) - available == old(Sum(availableBlocks) - available)
    {
      block := availableBlocks[i];
      WithoutFacts(availableBlocks, i);
      WithoutSorted(availableBlocks, i);
      availableBlocks := availableBlocks[..i] + availableBlocks[i + 1..];
      available := available - block.size;
    }

    method PutBlock(block: Block)
      requires Sorted(availableBlocks) && block !in availableBlocks
      modifies this`available, this`availableBlocks
      ensures Sorted(availableBlocks) && block in availableBlocks
      ensures multiset(availableBlocks) == multiset(old(availableBlocks)) + multiset{block}
      ensures Sum(availableBlocks) - available == old(Sum(availableBlocks) - available)
    {
      ghost var k := ClaimBlock(block);
      WithFacts(old(availableBlocks), k, block);
      assert availableBlocks[k] == block;
    }

    /** Put back the tail of a block that is about to be handed out, when it can be split. */
    method ReturnTail(block: Block, required: nat) returns (granted: Block)
      requires Sorted(availableBlocks) && block.size >= required && headerSize > 0
      requires forall b | b in availableBlocks :: Apart(headerSize, block, b)
      modifies this`available, this`availableBlocks
      ensures granted == Head(block, GrantedSize(headerSize, alignment, block.size, required))
      ensures Sorted(availableBlocks)
      ensures multiset(availableBlocks) == multiset(old(availableBlocks)) + Tail(headerSize, block, granted.size)
      ensures Sum(availableBlocks) - available == old(Sum(availableBlocks) - available)
    {
      granted := block;
      var remaining := Narrow(block.size - required);
      if remaining > headerSize && remaining >= alignment {
        granted := Head(block, required);
        var rest := Block(block.addr + headerSize + required, remaining - headerSize);
        assert Tail(headerSize, block, required) == multiset{rest};
        assert !Apart(headerSize, block, rest);
        PutBlock(rest);
      } else {
        assert Tail(headerSize, block, block.size) == multiset{};
      }
    }

    /** The handed-out blocks are counted in `used` and have their sizes in their headers. */
    ghost predicate LiveRecorded()
      reads this
    {
      && used == Sum(live)
      && forall b | b in live :: b.addr in headers && headers[b.addr] == b.size
    }

    method Record(granted: Block)
      requires LiveRecorded() && forall b | b in live :: b.addr != granted.addr
      modifies this`used, this`headers, this`live
      ensures LiveRecorded() && live == old(live) + [granted]
      ensures multiset(live) == multiset(old(live)) + multiset{granted}
    {
      used := used + granted.size;
      headers := headers[granted.addr := granted.size];
      SumPut(live, granted, []);
      live := live + [granted];
    }

    /** Hand out block i of the free list, returning its tail to the list when it can be split. */
    method TakeBlock(i: nat, required: nat) returns (address: nat)
      requires Valid() && FirstFit(availableBlocks, required, i) && SmallestFit(availableBlocks, required, i)
      requires OnBoundary(alignment, required)
      modifies this`available, this`used, this`availableBlocks, this`headers, this`live, this`blocks, this`owned
      ensures Valid()
      ensures Granted(headerSize, alignment, old(Now()), Now(), required, i, address)
      ensures RightlySized() ==> OnBoundary(alignment, address)
    {
      AlignedAddress(alignment, headerSize, blocks, availableBlocks[i]);
      GrantedIsCutWell(headerSize, alignment, availableBlocks[i], required);
      address := CutBlock(i, required);
    }

    method CutBlock(i: nat, required: nat) returns (address: nat)
      requires Valid() && FirstFit(availableBlocks, required, i) && SmallestFit(availableBlocks, required, i)
      requires OnBoundary(alignment, required)
      requires CutWell(headerSize, alignment, availableBlocks[i], required,
        Head(availableBlocks[i], GrantedSize(headerSize, alignment, availableBlocks[i].size, required)))
      modifies this`available, this`used, this`availableBlocks, this`headers, this`live, this`blocks, this`owned
      ensures Valid()
      ensures Granted(headerSize, alignment, old(Now()), Now(), required, i, address)
    {
      ghost var before := multiset(live);
      var granted := CarveBlock(i, required);
      Replan(old(availableBlocks), before, i, granted);
      address := granted.addr + headerSize;
    }

    /** Take block i out of the free list, put its tail back, when it can be split, and record what is
        handed out of it. */
    method CarveBlock(i: nat, required: nat) returns (granted: Block)
      requires Sorted(availableBlocks) && LiveRecorded() && headerSize > 0
      requires i < |availableBlocks| && availableBlocks[i].size >= required
      requires Tiles(headerSize, owned, multiset(availableBlocks) + multiset(live))
      modifies this`available, this`availableBlocks, this`used, this`headers, this`live
      ensures Sorted(availableBlocks) && LiveRecorded()
      ensures granted
        == Head(old(availableBlocks)[i], GrantedSize(headerSize, alignment, old(availableBlocks)[i].size, required))
      ensures Taken(headerSize, multiset(old(availableBlocks)), multiset(availableBlocks),
                    old(availableBlocks)[i], granted.size)
      ensures live == old(live) + [granted] && multiset(live) == multiset(old(live)) + multiset{granted}
      ensures Sum(availableBlocks) - available == old(Sum(availableBlocks) - available)
    {
      OthersApart(headerSize, owned, availableBlocks, multiset(live), i);
      LiveApart(headerSize, owned, multiset(availableBlocks), multiset(live), availableBlocks[i]);
      var block := PopBlock(i);
      granted := ReturnTail(block, required);
      Record(granted);
    }

    /** The bookkeeping of a block handed out: the blocks tile the same bytes less the lost ones. */
    ghost method Replan(free: seq<Block>, before: multiset<Block>, i: nat, granted: Block)
      requires alignment > 0 && headerSize > 0 && i < |free| && Tiles(headerSize, owned, blocks)
        && blocks == multiset(free) + before
      requires PartOf(headerSize, free[i], granted) && (granted == free[i] || OnBoundary(alignment, granted.size))
      requires Taken(headerSize, multiset(free), multiset(availableBlocks), free[i], granted.size)
      requires multiset(live) == before + multiset{granted}
      requires OnBoundary(alignment, U32_RANGE) && (RightlySized() ==> AlignedBlocks(alignment, blocks))
      modifies this`blocks, this`owned
      ensures Tiles(headerSize, owned, blocks) && blocks == multiset(availableBlocks) + multiset(live)
      ensures RightlySized() ==> AlignedBlocks(alignment, blocks)
      ensures owned == old(owned) - Lost(headerSize, free[i], granted.size)
    {
      TakeTiles(headerSize, owned, multiset(free), multiset(availableBlocks), before, free[i], granted);
      TakenAligned(alignment, headerSize, multiset(free), multiset(availableBlocks), before, free[i], granted.size);
      blocks := multiset(availableBlocks) + (before + multiset{granted});
      owned := owned - Lost(headerSize, free[i], granted.size);
    }

    method Malloc(size: nat) returns (address: Option<nat>, ghost i: nat)
      requires Valid()
      modifies this`available, this`used, this`needsCompacting, this`availableBlocks, this`headers
      modifies this`live, this`blocks, this`owned, this`reclaimed
      ensures Valid() && added == old(added)
      ensures address.Some? <==> Fits(old(availableBlocks), Required(size, alignment))
      ensures address.None? ==> live == old(live) && owned == old(owned)
      ensures address.None? ==> if old(needsCompacting && AvailableWord() >= Required(size, alignment))
        then !needsCompacting && NoNeighbours(headerSize, availableBlocks)
        else availableBlocks == old(availableBlocks) && needsCompacting == old(needsCompacting)
      ensures address.Some? ==> needsCompacting == old(needsCompacting)
      ensures address.Some? ==>
        Granted(headerSize, alignment, old(Now()), Now(), Required(size, alignment), i, address.value)
      ensures RightlySized() && address.Some? ==> OnBoundary(alignment, address.value)
    {
      var required := Narrow(Align(size, alignment));
      RequiredAligned(size, alignment);
      var found := Search(required);
      i := found;
      address := None;
      if found < |availableBlocks| {
        var a := TakeBlock(found, required);
        address := Some(a);
      } else {
        CompactIfUseful(required);
      }
    }

    /** The last resort of malloc. Compact reports failure, so the search is not tried again. */
    method CompactIfUseful(required: nat)
      requires Valid()
      modifies this`availableBlocks, this`blocks, this`reclaimed, this`needsCompacting
      ensures Valid()
      ensures if old(needsCompacting && AvailableWord() >= required)
        then !needsCompacting && NoNeighbours(headerSize, availableBlocks)
        else availableBlocks == old(availableBlocks) && needsCompacting == old(needsCompacting)
    {
      if needsCompacting && AvailableWord() >= required {
        var _ := Compact();
      }
    }

    // -------------------------------------------------------------- free

    method Forget(ghost i: nat, size: nat)
      requires LiveRecorded() && i < |live| && live[i].size == size
      modifies this`used, this`live
      ensures LiveRecorded() && live == Without(old(live), i)
      ensures multiset(live) == multiset(old(live)) - multiset{old(live)[i]}
      ensures used == old(used) - size
    {
      WithoutFacts(live, i);
      live := Without(live, i);
      used := used - size;
    }

    /** Live block i goes back to the free list. */
    method Unrecord(block: Block, ghost i: nat, ghost address: nat) returns (ghost k: nat)
      requires Sorted(availableBlocks) && LiveRecorded() && i < |live| && block == live[i] && block !in availableBlocks
      requires block.addr + headerSize == address
      requires blocks == multiset(availableBlocks) + multiset(live)
      modifies this`available, this`used, this`availableBlocks, this`live
      ensures Sorted(availableBlocks) && LiveRecorded()
      ensures Freed(headerSize, address, old(live), live, i, old(availableBlocks), availableBlocks, k)
      ensures blocks == multiset(availableBlocks) + multiset(live)
      ensures Sum(availableBlocks) - available == old(Sum(availableBlocks) - available)
    {
      k := ClaimBlock(block);
      FreedMembers(old(availableBlocks), k, live, i, availableBlocks);
      Forget(i, block.size);
    }

    /** get_block: step back over the header, which holds the size. */
    method BlockAt(address: nat, ghost i: nat) returns (block: Block)
      requires Valid() && i < |live| && live[i].addr + headerSize == address
      ensures block == live[i] && block !in availableBlocks
    {
      assert live[i] in live;
      block := Block(address - headerSize, headers[address - headerSize]);
      FreshInList(headerSize, owned, multiset(availableBlocks), multiset(live), block);
    }

    /** free: the header in front of the address says how much comes back. */
    method Free(address: nat) returns (ghost i: nat, ghost k: nat)
      requires Valid() && exists i | 0 <= i < |live| :: live[i].addr + headerSize == address
      modifies this`available, this`used, this`needsCompacting, this`availableBlocks, this`live
      ensures Valid() && needsCompacting
      ensures Freed(headerSize, address, old(live), live, i, old(availableBlocks), availableBlocks, k)
    {
      i :| 0 <= i < |live| && live[i].addr + headerSize == address;
      var block := BlockAt(address, i);
      k := Unrecord(block, i, address);
      needsCompacting := true;
    }

    // ----------------------------------------------------------- compaction

    /** The block that starts exactly where block i ends. */
    method FindFollower(i: nat) returns (j: nat)
      requires i < |availableBlocks|
      ensures Follower(headerSize, availableBlocks, i, j)
    {
      j := 0;
      while j < |availableBlocks| && (j == i || availableBlocks[j].addr != End(headerSize, availableBlocks[i]))
        invariant j <= |availableBlocks|
        invariant forall k | 0 <= k < j && k != i :: availableBlocks[k].addr != End(headerSize, availableBlocks[i])
      {
        j := j + 1;
      }
    }

    method JoinBlocks(i: nat, j: nat)
      requires i < |availableBlocks| && j < |availableBlocks|
      modifies this`availableBlocks
      ensures availableBlocks == MergedList(headerSize, old(availableBlocks), i, j)
    {
      availableBlocks := availableBlocks[i := Merged(headerSize, availableBlocks[i], availableBlocks[j])];
      availableBlocks := availableBlocks[..j] + availableBlocks[j + 1..];
    }

    /** Block j follows block i directly and becomes part of it. */
    method MergeInto(i: nat, j: nat)
      requires Consistent() && i < |availableBlocks| && j < |availableBlocks| && i != j
      requires availableBlocks[j].addr == End(headerSize, availableBlocks[i])
      modifies this`availableBlocks, this`blocks, this`reclaimed
      ensures Consistent()
      ensures availableBlocks == MergedList(headerSize, old(availableBlocks), i, j)
    {
      MergedListTiles(headerSize, owned, availableBlocks, multiset(live), i, j);
      MergedListAligned(alignment, headerSize, availableBlocks, multiset(live), i, j);
      JoinBlocks(i, j);
      blocks := multiset(availableBlocks) + multiset(live);
      reclaimed := reclaimed + headerSize;
    }

    /** The goto loop of compact: block i swallows its followers, moving down in the list when one
        was in front of it. Every merge makes the list shorter. */
    method AbsorbFollowers(start: nat) returns (i: nat)
      requires Consistent() && start < |availableBlocks| && Settled(headerSize, availableBlocks, start)
      modifies this`availableBlocks, this`blocks, this`reclaimed
      ensures Consistent() && i < |availableBlocks| <= |old(availableBlocks)|
      ensures |availableBlocks| - i <= |old(availableBlocks)| - start
      ensures Settled(headerSize, availableBlocks, i + 1)
    {
      i := start;
      var j: nat := FindFollower(i);
      while j < |availableBlocks|
        invariant Consistent() && i < |availableBlocks| <= |old(availableBlocks)|
        invariant |availableBlocks| - i <= |old(availableBlocks)| - start
        invariant Settled(headerSize, availableBlocks, i)
        invariant Follower(headerSize, availableBlocks, i, j)
        decreases |availableBlocks|
      {
        MergedSettled(headerSize, availableBlocks, i, j);
        MergeInto(i, j);
        if j < i {
          i := i - 1;
        }
        j := FindFollower(i);
      }
      NowSettled(headerSize, availableBlocks, i);
    }

    /** The sort at the end of compact: pop from the front, insert before the first that is not smaller. */
    method SortBlocks()
      modifies this`availableBlocks
      ensures Sorted(availableBlocks) && multiset(availableBlocks) == multiset(old(availableBlocks))
      ensures Sum(availableBlocks) == Sum(old(availableBlocks))
    {
      var sorted: seq<Block> := [];
      while availableBlocks != []
        invariant Sorted(sorted)
        invariant multiset(sorted) + multiset(availableBlocks) == multiset(old(availableBlocks))
        invariant Sum(sorted) + Sum(availableBlocks) == Sum(old(availableBlocks))
        decreases |availableBlocks|
      {
        var block := availableBlocks[0];
        FirstFacts(availableBlocks);
        availableBlocks := availableBlocks[1..];
        var k := 0;
        while k < |sorted| && sorted[k].size < block.size
          invariant k <= |sorted| && forall j | 0 <= j < k :: sorted[j].size < block.size
        {
          k := k + 1;
        }
        WithFacts(sorted, k, block);
        WithSorted(sorted, k, block);
        sorted := sorted[..k] + [block] + sorted[k..];
      }
      availableBlocks := sorted;
    }

    method MergeAll()
      requires Consistent()
      modifies this`availableBlocks, this`blocks, this`reclaimed
      ensures Consistent() && |availableBlocks| <= |old(availableBlocks)|
      ensures Settled(headerSize, availableBlocks, |availableBlocks|)
    {
      var i: nat := 0;
      while i < |availableBlocks|
        invariant Consistent() && i <= |availableBlocks| <= |old(availableBlocks)|
        invariant Settled(headerSize, availableBlocks, i)
        decreases |availableBlocks| - i
      {
        i := AbsorbFollowers(i);
        i := i + 1;
      }
    }

    method SettleBlocks()
      requires Consistent()
      modifies this`availableBlocks, this`blocks, this`reclaimed
      ensures Valid() && |availableBlocks| <= |old(availableBlocks)|
      ensures NoNeighbours(headerSize, availableBlocks)
    {
      MergeAll();
      ghost var merged := availableBlocks;
      SortBlocks();
      SameMembers(availableBlocks, merged);
    }

    /** compact: merge every free block with the ones that follow it directly, then sort. */
    method Compact() returns (ok: bool)
      requires Valid()
      modifies this`availableBlocks, this`blocks, this`reclaimed, this`needsCompacting
      ensures Valid() && !ok && !needsCompacting
      ensures NoNeighbours(headerSize, availableBlocks)
      ensures forall n ::
        Held(headerSize, multiset(availableBlocks), n) <==> Held(headerSize, old(multiset(availableBlocks)), n)
      ensures |availableBlocks| <= |old(availableBlocks)|
    {
      ghost var free := multiset(availableBlocks);
      SettleBlocks();
      SameFreeBytes(headerSize, owned, free, multiset(availableBlocks), multiset(live));
      needsCompacting := false;
      ok := false;
    }

    // -------------------------------------------------------- paged pool

    /** add_pages: `run` is what the page source answered, the address of a fresh run or nothing. */
    method AddPages(count: nat, run: Option<nat>) returns (ok: bool)
      requires Valid() && FreshRun(headerSize, pageSize, added, count, run)
      modifies this`available, this`availableBlocks, this`blocks, this`added, this`owned
      ensures Valid() && ok == run.Some?
      ensures !ok ==> blocks == old(blocks) && availableBlocks == old(availableBlocks) && available == old(available)
      ensures added == old(added) + RunBytes(headerSize, pageSize, count, run)
      ensures owned == old(owned) + RunBytes(headerSize, pageSize, count, run)
      ensures ok ==> PageBlock(headerSize, pageSize, count, run.value) in availableBlocks
    {
      if run.None? {
        return false;
      }
      AtLeastOnce(count, pageSize);
      var block := PageBlock(headerSize, pageSize, count, run.value);
      NotOwned(headerSize, owned, blocks, block);
      Annex(count, run.value);
      PutBlock(block);
      ok := true;
    }

    /** The bookkeeping of a fresh run of pages. */
    ghost method Annex(count: nat, address: nat)
      requires alignment > 0 && headerSize > 0 && pageSize * count >= headerSize && owned <= added
        && Tiles(headerSize, owned, blocks)
      requires FreshRun(headerSize, pageSize, added, count, Some(address))
      requires RightlySized() ==> AlignedBlocks(alignment, blocks)
      modifies this`blocks, this`added, this`owned
      ensures owned <= added && Tiles(headerSize, owned, blocks)
      ensures blocks == old(blocks) + multiset{PageBlock(headerSize, pageSize, count, address)}
      ensures added == old(added) + Bytes(headerSize, PageBlock(headerSize, pageSize, count, address))
      ensures owned == old(owned) + Bytes(headerSize, PageBlock(headerSize, pageSize, count, address))
      ensures RightlySized() ==> AlignedBlocks(alignment, blocks)
    {
      var block := PageBlock(headerSize, pageSize, count, address);
      GrowTiles(headerSize, owned, blocks, block);
      if RightlySized() {
        PageAligned(alignment, headerSize, pageSize, count, address, blocks);
      }
      added, owned := added + Bytes(headerSize, block), owned + Bytes(headerSize, block);
      blocks := blocks + multiset{block};
    }

    method MallocRound(required: nat) returns (address: Option<nat>, ghost taken: Block, ghost block: Block)
      requires Valid() && Required(required, alignment) == required
      modifies this
      ensures Valid() && added == old(added)
      ensures address.Some? <==> Fits(old(availableBlocks), required)
      ensures address.None? ==> live == old(live) && owned == old(owned)
      ensures address.Some? ==>
        HandedOut(headerSize, alignment, required, address.value, taken, block, old(live), live)
        && owned == old(owned) - Lost(headerSize, taken, block.size)
      ensures RightlySized() && address.Some? ==> OnBoundary(alignment, address.value)
    {
      ghost var free, i := availableBlocks, 0;
      taken, block := Block(0, 0), Block(0, 0);
      address, i := Malloc(required);
      if address.Some? {
        taken := free[i];
        block := Head(taken, GrantedSize(headerSize, alignment, taken.size, required));
        assert taken in free;
      }
    }

    /** Ask for the pages that a request needs: after them a block fits. */
    method AddPagesFor(required: nat, run: Option<nat>) returns (ok: bool)
      requires Valid() && FreshRun(headerSize, pageSize, added, PagesFor(headerSize, pageSize, required), run)
      modifies this`available, this`availableBlocks, this`blocks, this`added, this`owned
      ensures Valid() && ok == run.Some? && (ok ==> Fits(availableBlocks, required))
      ensures added == old(added) + RunBytes(headerSize, pageSize, PagesFor(headerSize, pageSize, required), run)
      ensures owned == old(owned) + RunBytes(headerSize, pageSize, PagesFor(headerSize, pageSize, required), run)
    {
      PagesForFits(headerSize, pageSize, required);
      var count := PagesFor(headerSize, pageSize, required);
      ok := AddPages(count, run);
      if ok {
        PageBlockFits(headerSize, pageSize, required, count, run.value, availableBlocks);
      }
    }

    /** Try to allocate, and ask for pages if that fails. */
    method PagedRound(required: nat, run: Option<nat>)
      returns (address: Option<nat>, asked: bool, ghost taken: Block, ghost block: Block)
      requires Valid() && Required(required, alignment) == required
      requires !Fits(availableBlocks, required) ==>
        FreshRun(headerSize, pageSize, added, PagesFor(headerSize, pageSize, required), run)
      modifies this
      ensures Valid() && asked == address.None?
      ensures RoundDone(required, run, old(Now()), old(added), address, taken, block, Now(), added)
      ensures RightlySized() && address.Some? ==> OnBoundary(alignment, address.value)
    {
      address, taken, block := MallocRound(required);
      asked := address.None?;
      if asked {
        var _ := AddPagesFor(required, run);
      }
    }

    /** PagedPool::malloc. `pages(k, n)` is what the page source answers to request k of this call,
        for n pages; `requests` counts them. `taken` is the free block that the result was cut from. */
    method PagedMalloc(size: nat, pages: (nat, nat) -> Option<nat>)
      returns (address: Option<nat>, requests: nat, ghost taken: Block, ghost block: Block)
      requires Valid()
      requires forall k, count | count > 0 :: FreshRun(headerSize, pageSize, added, count, pages(k, count))
      modifies this
      ensures Valid()
      ensures requests <= 1
      ensures requests == 0 <==>
        Required(size, alignment) <= old(AvailableWord()) && Fits(old(availableBlocks), Required(size, alignment))
      ensures address.None? <==>
        requests == 1 && pages(0, PagesFor(headerSize, pageSize, Required(size, alignment))).None?
      ensures var count := PagesFor(headerSize, pageSize, Required(size, alignment));
        var more := More(requests, count, pages(0, count));
        && added == old(added) + more
        && if address.None? then live == old(live) && owned == old(owned)
           else
             && HandedOut(headerSize, alignment, Required(size, alignment), address.value, taken, block,
                          old(live), live)
             && owned == old(owned) + more - Lost(headerSize, taken, block.size)
      ensures RightlySized() && address.Some? ==> OnBoundary(alignment, address.value)
    {
      var required := Narrow(Align(size, alignment));
      RequiredAgain(size, alignment);
      requests, taken, block := 0, Block(0, 0), Block(0, 0);
      if required > AvailableWord() {
        requests := 1;
        var ok := AddPagesFor(required, pages(0, PagesFor(headerSize, pageSize, required)));
        if !ok {
          return None, requests, taken, block;
        }
      }
      ghost var reply := pages(0, PagesFor(headerSize, pageSize, required));
      address := None;
      while address.None?
        invariant Valid() && requests <= 1
        invariant Paging(required, old(AvailableWord()), reply, old(Now()), old(added), requests,
                         address, taken, block, Now(), added)
        invariant RightlySized() && address.Some? ==> OnBoundary(alignment, address.value)
        decreases address.None?, 1 - requests
      {
        ghost var before, beforeAdded := Now(), added;
        var run := pages(requests, PagesFor(headerSize, pageSize, required));
        assert requests == 0 ==> added == old(added);
        var asked: bool;
        address, asked, taken, block := PagedRound(required, run);
        if asked && run.None? {
          assert requests == 0;
          return None, 1, taken, block;
        }
        PagingStep(required, old(AvailableWord()), reply, run, old(Now()), old(added), requests, before, beforeAdded,
          address, taken, block, Now(), added);
        if asked {
          requests := requests + 1;
        }
      }
    }

    /** What one try, and the pages asked for when it fails, make of the pool. */
    ghost predicate RoundDone(required: nat, run: Option<nat>, was: Contents, wasAdded: iset<int>,
                              address: Option<nat>, taken: Block, block: Block, now: Contents, nowAdded: iset<int>)
      requires pageSize > 0
    {
      && (address.Some? <==> Fits(was.free, required))
      && if address.Some? then
           && HandedOut(headerSize, alignment, required, address.value, taken, block, was.live, now.live)
           && nowAdded == wasAdded && now.owned == was.owned - Lost(headerSize, taken, block.size)
         else
           var more := RunBytes(headerSize, pageSize, PagesFor(headerSize, pageSize, required), run);
           && (run.Some? ==> Fits(now.free, required)) && now.live == was.live
           && nowAdded == wasAdded + more && now.owned == was.owned + more
    }

    /** What the loop of PagedMalloc has come to after so many requests for pages. */
    ghost predicate Paging(required: nat, word: nat, reply: Option<nat>, was: Contents, wasAdded: iset<int>,
                           requests: nat, address: Option<nat>, taken: Block, block: Block,
                           now: Contents, nowAdded: iset<int>)
      requires pageSize > 0
    {
      var more := More(requests, PagesFor(headerSize, pageSize, required), reply);
      && requests <= 1 && nowAdded == wasAdded + more
      && (requests == 0 ==>
        required <= word && if address.None? then now.free == was.free else Fits(was.free, required))
      && (requests == 1 ==> reply.Some? && (required > word || !Fits(was.free, required)))
      && (requests == 1 && address.None? ==> Fits(now.free, required))
      && if address.None? then now.live == was.live && now.owned == was.owned + more
         else
           && HandedOut(headerSize, alignment, required, address.value, taken, block, was.live, now.live)
           && now.owned == was.owned + more - Lost(headerSize, taken, block.size)
    }

    lemma PagingStep(required: nat, word: nat, reply: Option<nat>, run: Option<nat>, was: Contents, wasAdded: iset<int>,
                     requests: nat, before: Contents, beforeAdded: iset<int>,
                     address: Option<nat>, taken: Block, block: Block, now: Contents, nowAdded: iset<int>)
      requires pageSize > 0
      requires Paging(required, word, reply, was, wasAdded, requests, None, taken, block, before, beforeAdded)
      requires RoundDone(required, run, before, beforeAdded, address, taken, block, now, nowAdded)
      requires requests == 0 ==> run == reply
      requires address.Some? || run.Some?
      ensures address.Some? || requests == 0
      ensures Paging(required, word, reply, was, wasAdded, if address.Some? then requests else 1,
                     address, taken, block, now, nowAdded)
    {
      var none: iset<int> := iset{};
      assert wasAdded + none == wasAdded && was.owned + none == was.owned;
    }

    /** The bytes that came with the replies of the page source. */
    ghost function More(requests: nat, count: nat, reply: Option<nat>): iset<int> {
      if requests == 1 then RunBytes(headerSize, pageSize, count, reply) else iset{}
    }
  }

  /** A run of pages seen as one free block. */
  function PageBlock(h: nat, pageSize: nat, count: nat, address: nat): (block: Block)
    ensures pageSize * count >= h ==> block.addr == address && End(h, block) == address + pageSize * count
  {
    Block(address, if pageSize * count >= h then pageSize * count - h else 0)
  }

  /** The page source answers with nothing, or with whole pages that hold no byte the pool was ever given. */
  ghost predicate FreshRun(h: nat, pageSize: nat, added: iset<int>, count: nat, run: Option<nat>) {
    && count > 0 && pageSize > 0
    && (run.Some? ==> OnBoundary(pageSize, run.value) && added !! Bytes(h, PageBlock(h, pageSize, count, run.value)))
  }

  ghost function RunBytes(h: nat, pageSize: nat, count: nat, run: Option<nat>): iset<int> {
    if run.Some? then Bytes(h, PageBlock(h, pageSize, count, run.value)) else iset{}
  }

  function PagesFor(h: nat, pageSize: nat, required: nat): nat
    requires pageSize > 0
  {
    if h + required >= pageSize then (h + required + pageSize - 1) / pageSize else 1
  }

  lemma PagesForFits(h: nat, pageSize: nat, required: nat)
    requires pageSize > 0
    ensures PagesFor(h, pageSize, required) > 0 && pageSize * PagesFor(h, pageSize, required) >= h + required
    ensures PagesFor(h, pageSize, required) > 1 ==> pageSize * (PagesFor(h, pageSize, required) - 1) < h + required
  {
    var all := h + required + pageSize - 1;
    assert all == pageSize * (all / pageSize) + all % pageSize;
    if h + required >= pageSize {
      assert pageSize * (all / pageSize - 1) == pageSize * (all / pageSize) - pageSize;
    }
  }

  /** A run of pages brings exactly its own bytes. */
  lemma RunBytesAre(h: nat, pageSize: nat, count: nat, run: Option<nat>, n: int)
    requires pageSize * count >= h
    ensures n in RunBytes(h, pageSize, count, run) <==> run.Some? && run.value <= n < run.value + pageSize * count
  {
  }

  lemma PageAligned(m: nat, h: nat, pageSize: nat, count: nat, address: nat, blocks: multiset<Block>)
    requires m > 0 && pageSize > 0 && pageSize * count >= h && AlignedBlocks(m, blocks)
    requires OnBoundary(m, h) && OnBoundary(m, pageSize) && OnBoundary(pageSize, address)
    ensures AlignedBlocks(m, blocks + multiset{PageBlock(h, pageSize, count, address)})
  {
    var q := address / pageSize;
    assert address == pageSize * q;
    PagesAligned(m, pageSize, count);
    PagesAligned(m, pageSize, q);
    AddAligned(pageSize * count, h, m);
    assert Aligned(m, PageBlock(h, pageSize, count, address));
  }

  lemma PagesAligned(m: nat, pageSize: nat, count: nat)
    requires m > 0 && OnBoundary(m, pageSize)
    ensures pageSize * count % m == 0
  {
    var q := pageSize / m;
    assert pageSize * count == (q * count) * m;
    MultipleAligned(q * count, m);
  }

  lemma PageBlockFits(h: nat, pageSize: nat, required: nat, count: nat, address: nat, free: seq<Block>)
    requires pageSize * count >= h + required && PageBlock(h, pageSize, count, address) in free
    ensures Fits(free, required)
  {
  }

  ghost predicate Fits(free: seq<Block>, required: nat) {
    exists b :: b in free && b.size >= required
  }

  /** Block b is big enough, starts one header before the address, was cut from the free block
      `taken` as GrantedSize says, and is the one that became live. */
  ghost predicate HandedOut(h: nat, alignment: nat, required: nat, address: nat, taken: Block, b: Block,
                            live: seq<Block>, after: seq<Block>)
  {
    && b == Head(taken, GrantedSize(h, alignment, taken.size, required)) && required <= b.size <= taken.size
    && CutWell(h, alignment, taken, required, b) && address == b.addr + h && after == live + [b]
  }

  /** A block fits if it is at least as large, and the first that fits has none before it. */
  lemma FitIs(free: seq<Block>, required: nat, i: nat)
    ensures Fits(free, required) <==> exists j :: 0 <= j < |free| && required <= free[j].size
    ensures i < |free| ==>
      (FirstFit(free, required, i) <==> required <= free[i].size && !Fits(free[..i], required))
  {
    if Fits(free, required) {
      var b :| b in free && b.size >= required;
    }
    if i < |free| && !Fits(free[..i], required) {
      forall j | 0 <= j < i ensures free[j].size < required {
        assert free[j] in free[..i];
      }
    }
  }

  lemma NotOwned(h: nat, owned: iset<int>, blocks: multiset<Block>, b: Block)
    requires h > 0 && Tiles(h, owned, blocks) && owned !! Bytes(h, b)
    ensures b !in blocks
  {
    assert b.addr in Bytes(h, b);
    assert b in blocks ==> Held(h, blocks, b.addr);
  }

  function MergedList(h: nat, s: seq<Block>, i: nat, j: nat): seq<Block>
    requires i < |s| && j < |s|
  {
    Without(s[i := Merged(h, s[i], s[j])], j)
  }

  lemma MergedListFacts(h: nat, s: seq<Block>, i: nat, j: nat)
    requires i < |s| && j < |s| && i != j
    ensures multiset(MergedList(h, s, i, j))
      == multiset(s) - multiset{s[i]} + multiset{Merged(h, s[i], s[j])} - multiset{s[j]}
    ensures Sum(MergedList(h, s, i, j)) == Sum(s) + h
  {
    SetFacts(s, i, Merged(h, s[i], s[j]));
    WithoutFacts(s[i := Merged(h, s[i], s[j])], j);
  }

  lemma SetFacts(s: seq<Block>, i: nat, b: Block)
    requires i < |s|
    ensures multiset(s[i := b]) == multiset(s) - multiset{s[i]} + multiset{b}
    ensures Sum(s[i := b]) == Sum(s) - s[i].size + b.size
  {
    WithoutFacts(s, i);
    WithoutFacts(s[i := b], i);
    assert Without(s[i := b], i) == Without(s, i);
  }

  lemma MergedListTiles(h: nat, owned: iset<int>, s: seq<Block>, live: multiset<Block>, i: nat, j: nat)
    requires h > 0 && Tiles(h, owned, multiset(s) + live)
    requires i < |s| && j < |s| && i != j && s[j].addr == End(h, s[i])
    ensures Tiles(h, owned, multiset(MergedList(h, s, i, j)) + live)
    ensures Sum(MergedList(h, s, i, j)) == Sum(s) + h
  {
    TwoMembers(s, i, j);
    assert s[i] in multiset(s) && s[j] in multiset(s);
    MergeTiles(h, owned, multiset(s) + live, s[i], s[j]);
    MergedListFacts(h, s, i, j);
    RegroupMerge(multiset(s), live, multiset{s[i]}, multiset{s[j]}, multiset{Merged(h, s[i], s[j])});
  }

  lemma RegroupMerge(free: multiset<Block>, live: multiset<Block>, b: multiset<Block>, c: multiset<Block>,
                     merged: multiset<Block>)
    requires b + c <= free
    ensures free - b + merged - c + live == free + live - b - c + merged
  {
  }

  lemma TwoMembers(s: seq<Block>, i: nat, j: nat)
    requires i < |s| && j < |s| && i != j
    ensures multiset{s[i]} + multiset{s[j]} <= multiset(s)
  {
    WithoutFacts(s, i);
    assert s[j] == Without(s, i)[if j < i then j else j - 1];
    assert s[j] in multiset(Without(s, i));
  }

  lemma MergedListAligned(m: nat, h: nat, s: seq<Block>, live: multiset<Block>, i: nat, j: nat)
    requires m > 0 && i < |s| && j < |s| && i != j
    ensures h % m == 0 && AlignedBlocks(m, multiset(s) + live) ==>
      AlignedBlocks(m, multiset(MergedList(h, s, i, j)) + live)
  {
    if h % m == 0 && AlignedBlocks(m, multiset(s) + live) {
      assert s[i] in multiset(s) && s[j] in multiset(s);
      MergeAligned(m, h, s[i], s[j]);
      MergedListFacts(h, s, i, j);
    }
  }

  /** No block starts where one of the first n blocks ends. */
  ghost predicate Settled(h: nat, s: seq<Block>, n: nat) {
    forall p, k | 0 <= p < n && p < |s| && 0 <= k < |s| :: s[k].addr != End(h, s[p])
  }

  /** Block j of the list starts where block i ends; j is the length of the list if none does. */
  ghost predicate Follower(h: nat, s: seq<Block>, i: nat, j: nat)
    requires i < |s|
  {
    && j <= |s|
    && (j < |s| ==> j != i && s[j].addr == End(h, s[i]))
    && (j == |s| ==> forall k | 0 <= k < |s| && k != i :: s[k].addr != End(h, s[i]))
  }

  lemma NowSettled(h: nat, s: seq<Block>, i: nat)
    requires h > 0 && i < |s| && Settled(h, s, i) && Follower(h, s, i, |s|)
    ensures Settled(h, s, i + 1)
  {
  }

  lemma MergedSettled(h: nat, s: seq<Block>, i: nat, j: nat)
    requires i < |s| && j < |s| && i != j && Settled(h, s, i)
    ensures Settled(h, MergedList(h, s, i, j), if j < i then i - 1 else i)
  {
  }

  predicate Follows(h: nat, b: Block, c: Block) {
    c.addr == End(h, b)
  }

  ghost predicate NoNeighbours(h: nat, s: seq<Block>) {
    forall b, c {:trigger Follows(h, b, c)} | b in s && c in s :: !Follows(h, b, c)
  }

  lemma SameMembers(s: seq<Block>, t: seq<Block>)
    requires multiset(s) == multiset(t)
    ensures forall b :: b in s <==> b in t
  {
    assert forall b :: b in s <==> b in multiset(s);
    assert forall b :: b in t <==> b in multiset(t);
  }

  lemma MergeAligned(m: nat, h: nat, b: Block, c: Block)
    requires m > 0 && Aligned(m, b) && Aligned(m, c) && h % m == 0
    ensures Aligned(m, Merged(h, b, c))
  {
    AddAligned(b.size, h, m);
    AddAligned(b.size + h, c.size, m);
  }

  /** The free blocks hold exactly the owned bytes the live ones do not: so as long as `owned` and
      the live blocks stay the same, the free blocks keep the same bytes. */
  lemma FreeBytes(h: nat, owned: iset<int>, free: multiset<Block>, live: multiset<Block>, n: int)
    requires h > 0 && Tiles(h, owned, free + live)
    ensures Held(h, free, n) <==> n in owned && !Held(h, live, n)
  {
    forall b, c | b in free && c in live ensures b != c && Apart(h, b, c) {
      assert (free + live)[b] <= 1;
    }
    if Held(h, free, n) {
      var b :| b in free && Holds(h, b, n);
      assert b in free + live;
    }
    if Held(h, free + live, n) {
      var b :| b in free + live && Holds(h, b, n);
      assert b in free || b in live;
    }
  }

  lemma SameFreeBytes(h: nat, owned: iset<int>, free: multiset<Block>, after: multiset<Block>, live: multiset<Block>)
    requires h > 0 && Tiles(h, owned, free + live) && Tiles(h, owned, after + live)
    ensures forall n :: Held(h, after, n) <==> Held(h, free, n)
  {
    forall n ensures Held(h, after, n) <==> Held(h, free, n) {
      FreeBytes(h, owned, free, live, n);
      FreeBytes(h, owned, after, live, n);
    }
  }

  /** The heap as far as malloc changes it: the free and the live blocks, and the bytes not lost. */
  datatype Contents = Contents(free: seq<Block>, live: seq<Block>, owned: iset<int>)

  /** The address came from the first and smallest block that fits, number i of the list, whose tail
      is free again. */
  ghost predicate Granted(h: nat, alignment: nat, was: Contents, now: Contents, required: nat, i: nat, address: nat) {
    && FirstFit(was.free, required, i) && SmallestFit(was.free, required, i) && address == was.free[i].addr + h
    && var granted := GrantedSize(h, alignment, was.free[i].size, required);
    && now.live == was.live + [Head(was.free[i], granted)]
    && CutWell(h, alignment, was.free[i], required, Head(was.free[i], granted))
    && Taken(h, multiset(was.free), multiset(now.free), was.free[i], granted)
    && now.owned == was.owned - Lost(h, was.free[i], granted)
  }

  /** Live block i, whose data starts at the address, became free block k. */
  ghost predicate Freed(h: nat, address: nat, live: seq<Block>, liveAfter: seq<Block>, i: int,
                        free: seq<Block>, freeAfter: seq<Block>, k: int)
  {
    && 0 <= i < |live| && live[i].addr + h == address && liveAfter == Without(live, i)
    && 0 <= k <= |free| && freeAfter == With(free, k, live[i])
  }

  lemma FreedMembers(free: seq<Block>, k: nat, live: seq<Block>, i: nat, freeAfter: seq<Block>)
    requires k <= |free| && i < |live| && freeAfter == With(free, k, live[i])
    ensures multiset(freeAfter) + multiset(Without(live, i)) == multiset(free) + multiset(live)
    ensures Sum(freeAfter) == Sum(free) + live[i].size
  {
    WithFacts(free, k, live[i]);
    WithoutFacts(live, i);
  }

  lemma TakenAligned(m: nat, h: nat, before: multiset<Block>, after: multiset<Block>, live: multiset<Block>,
                     b: Block, granted: nat)
    requires m > 0 && OnBoundary(m, U32_RANGE) && b in before && granted <= b.size
      && (granted == b.size || OnBoundary(m, granted))
    requires Taken(h, before, after, b, granted)
    ensures h % m == 0 && AlignedBlocks(m, before + live) ==>
      AlignedBlocks(m, after + (live + multiset{Head(b, granted)}))
  {
    if h % m == 0 && AlignedBlocks(m, before + live) {
      assert Aligned(m, b);
      TakeAligned(m, h, b, granted);
      forall c | c in after + (live + multiset{Head(b, granted)}) ensures Aligned(m, c) {
        assert c in before + live || c in Tail(h, b, granted) || c == Head(b, granted);
      }
    }
  }

  lemma AlignedAddress(m: nat, h: nat, blocks: multiset<Block>, b: Block)
    requires m > 0 && b in blocks
    ensures h % m == 0 && AlignedBlocks(m, blocks) ==> OnBoundary(m, b.addr + h)
  {
    if h % m == 0 && AlignedBlocks(m, blocks) {
      assert Aligned(m, b);
      AddAligned(b.addr, h, m);
    }
  }

  lemma FreshInList(h: nat, owned: iset<int>, free: multiset<Block>, live: multiset<Block>, b: Block)
    requires Tiles(h, owned, free + live) && b in live
    ensures b !in free
  {
    assert (free + live)[b] <= 1;
  }

  /** The free blocks after one of them was handed out, or its head was. */
  ghost predicate Taken(h: nat, before: multiset<Block>, after: multiset<Block>, b: Block, granted: nat) {
    after == before - multiset{b} + Tail(h, b, granted)
  }

  /** What is granted of block b is all of it, or a head that leaves a tail. */
  ghost predicate PartOf(h: nat, b: Block, granted: Block) {
    granted == b || (granted.addr == b.addr && granted.size <= b.size && Narrow(b.size - granted.size) > h)
  }

  lemma TakeTiles(h: nat, owned: iset<int>, free: multiset<Block>, after: multiset<Block>, live: multiset<Block>,
                  b: Block, granted: Block)
    requires h > 0 && Tiles(h, owned, free + live) && b in free && PartOf(h, b, granted)
    requires Taken(h, free, after, b, granted.size)
    ensures Tiles(h, owned - Lost(h, b, granted.size), after + (live + multiset{granted}))
  {
    var out := multiset{granted};
    if granted == b {
      SplitLosesNothingIff(h, b, b.size);
      Regroup(free, live, multiset{b}, out, multiset{});
      assert Lost(h, b, b.size) == iset{} && owned - iset{} == owned;
      assert after + (live + out) == free + live;
    } else {
      var kept := Narrow(b.size - granted.size) - h;
      var tail := multiset{Head(Rest(h, b, granted.size), kept)};
      CutTiles(h, owned, free + live, b, granted.size, kept);
      LostOfRest(h, owned, free + live, b, granted.size);
      Regroup(free, live, multiset{b}, out, tail);
    }
  }

  lemma Regroup(free: multiset<Block>, live: multiset<Block>, b: multiset<Block>, out: multiset<Block>,
                tail: multiset<Block>)
    requires b <= free
    ensures free - b + tail + (live + out) == free + live - b + out + tail
  {
  }

  lemma LostOfRest(h: nat, owned: iset<int>, blocks: multiset<Block>, b: Block, granted: nat)
    requires granted <= b.size && Narrow(b.size - granted) > h
    requires Tiles(h, owned, blocks) && b in blocks
    ensures var rest := Rest(h, b, granted);
      owned - Lost(h, b, granted) == owned - Bytes(h, rest) + Bytes(h, Head(rest, Narrow(b.size - granted) - h))
  {
    forall n | Holds(h, b, n) ensures n in owned {
      assert Held(h, blocks, n);
    }
  }

  lemma TakeAligned(m: nat, h: nat, b: Block, granted: nat)
    requires m > 0 && OnBoundary(m, U32_RANGE) && Aligned(m, b) && h % m == 0
    requires granted <= b.size && (granted == b.size || OnBoundary(m, granted))
    ensures Aligned(m, Head(b, granted)) && forall c | c in Tail(h, b, granted) :: Aligned(m, c)
  {
    AddAligned(b.addr, h, m);
    AddAligned(b.addr + h, granted, m);
    AddAligned(b.size, granted, m);
    NarrowAligned(b.size - granted, m);
    AddAligned(Narrow(b.size - granted), h, m);
  }

  lemma OthersApart(h: nat, owned: iset<int>, free: seq<Block>, live: multiset<Block>, i: nat)
    requires h > 0 && Tiles(h, owned, multiset(free) + live) && i < |free|
    ensures forall b | b in Without(free, i) :: Apart(h, free[i], b)
  {
    WithoutFacts(free, i);
    forall b | b in Without(free, i) ensures Apart(h, free[i], b) {
      assert b in multiset(Without(free, i));
      assert (multiset(free) + live)[free[i]] <= 1;
    }
  }

  lemma NarrowAligned(x: nat, m: nat)
    requires m > 0 && OnBoundary(m, U32_RANGE) && OnBoundary(m, x)
    ensures OnBoundary(m, Narrow(x))
  {
    var q, k := x / U32_RANGE, U32_RANGE / m;
    assert U32_RANGE == k * m;
    assert x - Narrow(x) == q * U32_RANGE == (q * k) * m;
    MultipleAligned(q * k, m);
    AddAligned(x, q * U32_RANGE, m);
  }

  /** What malloc looks for is the size rounded up to the alignment, as far as that fits 32 bits. */
  lemma RequiredIs(size: nat, alignment: nat)
    requires alignment > 0
    ensures Required(size, alignment) < U32_RANGE && Required(size, alignment) < size + alignment
    ensures size + alignment <= U32_RANGE ==>
      size <= Required(size, alignment) && OnBoundary(alignment, Required(size, alignment))
  {
    AlignFacts(size, alignment);
  }

  lemma RequiredAligned(size: nat, alignment: nat)
    requires alignment > 0 && OnBoundary(alignment, U32_RANGE)
    ensures OnBoundary(alignment, Required(size, alignment))
  {
    AlignFacts(size, alignment);
    NarrowAligned(Align(size, alignment), alignment);
  }

  /** What malloc looks for is looked for again unchanged when it is asked for. */
  lemma RequiredAgain(size: nat, alignment: nat)
    requires alignment > 0 && OnBoundary(alignment, U32_RANGE)
    ensures Required(Required(size, alignment), alignment) == Required(size, alignment)
  {
    AlignFacts(size, alignment);
    NarrowAligned(Align(size, alignment), alignment);
  }

  /** A live block never starts where a free block does. */
  lemma LiveApart(h: nat, owned: iset<int>, free: multiset<Block>, live: multiset<Block>, b: Block)
    requires h > 0 && Tiles(h, owned, free + live) && b in free
    ensures forall c | c in live :: c.addr != b.addr
  {
    forall c | c in live ensures c.addr != b.addr {
      assert (free + live)[b] <= 1;
      assert c != b;
      assert Apart(h, b, c);
    }
  }
}
