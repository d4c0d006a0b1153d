/** Memory blocks: what it means for a heap to tile the bytes it owns. */
module Blocks {
  import opened Lists

  /** A block starts with a header of h bytes at `addr`, followed by `size` bytes of data. */
  datatype Block = Block(addr: nat, size: nat)

  function End(h: nat, b: Block): nat {
    b.addr + h + b.size
  }

  predicate Holds(h: nat, b: Block, n: int) {
    b.addr <= n < End(h, b)
  }

  predicate Apart(h: nat, b: Block, c: Block) {
    End(h, b) <= c.addr || End(h, c) <= b.addr
  }

  ghost predicate Held(h: nat, blocks: multiset<Block>, n: int) {
    exists b :: b in blocks && Holds(h, b, n)
  }

  /** The blocks are pairwise disjoint and their headers and data make up exactly `owned`. */
  ghost predicate Tiles(h: nat, owned: iset<int>, blocks: multiset<Block>) {
    && (forall b :: blocks[b] <= 1)
    && (forall b, c {:trigger Apart(h, b, c)} | b in blocks && c in blocks && b != c :: Apart(h, b, c))
    && (forall n :: n in owned <==> Held(h, blocks, n))
  }

  ghost function Bytes(h: nat, b: Block): iset<int> {
    iset n: int | Holds(h, b, n)
  }

  function Head(b: Block, size: nat): Block {
    Block(b.addr, size)
  }

  /** What is left of a block behind a head of `size` data bytes, less its own header. */
  function Rest(h: nat, b: Block, size: nat): Block
    requires size + h <= b.size
  {
    Block(b.addr + h + size, b.size - size - h)
  }

  function Merged(h: nat, b: Block, c: Block): Block {
    Block(b.addr, b.size + h + c.size)
  }

  lemma SplitTiles(h: nat, owned: iset<int>, blocks: multiset<Block>, b: Block, size: nat)
    requires h > 0 && Tiles(h, owned, blocks) && b in blocks && size + h <= b.size
    ensures Tiles(h, owned, blocks - multiset{b} + multiset{Head(b, size)} + multiset{Rest(h, b, size)})
  {
    var head, rest := Head(b, size), Rest(h, b, size);
    var after := blocks - multiset{b} + multiset{head} + multiset{rest};
    assert forall n :: Holds(h, b, n) <==> Holds(h, head, n) || Holds(h, rest, n);
    forall c | c in blocks && c != b ensures c != head && c != rest && Apart(h, c, head) && Apart(h, c, rest) {
      assert Apart(h, b, c);
    }
    TilesAfter(h, owned, blocks, after);
  }

  lemma MergeTiles(h: nat, owned: iset<int>, blocks: multiset<Block>, b: Block, c: Block)
    requires h > 0 && Tiles(h, owned, blocks) && b in blocks && c in blocks && c.addr == End(h, b)
    ensures Tiles(h, owned, blocks - multiset{b} - multiset{c} + multiset{Merged(h, b, c)})
  {
    var merged := Merged(h, b, c);
    var after := blocks - multiset{b} - multiset{c} + multiset{merged};
    assert forall n :: Holds(h, merged, n) <==> Holds(h, b, n) || Holds(h, c, n);
    forall d | d in blocks && d != b && d != c ensures d != merged && Apart(h, d, merged) {
      assert Apart(h, b, d) && Apart(h, c, d);
    }
    TilesAfter(h, owned, blocks, after);
  }

  /** Cutting off the end of a block gives up exactly the bytes of that end. */
  lemma ShrinkTiles(h: nat, owned: iset<int>, blocks: multiset<Block>, b: Block, size: nat)
    requires h > 0 && Tiles(h, owned, blocks) && b in blocks && size <= b.size
    ensures Tiles(h, owned - Bytes(h, b) + Bytes(h, Head(b, size)), blocks - multiset{b} + multiset{Head(b, size)})
  {
    var head := Head(b, size);
    var others, after := blocks - multiset{b}, blocks - multiset{b} + multiset{head};
    forall c | c in others ensures c in blocks && c != b && c != head && Apart(h, c, head) {
      assert Apart(h, b, c);
    }
    forall n ensures n in owned - Bytes(h, b) + Bytes(h, head) <==> Held(h, after, n) {
      if n in owned && !Holds(h, b, n) {
        var c :| c in blocks && Holds(h, c, n);
        assert c in after;
      }
      if Holds(h, head, n) {
        assert head in after;
      }
      if Held(h, after, n) && !Holds(h, head, n) {
        var c :| c in after && Holds(h, c, n);
        assert c in others && Apart(h, b, c) && Held(h, blocks, n);
      }
    }
  }

  /** Splitting a block and keeping only the start of the rest. */
  lemma CutTiles(h: nat, owned: iset<int>, blocks: multiset<Block>, b: Block, size: nat, kept: nat)
    requires h > 0 && Tiles(h, owned, blocks) && b in blocks && size + h + kept <= b.size
    ensures var rest := Rest(h, b, size);
      Tiles(h, owned - Bytes(h, rest) + Bytes(h, Head(rest, kept)),
            blocks - multiset{b} + multiset{Head(b, size)} + multiset{Head(rest, kept)})
  {
    var rest := Rest(h, b, size);
    var others := blocks - multiset{b} + multiset{Head(b, size)};
    SplitTiles(h, owned, blocks, b, size);
    ShrinkTiles(h, owned, others + multiset{rest}, rest, kept);
    assert others + multiset{rest} - multiset{rest} == others;
  }

  /** Two disjoint collections that hold the same bytes tile the same memory. */
  lemma TilesAfter(h: nat, owned: iset<int>, blocks: multiset<Block>, after: multiset<Block>)
    requires Tiles(h, owned, blocks)
    requires forall b :: after[b] <= 1
    requires forall b, c | b in after && c in after && b != c :: Apart(h, b, c)
    requires forall n :: Held(h, blocks, n) <==> Held(h, after, n)
    ensures Tiles(h, owned, after)
  {
  }

  lemma GrowTiles(h: nat, owned: iset<int>, blocks: multiset<Block>, b: Block)
    requires h > 0 && Tiles(h, owned, blocks) && owned !! Bytes(h, b)
    ensures Tiles(h, owned + Bytes(h, b), blocks + multiset{b})
  {
    forall c | c in blocks ensures c != b && Apart(h, b, c) {
      assert Holds(h, c, c.addr) && Holds(h, b, b.addr);
      assert c.addr in owned && b.addr !in owned;
      assert Holds(h, c, End(h, c) - 1);
      assert End(h, c) - 1 in owned;
      assert Holds(h, b, End(h, b) - 1);
    }
    var after := blocks + multiset{b};
    forall n | n in owned + Bytes(h, b) ensures Held(h, after, n) {
      if n in owned {
        var c :| c in blocks && Holds(h, c, n);
        assert c in after;
      } else {
        assert b in after;
      }
    }
  }

  // ------------------------------------------------------------- block lists

  predicate InOrder(s: seq<Block>, i: int, j: int)
    requires 0 <= i < j < |s|
  {
    s[i].size <= s[j].size
  }

  predicate Sorted(s: seq<Block>) {
    forall i, j {:trigger InOrder(s, i, j)} | 0 <= i < j < |s| :: InOrder(s, i, j)
  }

  lemma SortedBelow(s: seq<Block>, k: nat)
    requires Sorted(s) && k < |s|
    ensures forall j | 0 <= j <= k :: s[j].size <= s[k].size
    ensures forall j | k <= j < |s| :: s[k].size <= s[j].size
  {
    forall j | 0 <= j < |s| ensures if j <= k then s[j].size <= s[k].size else s[k].size <= s[j].size {
      if j < k {
        assert InOrder(s, j, k);
      } else if j > k {
        assert InOrder(s, k, j);
      }
    }
  }

  function SumTo(s: seq<Block>, n: nat): nat
    requires n <= |s|
  {
    if n == 0 then 0 else SumTo(s, n - 1) + s[n - 1].size
  }

  function Sum(s: seq<Block>): nat {
    SumTo(s, |s|)
  }

  lemma {:induction false} SumToConcat(s: seq<Block>, t: seq<Block>, n: nat)
    requires n <= |s| + |t|
    ensures n <= |s| ==> SumTo(s + t, n) == SumTo(s, n)
    ensures n >= |s| ==> SumTo(s + t, n) == Sum(s) + SumTo(t, n - |s|)
  {
    if n > 0 {
      SumToConcat(s, t, n - 1);
    }
  }

  lemma SumConcat(s: seq<Block>, t: seq<Block>)
    ensures Sum(s + t) == Sum(s) + Sum(t)
  {
    SumToConcat(s, t, |s| + |t|);
  }

  lemma SumPut(s: seq<Block>, b: Block, t: seq<Block>)
    ensures Sum(s + ([b] + t)) == Sum(s) + b.size + Sum(t)
    ensures Sum(s + [b]) == Sum(s) + b.size
  {
    assert SumTo([b], 0) == 0;
    SumConcat(s, [b] + t);
    SumConcat([b], t);
    SumConcat(s, [b]);
  }

  lemma WithoutFacts(s: seq<Block>, i: nat)
    requires i < |s|
    ensures multiset(Without(s, i)) == multiset(s) - multiset{s[i]}
    ensures Sum(Without(s, i)) == Sum(s) - s[i].size
  {
    var front, back := s[..i], s[i + 1..];
    assert s == front + ([s[i]] + back);
    SumPut(front, s[i], back);
    SumConcat(front, back);
  }

  lemma FirstFacts(s: seq<Block>)
    requires s != []
    ensures multiset(s) == multiset{s[0]} + multiset(s[1..])
    ensures Sum(s) == s[0].size + Sum(s[1..])
  {
    WithoutFacts(s, 0);
    assert s[1..] == Without(s, 0);
  }

  lemma WithoutSorted(s: seq<Block>, k: nat)
    requires k < |s| && Sorted(s)
    ensures Sorted(Without(s, k))
  {
    var t := Without(s, k);
    forall i, j | 0 <= i < j < |t| ensures InOrder(t, i, j) {
      assert InOrder(s, if i < k then i else i + 1, if j < k then j else j + 1);
    }
  }

  lemma WithFacts(s: seq<Block>, i: nat, b: Block)
    requires i <= |s|
    ensures multiset(With(s, i, b)) == multiset(s) + multiset{b}
    ensures Sum(With(s, i, b)) == Sum(s) + b.size
  {
    var front, back := s[..i], s[i..];
    assert s == front + back && With(s, i, b) == front + ([b] + back);
    SumConcat(front, back);
    SumPut(front, b, back);
  }

  lemma WithSorted(s: seq<Block>, k: nat, b: Block)
    requires k <= |s| && Sorted(s)
    requires k > 0 ==> s[k - 1].size <= b.size
    requires k < |s| ==> b.size <= s[k].size
    ensures Sorted(With(s, k, b))
  {
    var t := With(s, k, b);
    if k > 0 {
      SortedBelow(s, k - 1);
    }
    if k < |s| {
      SortedBelow(s, k);
    }
    forall i, j | 0 <= i < j < |t| ensures InOrder(t, i, j) {
      if i != k && j != k {
        assert InOrder(s, if i < k then i else i - 1, if j < k then j else j - 1);
      }
    }
  }
}
