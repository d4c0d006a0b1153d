/** The intrusive doubly linked list of common/LList.hpp, and the walk of common/debugUtils.hpp that
    checks one. `items` is the sequence the links stand for; an item is on at most one list. */
module LList {
  import opened Lists

  // U32 sizes wrap
  const U32_RANGE := 0x1_0000_0000

  class Node {
    var next: Node?
    var prev: Node?

    constructor ()
      ensures next == null && prev == null
    {
      next, prev := null, null;
    }
  }

  /** Item i knows its neighbours. */
  ghost predicate LinkedAt(items: seq<Node>, i: int)
    requires 0 <= i < |items|
    reads items
  {
    && items[i].prev == (if i == 0 then null else items[i - 1])
    && items[i].next == (if i + 1 == |items| then null else items[i + 1])
  }

  ghost predicate Linked(items: seq<Node>)
    reads items
  {
    forall i {:trigger LinkedAt(items, i)} | 0 <= i < |items| :: LinkedAt(items, i)
  }

  ghost predicate Differ(items: seq<Node>, i: int, j: int)
    requires 0 <= i < j < |items|
  {
    items[i] != items[j]
  }

  ghost predicate Distinct(items: seq<Node>) {
    forall i, j {:trigger Differ(items, i, j)} | 0 <= i < j < |items| :: Differ(items, i, j)
  }

  /** A walk that has come to `item` passed node i with its back link right. */
  ghost predicate PassedAt(path: seq<Node>, item: Node?, i: int)
    requires 0 <= i < |path|
    reads path
  {
    && path[i].prev == (if i == 0 then null else path[i - 1])
    && path[i].next == (if i + 1 == |path| then item else path[i + 1])
  }

  /** Counting up or down before or after wrapping is the same. */
  lemma SizeStep(n: nat)
    ensures (n % U32_RANGE + 1) % U32_RANGE == (n + 1) % U32_RANGE
    ensures (n % U32_RANGE - 1) % U32_RANGE == (n - 1) % U32_RANGE
  {
  }

  /** Item k, if there is one, is nowhere else. */
  ghost predicate Single(items: seq<Node>, k: int) {
    0 <= k < |items| ==> forall i | 0 <= i < |items| && i != k :: items[i] != items[k]
  }

  lemma OnlyAt(items: seq<Node>, k: int)
    requires Distinct(items)
    ensures Single(items, k)
  {
    forall i | 0 <= i < |items| && 0 <= k < |items| && i != k ensures items[i] != items[k] {
      assert if i < k then Differ(items, i, k) else Differ(items, k, i);
    }
  }

  lemma DistinctWithout(items: seq<Node>, k: nat)
    requires k < |items| && Distinct(items)
    ensures Distinct(Without(items, k)) && items[k] !in Without(items, k)
  {
    OnlyAt(items, k);
    var fewer := Without(items, k);
    forall i, j | 0 <= i < j < |fewer| ensures Differ(fewer, i, j) {
      assert Differ(items, if i < k then i else i + 1, if j < k then j else j + 1);
    }
  }

  lemma DistinctWith(items: seq<Node>, k: nat, item: Node)
    requires k <= |items| && Distinct(items) && item !in items
    ensures Distinct(With(items, k, item))
  {
    var more := With(items, k, item);
    WithElements(items, k, item);
    forall i, j | 0 <= i < j < |more| ensures Differ(more, i, j) {
      assert i != k && j != k ==> Differ(items, if i < k then i else i - 1, if j < k then j else j - 1);
    }
  }

  function First(items: seq<Node>): Node? {
    if items == [] then null else items[0]
  }

  function Last(items: seq<Node>): Node? {
    if items == [] then null else items[|items| - 1]
  }

  class LList {
    var head: Node?
    var tail: Node?
    var size: nat

    ghost var items: seq<Node>

    ghost predicate Valid()
      reads this, items
    {
      StandsFor(items)
    }

    /** The ends, the size and every link are those of a list of exactly these items. */
    ghost predicate StandsFor(path: seq<Node>)
      reads this, path
    {
      && head == First(path) && tail == Last(path) && size == |path| % U32_RANGE
      && Linked(path) && Distinct(path)
    }

    /** No link leads from the head, or from any of the nodes, out of the nodes. */
    ghost predicate ClosedUnderNext(nodes: set<Node>)
      reads this, nodes
    {
      (head == null || head in nodes) && forall x | x in nodes :: x.next == null || x.next in nodes
    }

    constructor ()
      ensures Valid() && items == []
    {
      head, tail, size, items := null, null, 0, [];
    }

    method PushFront(item: Node)
      requires Valid() && item !in items
      modifies this, item, items
      ensures Valid() && items == [item] + old(items)
    {
      OnlyAt(items, 0);
      DistinctWith(items, 0, item);
      assert With(items, 0, item) == [item] + items;
      SizeStep(|items|);
      LinkFront(item);
      items := [item] + items;
    }

    /** The pointer changes of push_front. */
    method LinkFront(item: Node)
      requires Linked(items) && head == First(items) && tail == Last(items) && item !in items && Single(items, 0)
      modifies this, item, items
      ensures items == old(items) && size == (old(size) + 1) % U32_RANGE
      ensures Linked([item] + items) && head == First([item] + items) && tail == Last([item] + items)
    {
      if head != null {
        assert LinkedAt(items, 0);
        head.prev := item;
      }
      item.prev := null;
      item.next := head;
      head := item;
      if tail == null {
        tail := item;
      }
      size := (size + 1) % U32_RANGE;
      ghost var more := [item] + items;
      forall i | 0 <= i < |more| ensures LinkedAt(more, i) {
        if i > 0 {
          assert old(LinkedAt(items, i - 1));
        }
      }
    }

    method PushBack(item: Node)
      requires Valid() && item !in items
      modifies this, item, items
      ensures Valid() && items == old(items) + [item]
    {
      OnlyAt(items, |items| - 1);
      DistinctWith(items, |items|, item);
      SizeStep(|items|);
      if tail != null {
        assert LinkedAt(items, |items| - 1);
        tail.next := item;
      }
      item.prev := tail;
      item.next := null;
      tail := item;
      if head == null {
        head := item;
      }
      size := (size + 1) % U32_RANGE;
      assert With(items, |items|, item) == items + [item];
      items := items + [item];
      forall i | 0 <= i < |items| ensures LinkedAt(items, i) {
        if i < |old(items)| {
          assert old(LinkedAt(items, i));
        }
      }
    }

    method PopFront() returns (item: Node?)
      requires Valid()
      modifies this, items
      ensures Valid()
      ensures item == First(old(items))
      ensures items == if old(items) == [] then [] else old(items)[1..]
    {
      if head == null {
        return null;
      }
      OnlyAt(items, 0);
      OnlyAt(items, 1);
      DistinctWithout(items, 0);
      assert Without(items, 0) == items[1..];
      SizeStep(|items|);
      item := UnlinkFront();
      items := items[1..];
    }

    /** The pointer changes of pop_front. */
    method UnlinkFront() returns (item: Node)
      requires Linked(items) && head == First(items) && tail == Last(items)
      requires items != [] && Single(items, 0) && Single(items, 1)
      modifies this, items
      ensures items == old(items) && item == items[0] && size == (old(size) - 1) % U32_RANGE
      ensures Linked(items[1..]) && head == First(items[1..]) && tail == Last(items[1..])
    {
      item := head;
      assert LinkedAt(items, 0);
      head := item.next;
      if head != null {
        head.prev := null;
      } else if tail == item {
        tail := null;
      }
      size := (size - 1) % U32_RANGE;
      ghost var fewer := items[1..];
      forall i | 0 <= i < |fewer| ensures LinkedAt(fewer, i) {
        assert old(LinkedAt(items, i + 1));
      }
    }

    /** pop: take out the item at place k, wherever it is. */
    method Pop(item: Node, ghost k: nat)
      requires Valid() && k < |items| && items[k] == item
      modifies this, items
      ensures Valid() && items == Without(old(items), k)
    {
      OnlyAt(items, k - 1);
      OnlyAt(items, k);
      OnlyAt(items, k + 1);
      DistinctWithout(items, k);
      SizeStep(|items|);
      Unlink(item, k);
      items := Without(items, k);
    }

    /** The pointer changes of pop. */
    method Unlink(item: Node, ghost k: nat)
      requires Linked(items) && head == First(items) && tail == Last(items)
      requires k < |items| && items[k] == item && Single(items, k - 1) && Single(items, k) && Single(items, k + 1)
      modifies this, items
      ensures items == old(items) && size == (old(size) - 1) % U32_RANGE
      ensures Linked(Without(items, k)) && head == First(Without(items, k)) && tail == Last(Without(items, k))
    {
      assert LinkedAt(items, k);
      if item.prev != null {
        item.prev.next := item.next;
      } else {
        head := item.next;
      }
      if item.next != null {
        item.next.prev := item.prev;
      } else {
        tail := item.prev;
      }
      size := (size - 1) % U32_RANGE;
      ghost var fewer := Without(items, k);
      WithoutElements(items, k);
      forall i | 0 <= i < |fewer| ensures LinkedAt(fewer, i) {
        assert old(LinkedAt(items, if i < k then i else i + 1));
      }
    }

    method InsertBefore(after: Node, item: Node, ghost k: nat)
      requires Valid() && k < |items| && items[k] == after && item !in items
      modifies this, item, items
      ensures Valid() && items == With(old(items), k, item)
    {
      OnlyAt(items, k - 1);
      OnlyAt(items, k);
      DistinctWith(items, k, item);
      SizeStep(|items|);
      LinkBefore(after, item, k);
      items := With(items, k, item);
    }

    /** The pointer changes of insert_before. */
    method LinkBefore(after: Node, item: Node, ghost k: nat)
      requires Linked(items) && head == First(items) && tail == Last(items)
      requires k < |items| && items[k] == after && item !in items && Single(items, k - 1) && Single(items, k)
      modifies this, item, items
      ensures items == old(items) && size == (old(size) + 1) % U32_RANGE
      ensures Linked(With(items, k, item)) && head == First(With(items, k, item)) && tail == Last(With(items, k, item))
    {
      assert LinkedAt(items, k);
      item.next := after;
      item.prev := after.prev;
      after.prev := item;
      if item.prev != null {
        item.prev.next := item;
      } else {
        head := item;
      }
      size := (size + 1) % U32_RANGE;
      ghost var more := With(items, k, item);
      WithElements(items, k, item);
      forall i | 0 <= i < |more| ensures LinkedAt(more, i) {
        if i != k {
          assert old(LinkedAt(items, if i < k then i else i - 1));
        }
      }
    }

    /** The new item goes to place k, right behind `before`. */
    method InsertAfter(before: Node, item: Node, ghost k: nat)
      requires Valid() && 0 < k <= |items| && items[k - 1] == before && item !in items
      modifies this, item, items
      ensures Valid() && items == With(old(items), k, item)
    {
      OnlyAt(items, k - 1);
      OnlyAt(items, k);
      DistinctWith(items, k, item);
      SizeStep(|items|);
      LinkAfter(before, item, k);
      items := With(items, k, item);
    }

    /** The pointer changes of insert_after. */
    method LinkAfter(before: Node, item: Node, ghost k: nat)
      requires Linked(items) && head == First(items) && tail == Last(items)
      requires 0 < k <= |items| && items[k - 1] == before && item !in items && Single(items, k - 1) && Single(items, k)
      modifies this, item, items
      ensures items == old(items) && size == (old(size) + 1) % U32_RANGE
      ensures Linked(With(items, k, item)) && head == First(With(items, k, item)) && tail == Last(With(items, k, item))
    {
      assert LinkedAt(items, k - 1);
      item.prev := before;
      item.next := before.next;
      before.next := item;
      if item.next != null {
        item.next.prev := item;
      } else {
        tail := item;
      }
      size := (size + 1) % U32_RANGE;
      ghost var more := With(items, k, item);
      WithElements(items, k, item);
      forall i | 0 <= i < |more| ensures LinkedAt(more, i) {
        if i != k {
          assert old(LinkedAt(items, if i < k then i else i - 1));
        }
      }
    }

    /** clear takes the links of the items away but keeps both ends: unless the list was empty, it
        stands for nothing any more. */
    method Clear()
      requires Valid()
      modifies this, items
      ensures items == old(items) && head == old(head) && tail == old(tail) && size == 0
      ensures forall x | x in items :: x.next == null && x.prev == null
      ensures (exists path :: StandsFor(path)) <==> old(items) == []
    {
      if head == null {
        assert StandsFor(items);
        return;
      }
      assert LinkedAt(items, 0);
      var item := head.next;
      ghost var k := 1;
      while item != null
        invariant 0 < k <= |items| && items == old(items) && item == (if k == |items| then null else items[k])
        invariant head == old(head) && tail == old(tail)
        invariant forall j | 0 <= j < k :: items[j].prev == null && (j < k - 1 ==> items[j].next == null)
        invariant items[k - 1].next == item
        invariant forall j {:trigger LinkedAt(items, j)} | k <= j < |items| :: LinkedAt(items, j)
        decreases |items| - k
      {
        OnlyAt(items, k - 1);
        OnlyAt(items, k);
        assert LinkedAt(items, k);
        label Reached:
        item.prev.next := null;
        item.prev := null;
        forall j | k < j < |items| ensures LinkedAt(items, j) {
          assert old@Reached(LinkedAt(items, j));
        }
        item := item.next;
        k := k + 1;
      }
      size := 0;
      forall path ensures !StandsFor(path) {
        if path != [] {
          assert StandsFor(path) ==> LinkedAt(path, 0);
        }
      }
    }

    method Contains(wanted: Node) returns (found: bool)
      requires Valid()
      ensures found <==> wanted in items
    {
      var item := head;
      ghost var k := 0;
      while item != null
        invariant 0 <= k <= |items| && item == (if k == |items| then null else items[k])
        invariant wanted !in items[..k]
        decreases |items| - k
      {
        if item == wanted {
          return true;
        }
        assert LinkedAt(items, k);
        item := item.next;
        k := k + 1;
      }
      found := false;
    }

    method Length() returns (length: nat)
      requires Valid()
      ensures length == size == |items| % U32_RANGE
    {
      length := 0;
      var item := head;
      ghost var k := 0;
      while item != null
        invariant 0 <= k <= |items| && item == (if k == |items| then null else items[k])
        invariant length == k % U32_RANGE
        decreases |items| - k
      {
        assert LinkedAt(items, k);
        item := item.next;
        length := (length + 1) % U32_RANGE;
        k := k + 1;
      }
    }

    /** debug_llist: walk the list both ways and compare every back link, the count and the ends.
        Whatever the links are, the walks end, and they find nothing wrong exactly if nothing is. */
    method Check(ghost nodes: set<Node>) returns (sound: bool)
      requires ClosedUnderNext(nodes)
      ensures sound <==> exists path :: StandsFor(path)
    {
      var length := 0;
      var last: Node? := null;
      var item := head;
      ghost var path, unseen := [], nodes;
      while item != null
        invariant Walked(path, item) && last == Last(path) && length == |path| % U32_RANGE
        invariant item == null || item in nodes
        invariant forall x | x in nodes :: x in unseen || x in path
        decreases unseen
      {
        if item.prev != last {
          WalkAgrees(path, item);
          assert forall whole :: !StandsFor(whole);
          return false;
        }
        length := (length + 1) % U32_RANGE;
        last := item;
        path := WalkOn(path, item);
        unseen := unseen - {item};
        item := item.next;
      }
      WalkAgrees(path, item);
      if length != size || last != tail {
        assert forall whole :: !StandsFor(whole);
        return false;
      }
      WalkEnds(path);
      sound := CheckBackwards(path);
      assert StandsFor(path);
    }

    /** The links from the head to `item`, with every back link among them right. */
    ghost predicate Walked(path: seq<Node>, item: Node?)
      reads this, path
    {
      && Distinct(path) && (if path == [] then item == head else head == path[0])
      && forall i {:trigger PassedAt(path, item, i)} | 0 <= i < |path| :: PassedAt(path, item, i)
    }

    lemma WalkOn(path: seq<Node>, item: Node) returns (further: seq<Node>)
      requires Walked(path, item) && item.prev == Last(path)
      ensures further == path + [item] && item !in path && Walked(further, item.next)
    {
      forall i | 0 <= i < |path| ensures path[i] != item {
        assert PassedAt(path, item, i);
        OnlyAt(path, |path| - 1);
      }
      further := path + [item];
      forall i, j | 0 <= i < j < |further| ensures Differ(further, i, j) {
        assert j < |path| ==> Differ(path, i, j);
      }
      forall i | 0 <= i < |further| ensures PassedAt(further, item.next, i) {
        assert i < |path| ==> PassedAt(path, item, i);
      }
    }

    lemma WalkEnds(path: seq<Node>)
      requires Walked(path, null) && size == |path| % U32_RANGE && tail == Last(path)
      ensures StandsFor(path)
    {
      forall i | 0 <= i < |path| ensures LinkedAt(path, i) {
        assert PassedAt(path, null, i);
      }
    }

    /** The walk gets ahead along any sequence that the list stands for. */
    lemma WalkAgrees(path: seq<Node>, item: Node?)
      requires Walked(path, item)
      ensures forall whole | StandsFor(whole) :: WalkIsAlong(path, item, whole)
    {
      forall whole | StandsFor(whole) ensures WalkIsAlong(path, item, whole) {
        WalkIsPrefix(path, item, whole, |path|);
        if |path| < |whole| {
          assert LinkedAt(whole, |path|);
        }
      }
    }

    ghost predicate WalkIsAlong(path: seq<Node>, item: Node?, whole: seq<Node>)
      reads item
    {
      && |path| <= |whole| && Last(path) == Last(whole[..|path|])
      && item == (if |path| == |whole| then null else whole[|path|])
      && (item != null ==> item.prev == Last(path))
    }

    lemma {:induction false} WalkIsPrefix(path: seq<Node>, item: Node?, whole: seq<Node>, k: nat)
      requires Walked(path, item) && StandsFor(whole) && k <= |path|
      ensures k <= |whole| && (k > 0 ==> path[k - 1] == whole[k - 1])
      ensures (if k == |path| then item else path[k]) == if k == |whole| then null else whole[k]
    {
      if k > 0 {
        WalkIsPrefix(path, item, whole, k - 1);
        assert LinkedAt(whole, k - 1) && PassedAt(path, item, k - 1);
      }
    }

    method CheckBackwards(ghost path: seq<Node>) returns (sound: bool)
      requires StandsFor(path)
      ensures sound
    {
      var last: Node? := null;
      var item := tail;
      ghost var k := |path|;
      while item != null
        invariant 0 <= k <= |path| && item == (if k == 0 then null else path[k - 1])
        invariant last == (if k == |path| then null else path[k])
        decreases k
      {
        assert LinkedAt(path, k - 1);
        if item.next != last {
          return false;
        }
        last := item;
        item := item.prev;
        k := k - 1;
      }
      sound := last == head;
    }
  }
}
