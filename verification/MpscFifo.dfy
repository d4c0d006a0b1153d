/** The lock-free multi-producer, single-consumer queue of common/MpscFifo.hpp as a state machine.

    One step is one access to shared memory, so any number of producers and the consumer can
    interleave between any two of them. Memory is sequentially consistent. Nodes are named by
    their allocation: a name is never handed out twice. */
module MpscFifo {
  import opened Wrappers

  type Node = nat
  type Producer = nat

  /** A push between its exchange of `in_` and its store to `oldIn->next`. `place` is history:
      the item's index in the order of exchanges. */
  datatype Push = Push(item: Node, oldIn: Node, place: nat)

  /** Where the consumer is inside pop_unknown or pop_known. */
  datatype Consumer =
    | Idle                   // between calls
    | Checked                // found out_ != in_
    | Loaded(item: Node)     // read out_->next
    | Freed(item: Node)      // deleted the old dummy, out_ still names it

  datatype State = State(
    live: set<Node>,                  // allocated and not yet deleted
    next: map<Node, Option<Node>>,    // of every node ever allocated
    out: Node,
    in_: Node,
    pushing: map<Producer, Push>,     // producers in the middle of a push
    consumer: Consumer,
    order: seq<Node>,                 // history: the first dummy, then the items by exchange
    popped: seq<Node>)                // history: the items handed out, in order

  function Init(dummy: Node): State {
    State({dummy}, map[dummy := None], dummy, dummy, map[], Idle, [dummy], [])
  }

  datatype Step =
    | Exchange(producer: Producer, item: Node)
    | Link(producer: Producer)
    | Check
    | Load
    | LoadKnown
    | Delete
    | Advance

  predicate Enabled(s: State, step: Step) {
    match step
    case Exchange(p, item) => p !in s.pushing && item !in s.next
    case Link(p) => p in s.pushing
    case Check => s.consumer.Idle?
    case Load => s.consumer.Checked? && s.out in s.next
    // pop_known is for a caller who knows that there is something to pop
    case LoadKnown => s.consumer.Idle? && s.out in s.next && s.next[s.out].Some?
    case Delete => s.consumer.Loaded?
    case Advance => s.consumer.Freed?
  }

  /** The nodes whose fields the step reads or writes, or which it deletes. */
  function Touched(s: State, step: Step): set<Node>
    requires Enabled(s, step)
  {
    match step
    case Exchange(_, item) => {}
    case Link(p) => {s.pushing[p].oldIn}
    case Check => {}
    case Load => {s.out}
    case LoadKnown => {s.out}
    case Delete => {s.out}
    case Advance => {}
  }

  function Apply(s: State, step: Step): State
    requires Enabled(s, step)
  {
    match step
    case Exchange(p, item) =>
      s.(in_ := item, live := s.live + {item}, next := s.next[item := None],
         pushing := s.pushing[p := Push(item, s.in_, |s.order|)], order := s.order + [item])
    case Link(p) =>
      s.(next := s.next[s.pushing[p].oldIn := Some(s.pushing[p].item)], pushing := s.pushing - {p})
    case Check => s.(consumer := if s.out == s.in_ then Idle else Checked)
    case Load => s.(consumer := if s.next[s.out].None? then Idle else Loaded(s.next[s.out].value))
    case LoadKnown => s.(consumer := Loaded(s.next[s.out].value))
    case Delete => s.(live := s.live - {s.out}, consumer := Freed(s.consumer.item))
    case Advance => s.(out := s.consumer.item, consumer := Idle, popped := s.popped + [s.consumer.item])
  }

  /** The step is the end of a pop_unknown that returns null. */
  predicate ReturnsNull(s: State, step: Step)
    requires Enabled(s, step)
  {
    match step
    case Check => s.out == s.in_
    case Load => s.next[s.out].None?
    case _ => false
  }

  // ---------------------------------------------------------------- invariant

  /** Index in `order` of the first node that still exists: the dummy, or its successor once
      the dummy is deleted. */
  function First(s: State): nat {
    if s.consumer.Freed? then |s.popped| + 1 else |s.popped|
  }

  /** Some producer has yet to store the link to node j. */
  ghost predicate Unlinked(s: State, j: int) {
    exists p | p in s.pushing :: s.pushing[p].place == j
  }

  ghost predicate NodesValid(s: State) {
    && (forall i, j | 0 <= i < j < |s.order| :: s.order[i] != s.order[j])
    && (forall j | 0 <= j < |s.order| :: s.order[j] in s.next && (s.order[j] in s.live <==> First(s) <= j))
    && (forall n | n in s.live :: n in s.order)
  }

  ghost predicate PushValid(s: State, push: Push) {
    && |s.popped| < push.place < |s.order|
    && push.oldIn == s.order[push.place - 1] && push.item == s.order[push.place]
  }

  ghost predicate PushesValid(s: State) {
    && (forall p | p in s.pushing :: PushValid(s, s.pushing[p]))
    && (forall p, q | p in s.pushing && q in s.pushing && s.pushing[p].place == s.pushing[q].place :: p == q)
  }

  ghost predicate LinkValid(s: State, j: int)
    requires 0 <= j < |s.order|
  {
    && s.order[j] in s.next
    && s.next[s.order[j]] == if j + 1 < |s.order| && !Unlinked(s, j + 1) then Some(s.order[j + 1]) else None
  }

  ghost predicate LinksValid(s: State) {
    forall j | First(s) <= j < |s.order| :: LinkValid(s, j)
  }

  ghost predicate ConsumerValid(s: State) {
    && (!s.consumer.Idle? ==> |s.popped| + 1 < |s.order|)
    && (s.consumer.Loaded? || s.consumer.Freed? ==>
      s.consumer.item == s.order[|s.popped| + 1] && !Unlinked(s, |s.popped| + 1))
  }

  ghost predicate Inv(s: State) {
    && |s.popped| < |s.order| && s.popped == s.order[1..|s.popped| + 1]
    && s.in_ == s.order[|s.order| - 1]
    && s.out == s.order[|s.popped|]
    && NodesValid(s) && PushesValid(s) && LinksValid(s) && ConsumerValid(s)
  }

  lemma InitInv(dummy: Node)
    ensures Inv(Init(dummy))
  {
  }

  /** Nothing a step uses has been deleted. */
  lemma TouchedIsLive(s: State, step: Step)
    requires Inv(s) && Enabled(s, step)
    ensures Touched(s, step) <= s.live
  {
  }

  lemma ExchangeUnlinked(s: State, p: Producer, item: Node)
    requires Enabled(s, Exchange(p, item))
    ensures forall j :: Unlinked(Apply(s, Exchange(p, item)), j) <==> Unlinked(s, j) || j == |s.order|
  {
    var t := Apply(s, Exchange(p, item));
    assert t.pushing[p].place == |s.order|;
    forall j | Unlinked(s, j) ensures Unlinked(t, j) {
      var q :| q in s.pushing && s.pushing[q].place == j;
      assert t.pushing[q].place == j;
    }
  }

  lemma ExchangeLinks(s: State, p: Producer, item: Node)
    requires Inv(s) && Enabled(s, Exchange(p, item))
    ensures LinksValid(Apply(s, Exchange(p, item)))
  {
    var t := Apply(s, Exchange(p, item));
    ExchangeUnlinked(s, p, item);
    forall j | First(t) <= j < |t.order| ensures LinkValid(t, j) {
      if j < |s.order| {
        assert LinkValid(s, j);
      }
    }
  }

  lemma ExchangePushes(s: State, p: Producer, item: Node)
    requires Inv(s) && Enabled(s, Exchange(p, item))
    ensures PushesValid(Apply(s, Exchange(p, item)))
  {
    var t := Apply(s, Exchange(p, item));
    forall q | q in t.pushing ensures PushValid(t, t.pushing[q]) {
      assert q != p ==> PushValid(s, s.pushing[q]);
    }
    forall q, r | q in t.pushing && r in t.pushing && t.pushing[q].place == t.pushing[r].place ensures q == r {
      assert q != p ==> PushValid(s, s.pushing[q]);
      assert r != p ==> PushValid(s, s.pushing[r]);
    }
  }

  lemma ExchangeInv(s: State, p: Producer, item: Node)
    requires Inv(s) && Enabled(s, Exchange(p, item))
    ensures Inv(Apply(s, Exchange(p, item)))
  {
    ExchangeLinks(s, p, item);
    ExchangePushes(s, p, item);
    ExchangeNodes(s, p, item);
    ExchangeConsumer(s, p, item);
  }

  lemma ExchangeNodes(s: State, p: Producer, item: Node)
    requires Inv(s) && Enabled(s, Exchange(p, item))
    ensures NodesValid(Apply(s, Exchange(p, item)))
  {
  }

  lemma ExchangeConsumer(s: State, p: Producer, item: Node)
    requires Inv(s) && Enabled(s, Exchange(p, item))
    ensures ConsumerValid(Apply(s, Exchange(p, item)))
  {
    ExchangeUnlinked(s, p, item);
  }

  lemma LinkUnlinked(s: State, p: Producer)
    requires PushesValid(s) && Enabled(s, Link(p))
    ensures forall j :: Unlinked(Apply(s, Link(p)), j) <==> Unlinked(s, j) && j != s.pushing[p].place
  {
    var t := Apply(s, Link(p));
    forall j | Unlinked(s, j) && j != s.pushing[p].place ensures Unlinked(t, j) {
      var q :| q in s.pushing && s.pushing[q].place == j;
      assert t.pushing[q].place == j;
    }
  }

  lemma LinkLinks(s: State, p: Producer)
    requires Inv(s) && Enabled(s, Link(p))
    ensures LinksValid(Apply(s, Link(p)))
  {
    var t := Apply(s, Link(p));
    assert PushValid(s, s.pushing[p]);
    LinkUnlinked(s, p);
    forall j | First(t) <= j < |t.order| ensures LinkValid(t, j) {
      assert LinkValid(s, j);
    }
  }

  lemma LinkInv(s: State, p: Producer)
    requires Inv(s) && Enabled(s, Link(p))
    ensures Inv(Apply(s, Link(p)))
  {
    LinkUnlinked(s, p);
    LinkLinks(s, p);
    assert PushValid(s, s.pushing[p]);
    assert forall q | q in s.pushing :: PushValid(s, s.pushing[q]);
  }

  lemma ConsumerLinks(s: State, step: Step)
    requires Inv(s) && Enabled(s, step) && !step.Exchange? && !step.Link?
    ensures LinksValid(Apply(s, step)) && PushesValid(Apply(s, step))
  {
    var t := Apply(s, step);
    assert forall j :: Unlinked(t, j) <==> Unlinked(s, j);
    forall p | p in t.pushing ensures PushValid(t, t.pushing[p]) {
      assert PushValid(s, s.pushing[p]);
      assert s.pushing[p].place == |s.popped| + 1 ==> Unlinked(s, |s.popped| + 1);
    }
    forall j | First(t) <= j < |t.order| ensures LinkValid(t, j) {
      assert LinkValid(s, j);
    }
  }

  lemma ConsumerNodes(s: State, step: Step)
    requires Inv(s) && Enabled(s, step) && !step.Exchange? && !step.Link?
    ensures NodesValid(Apply(s, step))
  {
  }

  lemma ConsumerInv(s: State, step: Step)
    requires Inv(s) && Enabled(s, step) && !step.Exchange? && !step.Link?
    ensures Inv(Apply(s, step))
  {
    ConsumerLinks(s, step);
    ConsumerNodes(s, step);
    assert forall j :: Unlinked(Apply(s, step), j) <==> Unlinked(s, j);
    assert !s.consumer.Freed? ==> LinkValid(s, |s.popped|);
  }

  lemma StepInv(s: State, step: Step)
    requires Inv(s) && Enabled(s, step)
    ensures Inv(Apply(s, step))
  {
    match step
    case Exchange(p, item) => ExchangeInv(s, p, item);
    case Link(p) => LinkInv(s, p);
    case _ => ConsumerInv(s, step);
  }

  // ------------------------------------------------------------ whole runs

  /** `run` is a run of the queue: it starts freshly built and every state follows by an enabled step. */
  ghost predicate IsRun(run: seq<State>, steps: seq<Step>) {
    && |run| == |steps| + 1
    && (exists dummy :: run[0] == Init(dummy))
    && forall k | 0 <= k < |steps| :: Enabled(run[k], steps[k]) && run[k + 1] == Apply(run[k], steps[k])
  }

  lemma {:induction false} RunInv(run: seq<State>, steps: seq<Step>)
    requires IsRun(run, steps)
    ensures forall k | 0 <= k < |run| :: Inv(run[k])
  {
    var k := 0;
    var dummy :| run[0] == Init(dummy);
    InitInv(dummy);
    while k < |steps|
      invariant 0 <= k <= |steps| && forall l | 0 <= l <= k :: Inv(run[l])
    {
      StepInv(run[k], steps[k]);
      k := k + 1;
    }
  }

  /** The items exchanged so far. */
  function Exchanged(s: State): seq<Node>
    requires s.order != []
  {
    s.order[1..]
  }

  /** FIFO and memory safety, under every interleaving: at every moment of every run the items
      popped are a prefix of the items in the order of their exchanges, no item is popped twice,
      and no step reads, writes or deletes a node that was deleted before. The item handed out last
      lives until the next pop deletes it; those before it are gone. */
  lemma QueueIsSafe(run: seq<State>, steps: seq<Step>, k: nat)
    requires IsRun(run, steps) && k < |run|
    ensures run[k].order != [] && run[k].popped <= Exchanged(run[k])
    ensures forall i, j | 0 <= i < j < |run[k].popped| :: run[k].popped[i] != run[k].popped[j]
    ensures forall i | 0 <= i < |run[k].popped| ::
      run[k].popped[i] in run[k].live <==> i == |run[k].popped| - 1 && !run[k].consumer.Freed?
    ensures k < |steps| ==> Touched(run[k], steps[k]) <= run[k].live
  {
    RunInv(run, steps);
    assert Inv(run[k]);
    if k < |steps| {
      TouchedIsLive(run[k], steps[k]);
    }
  }

  // ------------------------------------------- refinement of an atomic queue

  /** The queue a user sees: the items exchanged and not yet handed out, some of them still in
      the middle of their push. */
  datatype Abstract = Abstract(items: seq<Node>, inFlight: set<Node>)

  ghost function Abs(s: State): Abstract
    requires |s.popped| < |s.order|
  {
    Abstract(s.order[|s.popped| + 1..], Items(s.pushing))
  }

  ghost function Items(pushing: map<Producer, Push>): set<Node> {
    set p | p in pushing :: pushing[p].item
  }

  lemma ItemsAdd(m: map<Producer, Push>, p: Producer, push: Push)
    requires p !in m
    ensures Items(m[p := push]) == Items(m) + {push.item}
  {
    forall n | n in Items(m) + {push.item} ensures n in Items(m[p := push]) {
      if n == push.item {
        assert m[p := push][p].item == n;
      } else {
        var q :| q in m && m[q].item == n;
        assert m[p := push][q].item == n;
      }
    }
  }

  lemma ItemsRemove(m: map<Producer, Push>, p: Producer)
    requires p in m && forall q | q in m && q != p :: m[q].item != m[p].item
    ensures Items(m - {p}) == Items(m) - {m[p].item}
  {
    forall n | n in Items(m) - {m[p].item} ensures n in Items(m - {p}) {
      var q :| q in m && m[q].item == n;
      assert (m - {p})[q].item == n;
    }
  }

  ghost predicate HeadInFlight(a: Abstract) {
    a.items != [] && a.items[0] in a.inFlight
  }

  /** What each step does to the abstract queue: a push enters at its exchange and stops being in
      flight at its link, a pop takes the head, and null is only ever returned by an empty queue
      or by one whose head is still in flight. */
  ghost predicate AbstractStep(a: Abstract, step: Step, nothing: bool, b: Abstract) {
    match step
    case Exchange(_, item) => b == Abstract(a.items + [item], a.inFlight + {item}) && item !in a.items
    case Link(_) =>
      b.items == a.items
      && exists item | item in a.inFlight :: item in a.items && b.inFlight == a.inFlight - {item}
    case Advance => a.items != [] && !HeadInFlight(a) && b == Abstract(a.items[1..], a.inFlight)
    case _ => b == a && (nothing ==> a.items == [] || HeadInFlight(a))
  }

  lemma InFlightItem(s: State, j: nat)
    requires Inv(s) && |s.popped| < j < |s.order|
    ensures s.order[j] in Abs(s).inFlight <==> Unlinked(s, j)
  {
  }

  lemma OtherItems(s: State, p: Producer, q: Producer)
    requires Inv(s) && p in s.pushing && q in s.pushing && p != q
    ensures s.pushing[q].item != s.pushing[p].item
  {
  }

  lemma LinkRefines(s: State, p: Producer)
    requires Inv(s) && Enabled(s, Link(p))
    ensures AbstractStep(Abs(s), Link(p), false, Abs(Apply(s, Link(p))))
  {
    assert PushValid(s, s.pushing[p]);
    assert s.pushing[p].item == Abs(s).items[s.pushing[p].place - |s.popped| - 1];
    forall q | q in s.pushing && q != p ensures s.pushing[q].item != s.pushing[p].item {
      OtherItems(s, p, q);
    }
    ItemsRemove(s.pushing, p);
  }

  lemma ExchangeRefines(s: State, p: Producer, item: Node)
    requires Inv(s) && Enabled(s, Exchange(p, item))
    ensures AbstractStep(Abs(s), Exchange(p, item), false, Abs(Apply(s, Exchange(p, item))))
  {
    var t := Apply(s, Exchange(p, item));
    ItemsAdd(s.pushing, p, t.pushing[p]);
    assert Abs(t).items == Abs(s).items + [item];
  }

  lemma AdvanceRefines(s: State)
    requires Inv(s) && Enabled(s, Advance)
    ensures AbstractStep(Abs(s), Advance, false, Abs(Apply(s, Advance)))
  {
  }

  /** Every step of the implementation is a step of the atomic queue. */
  lemma StepRefines(s: State, step: Step)
    requires Inv(s) && Enabled(s, step)
    ensures Inv(Apply(s, step))
    ensures AbstractStep(Abs(s), step, ReturnsNull(s, step), Abs(Apply(s, step)))
  {
    StepInv(s, step);
    match step {
      case Exchange(p, item) => ExchangeRefines(s, p, item);
      case Link(p) => LinkRefines(s, p);
      case Advance => AdvanceRefines(s);
      case Load =>
        InFlightItem(s, |s.popped| + 1);
        assert LinkValid(s, |s.popped|);
      case _ =>
    }
  }

  /** A pop ends with nothing in hand exactly if the queue is empty or its head is still in flight: the
      check can only find the former, the load also the latter. */
  lemma NothingIff(s: State, step: Step)
    requires Inv(s) && Enabled(s, step) && (step.Check? || step.Load?)
    ensures Apply(s, step).consumer.Idle? <==> Abs(s).items == [] || (step.Load? && HeadInFlight(Abs(s)))
    ensures Apply(s, step).consumer.Idle? <==> ReturnsNull(s, step)
    ensures Apply(s, step).consumer.Loaded? ==> Apply(s, step).consumer.item == Abs(s).items[0]
  {
    LoadFindsHead(s);
  }

  lemma LoadFindsHead(s: State)
    requires Inv(s)
    ensures s.out in s.next || s.consumer.Freed?
    ensures Abs(s).items == [] <==> s.out == s.in_
    ensures !s.consumer.Freed? ==>
      (if Abs(s).items == [] || HeadInFlight(Abs(s)) then s.next[s.out] == None
       else s.next[s.out] == Some(Abs(s).items[0]))
  {
    if !s.consumer.Freed? {
      assert LinkValid(s, |s.popped|);
    }
    if |s.popped| + 1 < |s.order| {
      InFlightItem(s, |s.popped| + 1);
    }
  }

  /** Only the consumer's own steps move the consumer on, and only its last one hands out an item and
      lets it begin again. */
  lemma OthersLeaveConsumer(s: State, step: Step)
    requires Inv(s) && Enabled(s, step)
    ensures step.Exchange? || step.Link? ==>
      Apply(s, step).consumer == s.consumer && Apply(s, step).out == s.out && Apply(s, step).popped == s.popped
    ensures step.Delete? || step.LoadKnown? ==> !Apply(s, step).consumer.Idle?
    ensures step.Advance? ==>
      Apply(s, step).consumer.Idle? && Apply(s, step).popped == s.popped + [s.consumer.item]
      && s.consumer.item == Abs(s).items[0]
    ensures !step.Advance? ==> Apply(s, step).popped == s.popped
    ensures step.Exchange? ==>
      step.producer in Apply(s, step).pushing && Apply(s, step).pushing - {step.producer} == s.pushing
    ensures step.Link? ==> Apply(s, step).pushing == s.pushing - {step.producer} && Apply(s, step).order == s.order
    ensures !step.Exchange? && !step.Link? ==>
      Apply(s, step).pushing == s.pushing && Apply(s, step).order == s.order && Apply(s, step).next == s.next
  {
  }

  /** Nobody ever waits: a producer can always begin with a fresh node, a producer in the middle of a
      push can always finish it, and the consumer can always go on. */
  lemma NobodyWaits(s: State, p: Producer, item: Node)
    requires Inv(s)
    ensures p !in s.pushing && item !in s.next ==> Enabled(s, Exchange(p, item))
    ensures p in s.pushing ==> Enabled(s, Link(p))
    ensures exists step: Step :: !step.Exchange? && !step.Link? && Enabled(s, step)
  {
    LoadFindsHead(s);
    assert s.consumer.Idle? ==> Enabled(s, Check);
    assert s.consumer.Checked? ==> Enabled(s, Load);
    assert s.consumer.Loaded? ==> Enabled(s, Delete);
    assert s.consumer.Freed? ==> Enabled(s, Advance);
  }

  /** A push, whatever else is in flight: the item is at the end of the queue and no longer in flight. */
  lemma PushDelivers(s: State, p: Producer, item: Node)
    requires Inv(s) && p !in s.pushing && item !in s.next
    ensures Enabled(s, Exchange(p, item)) && Enabled(Apply(s, Exchange(p, item)), Link(p))
    ensures var t := Apply(Apply(s, Exchange(p, item)), Link(p));
      && Inv(t) && t.pushing == s.pushing && t.popped == s.popped && t.consumer == s.consumer
      && Abs(t) == Abstract(Abs(s).items + [item], Abs(s).inFlight)
  {
    var m := Apply(s, Exchange(p, item));
    StepInv(s, Exchange(p, item));
    StepInv(m, Link(p));
    PushAppends(s, p, item);
  }

  lemma PushAppends(s: State, p: Producer, item: Node)
    requires |s.popped| < |s.order| && p !in s.pushing && item !in s.next
    ensures var t := Apply(Apply(s, Exchange(p, item)), Link(p));
      && t.pushing == s.pushing && t.popped == s.popped && t.consumer == s.consumer && |t.popped| < |t.order|
      && Abs(t) == Abstract(Abs(s).items + [item], Abs(s).inFlight)
  {
    var m := Apply(s, Exchange(p, item));
    assert m.pushing - {p} == s.pushing;
    assert s.order[|s.popped| + 1..] + [item] == m.order[|s.popped| + 1..];
  }

  /** pop_known is safe exactly when the queue has an item whose push is finished: only then is
      the pointer it follows not null. */
  lemma PopKnownIsSafe(s: State)
    requires Inv(s) && s.consumer.Idle?
    ensures Enabled(s, LoadKnown) <==> Abs(s).items != [] && !HeadInFlight(Abs(s))
    ensures Enabled(s, LoadKnown) ==> Apply(s, LoadKnown).consumer == Loaded(Abs(s).items[0])
  {
    LoadFindsHead(s);
  }

  // ------------------------------------------------------------------ clear

  /** One pop_unknown from start to end, with pushes in flight but none of them going on. */
  function Pop(s: State): State
    requires Inv(s) && s.consumer.Idle?
  {
    var a := Apply(s, Check);
    if !a.consumer.Checked? then a
    else
      StepInv(s, Check);
      LoadFindsHead(a);
      var b := Apply(a, Load);
      if !b.consumer.Loaded? then b
      else
        var c := Apply(b, Delete);
        Apply(c, Advance)
  }

  /** It hands out the head, unless the queue is empty or the push of the head is not finished; the
      pushes in flight stay as they are. */
  lemma PopTakesHead(s: State)
    requires Inv(s) && s.consumer.Idle?
    ensures var t := Pop(s);
      && Inv(t) && t.consumer.Idle? && t.pushing == s.pushing && t.order == s.order
      && t.popped == if Abs(s).items == [] || HeadInFlight(Abs(s)) then s.popped else s.popped + [Abs(s).items[0]]
  {
    var a := Apply(s, Check);
    StepInv(s, Check);
    LoadFindsHead(s);
    if a.consumer.Checked? {
      LoadFindsHead(a);
      var b := Apply(a, Load);
      StepInv(a, Load);
      if b.consumer.Loaded? {
        StepInv(b, Delete);
        StepInv(Apply(b, Delete), Advance);
      }
    }
  }

  lemma NothingInFlight(s: State)
    requires Inv(s) && s.pushing == map[]
    ensures !HeadInFlight(Abs(s))
  {
  }

  /** clear: pop until null comes back. */
  function Clear(s: State): State
    requires Inv(s) && s.consumer.Idle? && s.pushing == map[]
    decreases |s.order| - |s.popped|
  {
    PopTakesHead(s);
    NothingInFlight(s);
    if s.out == s.in_ then s else Clear(Pop(s))
  }

  /** With no push in flight, clear hands out every item and leaves one node: the dummy the
      destructor deletes. */
  lemma {:induction false} ClearEmpties(s: State)
    requires Inv(s) && s.consumer.Idle? && s.pushing == map[]
    ensures var t := Clear(s);
      t.order == s.order && t.popped == Exchanged(s) && t.live == {t.out}
    decreases |s.order| - |s.popped|
  {
    PopTakesHead(s);
    NothingInFlight(s);
    if s.out == s.in_ {
      assert |s.popped| == |s.order| - 1;
      forall n | n in s.live ensures n == s.out {
        var j :| 0 <= j < |s.order| && s.order[j] == n;
      }
      assert s.order[1..|s.popped| + 1] == s.order[1..];
    } else {
      ClearEmpties(Pop(s));
    }
  }
}
