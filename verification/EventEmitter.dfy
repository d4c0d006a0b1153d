/** Event subscribers and triggers: common/EventEmitter.hpp.

    Class EventEmitter holds the fields, one method for each stretch of code that runs under the lock
    or as one atomic operation. The state machine after it interleaves any number of trigger frames,
    nested or concurrent, with any changes to the subscriptions. */
module EventEmitter {
  import opened Lists

  /** A callback and the data it is called with, by number. */
  datatype Subscription = Subscription(callback: nat, data: nat)

  datatype Fields = Fields(
    subscribers: seq<Subscription>, generation: nat,
    callable: seq<Subscription>, callableGeneration: nat,
    triggering: bool)

  function Subscribed(f: Fields, x: Subscription): Fields {
    f.(subscribers := f.subscribers + [x], generation := f.generation + 1)
  }

  function Unsubscribed(f: Fields, x: Subscription): Fields {
    var i := FirstIndex(f.subscribers, x);
    if i == |f.subscribers| then f
    else f.(subscribers := Without(f.subscribers, i), generation := f.generation + 1)
  }

  function Refreshed(f: Fields): Fields {
    if f.generation != f.callableGeneration
    then f.(callable := f.subscribers, callableGeneration := f.generation)
    else f
  }

  /** Of s, element i is the first x, and t is the rest. */
  ghost predicate FirstTakenOut(s: seq<Subscription>, t: seq<Subscription>, i: nat, x: Subscription) {
    i < |s| && s[i] == x && x !in s[..i] && t == s[..i] + s[i + 1..]
  }

  class EventEmitter {
    var subscribers: seq<Subscription>
    var subscribersGeneration: nat
    var callableSubscribers: seq<Subscription>
    var callableSubscribersGeneration: nat
    var isTriggering: bool

    function Now(): Fields
      reads this
    {
      Fields(subscribers, subscribersGeneration, callableSubscribers, callableSubscribersGeneration, isTriggering)
    }

    constructor ()
      ensures Now() == Fields([], 0, [], 0, false)
    {
      subscribers, subscribersGeneration, isTriggering := [], 0, false;
      callableSubscribers, callableSubscribersGeneration := [], 0;
    }

    method Subscribe(x: Subscription)
      modifies this
      ensures subscribers == old(subscribers) + [x] && subscribersGeneration == old(subscribersGeneration) + 1
      ensures Now() == Subscribed(old(Now()), x)
    {
      subscribers := subscribers + [x];
      subscribersGeneration := subscribersGeneration + 1;
    }

    method Unsubscribe(x: Subscription)
      modifies this
      ensures Now() == Unsubscribed(old(Now()), x)
      ensures x !in old(subscribers) ==> Now() == old(Now())
      ensures x in old(subscribers) ==>
        subscribersGeneration == old(subscribersGeneration) + 1
        && exists i: nat :: FirstTakenOut(old(subscribers), subscribers, i, x)
    {
      for i := 0 to |subscribers|
        invariant Now() == old(Now()) && forall j | 0 <= j < i :: subscribers[j] != x
      {
        if subscribers[i].callback == x.callback && subscribers[i].data == x.data {
          subscribers := subscribers[..i] + subscribers[i + 1..];
          subscribersGeneration := subscribersGeneration + 1;
          assert FirstTakenOut(old(subscribers), subscribers, i, x);
          break;
        }
      }
    }

    method UnsubscribeAll()
      modifies this
      ensures Now() == old(Now()).(subscribers := [], generation := old(Now()).generation + 1)
    {
      subscribers := [];
      subscribersGeneration := subscribersGeneration + 1;
    }

    /** isTriggering.fetch_or(1) */
    method FetchTriggering() returns (was: bool)
      modifies this
      ensures was == old(isTriggering) && Now() == old(Now()).(triggering := true)
    {
      was := isTriggering;
      isTriggering := true;
    }

    method RefreshCallable()
      modifies this
      ensures Now() == Refreshed(old(Now()))
      ensures callableSubscribersGeneration == subscribersGeneration && subscribers == old(subscribers)
      ensures callableSubscribers ==
        if old(subscribersGeneration != callableSubscribersGeneration) then subscribers else old(callableSubscribers)
    {
      if subscribersGeneration != callableSubscribersGeneration {
        callableSubscribers := subscribers;
        callableSubscribersGeneration := subscribersGeneration;
      }
    }

    /** A whole trigger that nothing interrupts: it calls the live subscribers in order. */
    method Trigger() returns (called: seq<Subscription>)
      requires FieldsRight(Now())
      modifies this
      ensures called == old(subscribers) && subscribers == old(subscribers) && FieldsRight(Now())
      ensures isTriggering == old(isTriggering)
    {
      called := [];
      var reentrant := FetchTriggering();
      if reentrant {
        var subscribersCopy := subscribers;
        for i := 0 to |subscribersCopy|
          invariant called == subscribersCopy[..i]
        {
          called := called + [subscribersCopy[i]];
        }
      } else {
        RefreshCallable();
        for i := 0 to |callableSubscribers|
          invariant called == callableSubscribers[..i]
        {
          called := called + [callableSubscribers[i]];
        }
        isTriggering := false;
      }
    }
  }

  /** When the generations match, the cached list is the live one. */
  ghost predicate FieldsRight(f: Fields) {
    && f.callableGeneration <= f.generation
    && (f.generation == f.callableGeneration ==> f.callable == f.subscribers)
  }

  // ---------------------------------------------------------- interleavings

  /** One call of trigger. `copying` is what fetch_or answered; `locked` is the live list at the
      moment the frame held the lock, and `called` what it has called so far. The loop of a frame
      that copies runs over its own copy, the loop of one that does not over the shared cache. */
  datatype Frame =
    | Entered(copying: bool)
    | Calling(copying: bool, copy: seq<Subscription>, count: nat, locked: seq<Subscription>, called: seq<Subscription>)
    | Finished(locked: seq<Subscription>, called: seq<Subscription>)

  datatype State = State(fields: Fields, frames: map<nat, Frame>)

  datatype Step =
    | Subscribe(x: Subscription)
    | Unsubscribe(x: Subscription)
    | UnsubscribeAll
    | Enter(id: nat)
    | Lock(id: nat)
    | Call(id: nat)
    | Leave(id: nat)

  function Init(): State {
    State(Fields([], 0, [], 0, false), map[])
  }

  /** The list the loop of a frame reads from now. */
  function Source(s: State, f: Frame): seq<Subscription>
    requires f.Calling?
  {
    if f.copying then f.copy else s.fields.callable
  }

  ghost predicate Enabled(s: State, step: Step) {
    match step
    case Enter(id) => id !in s.frames
    case Lock(id) => id in s.frames && s.frames[id].Entered?
    case Call(id) => id in s.frames && s.frames[id].Calling? && |s.frames[id].called| < s.frames[id].count
    case Leave(id) => id in s.frames && s.frames[id].Calling? && |s.frames[id].called| == s.frames[id].count
    case _ => true
  }

  /** A loop that ran past the end of its list would read an element that is not there. */
  ghost predicate Faults(s: State, step: Step) {
    step.Call? && Enabled(s, step) && |s.frames[step.id].called| >= |Source(s, s.frames[step.id])|
  }

  ghost function Next(s: State, step: Step): State
    requires Enabled(s, step) && !Faults(s, step)
  {
    match step
    case Subscribe(x) => s.(fields := Subscribed(s.fields, x))
    case Unsubscribe(x) => s.(fields := Unsubscribed(s.fields, x))
    case UnsubscribeAll => s.(fields := s.fields.(subscribers := [], generation := s.fields.generation + 1))
    case Enter(id) => State(s.fields.(triggering := true), s.frames[id := Entered(s.fields.triggering)])
    case Lock(id) =>
      var live := s.fields.subscribers;
      if s.frames[id].copying
      then s.(frames := s.frames[id := Calling(true, live, |live|, live, [])])
      else
        var fields := Refreshed(s.fields);
        State(fields, s.frames[id := Calling(false, [], |fields.callable|, live, [])])
    case Call(id) =>
      var f := s.frames[id];
      s.(frames := s.frames[id := Calling(f.copying, f.copy, f.count, f.locked, f.called + [Source(s, f)[|f.called|]])])
    case Leave(id) =>
      var f := s.frames[id];
      State(if f.copying then s.fields else s.fields.(triggering := false),
        s.frames[id := Finished(f.locked, f.called)])
  }

  ghost predicate UsesCache(s: State, id: nat) {
    id in s.frames && !s.frames[id].Finished? && !s.frames[id].copying
  }

  ghost predicate FrameRight(s: State, f: Frame) {
    match f
    case Entered(_) => true
    case Calling(_, _, count, locked, called) => Source(s, f) == locked && count == |locked| && called <= locked
    case Finished(locked, called) => called == locked
  }

  ghost predicate Inv(s: State) {
    && FieldsRight(s.fields)
    && (s.fields.triggering <==> exists id :: UsesCache(s, id))
    && (forall i, j | UsesCache(s, i) && UsesCache(s, j) :: i == j)
    && (forall id | id in s.frames :: FrameRight(s, s.frames[id]))
  }

  lemma InitInv()
    ensures Inv(Init())
  {
  }

  lemma NoFault(s: State, step: Step)
    requires Inv(s) && Enabled(s, step)
    ensures !Faults(s, step)
  {
  }

  /** While a frame runs over the cache no step changes it. */
  lemma CacheStays(s: State, step: Step, id: nat)
    requires Inv(s) && Enabled(s, step) && !Faults(s, step)
    requires id in s.frames && s.frames[id].Calling? && !s.frames[id].copying
    ensures Next(s, step).fields.callable == s.fields.callable
  {
    assert UsesCache(s, id);
    assert step.Lock? ==> step.id != id && !UsesCache(s, step.id);
  }

  lemma SubscriptionInv(s: State, step: Step)
    requires Inv(s) && (step.Subscribe? || step.Unsubscribe? || step.UnsubscribeAll?)
    ensures Inv(Next(s, step))
  {
    var t := Next(s, step);
    assert forall id :: UsesCache(t, id) <==> UsesCache(s, id);
    forall id | id in t.frames ensures FrameRight(t, t.frames[id]) {
      assert FrameRight(s, s.frames[id]);
    }
  }

  lemma EnterInv(s: State, id: nat)
    requires Inv(s) && Enabled(s, Enter(id))
    ensures Inv(Next(s, Enter(id)))
  {
    var t := Next(s, Enter(id));
    if s.fields.triggering {
      var j :| UsesCache(s, j);
      assert UsesCache(t, j);
    } else {
      assert UsesCache(t, id);
    }
    assert forall i :: UsesCache(t, i) <==> UsesCache(s, i) || (i == id && !s.fields.triggering);
    forall i | i in t.frames ensures FrameRight(t, t.frames[i]) {
      assert i != id ==> FrameRight(s, s.frames[i]);
    }
  }

  lemma LockInv(s: State, id: nat)
    requires Inv(s) && Enabled(s, Lock(id))
    ensures Inv(Next(s, Lock(id)))
  {
    var t := Next(s, Lock(id));
    assert forall i :: UsesCache(t, i) <==> UsesCache(s, i);
    forall i | i in t.frames ensures FrameRight(t, t.frames[i]) {
      if i != id {
        assert FrameRight(s, s.frames[i]);
        if s.frames[i].Calling? && !s.frames[i].copying {
          CacheStays(s, Lock(id), i);
        }
      }
    }
  }

  lemma CallInv(s: State, id: nat)
    requires Inv(s) && Enabled(s, Call(id)) && !Faults(s, Call(id))
    ensures Inv(Next(s, Call(id)))
  {
    var t := Next(s, Call(id));
    assert forall i :: UsesCache(t, i) <==> UsesCache(s, i);
    forall i | i in t.frames ensures FrameRight(t, t.frames[i]) {
      assert FrameRight(s, s.frames[i]);
    }
  }

  lemma LeaveInv(s: State, id: nat)
    requires Inv(s) && Enabled(s, Leave(id))
    ensures Inv(Next(s, Leave(id)))
  {
    var t := Next(s, Leave(id));
    assert forall i :: UsesCache(t, i) <==> UsesCache(s, i) && i != id;
    assert !s.frames[id].copying ==> UsesCache(s, id);
    forall i | i in t.frames ensures FrameRight(t, t.frames[i]) {
      assert FrameRight(s, s.frames[i]);
    }
  }

  lemma StepInv(s: State, step: Step)
    requires Inv(s) && Enabled(s, step) && !Faults(s, step)
    ensures Inv(Next(s, step))
  {
    match step {
      case Enter(id) => EnterInv(s, id);
      case Lock(id) => LockInv(s, id);
      case Call(id) => CallInv(s, id);
      case Leave(id) => LeaveInv(s, id);
      case _ => SubscriptionInv(s, step);
    }
  }

  /** What a change of the subscriptions does: to the live list, to the generation exactly if the list
      was touched, and to nothing else. */
  lemma SubscriptionEffects(s: State, step: Step)
    requires Inv(s) && Enabled(s, step) && !Faults(s, step)
    ensures var t := Next(s, step);
      var before, after := s.fields.subscribers, t.fields.subscribers;
      match step
      case Subscribe(x) =>
        t == s.(fields := s.fields.(subscribers := before + [x], generation := s.fields.generation + 1))
      case Unsubscribe(x) =>
        if x in before then
          && t == s.(fields := s.fields.(subscribers := after, generation := s.fields.generation + 1))
          && exists i: nat :: FirstTakenOut(before, after, i, x)
        else t == s
      case UnsubscribeAll => t == s.(fields := s.fields.(subscribers := [], generation := s.fields.generation + 1))
      case _ => after == before && t.fields.generation == s.fields.generation
  {
    match step
    case Unsubscribe(x) =>
      if x in s.fields.subscribers {
        var i := FirstIndex(s.fields.subscribers, x);
        assert FirstTakenOut(s.fields.subscribers, Next(s, step).fields.subscribers, i, x);
      }
    case _ =>
  }

  ghost predicate OthersStay(s: State, t: State, id: nat) {
    t.frames.Keys == s.frames.Keys + {id} && forall j | j in s.frames && j != id :: t.frames[j] == s.frames[j]
  }

  /** A frame that enters copies exactly if another is inside the cache already. */
  lemma EnterEffect(s: State, id: nat)
    requires Inv(s) && Enabled(s, Enter(id))
    ensures var t := Next(s, Enter(id));
      OthersStay(s, t, id) && t.frames[id] == Entered(s.fields.triggering) && t.fields.triggering
    ensures s.fields.triggering <==> exists other :: UsesCache(s, other)
  {
  }

  /** A frame that gets the lock takes the live list, from the cache or as its own copy. */
  lemma LockEffect(s: State, id: nat)
    requires Inv(s) && Enabled(s, Lock(id))
    ensures var t := Next(s, Lock(id)); var f := t.frames[id]; var live := s.fields.subscribers;
      && OthersStay(s, t, id) && f.Calling? && f.copying == s.frames[id].copying
      && f.locked == live && f.called == [] && f.count == |live| && Source(t, f) == live
      && t.fields.triggering == s.fields.triggering
      && (s.frames[id].copying ==> t.fields == s.fields)
  {
  }

  /** A frame calls the next of its list and changes nothing else. */
  lemma CallEffect(s: State, id: nat)
    requires Inv(s) && Enabled(s, Call(id)) && !Faults(s, Call(id))
    ensures var t := Next(s, Call(id)); var f := s.frames[id];
      && t.fields == s.fields && OthersStay(s, t, id)
      && |f.called| < |f.locked|
      && t.frames[id] == Calling(f.copying, f.copy, f.count, f.locked, f.called + [f.locked[|f.called|]])
  {
    assert FrameRight(s, s.frames[id]);
  }

  /** A frame that leaves opens the cache again, if it was the one inside. */
  lemma LeaveEffect(s: State, id: nat)
    requires Inv(s) && Enabled(s, Leave(id))
    ensures var t := Next(s, Leave(id)); var f := s.frames[id];
      && OthersStay(s, t, id) && t.frames[id] == Finished(f.locked, f.called) && f.called == f.locked
      && t.fields == s.fields.(triggering := s.fields.triggering && f.copying)
  {
    assert FrameRight(s, s.frames[id]);
    assert !s.frames[id].copying ==> UsesCache(s, id);
  }

  /** A frame that has begun its calls can go on until it has called all, and then leave. */
  lemma FrameGoesOn(s: State, id: nat)
    requires Inv(s) && id in s.frames && s.frames[id].Calling?
    ensures var f := s.frames[id];
      if |f.called| < |f.locked| then Enabled(s, Call(id)) else Enabled(s, Leave(id))
  {
    assert FrameRight(s, s.frames[id]);
  }

  /** Any frame can begin, get the lock in its turn, and nothing keeps anyone from subscribing. */
  lemma NobodyWaits(s: State, id: nat, x: Subscription)
    requires Inv(s)
    ensures id !in s.frames ==> Enabled(s, Enter(id))
    ensures id in s.frames && s.frames[id].Entered? ==> Enabled(s, Lock(id))
    ensures Enabled(s, Subscribe(x)) && Enabled(s, Unsubscribe(x)) && Enabled(s, UnsubscribeAll)
  {
  }

  // -------------------------------------------------------------- whole runs

  ghost predicate StepTaken(s: State, step: Step, t: State) {
    Enabled(s, step) && !Faults(s, step) && t == Next(s, step)
  }

  ghost predicate TakenAt(states: seq<State>, steps: seq<Step>, i: int)
    requires 0 <= i < |steps| && |states| == |steps| + 1
  {
    StepTaken(states[i], steps[i], states[i + 1])
  }

  ghost predicate Run(states: seq<State>, steps: seq<Step>) {
    && |states| == |steps| + 1 && states[0] == Init()
    && (forall i | 0 <= i < |steps| :: TakenAt(states, steps, i))
  }

  lemma {:induction false} RunInv(states: seq<State>, steps: seq<Step>, n: nat)
    requires Run(states, steps) && n < |states|
    ensures Inv(states[n])
  {
    if n > 0 {
      RunInv(states, steps, n - 1);
      assert TakenAt(states, steps, n - 1);
      StepInv(states[n - 1], steps[n - 1]);
    }
  }

  /** In no reachable state does a trigger loop read past the end of its list. */
  lemma RunNeverFaults(states: seq<State>, steps: seq<Step>, n: nat, step: Step)
    requires Run(states, steps) && n < |states| && Enabled(states[n], step)
    ensures !Faults(states[n], step)
  {
    RunInv(states, steps, n);
    NoFault(states[n], step);
  }

  lemma {:induction false} LockedAtLock(states: seq<State>, steps: seq<Step>, n: nat, id: nat) returns (j: nat)
    requires Run(states, steps) && n < |states| && id in states[n].frames && !states[n].frames[id].Entered?
    ensures j < n && steps[j] == Lock(id) && states[n].frames[id].locked == states[j].fields.subscribers
  {
    assert TakenAt(states, steps, n - 1);
    if steps[n - 1] == Lock(id) {
      j := n - 1;
    } else {
      j := LockedAtLock(states, steps, n - 1, id);
    }
  }

  /** Every trigger calls, in order, exactly the subscribers that were live when it held the lock:
      some of them while it runs, all of them once it has finished. */
  lemma CallsItsSnapshot(states: seq<State>, steps: seq<Step>, n: nat, id: nat)
    requires Run(states, steps) && n < |states| && id in states[n].frames && !states[n].frames[id].Entered?
    ensures exists j | 0 <= j < n ::
      (steps[j] == Lock(id) && states[n].frames[id].called <= states[j].fields.subscribers
      && (states[n].frames[id].Finished? ==> states[n].frames[id].called == states[j].fields.subscribers))
  {
    RunInv(states, steps, n);
    assert FrameRight(states[n], states[n].frames[id]);
    var j := LockedAtLock(states, steps, n, id);
  }

  /** At most one frame at a time runs over the cache. */
  lemma OneCacheUser(states: seq<State>, steps: seq<Step>, n: nat, i: nat, j: nat)
    requires Run(states, steps) && n < |states| && UsesCache(states[n], i) && UsesCache(states[n], j)
    ensures i == j && states[n].fields.triggering
  {
    RunInv(states, steps, n);
  }
}
