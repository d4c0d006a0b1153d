/** Round-robin scheduling: drivers/CpuScheduler.cpp and the guards of kernel/Thread.cpp. The linked
    lists are modelled as the sequences they stand for. */
module Scheduler {
  import opened Lists

  datatype ThreadState = Active | Sleeping | Paused | Terminated

  // ----------------------------------------------------- queues as values

  /** Everything the scheduler decides with. The kernel thread is on no list. */
  datatype Queues = Queues(active: seq<Thread>, sleeping: seq<Thread>, paused: seq<Thread>, terminated: seq<Thread>,
                           current: Thread, kernelThread: Thread)

  ghost predicate NoRepeats(s: seq<Thread>) {
    forall i, j | 0 <= i < j < |s| :: s[i] != s[j]
  }

  ghost predicate Apart(s: seq<Thread>, t: seq<Thread>) {
    forall x | x in s :: x !in t
  }

  predicate OnList(q: Queues, t: Thread) {
    t in q.active || t in q.sleeping || t in q.paused || t in q.terminated
  }

  ghost predicate WellFormed(q: Queues) {
    && NoRepeats(q.active) && NoRepeats(q.sleeping) && NoRepeats(q.paused) && NoRepeats(q.terminated)
    && Apart(q.active, q.sleeping) && Apart(q.active, q.paused) && Apart(q.active, q.terminated)
    && Apart(q.sleeping, q.paused) && Apart(q.sleeping, q.terminated) && Apart(q.paused, q.terminated)
    && !OnList(q, q.kernelThread) && (q.current == q.kernelThread || OnList(q, q.current))
  }

  function Popped(s: seq<Thread>, t: Thread): seq<Thread> {
    if t in s then Without(s, FirstIndex(s, t)) else s
  }

  function Rotated(q: Queues): seq<Thread> {
    if q.current in q.active then Popped(q.active, q.current) + [q.current] else q.active
  }

  function Yielded(q: Queues): Queues {
    var active := Rotated(q);
    q.(active := active, current := if active == [] then q.kernelThread else active[0])
  }

  /** The other things that can happen to a thread. */
  datatype Step =
    | Yield
    | Sleep(thread: Thread)
    | Pause(thread: Thread)
    | Resume(thread: Thread)
    | Add(thread: Thread, state: ThreadState)

  function After(q: Queues, step: Step): Queues {
    match step
    case Yield => Yielded(q)
    case Sleep(t) => if t in q.active then q.(active := Popped(q.active, t), sleeping := q.sleeping + [t]) else q
    case Pause(t) => if t in q.active then q.(active := Popped(q.active, t), paused := q.paused + [t]) else q
    case Resume(t) =>
      if t in q.sleeping then q.(sleeping := Popped(q.sleeping, t), active := q.active + [t])
      else if t in q.paused then q.(paused := Popped(q.paused, t), active := q.active + [t])
      else q
    case Add(t, state) =>
      if OnList(q, t) || t == q.kernelThread then q
      else match state {
        case Active => q.(active := q.active + [t])
        case Sleeping => q.(sleeping := q.sleeping + [t])
        case Paused => q.(paused := q.paused + [t])
        case Terminated => q.(terminated := q.terminated + [t])
      }
  }

  function AfterAll(q: Queues, steps: seq<Step>): Queues
    decreases |steps|
  {
    if steps == [] then q else AfterAll(After(q, steps[0]), steps[1..])
  }

  lemma PoppedStep(s: seq<Thread>, t: Thread)
    requires s != []
    ensures Popped(s, t) == if s[0] == t then s[1..] else [s[0]] + Popped(s[1..], t)
  {
    if s[0] != t && t in s {
      assert FirstIndex(s, t) == 1 + FirstIndex(s[1..], t);
    }
  }

  lemma {:induction false} PoppedFacts(s: seq<Thread>, t: Thread)
    requires NoRepeats(s)
    ensures NoRepeats(Popped(s, t)) && forall x :: x in Popped(s, t) <==> x in s && x != t
  {
    if s != [] {
      PoppedStep(s, t);
      PoppedFacts(s[1..], t);
      assert forall x :: x in s <==> x == s[0] || x in s[1..];
      assert s[0] !in s[1..];
    }
  }

  lemma StepKeepsWellFormed(q: Queues, step: Step)
    requires WellFormed(q)
    ensures WellFormed(After(q, step))
  {
    match step {
      case Yield =>
        PoppedFacts(q.active, q.current);
      case Sleep(t) =>
        PoppedFacts(q.active, t);
      case Pause(t) =>
        PoppedFacts(q.active, t);
      case Resume(t) =>
        ResumeKeepsWellFormed(q, t);
      case Add(t, state) =>
        AddKeepsWellFormed(q, t, state);
    }
  }

  lemma ResumeKeepsWellFormed(q: Queues, t: Thread)
    requires WellFormed(q)
    ensures WellFormed(After(q, Resume(t)))
  {
    PoppedFacts(q.sleeping, t);
    PoppedFacts(q.paused, t);
  }

  lemma AddKeepsWellFormed(q: Queues, t: Thread, state: ThreadState)
    requires WellFormed(q)
    ensures WellFormed(After(q, Add(t, state)))
  {
  }

  predicate Joins(q: Queues, step: Step, x: Thread, state: ThreadState) {
    step == Add(x, state) && !OnList(q, x) && x != q.kernelThread
  }

  /** Who is on which list after a step: only the thread of the step changes its list, and a yield
      changes none. */
  lemma StepMoves(q: Queues, step: Step, x: Thread)
    requires WellFormed(q)
    ensures x in After(q, step).active <==>
      (x in q.active && step != Sleep(x) && step != Pause(x))
      || (step == Resume(x) && (x in q.sleeping || x in q.paused)) || Joins(q, step, x, Active)
    ensures x in After(q, step).sleeping <==>
      (x in q.sleeping && step != Resume(x)) || (step == Sleep(x) && x in q.active) || Joins(q, step, x, Sleeping)
    ensures x in After(q, step).paused <==>
      (x in q.paused && step != Resume(x)) || (step == Pause(x) && x in q.active) || Joins(q, step, x, Paused)
    ensures x in After(q, step).terminated <==> x in q.terminated || Joins(q, step, x, Terminated)
    ensures After(q, step).kernelThread == q.kernelThread
  {
    match step {
      case Yield =>
        PoppedFacts(q.active, q.current);
      case Sleep(t) =>
        PoppedFacts(q.active, t);
      case Pause(t) =>
        PoppedFacts(q.active, t);
      case Resume(t) =>
        PoppedFacts(q.sleeping, t);
        PoppedFacts(q.paused, t);
      case Add(_, _) =>
    }
  }

  function TakenOut(s: seq<Thread>, t: Thread): seq<Thread>
    requires t in s
  {
    Without(s, FirstIndex(s, t))
  }

  /** The order after a step. A yield puts the current thread, if it is active, behind all others, and
      takes the front of the active list, or the kernel thread if there is none. Any other step puts
      its thread at the end of its new list, and leaves the current thread what it is. */
  lemma StepOrders(q: Queues, step: Step)
    ensures match step
      case Yield =>
        var active := if q.current in q.active then TakenOut(q.active, q.current) + [q.current] else q.active;
        After(q, step) == q.(active := active, current := if active == [] then q.kernelThread else active[0])
      case Sleep(t) =>
        t in q.active ==> After(q, step) == q.(active := TakenOut(q.active, t), sleeping := q.sleeping + [t])
      case Pause(t) =>
        t in q.active ==> After(q, step) == q.(active := TakenOut(q.active, t), paused := q.paused + [t])
      case Resume(t) =>
        && (t in q.sleeping ==>
             After(q, step) == q.(sleeping := TakenOut(q.sleeping, t), active := q.active + [t]))
        && (t !in q.sleeping && t in q.paused ==>
             After(q, step) == q.(paused := TakenOut(q.paused, t), active := q.active + [t]))
      case Add(t, state) =>
        && After(q, step).current == q.current
        && (After(q, step).active == q.active || After(q, step).active == q.active + [t])
        && (After(q, step).sleeping == q.sleeping || After(q, step).sleeping == q.sleeping + [t])
        && (After(q, step).paused == q.paused || After(q, step).paused == q.paused + [t])
        && (After(q, step).terminated == q.terminated || After(q, step).terminated == q.terminated + [t])
  {
  }

  // ------------------------------------------------------ bounded waiting

  /** How many threads other than the current one are strictly before t in the queue. */
  function Ahead(s: seq<Thread>, t: Thread, current: Thread): nat {
    if s == [] || s[0] == t then 0 else (if s[0] == current then 0 else 1) + Ahead(s[1..], t, current)
  }

  lemma {:induction false} AheadOfPlace(s: seq<Thread>, k: nat, current: Thread)
    requires k < |s|
    ensures Ahead(s, s[k], current) <= k
  {
    if k > 0 && s[0] != s[k] {
      AheadOfPlace(s[1..], k - 1, current);
    }
  }

  lemma {:induction false} AheadAppend(s: seq<Thread>, x: Thread, t: Thread, current: Thread)
    requires t in s
    ensures Ahead(s + [x], t, current) == Ahead(s, t, current)
  {
    if s[0] != t {
      assert (s + [x])[1..] == s[1..] + [x];
      AheadAppend(s[1..], x, t, current);
    }
  }

  lemma {:induction false} AheadPopped(s: seq<Thread>, x: Thread, t: Thread, current: Thread)
    requires x != t && t in s
    ensures t in Popped(s, x) && Ahead(Popped(s, x), t, current) <= Ahead(s, t, current)
    ensures x == current ==> Ahead(Popped(s, x), t, current) == Ahead(s, t, current)
  {
    PoppedStep(s, x);
    if s[0] != t && s[0] != x {
      AheadPopped(s[1..], x, t, current);
    }
  }

  /** When the front thread becomes current it no longer counts as being ahead. */
  lemma {:induction false} AheadOfNewFront(s: seq<Thread>, t: Thread, was: Thread)
    requires NoRepeats(s) && t in s && s[0] != t && was !in s[..|s| - 1]
    ensures Ahead(s, t, s[0]) == Ahead(s, t, was) - 1
  {
    var rest := s[1..];
    AheadOfOthers(rest, t, s[0], was);
  }

  lemma {:induction false} AheadOfOthers(s: seq<Thread>, t: Thread, c: Thread, d: Thread)
    requires t in s && c !in s && d !in s[..|s| - 1]
    ensures Ahead(s, t, c) == Ahead(s, t, d)
  {
    if s[0] != t {
      assert s[..|s| - 1][0] == s[0];
      assert s[1..][..|s| - 2] == s[..|s| - 1][1..];
      AheadOfOthers(s[1..], t, c, d);
    }
  }

  predicate TakesAway(step: Step, t: Thread) {
    step == Sleep(t) || step == Pause(t)
  }

  /** Nothing that happens to other threads makes a waiting thread wait longer, and every yield
      brings it one place nearer or makes it current. */
  lemma StepBringsNearer(q: Queues, step: Step, t: Thread)
    requires WellFormed(q) && t in q.active && q.current != t && !TakesAway(step, t)
    ensures t in After(q, step).active
    ensures step != Yield ==> After(q, step).current == q.current
    ensures step != Yield ==> Ahead(After(q, step).active, t, q.current) <= Ahead(q.active, t, q.current)
    ensures step == Yield && After(q, step).current != t ==>
      Ahead(After(q, step).active, t, After(q, step).current) < Ahead(q.active, t, q.current)
  {
    match step {
      case Yield =>
        YieldBringsNearer(q, t);
      case Sleep(x) =>
        AheadPopped(q.active, x, t, q.current);
      case Pause(x) =>
        AheadPopped(q.active, x, t, q.current);
      case Resume(x) =>
        AheadAppend(q.active, x, t, q.current);
      case Add(x, _) =>
        AheadAppend(q.active, x, t, q.current);
    }
  }

  lemma YieldBringsNearer(q: Queues, t: Thread)
    requires WellFormed(q) && t in q.active && q.current != t
    ensures t in Yielded(q).active
    ensures Yielded(q).current != t ==> Ahead(Yielded(q).active, t, Yielded(q).current) < Ahead(q.active, t, q.current)
  {
    var s := Rotated(q);
    PoppedFacts(q.active, q.current);
    if q.current in q.active {
      AheadPopped(q.active, q.current, t, q.current);
      AheadAppend(Popped(q.active, q.current), q.current, t, q.current);
      assert s[..|s| - 1] == Popped(q.active, q.current);
    }
    if s[0] != t {
      AheadOfNewFront(s, t, q.current);
    }
  }

  function Yields(steps: seq<Step>): nat {
    if steps == [] then 0 else (if steps[0] == Yield then 1 else 0) + Yields(steps[1..])
  }

  /** Bounded waiting. A thread at place k that nobody puts to sleep or pauses has become current by
      the time of yield k + 1, whatever happens to the others in between. */
  lemma BoundedWaiting(q: Queues, k: nat, steps: seq<Step>)
    requires WellFormed(q) && k < |q.active| && Yields(steps) > k
    requires forall step | step in steps :: !TakesAway(step, q.active[k])
    ensures exists n | 0 <= n <= |steps| ::
      AfterAll(q, steps[..n]).current == q.active[k] && Yields(steps[..n]) <= k + 1
  {
    AheadOfPlace(q.active, k, q.current);
    var n := WaitingEnds(q, q.active[k], steps);
  }

  lemma {:induction false} WaitingEnds(q: Queues, t: Thread, steps: seq<Step>) returns (n: nat)
    requires WellFormed(q) && t in q.active && Yields(steps) > Ahead(q.active, t, q.current)
    requires forall step | step in steps :: !TakesAway(step, t)
    ensures n <= |steps| && AfterAll(q, steps[..n]).current == t
    ensures Yields(steps[..n]) <= Ahead(q.active, t, q.current) + 1
    decreases |steps|
  {
    if q.current == t {
      assert AfterAll(q, steps[..0]).current == t;
      return 0;
    }
    var next := After(q, steps[0]);
    StepKeepsWellFormed(q, steps[0]);
    StepBringsNearer(q, steps[0], t);
    if next.current == t {
      assert steps[..1][1..] == [];
      assert AfterAll(next, []) == next;
      n := 1;
    } else {
      var m := WaitingEnds(next, t, steps[1..]);
      n := m + 1;
      assert steps[..n][0] == steps[0] && steps[..n][1..] == steps[1..][..m];
    }
  }

  // ------------------------------------------------------------ the classes

  /** kernel/Thread.cpp. The timer hands out the ids. */
  class Thread {
    var state: ThreadState
    var scheduler: CpuScheduler?
    var pendingTimerId: nat

    constructor (state: ThreadState, scheduler: CpuScheduler?)
      ensures this.state == state && this.scheduler == scheduler
    {
      this.state, this.scheduler, pendingTimerId := state, scheduler, 0;
    }

    /** This thread is on the lists of the scheduler it refers to, if any. */
    ghost predicate Attached()
      reads *
    {
      scheduler != null ==> scheduler.Valid() && OnList(scheduler.Snapshot(), this)
    }

    method Sleep(timerId: nat)
      requires Attached()
      modifies this, scheduler
      ensures scheduler == old(scheduler) && Attached()
      ensures state == if old(state) == Active && scheduler != null then Sleeping else old(state)
      ensures pendingTimerId == if old(state) == Active && scheduler != null then timerId else old(pendingTimerId)
      ensures scheduler != null ==> scheduler.Snapshot() == After(old(scheduler.Snapshot()), Step.Sleep(this))
    {
      if state != Active || scheduler == null {
        return;
      }
      state := Sleeping;
      scheduler.OnThreadSleep(this, timerId);
    }

    /** A paused thread without a scheduler changes state and nothing else. */
    method Pause()
      requires Attached()
      modifies this, scheduler
      ensures scheduler == old(scheduler) && Attached()
      ensures state == (if old(state) == Active then Paused else old(state)) && pendingTimerId == old(pendingTimerId)
      ensures scheduler != null ==> scheduler.Snapshot() == After(old(scheduler.Snapshot()), Step.Pause(this))
    {
      if state != Active {
        return;
      }
      state := Paused;
      if scheduler != null {
        scheduler.OnThreadPaused(this);
      }
    }

    method Resume()
      requires Attached()
      modifies this, scheduler
      ensures scheduler == old(scheduler) && Attached()
      ensures state == (if old(state) == Terminated then Terminated else Active)
        && pendingTimerId == old(pendingTimerId)
      ensures scheduler != null ==> scheduler.Snapshot() == After(old(scheduler.Snapshot()), Step.Resume(this))
    {
      match state {
        case Active =>
        case Sleeping =>
          state := Active;
          if scheduler != null {
            scheduler.OnThreadSleepingResumed(this);
          }
        case Paused =>
          state := Active;
          if scheduler != null {
            scheduler.OnThreadPausedResumed(this);
          }
        case Terminated =>
      }
    }

    /** The callback that Sleep leaves with the timer: late and outdated ones do nothing. */
    method TimerFired(timerId: nat)
      requires Attached()
      modifies this, scheduler
      ensures scheduler == old(scheduler) && Attached()
      ensures state == (if old(state == Sleeping && pendingTimerId == timerId) then Active else old(state))
      ensures pendingTimerId == old(pendingTimerId)
      ensures scheduler != null ==>
        scheduler.Snapshot() ==
        if old(state == Sleeping && pendingTimerId == timerId) then After(old(scheduler.Snapshot()), Step.Resume(this))
        else old(scheduler.Snapshot())
    {
      if state != Sleeping {
        return;
      }
      if timerId != pendingTimerId {
        return;
      }
      Resume();
    }
  }

  class CpuScheduler {
    var currentThread: Thread
    const kernelThread: Thread
    var activeThreads: seq<Thread>
    var sleepingThreads: seq<Thread>
    var pausedThreads: seq<Thread>
    var terminatedThreads: seq<Thread>

    function Snapshot(): Queues
      reads this
    {
      Queues(activeThreads, sleepingThreads, pausedThreads, terminatedThreads, currentThread, kernelThread)
    }

    /** Every thread is on the list of its state, apart from one whose state has just changed. */
    ghost predicate StatesMatch(changing: Thread?)
      reads this, activeThreads, sleepingThreads, pausedThreads, terminatedThreads
    {
      && (forall t | t in activeThreads && t != changing :: t.state == Active && t.scheduler == this)
      && (forall t | t in sleepingThreads && t != changing :: t.state == Sleeping && t.scheduler == this)
      && (forall t | t in pausedThreads && t != changing :: t.state == Paused && t.scheduler == this)
      && (forall t | t in terminatedThreads && t != changing :: t.state == Terminated && t.scheduler == this)
    }

    ghost predicate Valid()
      reads this, activeThreads, sleepingThreads, pausedThreads, terminatedThreads
    {
      WellFormed(Snapshot()) && StatesMatch(null)
    }

    constructor (kernelThread: Thread)
      ensures Valid() && Snapshot() == Queues([], [], [], [], kernelThread, kernelThread)
    {
      this.kernelThread, currentThread := kernelThread, kernelThread;
      activeThreads, sleepingThreads, pausedThreads, terminatedThreads := [], [], [], [];
    }

    method AddThread(thread: Thread)
      requires Valid() && !OnList(Snapshot(), thread) && thread != kernelThread && thread.scheduler == this
      modifies this
      ensures Valid() && Snapshot() == After(old(Snapshot()), Step.Add(thread, thread.state))
    {
      StepKeepsWellFormed(Snapshot(), Step.Add(thread, thread.state));
      match thread.state {
        case Active => activeThreads := activeThreads + [thread];
        case Paused => pausedThreads := pausedThreads + [thread];
        case Sleeping => sleepingThreads := sleepingThreads + [thread];
        case Terminated => terminatedThreads := terminatedThreads + [thread];
      }
      assert Snapshot() == After(old(Snapshot()), Step.Add(thread, thread.state));
    }

    /** _yield: an active current thread goes to the back, and the front thread becomes current. */
    method Yield()
      requires Valid()
      modifies this`currentThread, this`activeThreads
      ensures Valid() && Snapshot() == Yielded(old(Snapshot()))
      ensures currentThread == kernelThread || currentThread.state == Active
      ensures currentThread == kernelThread <==> activeThreads == []
      ensures activeThreads != [] ==> currentThread == activeThreads[0]
    {
      StepKeepsWellFormed(Snapshot(), Step.Yield);
      PoppedFacts(activeThreads, currentThread);
      if currentThread != kernelThread {
        match currentThread.state {
          case Active =>
            activeThreads := Popped(activeThreads, currentThread);
            activeThreads := activeThreads + [currentThread];
          case _ =>
        }
      }
      if activeThreads != [] {
        currentThread := activeThreads[0];
      } else {
        currentThread := kernelThread;
      }
      assert activeThreads != [] ==> activeThreads[0] in activeThreads;
      assert Snapshot() == Yielded(old(Snapshot()));
    }

    method OnThreadSleep(thread: Thread, timerId: nat)
      requires WellFormed(Snapshot()) && StatesMatch(thread) && thread in activeThreads
      requires thread.state == Sleeping && thread.scheduler == this
      modifies this, thread`pendingTimerId
      ensures Valid() && Snapshot() == After(old(Snapshot()), Step.Sleep(thread)) && thread.pendingTimerId == timerId
    {
      StepKeepsWellFormed(Snapshot(), Step.Sleep(thread));
      PoppedFacts(activeThreads, thread);
      activeThreads := Popped(activeThreads, thread);
      sleepingThreads := sleepingThreads + [thread];
      thread.pendingTimerId := timerId;
    }

    method OnThreadPaused(thread: Thread)
      requires WellFormed(Snapshot()) && StatesMatch(thread) && thread in activeThreads
      requires thread.state == Paused && thread.scheduler == this
      modifies this
      ensures Valid() && Snapshot() == After(old(Snapshot()), Step.Pause(thread))
    {
      StepKeepsWellFormed(Snapshot(), Step.Pause(thread));
      PoppedFacts(activeThreads, thread);
      activeThreads := Popped(activeThreads, thread);
      pausedThreads := pausedThreads + [thread];
    }

    method OnThreadPausedResumed(thread: Thread)
      requires WellFormed(Snapshot()) && StatesMatch(thread) && thread in pausedThreads
      requires thread.state == Active && thread.scheduler == this
      modifies this
      ensures Valid() && Snapshot() == After(old(Snapshot()), Step.Resume(thread))
    {
      StepKeepsWellFormed(Snapshot(), Step.Resume(thread));
      PoppedFacts(pausedThreads, thread);
      pausedThreads := Popped(pausedThreads, thread);
      activeThreads := activeThreads + [thread];
    }

    method OnThreadSleepingResumed(thread: Thread)
      requires WellFormed(Snapshot()) && StatesMatch(thread) && thread in sleepingThreads
      requires thread.state == Active && thread.scheduler == this
      modifies this
      ensures Valid() && Snapshot() == After(old(Snapshot()), Step.Resume(thread))
    {
      StepKeepsWellFormed(Snapshot(), Step.Resume(thread));
      PoppedFacts(sleepingThreads, thread);
      sleepingThreads := Popped(sleepingThreads, thread);
      activeThreads := activeThreads + [thread];
    }
  }
}
