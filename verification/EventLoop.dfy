/** The event loop's cross-thread queue and its wake-up, as interleaved steps.

    Every step is one action that no other thread can split: a push under the lock, a write to
    or a read from the wake-up descriptor, the swap under the lock.  Posting from another thread
    is two steps, the push and the write, and the loop can do anything in between. */
module EventLoop {
  type ThreadId = nat

  /** Who queued a functor: another thread, a functor of the running batch, a timer callback, or
      a handler of an input/output event. */
  datatype Origin = Remote(thread: ThreadId) | FromBatch | FromTimer | FromEvent

  datatype Functor = Functor(id: nat, origin: Origin)

  /** Where the loop thread is. */
  datatype Phase =
    | Polling
    | Dispatching(wakeReady: bool)   // handling events; the wake-up channel is still to be handled
    | Draining                       // inside the wake-up channel's read loop
    | BeforeSwap
    | RunningBatch
    | RunningTimers

  datatype Loop = Loop(
    phase: Phase,
    pending: seq<Functor>,
    batch: seq<Functor>,             // what is left of the swapped-out queue
    calling: bool,
    wakeups: nat,                    // what a read of the wake-up descriptor would find
    owing: map<ThreadId, nat>,       // posters between push and write, with what they pushed
    loopOwes: bool,                  // the loop thread itself is between push and write
    history: seq<Functor>,           // every functor ever queued, in the order of the pushes
    ran: seq<Functor>)               // every functor ever called, in order

  const IDLE := Loop(Polling, [], [], false, 0, map[], false, [], [])

  datatype Step =
    | Push(thread: ThreadId)
    | Wakeup(thread: ThreadId, full: bool)
    | OtherWakeup
    | LoopPush
    | LoopWakeup(full: bool)
    | PollReturns(wakeReady: bool)
    | BeginDrain
    | Drain(count: nat)
    | EndDrain
    | BeginPending
    | Swap
    | RunNext
    | EndBatch
    | EndTimers

  /** A write fails only when the descriptor is full, and then it is readable anyway.  A poll
      may time out or report other descriptors; it reports the wake-up one only if readable. */
  predicate Enabled(s: Loop, step: Step) {
    match step
    case Push(t) => t !in s.owing
    case Wakeup(t, full) => t in s.owing && (full ==> s.wakeups > 0)
    case OtherWakeup => true
    case LoopPush => !s.loopOwes && (s.phase.Dispatching? || s.phase == RunningBatch || s.phase == RunningTimers)
    case LoopWakeup(full) => s.loopOwes && (full ==> s.wakeups > 0)
    case PollReturns(wakeReady) => s.phase == Polling && (wakeReady ==> s.wakeups > 0)
    case BeginDrain => s.phase == Dispatching(true) && !s.loopOwes
    case Drain(count) => s.phase == Draining && 0 < count <= s.wakeups
    case EndDrain => s.phase == Draining && s.wakeups == 0
    case BeginPending => s.phase == Dispatching(false) && !s.loopOwes
    case Swap => s.phase == BeforeSwap
    case RunNext => s.phase == RunningBatch && s.batch != [] && !s.loopOwes
    case EndBatch => s.phase == RunningBatch && s.batch == [] && !s.loopOwes
    case EndTimers => s.phase == RunningTimers && !s.loopOwes
  }

  function LoopOrigin(phase: Phase): Origin {
    if phase == RunningBatch then FromBatch else if phase == RunningTimers then FromTimer else FromEvent
  }

  function Queue(s: Loop, origin: Origin): Loop {
    var f := Functor(|s.history|, origin);
    s.(pending := s.pending + [f], history := s.history + [f])
  }

  function Written(s: Loop, full: bool): Loop {
    if full then s else s.(wakeups := s.wakeups + 1)
  }

  function Next(s: Loop, step: Step): Loop
    requires Enabled(s, step)
  {
    match step
    case Push(t) => Queue(s, Remote(t)).(owing := s.owing[t := |s.history|])
    case Wakeup(t, full) => Written(s, full).(owing := s.owing - {t})
    case OtherWakeup => Written(s, false)
    case LoopPush => Queue(s, LoopOrigin(s.phase)).(loopOwes := s.calling)
    case LoopWakeup(full) => Written(s, full).(loopOwes := false)
    case PollReturns(wakeReady) => s.(phase := Dispatching(wakeReady))
    case BeginDrain => s.(phase := Draining)
    case Drain(count) => s.(wakeups := s.wakeups - count)
    case EndDrain => s.(phase := Dispatching(false))
    case BeginPending => s.(phase := BeforeSwap, calling := true)
    case Swap => s.(phase := RunningBatch, batch := s.pending, pending := [])
    case RunNext => s.(batch := s.batch[1..], ran := s.ran + [s.batch[0]])
    case EndBatch => s.(phase := RunningTimers, calling := false)
    case EndTimers => s.(phase := Polling)
  }

  predicate Feasible(s: Loop, steps: seq<Step>)
    decreases |steps|
  {
    steps == [] || (Enabled(s, steps[0]) && Feasible(Next(s, steps[0]), steps[1..]))
  }

  function Run(s: Loop, steps: seq<Step>): Loop
    requires Feasible(s, steps)
    decreases |steps|
  {
    if steps == [] then s else Run(Next(s, steps[0]), steps[1..])
  }

  // ---------------------------------------------------------------- invariants

  /** Ran, running and waiting functors are together the history of all pushes, in order. */
  predicate InOrder(s: Loop) {
    && s.ran + s.batch + s.pending == s.history
    && (s.phase != RunningBatch ==> s.batch == [])
    && (forall i :: 0 <= i < |s.history| ==> s.history[i].id == i)
  }

  /** The next poll will return at once for `f`, or its poster is about to make it so. */
  predicate WakeComing(s: Loop, f: Functor) {
    match f.origin
    case Remote(t) => s.wakeups > 0 || (t in s.owing && s.owing[t] == f.id)
    case FromBatch => s.wakeups > 0 || s.loopOwes
    case FromTimer => true
    case FromEvent => false
  }

  predicate AfterSwap(phase: Phase) {
    phase == RunningBatch || phase == RunningTimers || phase == Polling
  }

  predicate Wakes(s: Loop) {
    && (s.calling <==> s.phase == BeforeSwap || s.phase == RunningBatch)
    && (s.loopOwes ==> s.phase == RunningBatch)
    && (AfterSwap(s.phase) ==> forall f :: f in s.pending ==> WakeComing(s, f))
  }

  lemma StepInOrder(s: Loop, step: Step)
    requires InOrder(s) && Enabled(s, step)
    ensures InOrder(Next(s, step))
  {
    var n := Next(s, step);
    match step
    case Swap => assert s.ran + s.pending + [] == s.ran + [] + s.pending;
    case RunNext => assert n.ran + n.batch == s.ran + s.batch;
    case Push(_) => assert n.ran + n.batch + n.pending == s.history + [n.history[|s.history|]];
    case LoopPush => assert n.ran + n.batch + n.pending == s.history + [n.history[|s.history|]];
    case _ =>
  }

  lemma StepWakes(s: Loop, step: Step)
    requires Wakes(s) && Enabled(s, step)
    ensures Wakes(Next(s, step))
  {
    var n := Next(s, step);
    if AfterSwap(n.phase) {
      forall f | f in n.pending
        ensures WakeComing(n, f)
      {
        if f in s.pending && AfterSwap(s.phase) {
          assert WakeComing(s, f);
        }
      }
    }
  }

  lemma {:induction false} RunInvariants(s: Loop, steps: seq<Step>)
    requires InOrder(s) && Wakes(s) && Feasible(s, steps)
    ensures InOrder(Run(s, steps)) && Wakes(Run(s, steps))
    decreases |steps|
  {
    hide Next, Enabled, InOrder, Wakes;
    if steps != [] {
      StepInOrder(s, steps[0]);
      StepWakes(s, steps[0]);
      RunInvariants(Next(s, steps[0]), steps[1..]);
    }
  }

  /** No lost wake-up, in every interleaving: whenever the loop is about to poll while a functor
      waits, the wake-up descriptor is readable or the functor's poster has pushed it and not
      yet written, unless a timer callback queued it. */
  lemma NoLostWakeup(steps: seq<Step>, f: Functor)
    requires Feasible(IDLE, steps)
    requires var s := Run(IDLE, steps); s.phase == Polling && f in s.pending
    ensures var s := Run(IDLE, steps);
      || f.origin == FromTimer
      || s.wakeups > 0
      || (f.origin.Remote? && f.origin.thread in s.owing && s.owing[f.origin.thread] == f.id)
  {
    hide Run, Feasible;
    RunInvariants(IDLE, steps);
    assert WakeComing(Run(IDLE, steps), f);
  }

  /** A functor queued by an event handler never waits for a poll: its own round runs it. */
  lemma EventFunctorsRunThisRound(steps: seq<Step>, f: Functor)
    requires Feasible(IDLE, steps)
    requires var s := Run(IDLE, steps); AfterSwap(s.phase) && f in s.pending
    ensures f.origin != FromEvent
  {
    hide Run, Feasible;
    RunInvariants(IDLE, steps);
    assert WakeComing(Run(IDLE, steps), f);
  }

  ghost predicate Reaches(s: Loop, t: Loop) {
    exists steps :: Feasible(s, steps) && Run(s, steps) == t
  }

  lemma ReachesBy(s: Loop, step: Step, t: Loop)
    requires Enabled(s, step) && Reaches(Next(s, step), t)
    ensures Reaches(s, t)
  {
    hide Enabled, Next;
    var rest :| Feasible(Next(s, step), rest) && Run(Next(s, step), rest) == t;
    var steps := [step] + rest;
    assert steps[1..] == rest;
    assert Feasible(s, steps) && Run(s, steps) == t;
  }

  /** The exception is real: a functor queued by a timer callback can wait at the poll with
      nothing to wake it but the poll's own timeout. */
  lemma TimerFunctorCanWait()
    ensures var f := Functor(0, FromTimer); Reaches(IDLE, IDLE.(pending := [f], history := [f]))
  {
    hide Run, Feasible;
    var f := Functor(0, FromTimer);
    var end := IDLE.(pending := [f], history := [f]);
    var dispatching := IDLE.(phase := Dispatching(false));
    var beforeSwap := IDLE.(phase := BeforeSwap, calling := true);
    var running := IDLE.(phase := RunningBatch, calling := true);
    var timers := IDLE.(phase := RunningTimers);
    var queued := end.(phase := RunningTimers);
    ReachesItself(end);
    assert Next(queued, EndTimers) == end;
    ReachesBy(queued, EndTimers, end);
    assert Next(timers, LoopPush) == queued;
    ReachesBy(timers, LoopPush, end);
    assert Next(running, EndBatch) == timers;
    ReachesBy(running, EndBatch, end);
    assert Next(beforeSwap, Swap) == running;
    ReachesBy(beforeSwap, Swap, end);
    assert Next(dispatching, BeginPending) == beforeSwap;
    ReachesBy(dispatching, BeginPending, end);
    assert Next(IDLE, PollReturns(false)) == dispatching;
    ReachesBy(IDLE, PollReturns(false), end);
  }

  lemma ReachesItself(s: Loop)
    ensures Reaches(s, s)
  {
    assert Feasible(s, []) && Run(s, []) == s;
  }

  /** A run in which the loop polls while a functor of this origin waits, with nothing to wake it
      and its poster not about to. */
  ghost predicate Strands(steps: seq<Step>, f: Functor) {
    && Feasible(IDLE, steps)
    && var s := Run(IDLE, steps);
      && s.phase == Polling && f in s.pending && s.wakeups == 0
      && !(f.origin.Remote? && f.origin.thread in s.owing && s.owing[f.origin.thread] == f.id)
  }

  /** Exactly the functors that timer callbacks queue can be stranded. */
  lemma StrandedExactly(origin: Origin)
    ensures (exists steps, f :: Strands(steps, f) && f.origin == origin) <==> origin == FromTimer
  {
    hide Run, Feasible;
    forall steps, f | Strands(steps, f)
      ensures f.origin == FromTimer
    {
      NoLostWakeup(steps, f);
    }
    TimerFunctorCanWait();
    var timer := Functor(0, FromTimer);
    var steps :| Feasible(IDLE, steps) && Run(IDLE, steps) == IDLE.(pending := [timer], history := [timer]);
    assert Strands(steps, timer);
  }

  /** Functors run exactly once and in the order of their pushes: what ran is a prefix of the
      history, what is left of it is exactly what still waits, and no two share an identity. */
  lemma RunOnceInOrder(steps: seq<Step>)
    requires Feasible(IDLE, steps)
    ensures var s := Run(IDLE, steps);
      && s.ran + (s.batch + s.pending) == s.history
      && (forall i, j :: 0 <= i < j < |s.ran| ==> s.ran[i].id < s.ran[j].id)
  {
    hide Run, Feasible;
    RunInvariants(IDLE, steps);
    var s := Run(IDLE, steps);
    assert s.ran + (s.batch + s.pending) == s.history;
    assert forall i :: 0 <= i < |s.ran| ==> s.ran[i] == s.history[i];
  }

  // ---------------------------------------------------------------- the batch, alone in its thread

  /** A functor as code: what it queues when it is called. */
  datatype Job = Job(id: nat, queues: seq<Job>)

  function Queued(jobs: seq<Job>): seq<Job> {
    if jobs == [] then [] else jobs[0].queues + Queued(jobs[1..])
  }

  lemma {:induction false} QueuedSnoc(jobs: seq<Job>, j: Job)
    ensures Queued(jobs + [j]) == Queued(jobs) + j.queues
  {
    if jobs == [] {
      assert [] + [j] == [j] && [j][1..] == [];
      assert Queued([j]) == j.queues + Queued([]);
    } else {
      assert (jobs + [j])[1..] == jobs[1..] + [j];
      QueuedSnoc(jobs[1..], j);
    }
  }

  class PendingQueue {
    var pendingFunctors: seq<Job>
    var callingPendingFunctors: bool
    var wakeups: nat
    ghost var ran: seq<Job>

    method QueueInLoop(job: Job, inLoopThread: bool)
      modifies this`pendingFunctors, this`wakeups
      ensures pendingFunctors == old(pendingFunctors) + [job]
      ensures wakeups == old(wakeups) + if inLoopThread && !callingPendingFunctors then 0 else 1
    {
      pendingFunctors := pendingFunctors + [job];
      if !inLoopThread || callingPendingFunctors {
        wakeups := wakeups + 1;
      }
    }

    method Call(job: Job)
      modifies this
      ensures ran == old(ran) + [job]
      ensures pendingFunctors == old(pendingFunctors) + job.queues
      ensures callingPendingFunctors == old(callingPendingFunctors)
      ensures old(callingPendingFunctors) ==> wakeups == old(wakeups) + |job.queues|
    {
      ran := ran + [job];
      for i := 0 to |job.queues|
        invariant ran == old(ran) + [job]
        invariant pendingFunctors == old(pendingFunctors) + job.queues[..i]
        invariant callingPendingFunctors == old(callingPendingFunctors)
        invariant callingPendingFunctors ==> wakeups == old(wakeups) + i
      {
        QueueInLoop(job.queues[i], true);
        assert job.queues[..i + 1] == job.queues[..i] + [job.queues[i]];
      }
      assert job.queues[..|job.queues|] == job.queues;
    }

    /** One round runs exactly what was waiting when it began; what those functors queue waits
        for the next round, and each of them has written its wake-up. */
    method DoPendingFunctors()
      modifies this
      ensures ran == old(ran) + old(pendingFunctors)
      ensures pendingFunctors == Queued(old(pendingFunctors))
      ensures !callingPendingFunctors
      ensures wakeups == old(wakeups) + |Queued(old(pendingFunctors))|
    {
      var functors: seq<Job> := [];
      callingPendingFunctors := true;
      functors, pendingFunctors := pendingFunctors, functors;
      for i := 0 to |functors|
        invariant callingPendingFunctors
        invariant ran == old(ran) + functors[..i]
        invariant pendingFunctors == Queued(functors[..i])
        invariant wakeups == old(wakeups) + |Queued(functors[..i])|
      {
        Call(functors[i]);
        QueuedSnoc(functors[..i], functors[i]);
        assert functors[..i + 1] == functors[..i] + [functors[i]];
      }
      assert functors[..|functors|] == functors;
      callingPendingFunctors := false;
    }
  }
}
