/** The loop does call what is queued: safety of a whole round, and that a round is always possible. */
module LoopProgress {
  import opened EventLoop

  /** Called, or in the batch that is being called. */
  function Begun(s: Loop): seq<Functor> {
    s.ran + s.batch
  }

  /** Which origin a push gets: the thread that posted it, or what the loop thread was doing. */
  lemma OriginTold(s: Loop, step: Step)
    requires Enabled(s, step) && Next(s, step).history != s.history
    ensures var n := Next(s, step);
      && |n.history| == |s.history| + 1 && n.history[..|s.history|] == s.history
      && var f := n.history[|s.history|];
        && n.pending == s.pending + [f]
        && (forall t :: f.origin == Remote(t) <==> step == Push(t))
        && (f.origin == FromBatch <==> step == LoopPush && s.phase == RunningBatch)
        && (f.origin == FromTimer <==> step == LoopPush && s.phase == RunningTimers)
        && (f.origin == FromEvent <==> step == LoopPush && s.phase.Dispatching?)
  {}

  lemma StepBegun(s: Loop, step: Step)
    requires InOrder(s) && Enabled(s, step)
    ensures Begun(s) <= Begun(Next(s, step)) && s.history <= Next(s, step).history
    ensures step == Swap ==> Begun(Next(s, step)) == s.history
  {
    if step == RunNext {
      assert Begun(Next(s, step)) == Begun(s);
    }
    assert Begun(s) <= s.history;
  }

  lemma {:induction false} RunBegun(s: Loop, steps: seq<Step>)
    requires InOrder(s) && Feasible(s, steps)
    ensures Begun(s) <= Begun(Run(s, steps)) && s.history <= Run(s, steps).history
    decreases |steps|
  {
    hide Next, Enabled, InOrder, Begun;
    if steps != [] {
      StepBegun(s, steps[0]);
      StepInOrder(s, steps[0]);
      RunBegun(Next(s, steps[0]), steps[1..]);
    }
  }

  /** A functor that is queued before the loop swaps has been called by the time the batch is
      empty again, whoever queued it and whatever other threads do meanwhile. */
  lemma {:induction false} RoundCallsAll(s: Loop, steps: seq<Step>)
    requires InOrder(s) && Feasible(s, steps) && Swap in steps && Run(s, steps).batch == []
    ensures s.history <= Run(s, steps).ran
    decreases |steps|
  {
    hide Next, Enabled, InOrder;
    var n := Next(s, steps[0]);
    StepBegun(s, steps[0]);
    StepInOrder(s, steps[0]);
    if steps[0] == Swap {
      RunBegun(n, steps[1..]);
    } else {
      assert steps == [steps[0]] + steps[1..];
      RoundCallsAll(n, steps[1..]);
    }
  }

  /** What is queued while events are handled, or by anyone before the swap of a round, is in the
      batch of that round: it never waits for a poll. */
  lemma {:induction false} QueuedBeforeSwap(s: Loop, steps: seq<Step>)
    requires InOrder(s) && !AfterSwap(s.phase)
    requires Feasible(s, steps) && AfterSwap(Run(s, steps).phase)
    ensures s.history <= Begun(Run(s, steps))
    decreases |steps|
  {
    hide InOrder, Begun;
    var n := Next(s, steps[0]);
    StepBegun(s, steps[0]);
    StepInOrder(s, steps[0]);
    if AfterSwap(n.phase) {
      RunBegun(n, steps[1..]);
    } else {
      QueuedBeforeSwap(n, steps[1..]);
    }
  }

  // ---------------------------------------------------------------- a round is always possible

  /** A step that the loop thread takes by itself. */
  predicate Own(step: Step) {
    !step.Push? && !step.Wakeup? && !step.OtherWakeup? && !step.LoopPush?
  }

  function Rank(phase: Phase): nat {
    match phase
    case Dispatching(true) => 6
    case Draining => 5
    case Dispatching(false) => 4
    case BeforeSwap => 3
    case RunningBatch => 2
    case RunningTimers => 1
    case Polling => 0
  }

  /** What the loop thread does next when it does not poll. */
  function Onward(s: Loop): Step
    requires s.phase != Polling
  {
    match s.phase
    case Dispatching(wakeReady) => if wakeReady then BeginDrain else BeginPending
    case Draining => if s.wakeups > 0 then Drain(s.wakeups) else EndDrain
    case BeforeSwap => Swap
    case RunningBatch =>
      if s.loopOwes then LoopWakeup(false) else if s.batch != [] then RunNext else EndBatch
    case RunningTimers => EndTimers
  }

  lemma OnwardGoesOn(s: Loop)
    requires Wakes(s) && s.phase != Polling
    ensures Enabled(s, Onward(s)) && Own(Onward(s))
    ensures var n := Next(s, Onward(s));
      || Rank(n.phase) < Rank(s.phase)
      || (n.phase == s.phase && |n.batch| < |s.batch|)
      || (n.phase == s.phase && n.batch == s.batch && s.loopOwes && !n.loopOwes)
      || (n.phase == s.phase && n.batch == s.batch && n.loopOwes == s.loopOwes && n.wakeups < s.wakeups)
  {}

  /** By its own steps the loop thread gets back to the poll. */
  lemma {:induction false} BackToPoll(s: Loop) returns (steps: seq<Step>)
    requires InOrder(s) && Wakes(s)
    ensures Feasible(s, steps) && forall step :: step in steps ==> Own(step)
    ensures Run(s, steps).phase == Polling
    ensures s.phase == BeforeSwap ==> Swap in steps
    decreases Rank(s.phase), |s.batch|, if s.loopOwes then 1 else 0, s.wakeups
  {
    hide Next, Enabled, InOrder, Wakes, Own;
    if s.phase == Polling {
      steps := [];
    } else {
      OnwardGoesOn(s);
      var n := Next(s, Onward(s));
      StepInOrder(s, Onward(s));
      StepWakes(s, Onward(s));
      var rest := BackToPoll(n);
      steps := [Onward(s)] + rest;
      assert steps[1..] == rest && steps[0] == Onward(s);
    }
  }

  lemma {:induction false} RunAppend(s: Loop, a: seq<Step>, b: seq<Step>)
    requires Feasible(s, a) && Feasible(Run(s, a), b)
    ensures Feasible(s, a + b) && Run(s, a + b) == Run(Run(s, a), b)
    decreases |a|
  {
    hide Next, Enabled;
    if a == [] {
      assert a + b == b;
    } else {
      assert (a + b)[1..] == a[1..] + b;
      RunAppend(Next(s, a[0]), a[1..], b);
    }
  }

  /** From the poll, a round that swaps. */
  lemma OneRound(s: Loop) returns (steps: seq<Step>)
    requires InOrder(s) && Wakes(s) && s.phase == Polling
    ensures Feasible(s, steps) && (forall step :: step in steps ==> Own(step)) && Swap in steps
    ensures Run(s, steps).phase == Polling
  {
    var ready := Next(s, PollReturns(false));
    var before := Next(ready, BeginPending);
    StepInOrder(s, PollReturns(false));
    StepInOrder(ready, BeginPending);
    StepWakes(s, PollReturns(false));
    StepWakes(ready, BeginPending);
    hide InOrder, Wakes;
    var rest := BackToPoll(before);
    assert ([BeginPending] + rest)[1..] == rest;
    assert Feasible(ready, [BeginPending] + rest);
    steps := [PollReturns(false)] + ([BeginPending] + rest);
    assert steps[1..] == [BeginPending] + rest;
  }

  /** In every state the program can reach, whoever queued it and with or without a wake-up, what
      waits is called by steps of the loop thread alone, ending at the poll. */
  lemma WaitingCanRun(before: seq<Step>) returns (steps: seq<Step>)
    requires Feasible(IDLE, before)
    ensures var s := Run(IDLE, before);
      && Feasible(s, steps) && (forall step :: step in steps ==> Own(step))
      && Run(s, steps).phase == Polling && s.history <= Run(s, steps).ran
  {
    hide Run, Feasible, Next, Enabled;
    var s := Run(IDLE, before);
    RunInvariants(IDLE, before);
    var back := BackToPoll(s);
    var polling := Run(s, back);
    RunInvariants(s, back);
    var round := OneRound(polling);
    RunAppend(s, back, round);
    steps := back + round;
    RunInvariants(s, steps);
    RoundCallsAll(s, steps);
  }

  // ---------------------------------------------------------------- who is about to wake the loop

  /** The latest push of thread `t` is still without its write. */
  ghost predicate Owes(steps: seq<Step>, t: ThreadId) {
    exists i :: 0 <= i < |steps| && steps[i] == Push(t)
      && forall j :: i < j < |steps| ==> !(steps[j].Wakeup? && steps[j].thread == t)
  }

  lemma OwesSnoc(steps: seq<Step>, last: Step, t: ThreadId)
    ensures Owes(steps + [last], t) <==>
      last == Push(t) || (Owes(steps, t) && !(last.Wakeup? && last.thread == t))
  {
    var all := steps + [last];
    assert all[|steps|] == last;
    assert forall i :: 0 <= i < |steps| ==> all[i] == steps[i];
    if Owes(steps, t) && !(last.Wakeup? && last.thread == t) {
      var i :| 0 <= i < |steps| && steps[i] == Push(t)
        && forall j :: i < j < |steps| ==> !(steps[j].Wakeup? && steps[j].thread == t);
      assert all[i] == Push(t);
    }
  }

  lemma {:induction false} RunSnoc(s: Loop, steps: seq<Step>, last: Step)
    ensures Feasible(s, steps + [last]) <==> Feasible(s, steps) && Enabled(Run(s, steps), last)
    ensures Feasible(s, steps + [last]) ==> Run(s, steps + [last]) == Next(Run(s, steps), last)
    decreases |steps|
  {
    hide Next, Enabled;
    if steps == [] {
      assert steps + [last] == [last] && [last][1..] == [];
      if Enabled(s, last) {
        assert Feasible(Next(s, last), []);
      }
    } else if Enabled(s, steps[0]) {
      assert (steps + [last])[1..] == steps[1..] + [last];
      RunSnoc(Next(s, steps[0]), steps[1..], last);
    }
  }

  /** A thread is between its push and its write exactly when the events of the run say so. */
  lemma {:induction false} OwingTold(steps: seq<Step>, t: ThreadId)
    requires Feasible(IDLE, steps)
    ensures t in Run(IDLE, steps).owing <==> Owes(steps, t)
    decreases |steps|
  {
    if steps != [] {
      hide Owes;
      var n := |steps| - 1;
      assert steps == steps[..n] + [steps[n]];
      RunSnoc(IDLE, steps[..n], steps[n]);
      OwingTold(steps[..n], t);
      OwesSnoc(steps[..n], steps[n], t);
      OwingStep(Run(IDLE, steps[..n]), steps[n], t);
      hide Run, Feasible;
    }
  }

  lemma OwingStep(s: Loop, step: Step, t: ThreadId)
    requires Enabled(s, step)
    ensures t in Next(s, step).owing <==> step == Push(t) || (t in s.owing && !(step.Wakeup? && step.thread == t))
  {}

  /** In every interleaving: when the loop is about to poll while a functor waits that no timer
      callback queued, and the thread that posted it has written its wake-up since, or it was not
      posted by a thread, then the poll returns at once. */
  lemma WrittenIsWoken(steps: seq<Step>, f: Functor)
    requires Feasible(IDLE, steps)
    requires var s := Run(IDLE, steps); s.phase == Polling && f in s.pending
    requires f.origin != FromTimer && (f.origin.Remote? ==> !Owes(steps, f.origin.thread))
    ensures Run(IDLE, steps).wakeups > 0
    ensures Enabled(Run(IDLE, steps), PollReturns(true))
  {
    hide Run, Feasible, Owes;
    NoLostWakeup(steps, f);
    if f.origin.Remote? {
      OwingTold(steps, f.origin.thread);
    }
  }
}
