/** What the events of a run say about its timers, without any queue: when each was asked for and
    for when.  The calls of the run are proved to be exactly those that are due. */
module TimerRequests {
  import opened Common
  import opened Timers

  function Clock(start: int, steps: seq<Step>): int {
    if steps == [] then start
    else
      Clock(start, steps[..|steps| - 1]) + match steps[|steps| - 1] case Tick(ticks) => ticks case _ => 0
  }

  /** The expiry that a thread has computed and not inserted: the clock when it read it and its delay. */
  function Pending(start: int, steps: seq<Step>, thread: nat): Option<int> {
    if steps == [] then None
    else
      var before := steps[..|steps| - 1];
      match steps[|steps| - 1]
      case Compute(t, delay) =>
        if t == thread then Some(Clock(start, before) + delay) else Pending(start, before, thread)
      case Insert(t) => if t == thread then None else Pending(start, before, thread)
      case _ => Pending(start, before, thread)
  }

  /** Every timer asked for, in the order of the insertions, each with the moment it is due. */
  function Asked(start: int, steps: seq<Step>): seq<Timer> {
    if steps == [] then []
    else
      var before := steps[..|steps| - 1];
      var asked := Asked(start, before);
      match steps[|steps| - 1]
      case AddInLoop(delay) => asked + [Timer(|asked|, Clock(start, before) + delay)]
      case Insert(t) =>
        if Pending(start, before, t).Some? then asked + [Timer(|asked|, Pending(start, before, t).value)] else asked
      case _ => asked
  }

  lemma {:induction false} RunSnoc(s: Schedule, steps: seq<Step>, last: Step)
    ensures Feasible(s, steps + [last]) <==> Feasible(s, steps) && Enabled(Run(s, steps), last)
    ensures Feasible(s, steps + [last]) ==> Run(s, steps + [last]) == Next(Run(s, steps), last)
    decreases |steps|
  {
    hide Next, Enabled;
    if steps == [] {
      assert steps + [last] == [last] && [last][1..] == [];
      if Enabled(s, last) {
        assert Feasible(Next(s, last), []);
      }
    } else if Enabled(s, steps[0]) {
      assert (steps + [last])[1..] == steps[1..] + [last];
      RunSnoc(Next(s, steps[0]), steps[1..], last);
    }
  }

  /** The state agrees with the events. */
  ghost predicate Tells(s: Schedule, start: int, steps: seq<Step>) {
    && s.now == Clock(start, steps)
    && (forall t: nat :: if t in s.computed then Pending(start, steps, t) == Some(s.computed[t])
                         else Pending(start, steps, t) == None)
    && s.inserted == multiset(Asked(start, steps))
    && s.nextId == |Asked(start, steps)|
  }

  lemma StepTells(s: Schedule, start: int, before: seq<Step>, last: Step)
    requires Tells(s, start, before) && Enabled(s, last)
    ensures Tells(Next(s, last), start, before + [last])
  {
    var all := before + [last];
    assert all[..|all| - 1] == before && all[|all| - 1] == last;
  }

  lemma {:induction false} RunTells(start: int, steps: seq<Step>)
    requires Feasible(Begin(start), steps)
    ensures Tells(Run(Begin(start), steps), start, steps)
    decreases |steps|
  {
    hide Next, Enabled, Tells;
    if steps == [] {
      NothingAsked(start);
    } else {
      var n := |steps| - 1;
      assert steps == steps[..n] + [steps[n]];
      RunSnoc(Begin(start), steps[..n], steps[n]);
      RunTells(start, steps[..n]);
      StepTells(Run(Begin(start), steps[..n]), start, steps[..n], steps[n]);
    }
  }

  lemma NothingAsked(start: int)
    ensures Tells(Begin(start), start, [])
  {}

  /** What was taken out so far after a pass is exactly what was ever asked for and is due. */
  lemma TakenExactly(start: int, steps: seq<Step>, order: seq<Timer>)
    requires Feasible(Begin(start), steps) && Enabled(Run(Begin(start), steps), Pass(order))
    ensures var taken := Taken(Next(Run(Begin(start), steps), Pass(order)));
      && (forall t :: t in taken <==> t in Asked(start, steps) && t.expire <= Clock(start, steps))
      && (forall i, j :: 0 <= i < j < |taken| ==> taken[i].id != taken[j].id)
  {
    hide Run, Feasible, Enabled;
    var s := Run(Begin(start), steps);
    RunTells(start, steps);
    BeginSound(start);
    RunSound(Begin(start), steps);
    PassSound(s, order);
    PassReading(s, order);
    TakenOrQueued(Next(s, Pass(order)), Asked(start, steps));
    DistinctTaken(Next(s, Pass(order)));
  }

  lemma PassReading(s: Schedule, order: seq<Timer>)
    requires Enabled(s, Pass(order))
    ensures var n := Next(s, Pass(order)); n.lastPass == n.now == s.now && n.inserted == s.inserted
  {}

  lemma TakenOrQueued(n: Schedule, asked: seq<Timer>)
    requires Sound(n) && n.inserted == multiset(asked) && forall t :: t in n.queue ==> t.expire > n.lastPass
    ensures forall t :: t in Taken(n) <==> t in asked && t.expire <= n.lastPass
  {
    forall t
      ensures t in Taken(n) <==> t in asked && t.expire <= n.lastPass
    {
      assert t in Taken(n) <==> t in multiset(Taken(n));
      assert t in asked <==> t in multiset(Taken(n)) + n.queue;
    }
  }

  lemma DistinctTaken(s: Schedule)
    requires Sound(s)
    ensures forall i, j :: 0 <= i < j < |Taken(s)| ==> Taken(s)[i].id != Taken(s)[j].id
  {
    var called := s.(executed := Taken(s), ready := []);
    assert Taken(called) == Taken(s);
    SameSound(s, called);
    CalledOnce(called);
  }

  /** The loop can always call everything a pass took. */
  lemma {:induction false} CallsReady(s: Schedule) returns (calls: seq<Step>)
    ensures Feasible(s, calls) && forall step :: step in calls ==> step == RunNext
    ensures var t := Run(s, calls); t.ready == [] && t.executed == Taken(s)
    decreases |s.ready|
  {
    if s.ready == [] {
      calls := [];
    } else {
      var n := Next(s, RunNext);
      var rest := CallsReady(n);
      calls := [RunNext] + rest;
      assert calls[1..] == rest;
      assert Taken(n) == Taken(s);
    }
  }

  /** Whatever ran before: a pass, followed by the calls it leads to, has called exactly the timers
      ever asked for whose delay has passed on the clock since it was read, each of them once. */
  lemma DueTimersAreCalled(start: int, steps: seq<Step>, order: seq<Timer>) returns (calls: seq<Step>)
    requires Feasible(Begin(start), steps) && Enabled(Run(Begin(start), steps), Pass(order))
    ensures var n := Next(Run(Begin(start), steps), Pass(order));
      && Feasible(n, calls) && (forall step :: step in calls ==> step == RunNext)
      && var called := Run(n, calls).executed;
        && (forall t :: t in called <==> t in Asked(start, steps) && t.expire <= Clock(start, steps))
        && (forall i, j :: 0 <= i < j < |called| ==> called[i].id != called[j].id)
  {
    hide Run, Feasible, Enabled, Next, Taken;
    TakenExactly(start, steps, order);
    calls := CallsReady(Next(Run(Begin(start), steps), Pass(order)));
  }
}
