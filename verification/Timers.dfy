/** The loop's delayed tasks: one priority queue, filled from any thread and drained by the
    loop in passes.  The clock is monotone and delays are not negative; time is in ticks. */
module Timers {
  import opened Common

  datatype Timer = Timer(id: nat, expire: int)

  predicate Sorted(s: seq<Timer>) {
    forall i, j :: 0 <= i < j < |s| ==> s[i].expire <= s[j].expire
  }

  /** `order` is what one pass at time `now` takes out of `queue`: everything due, by expiry.
      Timers with equal expiry may come in any order, as the priority queue leaves that open. */
  ghost predicate PassTakes(queue: multiset<Timer>, now: int, order: seq<Timer>) {
    && Sorted(order)
    && multiset(order) <= queue
    && (forall t :: t in order ==> t.expire <= now)
    && (forall t :: t in queue - multiset(order) ==> t.expire > now)
  }

  // ---------------------------------------------------------------- one pass

  class DelayedTasks {
    var queue: multiset<Timer>
    ghost var executed: seq<Timer>

    method RunAfter(id: nat, now: int, delay: nat)
      modifies this`queue
      ensures queue == old(queue) + multiset{Timer(id, now + delay)}
    {
      queue := queue + multiset{Timer(id, now + delay)};
    }

    /** One pass: what was taken out under the lock is called in that order.  What the callbacks
        add in turn is a step of its own in the runs below. */
    method ProcessDelayedTasks(now: int) returns (ghost order: seq<Timer>)
      modifies this
      ensures PassTakes(old(queue), now, order)
      ensures queue == old(queue) - multiset(order) && executed == old(executed) + order
    {
      hide PassTakes;
      var ready := TakeReady(now);
      order := ready;
      for i := 0 to |ready|
        modifies this`executed
        invariant executed == old(executed) + ready[..i]
      {
        executed := executed + [ready[i]];
        assert ready[..i + 1] == ready[..i] + [ready[i]];
      }
      assert ready[..|ready|] == ready;
    }

    /** The contract of a min-heap's top: some task that no other precedes. */
    method Top() returns (t: Timer)
      requires queue != multiset{}
      ensures Least(t, queue)
    {
      LeastExists(queue);
      t :| t in queue && Least(t, queue);
    }

    method Pop(t: Timer)
      requires t in queue
      modifies this`queue
      ensures queue == old(queue) - multiset{t}
    {
      queue := queue - multiset{t};
    }

    /** The extraction loop, under the lock and with one reading of the clock: it takes exactly
        the due tasks, earliest first, and leaves no due task behind. */
    method TakeReady(now: int) returns (ready: seq<Timer>)
      modifies this`queue
      ensures PassTakes(old(queue), now, ready)
      ensures queue == old(queue) - multiset(ready)
    {
      ready := [];
      while queue != multiset{}
        invariant multiset(ready) + queue == old(queue)
        invariant Sorted(ready)
        invariant forall t :: t in ready ==> t.expire <= now
        invariant Before(ready, queue)
        decreases |queue|
      {
        var top := Top();
        if top.expire > now {
          break;
        }
        Extend(ready, queue, top);
        ready := ready + [top];
        Pop(top);
      }
      assert queue == old(queue) - multiset(ready);
    }
  }

  ghost predicate Before(s: seq<Timer>, queue: multiset<Timer>) {
    forall t, u :: t in s && u in queue ==> t.expire <= u.expire
  }

  lemma Extend(s: seq<Timer>, queue: multiset<Timer>, top: Timer)
    requires Sorted(s) && Before(s, queue)
    requires Least(top, queue)
    ensures Sorted(s + [top]) && Before(s + [top], queue - multiset{top})
    ensures multiset(s + [top]) + (queue - multiset{top}) == multiset(s) + queue
  {
    assert multiset(s + [top]) == multiset(s) + multiset{top};
    forall i | 0 <= i < |s|
      ensures s[i].expire <= top.expire
    {
      assert s[i] in s;
    }
    forall u | u in queue - multiset{top}
      ensures u in queue
    {}
  }

  predicate Least(t: Timer, queue: multiset<Timer>) {
    t in queue && forall u :: u in queue ==> t.expire <= u.expire
  }

  lemma {:induction false} LeastExists(queue: multiset<Timer>)
    requires queue != multiset{}
    ensures exists t :: Least(t, queue)
    decreases |queue|
  {
    var t :| t in queue;
    var rest := queue - multiset{t};
    assert queue == rest + multiset{t};
    if rest == multiset{} {
      assert Least(t, queue);
    } else {
      LeastExists(rest);
      var m :| Least(m, rest);
      assert Least(if t.expire <= m.expire then t else m, queue);
    }
  }

  // ---------------------------------------------------------------- whole runs

  /** Another thread adds a timer in two steps: it reads the clock, then inserts under the lock.
      The loop thread does both without a pass in between, since passes are its own. */
  datatype Schedule = Schedule(
    now: int,
    queue: multiset<Timer>,
    ready: seq<Timer>,               // taken by the current pass, not yet called
    executed: seq<Timer>,            // called, in order
    computed: map<nat, int>,         // threads between clock reading and insertion, with the expiry
    inserted: multiset<Timer>,       // every timer ever inserted
    nextId: nat,
    lastPass: int)                   // the clock reading of the latest pass

  datatype Step =
    | Tick(ticks: nat)
    | Compute(thread: nat, delay: nat)
    | Insert(thread: nat)
    | AddInLoop(delay: nat)
    | Pass(order: seq<Timer>)
    | RunNext

  function Begin(now: int): Schedule {
    Schedule(now, multiset{}, [], [], map[], multiset{}, 0, now)
  }

  ghost predicate Enabled(s: Schedule, step: Step) {
    match step
    case Tick(_) => true
    case Compute(t, _) => t !in s.computed
    case Insert(t) => t in s.computed
    case AddInLoop(_) => true
    case Pass(order) => s.ready == [] && PassTakes(s.queue, s.now, order)
    case RunNext => s.ready != []
  }

  function Inserted(s: Schedule, expire: int): Schedule {
    var t := Timer(s.nextId, expire);
    s.(queue := s.queue + multiset{t}, inserted := s.inserted + multiset{t}, nextId := s.nextId + 1)
  }

  ghost function Next(s: Schedule, step: Step): Schedule
    requires Enabled(s, step)
  {
    match step
    case Tick(ticks) => s.(now := s.now + ticks)
    case Compute(t, delay) => s.(computed := s.computed[t := s.now + delay])
    case Insert(t) => Inserted(s, s.computed[t]).(computed := s.computed - {t})
    case AddInLoop(delay) => Inserted(s, s.now + delay)
    case Pass(order) => s.(queue := s.queue - multiset(order), ready := order, lastPass := s.now)
    case RunNext => s.(ready := s.ready[1..], executed := s.executed + [s.ready[0]])
  }

  ghost predicate Feasible(s: Schedule, steps: seq<Step>)
    decreases |steps|
  {
    steps == [] || (Enabled(s, steps[0]) && Feasible(Next(s, steps[0]), steps[1..]))
  }

  ghost function Run(s: Schedule, steps: seq<Step>): Schedule
    requires Feasible(s, steps)
    decreases |steps|
  {
    if steps == [] then s else Run(Next(s, steps[0]), steps[1..])
  }

  /** Timers already taken out of the queue, in the order they are called. */
  function Taken(s: Schedule): seq<Timer> {
    s.executed + s.ready
  }

  /** None is called early; none is lost, doubled or invented. */
  ghost predicate Sound(s: Schedule) {
    && s.lastPass <= s.now
    && (forall t :: t in Taken(s) ==> t.expire <= s.lastPass)
    && multiset(Taken(s)) + s.queue == s.inserted
    && (forall t :: t in s.inserted ==> t.id < s.nextId && s.inserted[t] == 1)
    && (forall t, u :: t in s.inserted && u in s.inserted && t.id == u.id ==> t == u)
  }

  /** Calls happen in order of expiry, and nothing queued precedes what was already taken. */
  ghost predicate Ordered(s: Schedule) {
    && Sorted(Taken(s))
    && forall t, u :: t in Taken(s) && u in s.queue ==> t.expire <= u.expire
  }

  lemma PassSound(s: Schedule, order: seq<Timer>)
    requires Sound(s) && Enabled(s, Pass(order))
    ensures Sound(Next(s, Pass(order)))
    ensures forall t :: t in Next(s, Pass(order)).queue ==> t.expire > s.now
  {
    var n := Next(s, Pass(order));
    assert Taken(s) == s.executed;
    assert multiset(Taken(n)) == multiset(s.executed) + multiset(order);
    forall t | t in Taken(n)
      ensures t.expire <= n.lastPass
    {
      assert t in s.executed || t in order;
    }
  }

  lemma InsertSound(s: Schedule, expire: int)
    requires Sound(s)
    ensures Sound(Inserted(s, expire))
  {
    var n := Inserted(s, expire);
    assert Taken(n) == Taken(s);
    assert n.inserted == s.inserted + multiset{Timer(s.nextId, expire)};
    assert Timer(s.nextId, expire) !in s.inserted;
    assert multiset(Taken(n)) + n.queue == (multiset(Taken(s)) + s.queue) + multiset{Timer(s.nextId, expire)};
  }

  lemma StepSound(s: Schedule, step: Step)
    requires Sound(s) && Enabled(s, step)
    ensures Sound(Next(s, step))
    ensures step.Pass? ==> forall t :: t in Next(s, step).queue ==> t.expire > s.now
  {
    hide Sound;
    match step
    case Pass(order) =>
      PassSound(s, order);
    case Insert(thread) =>
      InsertSound(s, s.computed[thread]);
      SameSound(Inserted(s, s.computed[thread]), Next(s, step));
    case AddInLoop(delay) =>
      InsertSound(s, s.now + delay);
    case RunNext =>
      assert Taken(Next(s, step)) == Taken(s);
      SameSound(s, Next(s, step));
    case _ =>
      SameSound(s, Next(s, step));
  }

  lemma SameSound(s: Schedule, n: Schedule)
    requires Sound(s) && Taken(s) == Taken(n) && s.now <= n.now
    requires (s.queue, s.inserted, s.nextId, s.lastPass) == (n.queue, n.inserted, n.nextId, n.lastPass)
    ensures Sound(n)
  {
    hide Taken;
  }

  /** A timer inserted behind one that was already taken for a later expiry: its thread read
      the clock before a pass and inserted after it. */
  predicate LateInsert(s: Schedule, step: Step) {
    && step.Insert? && step.thread in s.computed
    && exists t :: t in Taken(s) && t.expire > s.computed[step.thread]
  }

  /** Every step keeps the order exactly when it is not a late insertion. */
  lemma StepOrdered(s: Schedule, step: Step)
    requires Sound(s) && Ordered(s) && Enabled(s, step)
    ensures Ordered(Next(s, step)) <==> !LateInsert(s, step)
  {
    hide Sound, Ordered;
    match step
    case Pass(order) =>
      PassOrdered(s, order);
    case RunNext =>
      assert Taken(Next(s, step)) == Taken(s);
      SameOrdered(s, Next(s, step));
    case Insert(thread) =>
      InsertOrdered(s, s.computed[thread]);
      SameOrdered(Inserted(s, s.computed[thread]), Next(s, step));
    case AddInLoop(delay) =>
      InsertOrdered(s, s.now + delay);
      forall t | t in Taken(s)
        ensures t.expire <= s.now + delay
      {
        TakenDue(s, t);
      }
    case _ =>
      SameOrdered(s, Next(s, step));
  }

  lemma SameOrdered(s: Schedule, n: Schedule)
    requires Taken(s) == Taken(n) && s.queue == n.queue
    ensures Ordered(s) <==> Ordered(n)
  {
    hide Taken;
  }

  lemma InsertOrdered(s: Schedule, expire: int)
    requires Ordered(s)
    ensures Ordered(Inserted(s, expire)) <==> forall t :: t in Taken(s) ==> t.expire <= expire
  {
    var n, added := Inserted(s, expire), Timer(s.nextId, expire);
    assert Taken(n) == Taken(s) && added in n.queue;
    assert forall u :: u in n.queue <==> u in s.queue || u == added;
  }

  lemma PassOrdered(s: Schedule, order: seq<Timer>)
    requires Sound(s) && Ordered(s) && Enabled(s, Pass(order))
    ensures Ordered(Next(s, Pass(order)))
  {
    hide Sound, PassTakes;
    var n := Next(s, Pass(order));
    assert Taken(s) == s.executed;
    InQueue(s.queue, s.now, order);
    assert forall t, u :: t in s.executed && u in order ==> t.expire <= u.expire;
    SortedAppend(s.executed, order);
    PassSound(s, order);
    forall t, u | t in Taken(n) && u in n.queue
      ensures t.expire <= u.expire
    {
      TakenDue(n, t);
    }
  }

  lemma InQueue(queue: multiset<Timer>, now: int, order: seq<Timer>)
    requires PassTakes(queue, now, order)
    ensures Sorted(order) && forall t :: t in order ==> t in queue
  {
    forall t | t in order
      ensures t in queue
    {
      assert t in multiset(order);
    }
  }

  lemma SortedAppend(a: seq<Timer>, b: seq<Timer>)
    requires Sorted(a) && Sorted(b) && forall t, u :: t in a && u in b ==> t.expire <= u.expire
    ensures Sorted(a + b)
  {
    forall i, j | 0 <= i < j < |a + b|
      ensures (a + b)[i].expire <= (a + b)[j].expire
    {
      if i < |a| <= j {
        assert a[i] in a && b[j - |a|] in b;
      }
    }
  }

  lemma TakenDue(s: Schedule, t: Timer)
    requires Sound(s) && t in Taken(s)
    ensures t.expire <= s.lastPass <= s.now
  {}

  /** No step of the run is a late insertion. */
  ghost predicate NoLateInserts(s: Schedule, steps: seq<Step>)
    requires Feasible(s, steps)
    decreases |steps|
  {
    steps == [] || (!LateInsert(s, steps[0]) && NoLateInserts(Next(s, steps[0]), steps[1..]))
  }

  /** The order holds after every step of the run. */
  ghost predicate AlwaysOrdered(s: Schedule, steps: seq<Step>)
    requires Feasible(s, steps)
    decreases |steps|
  {
    Ordered(s) && (steps == [] || AlwaysOrdered(Next(s, steps[0]), steps[1..]))
  }

  lemma {:induction false} AlwaysOrderedExactly(s: Schedule, steps: seq<Step>)
    requires Sound(s) && Ordered(s) && Feasible(s, steps)
    ensures AlwaysOrdered(s, steps) <==> NoLateInserts(s, steps)
    decreases |steps|
  {
    hide Next, Enabled, LateInsert, Ordered, Sound;
    if steps != [] {
      StepOrdered(s, steps[0]);
      StepSound(s, steps[0]);
      if !LateInsert(s, steps[0]) {
        AlwaysOrderedExactly(Next(s, steps[0]), steps[1..]);
      }
    }
  }

  /** The pass takes no timer that expires after an expiry that some thread has computed and
      will only insert later. */
  ghost predicate Spares(s: Schedule, order: seq<Timer>, later: seq<Step>) {
    forall t, u :: t in s.computed && Insert(t) in later && u in order ==> u.expire <= s.computed[t]
  }

  /** No pass of the run overtakes a thread between its clock reading and its insertion.  Only
      clock readings with their delays, insertions and passes are looked at. */
  ghost predicate NeverOvertaken(s: Schedule, steps: seq<Step>)
    requires Feasible(s, steps)
    decreases |steps|
  {
    steps == [] ||
    (&& (steps[0].Pass? ==> Spares(s, steps[0].order, steps[1..]))
     && NeverOvertaken(Next(s, steps[0]), steps[1..]))
  }

  /** What thread `t` is about to insert precedes nothing taken so far. */
  ghost predicate OnTime(s: Schedule, t: nat)
    requires t in s.computed
  {
    forall u :: u in Taken(s) ==> u.expire <= s.computed[t]
  }

  ghost predicate PendingOnTime(s: Schedule, steps: seq<Step>) {
    forall t :: t in s.computed && Insert(t) in steps ==> OnTime(s, t)
  }

  /** An insertion is late exactly when its thread was overtaken by a pass. */
  lemma {:induction false} LateIsOvertaken(s: Schedule, steps: seq<Step>)
    requires Sound(s) && Feasible(s, steps)
    ensures NoLateInserts(s, steps) <==> PendingOnTime(s, steps) && NeverOvertaken(s, steps)
    decreases |steps|
  {
    hide Enabled, Next, Sound, LateInsert, PendingOnTime, Spares;
    if steps == [] {
      NonePending(s);
    } else {
      StepSound(s, steps[0]);
      LateIsOvertaken(Next(s, steps[0]), steps[1..]);
      StepOnTime(s, steps[0], steps[1..]);
      assert [steps[0]] + steps[1..] == steps;
    }
  }

  lemma NonePending(s: Schedule)
    ensures PendingOnTime(s, [])
  {}

  lemma StepOnTime(s: Schedule, step: Step, rest: seq<Step>)
    requires Sound(s) && Enabled(s, step)
    ensures PendingOnTime(s, [step] + rest) && (step.Pass? ==> Spares(s, step.order, rest))
      <==> !LateInsert(s, step) && PendingOnTime(Next(s, step), rest)
  {
    hide Enabled, Sound, Taken, Spares;
    match step
    case Pass(order) => PassOnTime(s, order, rest);
    case Insert(t) => InsertOnTime(s, t, rest);
    case Compute(t, delay) => ComputeOnTime(s, t, delay, rest);
    case _ => OtherOnTime(s, step, rest);
  }

  lemma SameTaken(s: Schedule, step: Step)
    requires Enabled(s, step) && !step.Pass?
    ensures Taken(Next(s, step)) == Taken(s)
  {}

  lemma PassOnTime(s: Schedule, order: seq<Timer>, rest: seq<Step>)
    requires Enabled(s, Pass(order))
    ensures PendingOnTime(s, [Pass(order)] + rest) && Spares(s, order, rest)
      <==> PendingOnTime(Next(s, Pass(order)), rest)
  {
    hide PassTakes;
    var n := Next(s, Pass(order));
    assert Taken(s) == s.executed;
    assert forall u :: u in Taken(n) <==> u in Taken(s) || u in order;
    assert forall t: nat :: Insert(t) in [Pass(order)] + rest <==> Insert(t) in rest;
    assert forall t :: t in s.computed ==>
      (OnTime(n, t) <==> OnTime(s, t) && forall u :: u in order ==> u.expire <= s.computed[t]);
  }

  lemma InsertOnTime(s: Schedule, t: nat, rest: seq<Step>)
    requires Enabled(s, Insert(t))
    ensures PendingOnTime(s, [Insert(t)] + rest)
      <==> !LateInsert(s, Insert(t)) && PendingOnTime(Next(s, Insert(t)), rest)
  {
    hide Taken;
    var n := Next(s, Insert(t));
    SameTaken(s, Insert(t));
    assert forall o: nat :: Insert(o) in [Insert(t)] + rest <==> o == t || Insert(o) in rest;
    assert forall o :: o in n.computed ==> (OnTime(n, o) <==> OnTime(s, o));
    assert OnTime(s, t) <==> !LateInsert(s, Insert(t));
  }

  lemma ComputeOnTime(s: Schedule, t: nat, delay: nat, rest: seq<Step>)
    requires Sound(s) && Enabled(s, Compute(t, delay))
    ensures PendingOnTime(s, [Compute(t, delay)] + rest) <==> PendingOnTime(Next(s, Compute(t, delay)), rest)
  {
    hide Taken, Sound;
    var n := Next(s, Compute(t, delay));
    SameTaken(s, Compute(t, delay));
    forall u | u in Taken(n)
      ensures u.expire <= n.computed[t]
    {
      TakenDue(s, u);
    }
    assert OnTime(n, t);
    assert forall o: nat :: Insert(o) in [Compute(t, delay)] + rest <==> Insert(o) in rest;
    assert forall o :: o in s.computed ==> (OnTime(n, o) <==> OnTime(s, o));
  }

  lemma OtherOnTime(s: Schedule, step: Step, rest: seq<Step>)
    requires Enabled(s, step) && (step.Tick? || step.AddInLoop? || step.RunNext?)
    ensures PendingOnTime(s, [step] + rest) <==> PendingOnTime(Next(s, step), rest)
  {
    hide Taken;
    var n := Next(s, step);
    SameTaken(s, step);
    assert forall o: nat :: Insert(o) in [step] + rest <==> Insert(o) in rest;
    assert forall o :: o in s.computed ==> (OnTime(n, o) <==> OnTime(s, o));
  }

  /** Disorder is never repaired. */
  lemma DisorderStays(s: Schedule, step: Step)
    requires Enabled(s, step) && !Ordered(s)
    ensures !Ordered(Next(s, step))
  {
    hide Ordered;
    var n := Next(s, step);
    match step
    case Pass(order) => DisorderedPass(s, order);
    case _ =>
      SameTaken(s, step);
      MoreQueued(s, n);
  }

  lemma MoreQueued(s: Schedule, n: Schedule)
    requires Taken(s) == Taken(n) && s.queue <= n.queue && !Ordered(s)
    ensures !Ordered(n)
  {
    hide Taken;
  }

  lemma DisorderedPass(s: Schedule, order: seq<Timer>)
    requires Enabled(s, Pass(order)) && !Ordered(s)
    ensures !Ordered(Next(s, Pass(order)))
  {
    if Ordered(Next(s, Pass(order))) {
      OrderedBeforePass(s, order);
    }
  }

  lemma OrderedBeforePass(s: Schedule, order: seq<Timer>)
    requires Enabled(s, Pass(order)) && Ordered(Next(s, Pass(order)))
    ensures Ordered(s)
  {
    hide PassTakes;
    var n := Next(s, Pass(order));
    assert Taken(s) == s.executed && Taken(n) == s.executed + order;
    SortedParts(s.executed, order);
    forall t, u | t in Taken(s) && u in s.queue
      ensures t.expire <= u.expire
    {
      if u !in order {
        assert u !in multiset(order);
        assert u in n.queue && t in Taken(n);
      }
    }
  }

  lemma SortedParts(a: seq<Timer>, b: seq<Timer>)
    requires Sorted(a + b)
    ensures Sorted(a) && Sorted(b) && forall t, u :: t in a && u in b ==> t.expire <= u.expire
  {
    var s := a + b;
    assert forall i :: 0 <= i < |a| ==> s[i] == a[i];
    assert forall j :: 0 <= j < |b| ==> s[|a| + j] == b[j];
    forall t, u | t in a && u in b
      ensures t.expire <= u.expire
    {
      var i :| 0 <= i < |a| && a[i] == t;
      var j :| 0 <= j < |b| && b[j] == u;
      assert s[i].expire <= s[|a| + j].expire;
    }
  }

  lemma {:induction false} OrderedAtEnd(s: Schedule, steps: seq<Step>)
    requires Feasible(s, steps)
    ensures Ordered(Run(s, steps)) <==> AlwaysOrdered(s, steps)
    decreases |steps|
  {
    hide Next, Enabled, Ordered;
    if steps != [] {
      OrderedAtEnd(Next(s, steps[0]), steps[1..]);
      if !Ordered(s) {
        DisorderStays(s, steps[0]);
        NeverAfter(s, steps);
      }
    }
  }

  lemma NeverAfter(s: Schedule, steps: seq<Step>)
    requires Feasible(s, steps) && steps != [] && !Ordered(Next(s, steps[0]))
    ensures !AlwaysOrdered(Next(s, steps[0]), steps[1..])
  {}

  /** After any run, across passes and whatever callbacks added, the calls made are in order of
      expiry and nothing queued precedes them, exactly when no pass overtook a thread that had
      computed an earlier expiry and had still to insert it.  So once everything was called, the
      calls were in order under exactly that condition. */
  lemma OrderExactly(now: int, steps: seq<Step>)
    requires Feasible(Begin(now), steps)
    ensures var s := Run(Begin(now), steps);
      && (Ordered(s) <==> NeverOvertaken(Begin(now), steps))
      && (s.queue == multiset{} ==> (Sorted(Taken(s)) <==> NeverOvertaken(Begin(now), steps)))
  {
    hide Enabled, Next, NeverOvertaken, Run, Feasible, Sound, Sorted;
    var b := Begin(now);
    BeginSound(now);
    AlwaysOrderedExactly(b, steps);
    OrderedAtEnd(b, steps);
    LateIsOvertaken(b, steps);
  }

  ghost predicate Reaches(s: Schedule, t: Schedule) {
    exists steps :: Feasible(s, steps) && Run(s, steps) == t
  }

  lemma ReachesBy(s: Schedule, step: Step, next: Schedule, t: Schedule)
    requires Enabled(s, step) && Next(s, step) == next && Reaches(next, t)
    ensures Reaches(s, t)
  {
    hide Enabled, Next;
    var rest :| Feasible(next, rest) && Run(next, rest) == t;
    var steps := [step] + rest;
    assert steps[1..] == rest;
    assert Feasible(s, steps) && Run(s, steps) == t;
  }

  /** Late insertions do happen: a thread reads the clock for a delay of one tick, is overtaken
      by a pass that calls a timer due at five, inserts, and its timer is called second. */
  lemma LateInsertBreaksOrder()
    ensures exists end :: Reaches(Begin(0), end) && end.executed == [Timer(0, 5), Timer(1, 1)]
  {
    hide Reaches, PassTakes;
    var none: multiset<Timer> := multiset{};
    var five, one := Timer(0, 5), Timer(1, 1);
    var both := multiset{five, one};
    var s1 := Begin(0).(computed := map[7 := 1]);
    var s2 := s1.(queue := multiset{five}, inserted := multiset{five}, nextId := 1);
    var s3 := s2.(now := 5);
    var s4 := s3.(queue := none, ready := [five], lastPass := 5);
    var s5 := s4.(ready := [], executed := [five]);
    var s6 := s5.(queue := multiset{one}, inserted := both, nextId := 2, computed := map[]);
    var s7 := s6.(queue := none, ready := [one]);
    var s8 := s7.(ready := [], executed := [five, one]);
    OnlyDue(five, 5);
    OnlyDue(one, 5);
    ReachesItself(s8);
    ReachesBy(s7, RunNext, s8, s8);
    ReachesBy(s6, Pass([one]), s7, s8);
    ReachesBy(s5, Insert(7), s6, s8);
    ReachesBy(s4, RunNext, s5, s8);
    ReachesBy(s3, Pass([five]), s4, s8);
    ReachesBy(s2, Tick(5), s3, s8);
    ReachesBy(s1, AddInLoop(5), s2, s8);
    ReachesBy(Begin(0), Compute(7, 1), s1, s8);
  }

  lemma OnlyDue(t: Timer, now: int)
    requires t.expire <= now
    ensures PassTakes(multiset{t}, now, [t]) && multiset{t} - multiset([t]) == multiset{}
  {
    assert multiset([t]) == multiset{t};
  }

  lemma ReachesItself(s: Schedule)
    ensures Reaches(s, s)
  {
    assert Feasible(s, []) && Run(s, []) == s;
  }

  /** `RunAfter` is atomic in this run: no pass falls between a clock reading and its insertion. */
  ghost predicate Atomic(s: Schedule, steps: seq<Step>)
    requires Feasible(s, steps)
    decreases |steps|
  {
    steps == [] || ((steps[0].Pass? ==> s.computed == map[]) && Atomic(Next(s, steps[0]), steps[1..]))
  }

  lemma {:induction false} AtomicNeverOvertaken(s: Schedule, steps: seq<Step>)
    requires Feasible(s, steps) && Atomic(s, steps)
    ensures NeverOvertaken(s, steps)
    decreases |steps|
  {
    hide Next, Enabled;
    if steps != [] {
      AtomicNeverOvertaken(Next(s, steps[0]), steps[1..]);
    }
  }

  /** With atomic insertions the calls of a whole run are in order of expiry; every called timer
      was due when its pass began, was inserted, and is called once. */
  lemma TimersInOrder(now: int, steps: seq<Step>)
    requires Feasible(Begin(now), steps) && Atomic(Begin(now), steps)
    ensures var s := Run(Begin(now), steps);
      && Sorted(s.executed)
      && (forall t :: t in s.executed ==> t.expire <= s.now && t in s.inserted)
      && (forall i, j :: 0 <= i < j < |s.executed| ==> s.executed[i].id != s.executed[j].id)
  {
    hide Enabled, Next, NeverOvertaken, Run, Feasible, Atomic, Sorted, Sound;
    var b := Begin(now);
    AtomicNeverOvertaken(b, steps);
    OrderExactly(now, steps);
    BeginSound(now);
    RunSound(b, steps);
    var s := Run(b, steps);
    CalledSorted(s);
    CalledOnce(s);
  }

  lemma CalledSorted(s: Schedule)
    requires Ordered(s)
    ensures Sorted(s.executed)
  {
    SortedParts(s.executed, s.ready);
  }

  lemma BeginSound(now: int)
    ensures Sound(Begin(now)) && Ordered(Begin(now))
  {}

  /** In every run, atomic or not, none is called early and none twice. */
  lemma {:induction false} RunSound(s: Schedule, steps: seq<Step>)
    requires Sound(s) && Feasible(s, steps)
    ensures Sound(Run(s, steps))
    decreases |steps|
  {
    hide Next, Enabled, Sound;
    if steps != [] {
      StepSound(s, steps[0]);
      RunSound(Next(s, steps[0]), steps[1..]);
    }
  }

  lemma CalledOnce(s: Schedule)
    requires Sound(s)
    ensures forall t :: t in s.executed ==> t.expire <= s.now && t in s.inserted
    ensures forall i, j :: 0 <= i < j < |s.executed| ==> s.executed[i].id != s.executed[j].id
  {
    forall t | t in s.executed
      ensures t.expire <= s.now && t in s.inserted
    {
      assert t in Taken(s);
      assert t in multiset(Taken(s));
    }
    forall i, j | 0 <= i < j < |s.executed|
      ensures s.executed[i].id != s.executed[j].id
    {
      var t := s.executed[i];
      assert t in Taken(s) && t in multiset(Taken(s));
      if s.executed[i].id == s.executed[j].id {
        assert s.executed[j] in multiset(Taken(s));
        assert s.executed[j] == t;
        TwiceCounted(Taken(s), i, j);
      }
    }
  }

  lemma TwiceCounted(s: seq<Timer>, i: nat, j: nat)
    requires i < j < |s| && s[i] == s[j]
    ensures multiset(s)[s[i]] >= 2
  {
    assert s == s[..j] + [s[j]] + s[j + 1..];
    assert s[i] in s[..j];
  }
}
