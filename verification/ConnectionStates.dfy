/** The life of a connection as its owner sees it: which events move it from state to state, what
    they queue, what they announce, and what is left of it in the poller. */
module ConnectionStates {
  import opened Pollers
  import opened Connection

  predicate Open(state: State) {
    state == Connected || state == Disconnecting
  }

  /** Events after which nothing is left of a connection: the peer closed it or reading failed, a
      write failed or had nothing to write, the owner drops it, or a queued task gets its way. */
  predicate Ends(c: Conn, e: Event) {
    match e
    case Readable(Data(bytes)) => bytes == []
    case Readable(Eof) => true
    case Readable(ReadFailed(wouldBlock)) => !wouldBlock
    case Writable(taken, wouldBlock) =>
      c.state == Connected && (c.output == [] || taken == 0 || (taken < 0 && !wouldBlock))
    case Closed => true
    case Errored => true
    case Destroy => Open(c.state)
    case ForceCloseTask => Open(c.state)
    case ShutdownTask => c.output == []
    case _ => false
  }

  /** Where each event leads, from every state a connection can be in. */
  lemma StatesExactly(c: Conn, e: Event)
    requires Invariant(c) && Enabled(c, e)
    ensures Step(c, e).state ==
      if c.state == Disconnected || Ends(c, e) then Disconnected
      else if c.state == Connecting && e == Establish then Connected
      else if (c.state == Connected && e == Shutdown) || (Open(c.state) && e == ForceClose) then Disconnecting
      else c.state
    ensures Step(c, e).shutdownTasks == c.shutdownTasks
      + (if c.state == Connected && e == Shutdown then 1 else 0) - (if e == ShutdownTask then 1 else 0)
    ensures Step(c, e).forceCloseTasks == c.forceCloseTasks
      + (if Open(c.state) && e == ForceClose then 1 else 0) - (if e == ForceCloseTask then 1 else 0)
  {}

  /** What each event does to the interest of the channel: an ending one clears it, but for a
      shutdown that completes; input is watched from the establishment on, output while some of it
      waits. */
  lemma InterestTold(c: Conn, e: Event)
    requires Invariant(c) && Enabled(c, e)
    ensures var (r, w) := (c.events.reading, c.events.writing);
      Step(c, e).events ==
        if c.state != Disconnected && Ends(c, e) && e != ShutdownTask then NO_INTEREST
        else if e == Establish then Interest(true, w)
        else if (e.Send? && c.state == Connected) || (e == ShutdownTask && c.output != []) then Interest(r, true)
        else if e.Writable? && c.state == Connected && c.output != [] && e.taken == |c.output| then Interest(r, false)
        else c.events
  {}

  /** A new connection that is established watches for input, takes what is sent, and watches for
      writing as soon as something was. */
  lemma Established(data: seq<byte>)
    ensures Feasible(FRESH, [Establish, Send(data)])
    ensures var c, d := Run(FRESH, [Establish]), Run(FRESH, [Establish, Send(data)]);
      && c.state == d.state == Connected && c.socketOpen && d.socketOpen
      && c.added && c.events == Interest(true, false)
      && d.added && d.events == Interest(true, true)
      && d.accepted == d.output == data
  {
    hide Feasible, Run;
    OneEvent(FRESH, Establish);
    TwoEvents(FRESH, Establish, Send(data));
  }

  lemma OneEvent(c: Conn, e: Event)
    requires Enabled(c, e)
    ensures Feasible(c, [e]) && Run(c, [e]) == Step(c, e)
  {
    hide Enabled, Step;
    assert [e][1..] == [];
    assert Feasible(Step(c, e), []) && Run(Step(c, e), []) == Step(c, e);
  }

  lemma TwoEvents(c: Conn, e: Event, f: Event)
    requires Enabled(c, e) && Enabled(Step(c, e), f)
    ensures Feasible(c, [e, f]) && Run(c, [e, f]) == Step(Step(c, e), f)
  {
    hide Enabled, Step;
    OneEvent(Step(c, e), f);
    assert [e, f][1..] == [f];
  }

  // ---------------------------------------------------------------- runs

  /** Nothing in the run ends the connection or asks for its end. */
  predicate LeftAlone(c: Conn, es: seq<Event>)
    requires Feasible(c, es)
    decreases |es|
  {
    es == [] ||
    (!Ends(c, es[0]) && es[0] != Shutdown && es[0] != ForceClose && LeftAlone(Step(c, es[0]), es[1..]))
  }

  /** Over every run an established connection is still Connected exactly when nothing in the run
      ended it or asked for its end. */
  lemma {:induction false} ConnectedExactly(c: Conn, es: seq<Event>)
    requires Invariant(c) && c.state == Connected && Feasible(c, es)
    ensures Run(c, es).state == Connected <==> LeftAlone(c, es)
    decreases |es|
  {
    hide Step, Enabled, Invariant, Ends;
    if es != [] {
      var d := Step(c, es[0]);
      StatesExactly(c, es[0]);
      StepInvariant(c, es[0]);
      if d.state == Connected {
        ConnectedExactly(d, es[1..]);
      } else {
        RunInvariant(d, es[1..]);
      }
    }
  }

  /** Over every run a connection that is shutting down, with or without unsent data, is still
      doing so exactly when every event of the run leaves it waiting; with nothing unsent the
      queued shutdown is one that does not. */
  lemma {:induction false} ShutdownEndsExactly(c: Conn, es: seq<Event>)
    requires Invariant(c) && c.state == Disconnecting && Feasible(c, es)
    ensures Run(c, es).state == Disconnecting <==>
      forall e :: e in es ==> LeavesWaiting(e) && (e == ShutdownTask ==> c.output != [])
    ensures Run(c, es).state == Disconnecting || Run(c, es).state == Disconnected
    decreases |es|
  {
    hide Step, Enabled, LeavesWaiting, Invariant;
    if es != [] {
      var d, rest := Step(c, es[0]), es[1..];
      assert es == [es[0]] + rest;
      WaitingStep(c, es[0]);
      StepInvariant(c, es[0]);
      if d.state == Disconnecting {
        ShutdownEndsExactly(d, rest);
      } else {
        assert es[0] in es;
        ClosedIsFinal(d, rest);
      }
    }
  }

  lemma WaitingStep(c: Conn, e: Event)
    requires Invariant(c) && c.state == Disconnecting && Enabled(c, e)
    ensures Step(c, e).state ==
      if LeavesWaiting(e) && (e == ShutdownTask ==> c.output != []) then Disconnecting else Disconnected
    ensures Step(c, e).output == c.output
  {
    hide Step;
    StatesExactly(c, e);
    StepForward(c, e);
  }

  /** A forced close that was asked for ends the connection by the time its task has run, whatever
      else happens before and after. */
  lemma ForceCloseWorks(c: Conn, es: seq<Event>)
    requires Invariant(c) && Open(c.state) && Feasible(c, [ForceClose] + es) && ForceCloseTask in es
    ensures Run(c, [ForceClose] + es).state == Disconnected
  {
    var all := [ForceClose] + es;
    var d := Step(c, ForceClose);
    assert all[1..] == es;
    StepInvariant(c, ForceClose);
    ShutdownEndsExactly(d, es);
    hide Step, Enabled, Invariant;
    assert !LeavesWaiting(ForceCloseTask);
  }
}
