/** One TCP connection: its life cycle and its output stream.

    `Conn` is the state of a connection between two handler calls and `Step` the effect of each
    handler.  A check of the state together with the assignment it guards is one step, and a
    queued task may run at any later step; a user callback is the last thing its handler does,
    or finds the connection already closed, so what a callback does is a step of its own. */
module Connection {
  import opened Common
  import opened Pollers
  import B = Buffer

  type byte = B.byte

  datatype State = Connecting | Connected | Disconnecting | Disconnected {
    function Rank(): nat {
      match this
      case Connecting => 0
      case Connected => 1
      case Disconnecting => 2
      case Disconnected => 3
    }
  }

  datatype Conn = Conn(
    state: State,
    socketOpen: bool,
    events: Interest,
    added: bool,
    input: seq<byte>,
    output: seq<byte>,
    arrived: seq<byte>,      // every byte the kernel handed over, in order
    consumed: seq<byte>,     // every byte the message handler took, in order
    kernel: seq<byte>,       // every byte the kernel took, in order
    accepted: seq<byte>,     // every byte of every send made while connected, in order
    shutdownTasks: nat,      // queued ShutdownInLoop calls
    forceCloseTasks: nat,    // queued ForceCloseInLoop calls
    closes: nat)             // calls of the close callback

  const FRESH := Conn(Connecting, true, NO_INTEREST, false, [], [], [], [], [], [], 0, 0, 0)

  datatype ReadResult = Data(bytes: seq<byte>) | Eof | ReadFailed(wouldBlock: bool)

  datatype Event =
    | Establish
    | Destroy
    | Readable(result: ReadResult)
    | Writable(taken: int, wouldBlock: bool)
    | Closed
    | Errored
    | Send(data: seq<byte>)
    | Consume(count: nat)
    | Shutdown
    | ShutdownTask
    | ForceClose
    | ForceCloseTask

  // ---------------------------------------------------------------- handlers

  /** A channel tells its poller about every change; the poller keeps it registered exactly
      while it has some interest. */
  function SetEvents(c: Conn, events: Interest): Conn {
    c.(events := events, added := events != NO_INTEREST)
  }

  function Close(c: Conn): Conn {
    if c.state == Disconnected then c
    else SetEvents(c, NO_INTEREST).(state := Disconnected, socketOpen := false, closes := c.closes + 1)
  }

  function Read(c: Conn, result: ReadResult): Conn {
    match result
    case Data(bytes) => if bytes == [] then Close(c) else c.(input := c.input + bytes, arrived := c.arrived + bytes)
    case Eof => Close(c)
    case ReadFailed(wouldBlock) => if wouldBlock then c else Close(c)
  }

  function Moved(c: Conn, n: nat): Conn
    requires n <= |c.output|
  {
    c.(kernel := c.kernel + c.output[..n], output := c.output[n..])
  }

  /** With nothing to write the write answers 0 and no error, which is not a blocked write. */
  function Write(c: Conn, taken: int, wouldBlock: bool): Conn
    requires taken <= |c.output|
  {
    if c.state != Connected then c
    else
      var n := if c.output == [] then 0 else taken;
      if n > 0 then
        var w := Moved(c, n);
        if w.output == [] then SetEvents(w, w.events.(writing := false)) else w
      else if n < 0 && wouldBlock then c
      else Close(c)
  }

  function SendNow(c: Conn, data: seq<byte>): Conn {
    if c.state != Connected then c
    else
      var s := c.(output := c.output + data, accepted := c.accepted + data);
      if s.events.writing then s else SetEvents(s, s.events.(writing := true))
  }

  function RunShutdown(c: Conn): Conn {
    if c.output != [] then
      if c.events.writing then c else SetEvents(c, c.events.(writing := true))
    else c.(socketOpen := false, state := Disconnected)
  }

  function RunForceClose(c: Conn): Conn {
    if c.state == Connected || c.state == Disconnecting then
      SetEvents(c, NO_INTEREST).(state := Disconnected, socketOpen := false, closes := c.closes + 1)
    else c
  }

  function RunDestroy(c: Conn): Conn {
    if c.state == Connected || c.state == Disconnecting then
      SetEvents(c, NO_INTEREST).(state := Disconnected, socketOpen := false)
    else c
  }

  /** What the kernel, the loop and the owner can do to a connection in this state.  Handlers may
      also run on events that were reported before an earlier handler of the same round changed
      the interest or closed the connection, so neither interest nor registration is asked for. */
  predicate Enabled(c: Conn, e: Event) {
    match e
    case Establish => c.state == Connecting
    case Readable(result) => c.socketOpen || result.ReadFailed?
    case Writable(taken, _) => taken <= |c.output|
    case Consume(count) => count <= |c.input|
    case ShutdownTask => c.shutdownTasks > 0
    case ForceCloseTask => c.forceCloseTasks > 0
    case _ => true
  }

  function Step(c: Conn, e: Event): (d: Conn)
    requires Enabled(c, e)
    ensures c.kernel <= d.kernel
  {
    match e
    case Establish => SetEvents(c, c.events.(reading := true)).(state := Connected)
    case Destroy => RunDestroy(c)
    case Readable(result) => Read(c, result)
    case Writable(taken, wouldBlock) => Write(c, taken, wouldBlock)
    case Closed => Close(c)
    case Errored => Close(Close(c))
    case Send(data) => SendNow(c, data)
    case Consume(count) => c.(input := c.input[count..], consumed := c.consumed + c.input[..count])
    case Shutdown =>
      if c.state == Connected then c.(state := Disconnecting, shutdownTasks := c.shutdownTasks + 1) else c
    case ShutdownTask => RunShutdown(c.(shutdownTasks := c.shutdownTasks - 1))
    case ForceClose =>
      if c.state == Connected || c.state == Disconnecting
      then c.(state := Disconnecting, forceCloseTasks := c.forceCloseTasks + 1) else c
    case ForceCloseTask => RunForceClose(c.(forceCloseTasks := c.forceCloseTasks - 1))
  }

  // ---------------------------------------------------------------- the program

  class TcpConnection {
    var state: State
    var socketOpen: bool
    const channel: Channel
    const input: B.Buffer
    const output: B.Buffer
    var shutdownTasks: nat
    var forceCloseTasks: nat
    ghost var arrived: seq<byte>
    ghost var consumed: seq<byte>
    ghost var kernel: seq<byte>
    ghost var accepted: seq<byte>
    ghost var closes: nat

    ghost predicate Valid()
      reads this, channel, input, output
    {
      input != output && input.mem != output.mem && input.Valid() && output.Valid()
    }

    ghost function View(): Conn
      requires Valid()
      reads this, channel, input, input.mem, output, output.mem
    {
      Conn(state, socketOpen, channel.events, channel.added, input.Contents(), output.Contents(),
           arrived, consumed, kernel, accepted, shutdownTasks, forceCloseTasks, closes)
    }

    constructor (fd: Fd)
      ensures Valid() && View() == FRESH
      ensures fresh(channel) && fresh(input) && fresh(input.mem) && fresh(output) && fresh(output.mem)
    {
      state, socketOpen := Connecting, true;
      channel := new Channel(fd);
      input := new B.Buffer(1024);
      output := new B.Buffer(1024);
      shutdownTasks, forceCloseTasks := 0, 0;
      arrived, consumed, kernel, accepted, closes := [], [], [], [], 0;
    }

    /** The channel tells its poller, which then flags its own channel as registered exactly
        while it has some interest, as both pollers promise in `UpdateChannel`. */
    method SetChannel(events: Interest)
      modifies channel
      ensures channel.events == events && channel.added == (events != NO_INTEREST)
    {
      channel.events := events;
      channel.added := events != NO_INTEREST;
    }

    method ConnectEstablished()
      requires Valid() && state == Connecting
      modifies this, channel
      ensures Valid() && View() == Step(old(View()), Establish)
    {
      state := Connected;
      SetChannel(channel.events.(reading := true));
    }

    method ConnectDestroyed()
      requires Valid()
      modifies this, channel
      ensures Valid() && View() == Step(old(View()), Destroy)
    {
      if state == Connected || state == Disconnecting {
        state := Disconnected;
        SetChannel(NO_INTEREST);
        socketOpen := false;
      }
    }

    method HandleRead(result: ReadResult)
      requires Valid() && Enabled(View(), Readable(result))
      requires result.Data? ==> |result.bytes| <= B.ReadLimit(input.Indices())
      modifies this, channel, input, input.mem
      ensures Valid() && (input.mem == old(input.mem) || fresh(input.mem))
      ensures View() == Step(old(View()), Readable(result))
    {
      match result
      case Data(bytes) =>
        var n := input.ReadFromFd(bytes);
        arrived := arrived + bytes;
        if n == 0 {
          HandleClose();
        }
      case Eof =>
        HandleClose();
      case ReadFailed(wouldBlock) =>
        if !wouldBlock {
          HandleClose();
        }
    }

    /** Hands the front of the output buffer to the kernel, which takes `n` bytes of it. */
    method WriteOut(taken: int) returns (n: int)
      requires Valid() && taken <= |output.Contents()|
      modifies this`kernel, output`readIdx
      ensures Valid() && n == if old(View()).output == [] then 0 else taken
      ensures n <= 0 ==> View() == old(View())
      ensures n > 0 ==> View() == Moved(old(View()), n)
    {
      hide B.Apply;
      ghost var c := View();
      var handed;
      n, handed := output.WriteToFd(taken);
      SplitAt(c.output, handed, output.Contents());
      kernel := kernel + handed;
      if n > 0 {
        assert handed == c.output[..n];
      } else {
        assert handed == [];
      }
    }

    method HandleWrite(taken: int, wouldBlock: bool)
      requires Valid() && Enabled(View(), Writable(taken, wouldBlock))
      modifies this, channel, output
      ensures Valid() && View() == Step(old(View()), Writable(taken, wouldBlock))
    {
      if state != Connected {
        return;
      }
      var n := WriteOut(taken);
      if n > 0 {
        if output.ReadableBytes() == 0 {
          SetChannel(channel.events.(writing := false));
        }
      } else if !(n < 0 && wouldBlock) {
        HandleClose();
      }
    }

    /** The message handler takes bytes off the front of the input buffer. */
    method TakeInput(count: nat) returns (data: seq<byte>)
      requires Valid() && count <= |input.Contents()|
      modifies this`consumed, input`readIdx
      ensures Valid() && data == old(View()).input[..count]
      ensures View() == Step(old(View()), Consume(count))
    {
      hide B.Apply;
      data := input.RetrieveAsString(count);
      consumed := consumed + data;
    }

    method HandleClose()
      requires Valid()
      modifies this, channel
      ensures Valid() && View() == Step(old(View()), Closed)
      ensures unchanged(this`socketOpen) || !socketOpen
    {
      if state == Disconnected {
        return;
      }
      state := Disconnected;
      SetChannel(NO_INTEREST);
      closes := closes + 1;
      socketOpen := false;
    }

    /** The error handler closes, and the channel then calls the close handler as well. */
    method HandleError()
      requires Valid()
      modifies this, channel
      ensures Valid() && View() == Step(old(View()), Errored)
    {
      HandleClose();
      HandleClose();
    }

    method SendInLoop(data: seq<byte>)
      requires Valid()
      modifies this, channel, output, output.mem
      ensures Valid() && (output.mem == old(output.mem) || fresh(output.mem))
      ensures View() == Step(old(View()), Send(data))
    {
      if state != Connected {
        return;
      }
      output.Append(data);
      accepted := accepted + data;
      if !channel.events.writing {
        SetChannel(channel.events.(writing := true));
      }
    }

    method RequestShutdown()
      requires Valid()
      modifies this
      ensures Valid() && View() == Step(old(View()), Shutdown)
    {
      if state == Connected {
        state := Disconnecting;
        shutdownTasks := shutdownTasks + 1;
      }
    }

    method ShutdownInLoop()
      requires Valid() && shutdownTasks > 0
      modifies this, channel
      ensures Valid() && View() == Step(old(View()), ShutdownTask)
    {
      shutdownTasks := shutdownTasks - 1;
      if output.ReadableBytes() > 0 {
        if !channel.events.writing {
          SetChannel(channel.events.(writing := true));
        }
      } else {
        socketOpen := false;
        state := Disconnected;
      }
    }

    method RequestForceClose()
      requires Valid()
      modifies this
      ensures Valid() && View() == Step(old(View()), ForceClose)
    {
      if state == Connected || state == Disconnecting {
        state := Disconnecting;
        forceCloseTasks := forceCloseTasks + 1;
      }
    }

    method ForceCloseInLoop()
      requires Valid() && forceCloseTasks > 0
      modifies this, channel
      ensures Valid() && View() == Step(old(View()), ForceCloseTask)
    {
      forceCloseTasks := forceCloseTasks - 1;
      if state == Connected || state == Disconnecting {
        state := Disconnected;
        SetChannel(NO_INTEREST);
        socketOpen := false;
        closes := closes + 1;
      }
    }
  }

  // ---------------------------------------------------------------- every run

  predicate Feasible(c: Conn, es: seq<Event>)
    decreases |es|
  {
    es == [] || (Enabled(c, es[0]) && Feasible(Step(c, es[0]), es[1..]))
  }

  function Run(c: Conn, es: seq<Event>): Conn
    requires Feasible(c, es)
    decreases |es|
  {
    if es == [] then c else Run(Step(c, es[0]), es[1..])
  }

  /** No byte is lost, doubled or reordered on its way through the buffers. */
  predicate Streams(c: Conn) {
    c.kernel + c.output == c.accepted && c.consumed + c.input == c.arrived
  }

  predicate LifeCycle(c: Conn) {
    && (c.socketOpen <==> c.state != Disconnected)
    && c.closes <= 1
    && (c.closes == 1 ==> c.state == Disconnected)
    && (c.state.Rank() <= Connected.Rank() ==> c.shutdownTasks == c.forceCloseTasks == 0)
    && (c.added <==> c.events != NO_INTEREST)
    && (c.state == Connected ==> c.events.reading)
  }

  /** What holds between any two handler calls of any run. */
  predicate Invariant(c: Conn) {
    Streams(c) && LifeCycle(c)
  }

  lemma StepStreams(c: Conn, e: Event)
    requires Streams(c) && Enabled(c, e)
    ensures Streams(Step(c, e))
  {
    var d := Step(c, e);
    match e
    case Readable(Data(bytes)) => Extend(c.consumed, c.input, bytes);
    case Writable(taken, _) => if d.output != c.output { Advance(c.kernel, c.output, taken); }
    case Send(data) => Extend(c.kernel, c.output, data);
    case Consume(count) => Advance(c.consumed, c.input, count);
    case _ =>
  }

  lemma SplitAt<T>(whole: seq<T>, front: seq<T>, back: seq<T>)
    requires front + back == whole
    ensures front == whole[..|front|] && back == whole[|front|..]
  {}

  lemma Extend<T>(done: seq<T>, waiting: seq<T>, more: seq<T>)
    ensures done + (waiting + more) == (done + waiting) + more
  {}

  lemma Advance<T>(done: seq<T>, waiting: seq<T>, n: nat)
    requires n <= |waiting|
    ensures (done + waiting[..n]) + waiting[n..] == done + waiting
  {}

  lemma StepLifeCycle(c: Conn, e: Event)
    requires LifeCycle(c) && Enabled(c, e)
    ensures LifeCycle(Step(c, e))
  {}

  lemma StepInvariant(c: Conn, e: Event)
    requires Invariant(c) && Enabled(c, e)
    ensures Invariant(Step(c, e))
  {
    hide Step, Enabled, Streams, LifeCycle;
    StepStreams(c, e);
    StepLifeCycle(c, e);
  }

  lemma StepForward(c: Conn, e: Event)
    requires Enabled(c, e)
    ensures c.state.Rank() <= Step(c, e).state.Rank()
    ensures c.accepted <= Step(c, e).accepted
    ensures c.state.Rank() > Connected.Rank() ==> var d := Step(c, e);
      (d.kernel, d.accepted, d.output) == (c.kernel, c.accepted, c.output)
  {}

  /** In every interleaving: what the kernel took followed by what is still buffered is exactly
      what was accepted, and likewise what was consumed and what arrived; the state never goes
      back; the close callback fires at most once; the socket is closed exactly when the state is
      Disconnected; and once Connected is left nothing more is accepted or written. */
  lemma {:induction false} RunInvariant(c: Conn, es: seq<Event>)
    requires Invariant(c) && Feasible(c, es)
    ensures Invariant(Run(c, es))
    ensures c.state.Rank() <= Run(c, es).state.Rank()
    ensures c.state.Rank() > Connected.Rank() ==> var d := Run(c, es);
      (d.kernel, d.accepted, d.output) == (c.kernel, c.accepted, c.output)
    decreases |es|
  {
    hide Step, Enabled;
    if es != [] {
      StepInvariant(c, es[0]);
      StepForward(c, es[0]);
      RunInvariant(Step(c, es[0]), es[1..]);
    }
  }

  lemma OnlySendsAccept(c: Conn, e: Event)
    requires Enabled(c, e) && !e.Send?
    ensures Step(c, e).accepted == c.accepted
  {}

  lemma InputOnlyFromReads(c: Conn, e: Event)
    requires Enabled(c, e) && !e.Consume? && !(e.Readable? && e.result.Data?)
    ensures Step(c, e).input == c.input && Step(c, e).arrived == c.arrived
  {}

  // ---------------------------------------------------------------- write interest

  /** While connected, writing is watched exactly when something waits to be written. */
  predicate NothingStranded(c: Conn) {
    c.state == Connected ==> (c.events.writing <==> c.output != [])
  }

  /** A send of no bytes with nothing buffered. */
  predicate EmptySend(c: Conn, e: Event) {
    c.state == Connected && e == Send([]) && c.output == []
  }

  /** Every step keeps the write interest right exactly when it is not an empty send. */
  lemma StepInterest(c: Conn, e: Event)
    requires NothingStranded(c) && Enabled(c, e) && (e.Establish? ==> !c.events.writing && c.output == [])
    ensures NothingStranded(Step(c, e)) <==> !EmptySend(c, e)
  {}

  /** No step of the run is an empty send. */
  predicate NoEmptySends(c: Conn, es: seq<Event>)
    requires Feasible(c, es)
    decreases |es|
  {
    es == [] || (!EmptySend(c, es[0]) && NoEmptySends(Step(c, es[0]), es[1..]))
  }

  /** The write interest is right after every step of the run. */
  predicate NeverStranded(c: Conn, es: seq<Event>)
    requires Feasible(c, es)
    decreases |es|
  {
    NothingStranded(c) && (es == [] || NeverStranded(Step(c, es[0]), es[1..]))
  }

  /** Before it is established a connection has nothing buffered and watches nothing. */
  predicate Pristine(c: Conn) {
    c.state == Connecting ==> c.output == [] && !c.events.writing
  }

  /** Over every run the write interest is always right exactly when no send was empty. */
  lemma {:induction false} InterestExactly(c: Conn, es: seq<Event>)
    requires Feasible(c, es) && NothingStranded(c) && Pristine(c)
    ensures NeverStranded(c, es) <==> NoEmptySends(c, es)
    decreases |es|
  {
    hide Step, Enabled, EmptySend, NothingStranded;
    if es != [] {
      StepPristine(c, es[0]);
      StepInterest(c, es[0]);
      if !EmptySend(c, es[0]) {
        InterestExactly(Step(c, es[0]), es[1..]);
      }
    }
  }

  lemma StepPristine(c: Conn, e: Event)
    requires Enabled(c, e) && Pristine(c)
    ensures Pristine(Step(c, e))
    ensures e.Establish? ==> !c.events.writing && c.output == []
  {}

  /** What an empty send does: the next write event finds nothing to write and takes that for
      a failed write, so the connection is closed, whatever the kernel would have answered. */
  lemma EmptySendCloses(c: Conn, taken: int, wouldBlock: bool)
    requires Invariant(c) && c.state == Connected && c.output == [] && taken <= 0
    ensures Feasible(c, [Send([]), Writable(taken, wouldBlock)])
    ensures Run(c, [Send([]), Writable(taken, wouldBlock)]).state == Disconnected
  {
    var es := [Send([]), Writable(taken, wouldBlock)];
    var d := Step(c, es[0]);
    assert es[1..][0] == Writable(taken, wouldBlock) && es[1..][1..] == [];
    assert Feasible(Step(d, es[1]), es[1..][1..]);
    assert Feasible(d, es[1..]);
    assert Run(c, es) == Run(d, es[1..]) == Run(Step(d, es[1]), []) == Step(d, es[1]);
  }

  // ---------------------------------------------------------------- shutting down

  /** Everything accepted reaches the kernel, in whatever continuation, exactly when nothing was
      buffered at the moment Connected was left: a shutdown does not wait for the buffer. */
  lemma FlushedExactly(c: Conn, es: seq<Event>)
    requires Invariant(c) && c.state.Rank() > Connected.Rank() && Feasible(c, es)
    ensures Run(c, es).kernel == Run(c, es).accepted <==> c.output == []
  {
    RunInvariant(c, es);
    assert c.accepted == c.kernel + c.output;
    if c.kernel == c.accepted {
      assert |c.output| == 0;
    }
  }

  /** Events that leave a connection in state Disconnecting with unsent data where it is: asking
      for a forced close is one of them, running the task it queued is not. */
  predicate LeavesWaiting(e: Event) {
    match e
    case Readable(Data(bytes)) => bytes != []
    case Readable(ReadFailed(wouldBlock)) => wouldBlock
    case Writable(_, _) => true
    case Send(_) => true
    case Consume(_) => true
    case Shutdown => true
    case ShutdownTask => true
    case ForceClose => true
    case _ => false
  }

  /** A shutdown with unsent data stays pending, however often the socket becomes writable,
      exactly as long as neither the peer, an error, its owner's removal nor a forced close ends
      the connection: the write handler returns in every state but Connected. */
  lemma {:induction false} ShutdownStalls(c: Conn, es: seq<Event>)
    requires c.state == Disconnecting && c.output != [] && Feasible(c, es)
    ensures Run(c, es).state == Disconnecting <==> forall e :: e in es ==> LeavesWaiting(e)
    ensures Run(c, es).output == c.output && Run(c, es).kernel == c.kernel
    decreases |es|
  {
    hide Step, Enabled, LeavesWaiting;
    if es != [] {
      var d, rest := Step(c, es[0]), es[1..];
      StallStep(c, es[0]);
      assert es == [es[0]] + rest;
      if LeavesWaiting(es[0]) {
        ShutdownStalls(d, rest);
      } else {
        assert es[0] in es;
        ClosedIsFinal(d, rest);
      }
    }
  }

  lemma StallStep(c: Conn, e: Event)
    requires c.state == Disconnecting && c.output != [] && Enabled(c, e)
    ensures var d := Step(c, e);
      && (d.output, d.kernel) == (c.output, c.kernel)
      && d.state == if LeavesWaiting(e) then Disconnecting else Disconnected
  {}

  /** Once Disconnected, the close callback has fired as often as it ever will. */
  lemma {:induction false} ClosedIsFinal(c: Conn, es: seq<Event>)
    requires c.state == Disconnected && Feasible(c, es)
    ensures Run(c, es).state == Disconnected && Run(c, es).closes == c.closes
    ensures Run(c, es).output == c.output && Run(c, es).kernel == c.kernel
    decreases |es|
  {
    if es != [] {
      ClosedIsFinal(Step(c, es[0]), es[1..]);
    }
  }

  /** How a connection reached Disconnected decides whether its owner is ever told: the last
      step before is a close or a forced close exactly when the callback has fired.  Every way
      but a completed shutdown takes the channel out of its poller. */
  predicate Announces(c: Conn, e: Event) {
    e.Closed? || e.Errored? || e.Readable? || e.Writable? || e.ForceCloseTask?
  }

  lemma AnnouncedExactly(c: Conn, e: Event, es: seq<Event>)
    requires Invariant(c) && c.state != Disconnected && Enabled(c, e)
    requires Step(c, e).state == Disconnected && Feasible(Step(c, e), es)
    ensures Run(Step(c, e), es).closes == 1 <==> Announces(c, e)
    ensures !Announces(c, e) ==> e.Destroy? || (e.ShutdownTask? && c.output == [])
    ensures !Step(c, e).added <==> !e.ShutdownTask? || !c.added
  {
    hide Run, Feasible;
    ClosedIsFinal(Step(c, e), es);
  }

  /** A closed connection's channel that left its poller comes back, and then stays, exactly when
      some shutdown task queued before the close still finds unsent data. */
  lemma {:induction false} ReregisteredExactly(c: Conn, es: seq<Event>)
    requires c.state == Disconnected && c.events == NO_INTEREST && !c.added && Feasible(c, es)
    ensures Run(c, es).added <==> c.output != [] && ShutdownTask in es
    decreases |es|
  {
    hide Step, Enabled;
    if es != [] {
      var d, rest := Step(c, es[0]), es[1..];
      assert es == [es[0]] + rest;
      ClosedStep(c, es[0]);
      if es[0] == ShutdownTask && c.output != [] {
        StaysRegistered(d, rest);
      } else {
        ReregisteredExactly(d, rest);
      }
    }
  }

  lemma ClosedStep(c: Conn, e: Event)
    requires c.state == Disconnected && Enabled(c, e)
    ensures var d := Step(c, e);
      && d.state == Disconnected && d.output == c.output
      && (d.events, d.added) == if e == ShutdownTask && c.output != [] && !c.events.writing
                                then (c.events.(writing := true), true) else (c.events, c.added)
  {}

  lemma {:induction false} StaysRegistered(c: Conn, es: seq<Event>)
    requires c.state == Disconnected && c.events.writing && c.added && Feasible(c, es)
    ensures Run(c, es).added
    decreases |es|
  {
    hide Step, Enabled;
    if es != [] {
      ClosedStep(c, es[0]);
      StaysRegistered(Step(c, es[0]), es[1..]);
    }
  }
}
