/** Packets across one connection: from `Send` on one side to the parser on the other. */
module EndToEnd {
  import opened Common
  import opened Protocol
  import B = Buffer
  import C = Connection
  import PP = PacketParser

  // ---------------------------------------------------------------- the receiving handler

  /** The message handler: everything readable goes to the connection's parser. */
  method OnMessage<P(!new)>(conn: C.TcpConnection, parser: PP.PacketParser<P>, output: seq<Packet<P>>)
      returns (out: seq<Packet<P>>)
    requires conn.Valid() && parser.crc.Valid()
    modifies conn, conn.input, parser, parser.crc`inited, parser.crc.table
    ensures conn.Valid() && parser.crc.Valid()
    ensures conn.View() == C.Step(old(conn.View()), C.Consume(|old(conn.View()).input|))
    ensures PP.ParserState(parser.buffer, out) == PP.StepParser(parser.codec,
      PP.StepParser(parser.codec, PP.ParserState(old(parser.buffer), output), PP.FeedOp(old(conn.View()).input)),
      PP.ParseAllOp)
  {
    hide PP.Parse;
    var data := conn.TakeInput(conn.input.ReadableBytes());
    assert data == old(conn.View()).input;
    parser.Feed(data);
    var parsed;
    out, parsed := parser.ParseAll(output);
  }

  // ---------------------------------------------------------------- the whole path

  /** Both connections, the bytes in flight, and the receiver's parser.  The channel between the
      two kernels is a FIFO byte stream that may be cut anywhere. */
  datatype Path<P> = Path(
    sender: C.Conn,
    receiver: C.Conn,
    wire: seq<byte>,
    parser: PP.ParserState<P>,
    packets: seq<P>)                // every packet whose send was accepted

  datatype PathEvent<P> =
    | SendPacket(packet: P)
    | SenderDoes(event: C.Event)
    | Arrive(count: nat)
    | ReceiverDoes(event: C.Event)

  function Start<P(!new)>(): Path<P> {
    Path(C.FRESH, C.FRESH, [], PP.ParserState([], []), [])
  }

  /** The sender's application sends packets and nothing else; the receiver's input comes off
      the wire, any number of bytes at a time, and is consumed by `OnMessage`; otherwise both
      connections do as they like.  What holds in all these runs holds in those of the program,
      whose reads and write events are only some of them; `Polled` below says which. */
  predicate Enabled<P(!new)>(codec: Codec<P>, s: Path<P>, e: PathEvent<P>) {
    match e
    case SendPacket(p) => |codec.dump(p)| < TWO_TO_THE_32
    case SenderDoes(event) => C.Enabled(s.sender, event) && !event.Send?
    case Arrive(n) => 0 < n <= |s.wire| && s.receiver.socketOpen
    case ReceiverDoes(event) =>
      C.Enabled(s.receiver, event) && !event.Consume? && !(event.Readable? && event.result.Data?)
  }

  function Step<P(!new)>(codec: Codec<P>, s: Path<P>, e: PathEvent<P>): Path<P>
    requires Enabled(codec, s, e)
  {
    match e
    case SendPacket(p) =>
      s.(sender := C.Step(s.sender, C.Send(Serialize(codec, p))),
         packets := if s.sender.state == C.Connected then s.packets + [p] else s.packets)
    case SenderDoes(event) =>
      var sender := C.Step(s.sender, event);
      s.(sender := sender, wire := s.wire + sender.kernel[|s.sender.kernel|..])
    case Arrive(n) =>
      var chunk := s.wire[..n];
      var read := C.Step(s.receiver, C.Readable(C.Data(chunk)));
      var fed := PP.StepParser(codec, s.parser, PP.FeedOp(read.input));
      s.(receiver := C.Step(read, C.Consume(|read.input|)),
         wire := s.wire[n..],
         parser := PP.StepParser(codec, fed, PP.ParseAllOp))
    case ReceiverDoes(event) =>
      s.(receiver := C.Step(s.receiver, event))
  }

  predicate Feasible<P(!new)>(codec: Codec<P>, s: Path<P>, es: seq<PathEvent<P>>)
    decreases |es|
  {
    es == [] || (Enabled(codec, s, es[0]) && Feasible(codec, Step(codec, s, es[0]), es[1..]))
  }

  function Run<P(!new)>(codec: Codec<P>, s: Path<P>, es: seq<PathEvent<P>>): Path<P>
    requires Feasible(codec, s, es)
    decreases |es|
  {
    if es == [] then s else Run(codec, Step(codec, s, es[0]), es[1..])
  }

  // ---------------------------------------------------------------- what every run keeps

  function Frames<P(!new)>(codec: Codec<P>, packets: seq<P>): seq<byte> {
    if packets == [] then [] else Serialize(codec, packets[0]) + Frames(codec, packets[1..])
  }

  /** The packets as a receiver reports them. */
  function Reported<P(!new)>(codec: Codec<P>, packets: seq<P>): seq<Packet<P>> {
    seq(|packets|, i requires 0 <= i < |packets| => Packet(MakeHeader(codec.dump(packets[i])), packets[i]))
  }

  predicate Short<P(!new)>(codec: Codec<P>, packets: seq<P>) {
    forall i :: 0 <= i < |packets| ==> |codec.dump(packets[i])| < TWO_TO_THE_32
  }

  ghost predicate Invariant<P(!new)>(codec: Codec<P>, s: Path<P>) {
    && C.Invariant(s.sender) && C.NothingStranded(s.sender) && C.Pristine(s.sender)
    && Short(codec, s.packets)
    && s.sender.accepted == Frames(codec, s.packets)
    && s.sender.kernel == s.receiver.arrived + s.wire
    && PP.Parse(codec, s.receiver.arrived) == PP.Parsed(s.parser.out, s.parser.buffer)
    && C.Invariant(s.receiver) && s.receiver.input == []
  }

  lemma {:induction false} FramesSnoc<P(!new)>(codec: Codec<P>, packets: seq<P>, p: P)
    ensures Frames(codec, packets + [p]) == Frames(codec, packets) + Serialize(codec, p)
    decreases |packets|
  {
    hide Serialize;
    if packets == [] {
      assert Frames(codec, [p]) == Serialize(codec, p) + Frames(codec, []);
      assert packets + [p] == [p];
    } else {
      assert (packets + [p])[1..] == packets[1..] + [p];
      FramesSnoc(codec, packets[1..], p);
    }
  }

  lemma StepSend<P(!new)>(codec: Codec<P>, s: Path<P>, p: P)
    requires Invariant(codec, s) && Enabled(codec, s, SendPacket(p))
    ensures Invariant(codec, Step(codec, s, SendPacket(p)))
  {
    hide PP.Parse, HeaderBytes, C.Invariant, C.NothingStranded, C.Pristine;
    C.StepInvariant(s.sender, C.Send(Serialize(codec, p)));
    C.StepInterest(s.sender, C.Send(Serialize(codec, p)));
    C.StepPristine(s.sender, C.Send(Serialize(codec, p)));
    FramesSnoc(codec, s.packets, p);
  }

  lemma StepSender<P(!new)>(codec: Codec<P>, s: Path<P>, event: C.Event)
    requires Invariant(codec, s) && Enabled(codec, s, SenderDoes(event))
    ensures Invariant(codec, Step(codec, s, SenderDoes(event)))
  {
    hide PP.Parse, Serialize, Frames, C.Invariant, C.NothingStranded, C.Pristine, C.Step, C.Enabled;
    C.StepInvariant(s.sender, event);
    C.StepPristine(s.sender, event);
    C.StepInterest(s.sender, event);
    C.OnlySendsAccept(s.sender, event);
    var more := C.Step(s.sender, event).kernel[|s.sender.kernel|..];
    assert C.Step(s.sender, event).kernel == s.sender.kernel + more;
    assert s.receiver.arrived + (s.wire + more) == (s.receiver.arrived + s.wire) + more;
  }

  lemma StepReceiver<P(!new)>(codec: Codec<P>, s: Path<P>, e: PathEvent<P>)
    requires Invariant(codec, s) && Enabled(codec, s, e) && (e.Arrive? || e.ReceiverDoes?)
    ensures Invariant(codec, Step(codec, s, e))
  {
    hide PP.Parse, Serialize, C.Invariant, C.NothingStranded, C.Pristine, Frames;
    match e
    case Arrive(n) =>
      var chunk := s.wire[..n];
      var read := C.Step(s.receiver, C.Readable(C.Data(chunk)));
      C.StepInvariant(s.receiver, C.Readable(C.Data(chunk)));
      C.StepInvariant(read, C.Consume(|chunk|));
      assert s.receiver.input + chunk == chunk;
      PP.ParseAppend(codec, s.receiver.arrived, chunk);
      assert s.receiver.arrived + s.wire == (s.receiver.arrived + chunk) + s.wire[n..];
    case ReceiverDoes(event) =>
      C.InputOnlyFromReads(s.receiver, event);
      C.StepInvariant(s.receiver, event);
  }

  lemma {:induction false} RunInvariant<P(!new)>(codec: Codec<P>, s: Path<P>, es: seq<PathEvent<P>>)
    requires Invariant(codec, s) && Feasible(codec, s, es)
    ensures Invariant(codec, Run(codec, s, es))
    decreases |es|
  {
    hide Invariant, Enabled, Step;
    if es != [] {
      match es[0] {
        case SendPacket(p) => StepSend(codec, s, p);
        case SenderDoes(event) => StepSender(codec, s, event);
        case _ => StepReceiver(codec, s, es[0]);
      }
      RunInvariant(codec, Step(codec, s, es[0]), es[1..]);
    }
  }

  // ---------------------------------------------------------------- what arrives

  /** The frames of accepted packets parse to exactly those packets with nothing left over. */
  lemma {:induction false} FramesParse<P(!new)>(codec: Codec<P>, packets: seq<P>)
    requires codec.Lawful() && Short(codec, packets)
    ensures PP.Parse(codec, Frames(codec, packets)) == PP.Parsed(Reported(codec, packets), [])
    decreases |packets|
  {
    hide PP.Parse, MakeHeader, HeaderBytes;
    if packets == [] {
      PP.EmptyParse(codec);
    } else {
      var p, rest := packets[0], packets[1..];
      var a := PP.Arrival([], p, codec.dump(p));
      FramesParse(codec, rest);
      PP.OneFrame(codec, a, Frames(codec, rest));
      assert Reported(codec, packets) == [Packet(MakeHeader(codec.dump(p)), p)] + Reported(codec, rest);
    }
  }

  /** A stream that stops short of the last frame's end yields fewer packets than were sent. */
  lemma {:induction false} PrefixMisses<P(!new)>(codec: Codec<P>, packets: seq<P>, x: seq<byte>, z: seq<byte>)
    requires codec.Lawful() && Short(codec, packets)
    requires x + z == Frames(codec, packets) && z != []
    ensures |PP.Parse(codec, x).packets| < |packets|
    decreases |packets|
  {
    hide PP.Parse, MakeHeader, HeaderBytes, Short;
    var p, rest := packets[0], packets[1..];
    var a := PP.Arrival([], p, codec.dump(p));
    var frame, others := Serialize(codec, p), Frames(codec, rest);
    ShortParts(codec, packets);
    SamePrefix(x, z, frame, others);
    if |x| < |frame| {
      PartOfFrame(codec, p, |x|);
    } else {
      var y := x[|frame|..];
      PP.OneFrame(codec, a, y);
      PrefixMisses(codec, rest, y, z);
    }
  }

  lemma SamePrefix<T>(x: seq<T>, z: seq<T>, a: seq<T>, b: seq<T>)
    requires x + z == a + b
    ensures |x| <= |a| ==> x == a[..|x|]
    ensures |a| <= |x| ==> x == a + x[|a|..] && x[|a|..] + z == b
  {
    assert x == (x + z)[..|x|] && a == (a + b)[..|a|];
    assert |a| <= |x| ==> x[|a|..] + z == (x + z)[|a|..] && b == (a + b)[|a|..];
  }

  lemma ShortParts<P(!new)>(codec: Codec<P>, packets: seq<P>)
    requires Short(codec, packets) && packets != []
    ensures |codec.dump(packets[0])| < TWO_TO_THE_32 && Short(codec, packets[1..])
  {}

  lemma PartOfFrame<P(!new)>(codec: Codec<P>, p: P, n: nat)
    requires |codec.dump(p)| < TWO_TO_THE_32 && n < |Serialize(codec, p)|
    ensures PP.Parse(codec, Serialize(codec, p)[..n]).packets == []
  {
    hide FieldsOf, Acceptable, HeaderBytes, MakeHeader, Deserialize;
    var body := codec.dump(p);
    var frame := Serialize(codec, p);
    MadeHeaderAcceptable(body);
    HeaderRoundTrip(MakeHeader(body), body);
    if n >= HEADER_SIZE {
      ReadHeaderPrefix(frame[..n], frame[n..]);
      assert frame[..n] + frame[n..] == frame;
    }
  }

  lemma InvariantDelivers<P(!new)>(codec: Codec<P>, s: Path<P>)
    requires codec.Lawful() && Invariant(codec, s)
    ensures s.parser.out <= Reported(codec, s.packets)
    ensures s.parser.out == Reported(codec, s.packets) <==> s.sender.output == [] && s.wire == []
    ensures s.sender.output == [] && s.wire == [] ==> s.parser.buffer == []
  {
    hide PP.Parse, Frames, Short, C.NothingStranded, C.Pristine;
    var rest := s.wire + s.sender.output;
    FramesParse(codec, s.packets);
    PP.ParsePrefix(codec, s.receiver.arrived, rest);
    assert s.receiver.arrived + rest == s.sender.kernel + s.sender.output;
    assert s.receiver.arrived + rest == Frames(codec, s.packets);
    if rest == [] {
      assert s.receiver.arrived + rest == s.receiver.arrived;
    } else {
      PrefixMisses(codec, s.packets, s.receiver.arrived, rest);
    }
  }

  /** For every run of a connection, with any packets sent, any partial writes, any cuts of the
      stream, and any shutdowns, errors and closes on either side: the receiver has parsed a
      prefix of the packets sent, and all of them exactly when every byte has arrived. */
  lemma DeliveredInOrder<P(!new)>(codec: Codec<P>, es: seq<PathEvent<P>>)
    requires codec.Lawful() && Feasible(codec, Start(), es)
    ensures var s := Run(codec, Start(), es);
      && s.parser.out <= Reported(codec, s.packets)
      && (s.parser.out == Reported(codec, s.packets) <==> s.sender.output == [] && s.wire == [])
      && (s.sender.output == [] && s.wire == [] ==> s.parser.buffer == [])
  {
    hide Run, Step, Invariant, Reported;
    StartInvariant(codec, Start());
    RunInvariant(codec, Start(), es);
    InvariantDelivers(codec, Run(codec, Start(), es));
  }

  // ---------------------------------------------------------------- what a shutdown loses

  /** Once the sender left Connected, its buffer and its packets are what they will ever be. */
  lemma {:induction false} SenderFrozen<P(!new)>(codec: Codec<P>, s: Path<P>, es: seq<PathEvent<P>>)
    requires s.sender.state.Rank() > C.State.Connected.Rank() && Feasible(codec, s, es)
    ensures var t := Run(codec, s, es);
      (t.sender.output, t.sender.kernel, t.packets) == (s.sender.output, s.sender.kernel, s.packets)
    decreases |es|
  {
    hide C.Step, C.Enabled, Serialize, PP.StepParser;
    if es != [] {
      match es[0] {
        case SendPacket(p) => C.StepForward(s.sender, C.Send(Serialize(codec, p)));
        case SenderDoes(event) => C.StepForward(s.sender, event);
        case _ =>
      }
      SenderFrozen(codec, Step(codec, s, es[0]), es[1..]);
    }
  }

  /** After the sender left Connected, in whatever continuation, all its packets are delivered
      exactly when nothing was buffered then and the wire has been emptied since. */
  lemma LeavingLosesExactly<P(!new)>(codec: Codec<P>, s: Path<P>, es: seq<PathEvent<P>>)
    requires codec.Lawful() && Invariant(codec, s) && Feasible(codec, s, es)
    requires s.sender.state.Rank() > C.State.Connected.Rank()
    ensures var t := Run(codec, s, es);
      && t.packets == s.packets
      && (t.parser.out == Reported(codec, s.packets) <==> s.sender.output == [] && t.wire == [])
  {
    hide Run, Step, Invariant, Reported;
    SenderFrozen(codec, s, es);
    RunInvariant(codec, s, es);
    InvariantDelivers(codec, Run(codec, s, es));
  }

  /** A packet sent and followed at once by a shutdown, as a worker reports its result, is never
      delivered in any continuation; at most the packets before it are. */
  lemma SendThenShutdownLoses<P(!new)>(codec: Codec<P>, s: Path<P>, p: P, es: seq<PathEvent<P>>)
    requires codec.Lawful() && Invariant(codec, s)
    requires s.sender.state == C.Connected && |codec.dump(p)| < TWO_TO_THE_32
    requires Feasible(codec, ShutDown(codec, Sent(codec, s, p)), es)
    ensures Run(codec, ShutDown(codec, Sent(codec, s, p)), es).parser.out <= Reported(codec, s.packets)
  {
    hide Run, Invariant, HeaderBytes, PP.StepParser;
    var sent := Sent(codec, s, p);
    var t := ShutDown(codec, sent);
    StepSend(codec, s, p);
    StepSender(codec, sent, C.Shutdown);
    LeavingLosesExactly(codec, t, es);
    RunInvariant(codec, t, es);
    var out := Run(codec, t, es).parser.out;
    InvariantDelivers(codec, Run(codec, t, es));
    assert t.packets == s.packets + [p] && t.sender.output != [];
    assert Reported(codec, s.packets + [p])[..|s.packets|] == Reported(codec, s.packets);
    assert |out| <= |s.packets| && out == Reported(codec, s.packets + [p])[..|out|];
  }

  function Sent<P(!new)>(codec: Codec<P>, s: Path<P>, p: P): Path<P>
    requires |codec.dump(p)| < TWO_TO_THE_32
  {
    Step(codec, s, SendPacket(p))
  }

  function ShutDown<P(!new)>(codec: Codec<P>, s: Path<P>): Path<P> {
    Step(codec, s, SenderDoes(C.Shutdown))
  }

  // ---------------------------------------------------------------- nothing gets stuck

  /** What the two pollers can report, when the kernels move bytes: a write event only on a
      registered channel that watches for writing, a read event only on a registered one that
      watches for reading, and no more bytes than one read takes whatever its buffer's state. */
  predicate Polled<P(!new)>(s: Path<P>, e: PathEvent<P>) {
    match e
    case SenderDoes(Writable(taken, _)) =>
      s.sender.added && s.sender.events.writing && 0 < taken <= |s.sender.output|
    case Arrive(n) =>
      s.receiver.added && s.receiver.events.reading && 0 < n <= |s.wire| && n <= B.EXTRA_SIZE
    case _ => false
  }

  predicate BothConnected<P(!new)>(s: Path<P>) {
    s.sender.state == C.Connected && s.receiver.state == C.Connected
  }

  /** Moves that undelivered bytes still have to make. */
  function Undelivered<P(!new)>(s: Path<P>): nat {
    2 * |s.sender.output| + |s.wire|
  }

  lemma PolledProgress<P(!new)>(codec: Codec<P>, s: Path<P>, e: PathEvent<P>)
    requires Invariant(codec, s) && BothConnected(s) && Polled(s, e)
    ensures Enabled(codec, s, e)
    ensures var t := Step(codec, s, e);
      Invariant(codec, t) && BothConnected(t) && t.packets == s.packets && Undelivered(t) < Undelivered(s)
  {
    hide PP.Parse, Frames, C.NothingStranded, C.Pristine;
    match e {
      case SenderDoes(event) =>
        PolledWrite(s.sender, event.taken, event.wouldBlock);
        StepSender(codec, s, event);
      case Arrive(n) =>
        StepReceiver(codec, s, e);
    }
  }

  lemma PolledWrite(c: C.Conn, taken: int, wouldBlock: bool)
    requires c.state == C.Connected && 0 < taken <= |c.output|
    ensures var d := C.Step(c, C.Writable(taken, wouldBlock));
      d.state == C.Connected && d.output == c.output[taken..] && d.kernel[|c.kernel|..] == c.output[..taken]
  {}

  /** As long as a byte is undelivered some event is reported, because the write interest of a
      sender of packets is always right; and when none is, none is undelivered. */
  lemma SomethingPolledExactly<P(!new)>(codec: Codec<P>, s: Path<P>)
    requires Invariant(codec, s) && BothConnected(s)
    ensures (exists e: PathEvent<P> :: Polled(s, e)) <==> Undelivered(s) > 0
  {
    hide PP.Parse, Frames;
    if s.sender.output != [] {
      var e: PathEvent<P> := SenderDoes(C.Writable(1, false));
      assert Polled(s, e);
    } else if s.wire != [] {
      var e: PathEvent<P> := Arrive(1);
      assert Polled(s, e);
    }
  }

  /** A schedule of reported events only. */
  predicate Schedule<P(!new)>(codec: Codec<P>, s: Path<P>, es: seq<PathEvent<P>>)
    decreases |es|
  {
    es == [] || (Polled(s, es[0]) && Enabled(codec, s, es[0]) && Schedule(codec, Step(codec, s, es[0]), es[1..]))
  }

  lemma {:induction false} ScheduleProgress<P(!new)>(codec: Codec<P>, s: Path<P>, es: seq<PathEvent<P>>)
    requires Invariant(codec, s) && BothConnected(s) && Schedule(codec, s, es)
    ensures Feasible(codec, s, es)
    ensures var t := Run(codec, s, es);
      && Invariant(codec, t) && BothConnected(t) && t.packets == s.packets
      && |es| + Undelivered(t) <= Undelivered(s)
    decreases |es|
  {
    hide Invariant, Enabled, Step, Polled, Undelivered;
    if es != [] {
      PolledProgress(codec, s, es[0]);
      ScheduleProgress(codec, Step(codec, s, es[0]), es[1..]);
    }
  }

  /** Between two connected ends every schedule of reported events ends, after at most twice as
      many events as bytes undelivered, and it can go on exactly until everything is delivered. */
  lemma EveryScheduleDelivers<P(!new)>(codec: Codec<P>, s: Path<P>, es: seq<PathEvent<P>>)
    requires codec.Lawful() && Invariant(codec, s) && BothConnected(s) && Schedule(codec, s, es)
    ensures Feasible(codec, s, es) && |es| <= Undelivered(s)
    ensures (exists e: PathEvent<P> :: Polled(Run(codec, s, es), e)) <==>
      Run(codec, s, es).parser.out != Reported(codec, s.packets)
  {
    hide Invariant, Run, Schedule, Polled, Reported;
    ScheduleProgress(codec, s, es);
    SomethingPolledExactly(codec, Run(codec, s, es));
    InvariantDelivers(codec, Run(codec, s, es));
  }

  /** From every reachable state with both ends connected some schedule of reported events, each
      read within the limit of one read, delivers everything that was sent. */
  lemma CanDeliverAll<P(!new)>(codec: Codec<P>, before: seq<PathEvent<P>>) returns (es: seq<PathEvent<P>>)
    requires codec.Lawful() && Feasible(codec, Start(), before)
    requires BothConnected(Run(codec, Start(), before))
    ensures var s := Run(codec, Start(), before);
      && Schedule(codec, s, es) && Feasible(codec, s, es)
      && Run(codec, s, es).parser.out == Reported(codec, s.packets)
      && BothConnected(Run(codec, s, es)) && Run(codec, s, es).packets == s.packets
  {
    hide Invariant, Run, Schedule, Reported, Undelivered;
    var s := Run(codec, Start(), before);
    StartInvariant(codec, Start());
    RunInvariant(codec, Start(), before);
    es := Deliver(codec, s);
    ScheduleProgress(codec, s, es);
  }

  lemma {:induction false} Deliver<P(!new)>(codec: Codec<P>, s: Path<P>) returns (es: seq<PathEvent<P>>)
    requires codec.Lawful() && Invariant(codec, s) && BothConnected(s)
    ensures Schedule(codec, s, es) && Feasible(codec, s, es)
    ensures Run(codec, s, es).parser.out == Reported(codec, s.packets)
    decreases Undelivered(s)
  {
    hide Invariant, Enabled, Step, Polled, Undelivered, Reported;
    SomethingPolledExactly(codec, s);
    if Undelivered(s) == 0 {
      es := [];
      EveryScheduleDelivers(codec, s, es);
    } else {
      var e: PathEvent<P> :| Polled(s, e);
      PolledProgress(codec, s, e);
      var rest := Deliver(codec, Step(codec, s, e));
      es := [e] + rest;
      assert es[1..] == rest;
    }
  }

  // ---------------------------------------------------------------- a whole session

  lemma {:induction false} RunAppend<P(!new)>(codec: Codec<P>, s: Path<P>, a: seq<PathEvent<P>>, b: seq<PathEvent<P>>)
    requires Feasible(codec, s, a) && Feasible(codec, Run(codec, s, a), b)
    ensures Feasible(codec, s, a + b) && Run(codec, s, a + b) == Run(codec, Run(codec, s, a), b)
    decreases |a|
  {
    hide Enabled, Step;
    if a == [] {
      assert a + b == b;
    } else {
      assert (a + b)[1..] == a[1..] + b;
      RunAppend(codec, Step(codec, s, a[0]), a[1..], b);
    }
  }

  /** The two ends of an accepted connection are established. */
  lemma Opened<P(!new)>(codec: Codec<P>) returns (es: seq<PathEvent<P>>)
    ensures Feasible(codec, Start(), es)
    ensures BothConnected(Run(codec, Start(), es)) && Run(codec, Start(), es).packets == []
  {
    var s: Path<P> := Start();
    var open: PathEvent<P> := SenderDoes(C.Establish);
    var accept: PathEvent<P> := ReceiverDoes(C.Establish);
    es := [open, accept];
    var half := Step(codec, s, open);
    assert es[1..] == [accept] && [accept][1..] == [];
    assert Feasible(codec, Step(codec, half, accept), []);
    assert Feasible(codec, half, [accept]);
    assert Run(codec, half, [accept]) == Step(codec, half, accept);
    assert Run(codec, s, es) == Run(codec, half, [accept]);
  }

  lemma {:induction false} SendAll<P(!new)>(codec: Codec<P>, s: Path<P>, packets: seq<P>)
      returns (es: seq<PathEvent<P>>)
    requires BothConnected(s) && Short(codec, packets)
    ensures Feasible(codec, s, es)
    ensures BothConnected(Run(codec, s, es)) && Run(codec, s, es).packets == s.packets + packets
    decreases |packets|
  {
    hide Serialize, Short;
    if packets == [] {
      es := [];
    } else {
      ShortParts(codec, packets);
      var e: PathEvent<P> := SendPacket(packets[0]);
      var t := Step(codec, s, e);
      var rest := SendAll(codec, t, packets[1..]);
      es := [e] + rest;
      assert es[1..] == rest;
      assert s.packets + packets == (s.packets + [packets[0]]) + packets[1..];
    }
  }

  /** Any list of packets can be sent and delivered: from two fresh connections some run opens
      both, has exactly these packets accepted, and delivers them all in order. */
  lemma EverySessionCanSucceed<P(!new)>(codec: Codec<P>, packets: seq<P>) returns (es: seq<PathEvent<P>>)
    requires codec.Lawful() && Short(codec, packets)
    ensures Feasible(codec, Start(), es)
    ensures var t := Run(codec, Start(), es);
      BothConnected(t) && t.packets == packets && t.parser.out == Reported(codec, packets)
  {
    hide Run, Feasible, Schedule, Reported, Short;
    var opening := Opened(codec);
    var ready := Run(codec, Start(), opening);
    var sending := SendAll(codec, ready, packets);
    RunAppend(codec, Start(), opening, sending);
    assert [] + packets == packets;
    var delivering := CanDeliverAll(codec, opening + sending);
    RunAppend(codec, Start(), opening + sending, delivering);
    es := opening + sending + delivering;
  }

  lemma StartInvariant<P(!new)>(codec: Codec<P>, s: Path<P>)
    requires s == Start()
    ensures Invariant(codec, s)
  {
    hide PP.Parse;
    PP.EmptyParse(codec);
  }
}
