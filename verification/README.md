# TurboCore / DistAiClusher in Dafny

A model of the parts of TurboCore-AiGateway that carry data and keep it consistent, with proofs
about whole runs. `dafny verify dfyconfig.toml` checks everything.

| file | what it models |
|---|---|
| `Crc.dfy` | the CRC-32 of the transport header, table-driven and bit-serial |
| `Polynomial.dfy` | the same checksum as the remainder of a polynomial division |
| `Protocol.dfy` | the 16-byte header, framing, one packet to bytes and back |
| `PacketParser.dfy` | the resynchronising stream decoder |
| `Buffer.dfy` | the two-index byte buffer |
| `Connection.dfy` | one TCP connection: life cycle and output stream |
| `ConnectionStates.dfy` | which events move a connection from state to state |
| `EndToEnd.dfy` | packets from `Send` on one side to the parser on the other |
| `EventLoop.dfy` | the cross-thread functor queue and its wake-up, as interleaved steps |
| `LoopProgress.dfy` | what is queued is called: a whole round of the loop |
| `Timers.dfy` | delayed tasks: one pass, and whole runs |
| `TimerRequests.dfy` | the calls of timers, told from the requests of the run |
| `Pollers.dfy` | both pollers over the same table of interests |
| `Registry.dfy` | the worker registry and its inverted index |
| `RegistryHistory.dfy` | the table and the answers, told from the events of the run |
| `Config.dfy` | flattening a YAML tree, loading and reloading |
| `Decimal.dfy`, `Common.dfy` | decimal text and shared vocabulary |

## How the model is built

Classes follow the program's classes: their methods update fields in place and promise the effect
of a function on values (`Buffer.Apply`, `Connection.Step`, `PacketParser.Parse`,
`Registry.Registered`, `Config.Flatten`, ...). The theorems about runs are about sequences of those
functions. Where threads interleave (`EventLoop`, `Timers`), every step is one action no other
thread can split.

What those functions compute is fixed by theorems that do not use their bodies: the checksum is a
polynomial remainder, a packet is given byte by byte, the registry's tables and the called timers
are told from the events of the run, a key read back is a path, and a session from two fresh
connections can succeed.

- JSON is a pair of functions `dump` and `parse` with `parse(dump(p)) == Some(p)` and a non-empty
  `dump`. `stoi` and `stod` are functions that may fail.
- Sockets are byte streams. The kernel decides how many bytes each read brings and each write
  takes; the clock, readiness and the kernel's answers are parameters.
- `size_t` is 64 bits wide, so 16 plus a 32-bit length does not wrap.
- Interest bits are two flags, since the read mask and the write mask are disjoint and are set
  and cleared whole, whatever their platform values are.
- Sends run in the loop thread, where the caller's bytes are still alive.

## What the proofs found

These are properties the code or its comments suggest that do not hold for all inputs. Each comes
with the condition under which it does hold. The condition is exact, except for configuration
keys: there it is sufficient, and each of its parts is shown to be needed.

- **A body of 2^32 bytes or more** is announced modulo 2^32, so the receiver looks for the next
  frame inside it (`Protocol.FramingExact`).
- **An acceptable header inside noise** withholds everything behind it until the length it
  announces has arrived (`PacketParser.SkippedExactly`, `PacketParser.FalseHeaderWithholds`).
- **A single parse attempt on fewer than 16 bytes** would throw a byte away that may belong to a
  packet still arriving (`PacketParser.TryOneNeedsCanParse`). `CanParse` and `TryParseOne` are
  private and nothing in the repository calls them; `ParseAll` makes the check itself.
- **Sending zero bytes** on an idle connection turns write interest on with nothing to write; the
  next write event takes the answer 0 for a failure and closes the connection
  (`Connection.InterestExactly`, `Connection.EmptySendCloses`).
- **A shutdown with unsent data** never flushes and never completes by itself, although the header
  file and the comment in `ShutdownInLoop` say it waits for the data: the write handler returns in
  every state but Connected (`Connection.FlushedExactly`, `Connection.ShutdownStalls`). A worker
  that reports a result sends one packet and shuts down at once, so that packet is never delivered
  (`EndToEnd.SendThenShutdownLoses`, `EndToEnd.LeavingLosesExactly`).
- **A shutdown that completes** closes the socket without calling the close callback and leaves the
  channel registered (`Connection.AnnouncedExactly`); a shutdown task that runs after a close, with
  unsent data, registers the channel again (`Connection.ReregisteredExactly`).
- **A functor queued by a timer callback** has no wake-up of its own and waits for the poll's
  timeout; no other functor can (`EventLoop.StrandedExactly`).
- **A timer added from another thread** is overtaken when, between the clock reading and the
  insertion in `RunAfter`, a pass takes a timer that expires later; the order of the calls breaks
  exactly then (`Timers.OrderExactly`, `Timers.LateInsertBreaksOrder`).
- **A heartbeat that names other models than the node registered**, or a registration that names a
  model twice, makes the index disagree with the nodes, and queries with it
  (`Registry.AgreesExactly`, `Registry.QueriesExactly`).
- **A dot in a key, an empty key or a key given twice** can make two leaves of a configuration
  share one key, and one value is lost (`Config.DottedKeyCollides`, `Config.EmptyKeyCollides`,
  `Config.RepeatedKeyCollides`).

## Model

| member | source | states |
|---|---|---|
| Crc.CrcTable.Build | AiDist/1 protocol.h:23-42 | the table holds, for every byte, eight shifts of the register |
| Crc.CrcTable.Compute | AiDist/1 protocol.h:19-49 | the table-driven loop computes the bit-serial CRC-32 of section 8 of RFC 1952, for every start value and input, whether or not the table was already built |
| Crc.TableStep | AiDist/1 protocol.h:44-47 | one table look-up equals feeding the byte's eight bits one by one |
| Crc.ShiftsXor | AiDist/1 protocol.h:28-38 | linearity of the register: bits not yet fed ride along unchanged |
| Crc.Crc32Incremental | AiDist/1 protocol.h:44-48 | continuing from the CRC of a first part gives the CRC of the whole |
| Crc.FeedBitsInjective | AiDist/1 protocol.h:45-47 | equal input never makes two different register states meet |
| Crc.FourBytesInjective | AiDist/1 protocol.h:45-47 | from one state, two different runs of four bytes never lead to the same state |
| Crc.WindowInjective | AiDist/1 protocol.h:45-47 | the same for any two bit strings of equal length up to 32 |
| Crc.BurstDetected | AiDist/1 protocol.h:557-565 | two messages that differ only inside some 32 consecutive bits, anywhere, have different checksums |
| Crc.FourBytesAreABurst | AiDist/1 protocol.h:557-565 | changes inside four consecutive bytes are such a difference |
| Polynomial.FeedIsDivision | AiDist/1 protocol.h:28-38 | feeding one bit is one step of the long division by x^32 + x^26 + x^23 + x^22 + x^16 + x^12 + x^11 + x^10 + x^8 + x^7 + x^5 + x^4 + x^2 + x + 1 |
| Polynomial.DivisionUnique | AiDist/1 protocol.h:28-38 | a division by that polynomial has one quotient and one remainder |
| Polynomial.ChecksumIsRemainder | AiDist/1 protocol.h:19-49 | for every start value and message, the checksum is the one word whose complement is the remainder of that division, with the complement of the start value in front |
| Polynomial.CheckValue | AiDist/1 protocol.h:19-49 | the checksum of "123456789" is 0xCBF43926, which fixes the order of the bits and both inversions |
| Protocol.U32RoundTrip | AiDist/1 protocol.h:96-112 | big-endian 32-bit fields read back as written |
| Protocol.U32Bytes | AiDist/1 protocol.h:96-112 | and every four bytes are the encoding of what they read as |
| Protocol.LengthRoundTrip | AiDist/1 protocol.h:96-112 | the length field, as a number, reads back as written |
| Protocol.LengthBytes | AiDist/1 protocol.h:96-112 | and its bytes are determined by its value |
| Protocol.HeaderRoundTrip | AiDist/1 protocol.h:62-87 | a written header is read back, whatever follows, exactly when magic and version are acceptable, and is rejected otherwise |
| Protocol.HeaderDetermined | AiDist/1 protocol.h:72-87 | an accepted header determines all sixteen bytes it came from |
| Protocol.ReadHeaderPrefix | AiDist/1 protocol.h:72-87 | only the first sixteen bytes matter |
| Protocol.HeaderAccepted | AiDist/1 protocol.h:72-87 | sixteen bytes are accepted exactly when they start with "ASCH" and a version of 0 or 1; length and checksum are then read most significant byte first |
| Protocol.SerializeInto | AiDist/1 protocol.h:517-539 | appends header and body, the header carrying the body's length and CRC |
| Protocol.WireFormat | AiDist/1 protocol.h:62-101 | every byte of a serialised packet: "ASCH", 0 1, 0 0, length and checksum most significant byte first, then the body |
| Protocol.DeserializeFrom | AiDist/1 protocol.h:542-580 | rejects a bad header, missing bytes, a wrong checksum or unparsable text, in that order, and else returns header and content |
| Protocol.DeserializeFrame | AiDist/1 protocol.h:542-580 | a frame of the announced length is accepted exactly when its checksum is right and its text parses |
| Protocol.FramingExact | AiDist/1 protocol.h:532-538 | receiver and sender agree on the frame's end exactly when the body is shorter than 2^32 bytes |
| Protocol.SerializeRoundTrip | AiDist/1 protocol.h:517-580 | what was serialised is deserialised to the same content |
| Protocol.DamageRejected | AiDist/1 protocol.h:557-565 | a frame whose body suffered a burst of up to 32 bits is always rejected |
| PacketParser.PacketParser.Feed | AiDist/2.  Packet_Parser.cpp:5-8 | appends to the buffer |
| PacketParser.PacketParser.ParseAll | AiDist/2.  Packet_Parser.cpp:10-37 | the loop terminates, appends the packets of the recursive parse to the output, counts them, and leaves its rest |
| PacketParser.PacketParser.TryParseOne | AiDist/2.  Packet_Parser.cpp:49-78 | one attempt: skip one byte, wait, drop a frame, or deliver one |
| PacketParser.ParseAppend | AiDist/2.  Packet_Parser.cpp:10-37 | parsing a longer stream is parsing its first part and going on from what that left |
| PacketParser.ParseRest | AiDist/2.  Packet_Parser.cpp:43-56 | what a pass leaves, a second pass leaves alone |
| PacketParser.TryOneNeedsCanParse | AiDist/2.  Packet_Parser.cpp:44-58 | an attempt keeps the meaning of a non-empty buffer exactly under `CanParse` |
| PacketParser.StreamInvariant | AiDist/2.  Packet_Parser.cpp:5-78 | for every sequence of feeds, passes and guarded attempts: what is out plus the parse of the buffer is the parse of the whole stream |
| PacketParser.SettledParse | AiDist/2.  Packet_Parser.cpp:44-78 | an attempt changes nothing exactly when a pass would deliver nothing and leave all |
| PacketParser.FragmentationIndependence | AiDist/2.  Packet_Parser.cpp:5-78 | every way of cutting the stream and calling the parser that ends settled gives the packets and the leftover of one feed and one pass |
| PacketParser.ParseAllSettles | AiDist/2.  Packet_Parser.cpp:10-37 | a run that ends with a pass ends settled |
| PacketParser.ResetStartsAfresh | AiDist/2.  Packet_Parser.cpp:39-42 | after a reset the parser delivers what a new parser would, whatever was fed before |
| PacketParser.ParseAccounts | AiDist/2.  Packet_Parser.cpp:10-37 | the input is, in order, skipped bytes, whole frames and the rest; a byte is skipped only where no header starts; the rest is too short or starts an incomplete frame; the sound frames are delivered |
| PacketParser.AccountUnique | AiDist/2.  Packet_Parser.cpp:10-37 | there is only one such account of a stream |
| PacketParser.NoStraddle | AiDist/1 protocol.h:14 | the magic cannot straddle noise and a frame, as its four bytes are distinct |
| PacketParser.SkippedExactly | AiDist/2.  Packet_Parser.cpp:46-50 | a run of bytes is skipped as a whole exactly when no acceptable header starts inside it |
| PacketParser.FalseHeaderWithholds | AiDist/2.  Packet_Parser.cpp:51-56 | after a header inside noise nothing is delivered exactly as long as fewer bytes than it announces followed |
| PacketParser.Resynchronises | AiDist/2.  Packet_Parser.cpp:10-37 | for any packets with any magic-free noise between them and any bursts in their bodies, exactly the intact packets are delivered, in order, and at most fifteen bytes of trailing noise remain |
| Buffer.Buffer.constructor | Net/Buffer.cpp:9-14 | an empty queue with the given storage |
| Buffer.Buffer.Retrieve | Net/Buffer.cpp:41-45 | removes from the front |
| Buffer.Buffer.RetrieveAll | Net/Buffer.cpp:53-57 | empties the queue and resets both indices |
| Buffer.Buffer.RetrieveAsString | Net/Buffer.cpp:59-65 | splits the queue into what is returned and what stays |
| Buffer.Buffer.EnsureWritableBytes | Net/Buffer.cpp:72-80 | makes room without touching the contents |
| Buffer.Buffer.MakeSpace | Net/Buffer.cpp:88-104 | compacts or grows, contents unchanged |
| Buffer.Buffer.MoveToFront | Net/Buffer.cpp:93-97 | the overlapping in-place copy loses nothing; it runs only with a positive read index |
| Buffer.Buffer.Append | Net/Buffer.cpp:106-111 | adds at the back |
| Buffer.Buffer.Prepend | Net/Buffer.cpp:123-129 | adds at the front, into room already read |
| Buffer.Buffer.ReadFromFd | Net/Buffer.cpp:163-223 | a successful scatter read adds exactly what arrived, spilled part included |
| Buffer.Buffer.WriteToFd | Net/Buffer.cpp:225-264 | what left followed by what stays is what was there; an empty buffer answers 0 |
| Buffer.Buffer.FindCRLF | Net/Buffer.cpp:136-149 | finds the first CR LF at or after the start, or there is none |
| Buffer.Ensured | Net/Buffer.cpp:72-104 | indices stay ordered, the readable length is kept, and the room asked for is there |
| Buffer.CapacityBound | Net/Buffer.cpp:72-111 | over every run the storage never shrinks and stays within the larger of its initial size and twice the peak demand |
| Buffer.FifoConservation | Net/Buffer.cpp:41-111 | over every run without prepends, what left followed by what is unread is what entered |
| Buffer.Drive | Net/Buffer.cpp:9-264 | a buffer driven through any allowed sequence of operations holds what the run of the queue says |
| Buffer.OneReadFits | Net/Buffer.cpp:163-206 | however full the buffer, a read of up to 65536 bytes is within one read's room |
| Connection.TcpConnection.constructor | Net/TcpConnection.cpp:24-40 | a fresh connection in state Connecting |
| Connection.TcpConnection.ConnectEstablished | Net/TcpConnection.cpp:59-70 | `Establish`: Connected and watching for input |
| Connection.TcpConnection.ConnectDestroyed | Net/TcpConnection.cpp:72-87 | `Destroy`: an open connection becomes Disconnected, unregistered and closed, without a callback; any other is left alone |
| Connection.TcpConnection.HandleRead | Net/TcpConnection.cpp:89-118 | `Readable`: data is appended to the input in order; end of stream and real errors close; a blocked read changes nothing |
| Connection.TcpConnection.HandleWrite | Net/TcpConnection.cpp:120-162 | `Writable`: the front of the output moves to the kernel; write interest goes off when all of it left; nothing to write or a real error closes; outside Connected nothing happens |
| Connection.TcpConnection.TakeInput | AiDist/5. Registry_Server.cpp:110-111 | `Consume`: the handler takes bytes off the front of the input, in order |
| Connection.TcpConnection.HandleClose | Net/TcpConnection.cpp:164-193 | `Closed`: Disconnected, unregistered, closed, and one callback; a second call changes nothing |
| Connection.TcpConnection.HandleError | Net/TcpConnection.cpp:195-203 | `Errored`: error handler and close handler together close once |
| Connection.TcpConnection.SendInLoop | Net/TcpConnection.cpp:289-306 | `Send`: while Connected the bytes join the output in order and writing is watched; otherwise nothing happens |
| Connection.TcpConnection.RequestShutdown | Net/TcpConnection.cpp:205-218 | `Shutdown`: Connected becomes Disconnecting with one task queued; any other state ignores it |
| Connection.TcpConnection.ShutdownInLoop | Net/TcpConnection.cpp:220-239 | `ShutdownTask`: with unsent output it only watches for writing; otherwise it closes the socket |
| Connection.TcpConnection.RequestForceClose | Net/TcpConnection.cpp:241-249 | `ForceClose`: from Connected or Disconnecting, one task queued |
| Connection.TcpConnection.ForceCloseInLoop | Net/TcpConnection.cpp:251-265 | `ForceCloseTask`: an open connection is closed, unregistered and announced once |
| ConnectionStates.StatesExactly | Net/TcpConnection.cpp:59-265 | from every state a connection can be in, which events end it, establish it or start its end, and what they queue |
| ConnectionStates.InterestTold | Net/TcpConnection.cpp:59-306 | what each event does to the interest of the channel |
| ConnectionStates.Established | Net/TcpConnection.cpp:59-70 | a new connection that is established is Connected, registered and watching for input, and what is sent next is accepted and watched for writing |
| ConnectionStates.ConnectedExactly | Net/TcpConnection.cpp:59-306 | over every run an established connection is still Connected exactly when nothing ended it or asked for its end |
| ConnectionStates.ShutdownEndsExactly | Net/TcpConnection.cpp:205-239 | over every run a shutdown, with or without unsent data, is pending exactly as long as every event leaves it waiting; with nothing unsent its own task does not |
| ConnectionStates.ForceCloseWorks | Net/TcpConnection.cpp:241-265 | a forced close that was asked for has ended the connection once its task has run, whatever else happens |
| Connection.StepInvariant | Net/TcpConnection.cpp:59-306 | every handler keeps: kernel bytes followed by the output buffer are the accepted bytes; consumed bytes followed by the input buffer are the arrived bytes; socket open exactly when not Disconnected; at most one close callback |
| Connection.RunInvariant | Net/TcpConnection.cpp:59-306 | the same over every interleaving of handlers and queued tasks; the state never goes back; nothing is accepted or written once Connected is left |
| Connection.StepInterest | Net/TcpConnection.cpp:299-305 | a step keeps the write interest right exactly when it is not an empty send |
| Connection.InterestExactly | Net/TcpConnection.cpp:120-162 | over every run, while connected the write interest is on exactly when output waits, exactly when no send was empty |
| Connection.EmptySendCloses | Net/TcpConnection.cpp:130-159 | an empty send on an idle connection closes it at the next write event |
| Connection.FlushedExactly | Net/TcpConnection.cpp:120-127 | all accepted bytes reach the kernel, in whatever continuation, exactly when nothing was buffered on leaving Connected |
| Connection.ShutdownStalls | Net/TcpConnection.cpp:220-231 | a shutdown with unsent data is still pending after a run exactly when the run held nothing but data, blocked reads, writes, sends, reads by the owner, further shutdowns and requests (not runs) of a forced close; either way no byte leaves |
| Connection.ClosedIsFinal | Net/TcpConnection.cpp:169-174 | after Disconnected the close callback never fires again |
| Connection.AnnouncedExactly | Net/TcpConnection.cpp:164-265 | the close callback has fired exactly when the last step was a close, an error, an end of stream or a forced close, and every way but a completed shutdown unregisters the channel |
| Connection.ReregisteredExactly | Net/TcpConnection.cpp:223-229 | over every run after a close that unregistered the channel, it is registered again exactly when data was unsent and a queued shutdown task ran |
| EndToEnd.OnMessage | AiDist/5. Registry_Server.cpp:106-118 | all readable bytes go to the parser, the input buffer is emptied, one pass is made |
| EndToEnd.RunInvariant | Net/TcpConnection.cpp:89-162 | over every run of both ends: bytes read, in flight and buffered are, in order, the frames of the accepted packets |
| EndToEnd.FramesParse | AiDist/2.  Packet_Parser.cpp:10-37 | the frames of packets parse to exactly those packets with nothing left |
| EndToEnd.DeliveredInOrder | AiDist/5. Registry_Server.cpp:106-124 | over every run the packets parsed are a prefix of the packets sent, and all of them exactly when every byte has left the sender and arrived |
| EndToEnd.LeavingLosesExactly | Net/TcpConnection.cpp:120-127 | once the sender left Connected, in whatever continuation, all its packets are delivered exactly when nothing was buffered then and the wire is empty now |
| EndToEnd.SendThenShutdownLoses | AiDist/8. WorkerNode.cpp:282-286 | a packet sent and followed at once by a shutdown is never delivered; at most the earlier ones are |
| EndToEnd.SomethingPolledExactly | Net/TcpConnection.cpp:120-162 | in every reachable state with both ends connected a poller has a write or a read to report exactly when a byte is undelivered: write interest is never off with output waiting |
| EndToEnd.EveryScheduleDelivers | Net/TcpConnection.cpp:89-162 | every schedule of reported events, whatever each write takes and each read brings within one read's room, ends after at most two events for each buffered byte and one for each byte in flight, and can go on exactly until every packet is delivered |
| EndToEnd.CanDeliverAll | Net/TcpConnection.cpp:89-162 | from every reachable state with both ends connected some schedule of reported events, each read within one read's room, delivers everything sent |
| EndToEnd.EverySessionCanSucceed | Net/TcpConnection.cpp:59-162 | for every list of packets some run from two fresh connections opens both, has exactly these packets accepted, and delivers them all in order |
| EventLoop.StepWakes | Net/Eventloop.cpp:237-251 | every step keeps a wake-up coming for each functor that waits after a swap |
| EventLoop.NoLostWakeup | Net/Eventloop.cpp:178-195 | in every interleaving, when the loop polls with a functor waiting, the wake-up descriptor is readable or the poster of that functor has pushed and not yet written, unless a timer callback queued it |
| EventLoop.EventFunctorsRunThisRound | Net/Eventloop.cpp:186-192 | a functor queued by an event handler never waits for a poll |
| EventLoop.StrandedExactly | Net/Eventloop.cpp:237-251 | some interleaving reaches the poll with a functor of a given origin waiting and no wake-up coming exactly when that origin is a timer callback |
| EventLoop.RunOnceInOrder | Net/Eventloop.cpp:348-366 | functors run exactly once and in the order of their pushes |
| LoopProgress.OriginTold | Net/Eventloop.cpp:237-251 | each queued functor carries the thread that posted it or what the loop thread was doing |
| LoopProgress.RoundCallsAll | Net/Eventloop.cpp:348-366 | what is queued before the loop swaps has been called when the batch is empty again, in every interleaving |
| LoopProgress.QueuedBeforeSwap | Net/Eventloop.cpp:186-192 | what is queued before the swap of a round is in the batch of that round |
| LoopProgress.WaitingCanRun | Net/Eventloop.cpp:178-195 | from every reachable state the loop thread alone can get back to the poll with everything called that waits now |
| LoopProgress.OwingTold | Net/Eventloop.cpp:237-251 | a thread is between its push and its wake-up write exactly when the events of the run say so |
| LoopProgress.WrittenIsWoken | Net/Eventloop.cpp:237-251 | in every interleaving, a functor no timer callback queued, whose poster has written its wake-up, never waits at a poll that cannot return at once |
| EventLoop.PendingQueue.QueueInLoop | Net/Eventloop.cpp:237-251 | pushes, and writes a wake-up unless called in the loop thread outside a batch |
| EventLoop.PendingQueue.DoPendingFunctors | Net/Eventloop.cpp:348-366 | a round runs exactly what waited when it began; what that queues waits for the next, each with its wake-up written |
| Timers.DelayedTasks.TakeReady | Net/Eventloop.cpp:392-402 | a pass takes exactly the due timers, earliest first, and leaves no due timer |
| Timers.DelayedTasks.ProcessDelayedTasks | Net/Eventloop.cpp:387-412 | a pass calls exactly what it took, in that order |
| Timers.StepSound | Net/Eventloop.cpp:368-412 | none is called early, none lost, doubled or invented; after a pass nothing queued was due |
| Timers.LateIsOvertaken | Net/Eventloop.cpp:368-384 | no insertion of a run is late exactly when no pass of it took a timer expiring after an expiry that some thread had read the clock for and had still to insert |
| Timers.OrderExactly | Net/Eventloop.cpp:368-412 | after every run, across passes, the calls are in order of expiry and nothing queued precedes them exactly when no pass overtook a thread between its clock reading and its insertion; when nothing is queued the order of the calls alone decides |
| Timers.TimersInOrder | Net/Eventloop.cpp:368-412 | with atomic insertions all calls of a run are in order of expiry, none early, none twice |
| Timers.LateInsertBreaksOrder | Net/Eventloop.cpp:372-378 | a run in which a late insertion is called after a later expiry |
| TimerRequests.TakenExactly | Net/Eventloop.cpp:368-402 | after a pass, taken are exactly the timers ever asked for whose expiry, the clock at the request plus the delay, has come; no two are the same |
| TimerRequests.DueTimersAreCalled | Net/Eventloop.cpp:387-412 | and the loop can call them all: after that, called are exactly the due ones, each once |
| Pollers.WSPollPoller.UpdateChannel | Net/WSPollPoller.cpp:109-159 | sets, changes or removes one table entry; arrays and index stay aligned; the channel's flag follows; other channels keep theirs |
| Pollers.WSPollPoller.RemoveChannel | Net/WSPollPoller.cpp:161-194 | swap-and-pop removes exactly that entry |
| Pollers.SwapPopTable | Net/WSPollPoller.cpp:175-190 | swap-and-pop with the index repaired keeps the index a bijection and every other entry |
| Pollers.WSPollPoller.IndexBijection | Net/WSPollPoller.cpp:109-194 | the index map is one-to-one onto 0..n-1 for arrays of length n |
| Pollers.EpollPoller.UpdateEpoll | Net/EPollPoller.cpp:150-162 | what the kernel makes of add, change and delete |
| Pollers.EpollPoller.UpdateChannel | Net/EPollPoller.cpp:104-132 | the same promise as the other poller |
| Pollers.EpollPoller.RemoveChannel | Net/EPollPoller.cpp:134-148 | the same promise as the other poller |
| Pollers.Lockstep | Net/EPollPoller.cpp:104-148 | driven by the same operations both pollers hold the same table, and each channel's flag says whether it is in it |
| Pollers.TableIsLastWord | Net/Chanenel.cpp:33-61 | a descriptor is registered exactly when the last operation on it left some interest, and with that interest |
| Registry.RegistryManager.RegisterWorker | AiDist/4. Registry_Manager.cpp:9-25 | stores the node as online under address and clock and appends it to each of its models |
| Registry.RegistryManager.UpdateHeartbeat | AiDist/4. Registry_Manager.cpp:27-41 | refreshes a known node and ignores an unknown one |
| Registry.RegistryManager.RemoveWorker | AiDist/4. Registry_Manager.cpp:43-62 | erases the node and its index entries under its current models |
| RegistryHistory.RemovedExactly | AiDist/4. Registry_Manager.cpp:53-60 | afterwards the id is neither in the table nor in the lists of the models it had, and nothing else changed |
| Registry.RegistryManager.GetOnlineNodesByModel | AiDist/4. Registry_Manager.cpp:64-94 | a permutation of the entries of the index list that pass the filter, each at its own clock reading, most memory first |
| Registry.RegistryManager.ScanTimeoutNodes | AiDist/4. Registry_Manager.cpp:96-111 | removes exactly the timed-out nodes and reports each once |
| Registry.IdInjective | AiDist/4. Registry_Manager.cpp:13 | an id determines its address and clock reading |
| RegistryHistory.TableTellsHistory | AiDist/4. Registry_Manager.cpp:9-111 | over every run the node of a registration is in the table, with its own data and its last report, exactly when it was not removed since and no scan found its last report thirty-one seconds old |
| RegistryHistory.OnlyRegistered | AiDist/4. Registry_Manager.cpp:9-25 | every node in the table was registered |
| RegistryHistory.RemovedForGood | AiDist/4. Registry_Manager.cpp:43-62 | after a removal the node is in no later table and in no later answer, whatever the clock |
| Registry.StepAgrees | AiDist/4. Registry_Manager.cpp:9-111 | every operation keeps index and nodes in agreement exactly when registrations list each model once and heartbeats name the models the node has |
| Registry.AgreesExactly | AiDist/4. Registry_Manager.cpp:9-111 | the same over every run in which no address registers twice at one clock reading |
| Registry.QueriesExactly | AiDist/4. Registry_Manager.cpp:64-94 | while all nodes are alive, all queries list the simple scan exactly when the index agrees |
| Registry.FilteredBetween | AiDist/4. Registry_Manager.cpp:71-88 | with the clock moving during a query, the answer lies between the one at its latest and the one at its earliest reading |
| Registry.EveryQueryAnswers | AiDist/4. Registry_Manager.cpp:64-94 | after every such run each query answers with online nodes that support the model, each once, most memory first: all that are alive at its latest reading, none that was not at its earliest |
| RegistryHistory.QueryTellsHistory | AiDist/4. Registry_Manager.cpp:64-94 | over every run whose registrations list each model once and whose heartbeats repeat them, a node is in an answer, with its last report, exactly when nothing ended it, it supports the model and that report is less than thirty seconds old |
| Registry.GoneStaysGone | AiDist/4. Registry_Manager.cpp:73-86 | a node that was removed or timed out never comes back, in the table or in any answer |
| Registry.ScanInvisible | AiDist/4. Registry_Manager.cpp:82-102 | a scan never changes the answer of a query at the same or a later time |
| Registry.LivenessWindow | AiDist/4. Registry_Manager.cpp:79-102 | an online node answers until thirty seconds after its heartbeat and is dropped from thirty-one on, to the tick; in between it is registered but never an answer |
| Config.ConfigStore.ParseYamlNode | Base/Config.cpp:136-198 | writes the flattening of the tree, and on a key that cannot be text stops with what was written so far |
| Config.ConfigStore.LoadFromFile | Base/Config.cpp:14-35 | an unreadable file changes nothing; a readable one is flattened on top of what is there |
| Config.ConfigStore.Reload | Base/Config.cpp:37-69 | all or nothing, and exactly the watchers of changed keys are told |
| Config.ConvertExactly | Base/Config.cpp:141-174 | a scalar is stored as the integer it reads as, else the decimal number, else true or false for the six words, else its own text |
| Config.LoadsExactly | Base/Config.cpp:175-191 | loading succeeds exactly when every key of the tree is a text |
| Config.BadKeyKeepsFront | Base/Config.cpp:175-183 | a map with a key that is no text leaves what the map of the entries before it writes, and fails |
| Config.ChangedExactly | Base/Config.cpp:77-134 | a key is unchanged exactly when it is absent from both configurations or holds equal values in both, doubles being equal up to a distance of 1e-9 |
| Config.FlattenWrites | Base/Config.cpp:136-198 | every leaf is written under its own key, every other key keeps its value |
| Config.FlatteningLosesNothing | Base/Config.cpp:136-198 | for well-formed trees the keys are exactly the leaves' keys, each with what its own leaf's text stands for: integer, decimal, truth value or text |
| Config.KeysDistinct | Base/Config.cpp:175-191 | different leaves have different keys |
| Config.KeyReadsBack | Base/Config.cpp:140-191 | cut at its dots a key is the path to its leaf again; a lone scalar is stored under "root" |
| Config.DottedKeyCollides | Base/Config.cpp:175-191 | every key made of two or more plain names joined by dots collides: next to the nested maps it spells, which are well-formed, one of the two values is lost |
| Config.EmptyKeyCollides | Base/Config.cpp:175-191 | so does the empty key, with every plain name below it and beside it |
| Config.RepeatedKeyCollides | Base/Config.cpp:175-191 | so does every plain key given twice in one map |
| Decimal.TextInjective | Base/Config.cpp:189 | different positions have different texts |
| Decimal.TextReadsBack | Base/Config.cpp:189 | a position read back in base ten is the position |

## Left out

- Buffer.Buffer.ReadFromFd: a failed read on the POSIX path, where the negative count is compared unsigned, is not modelled; the model starts where the read succeeded.
- Buffer.Buffer.FindCRLF: `FindEOL` and the 32-bit integer accessors are the same with less to prove and are not modelled.
- Connection.TcpConnection.HandleRead: a blocked or failed read leaves the input alone on the Windows path only; on POSIX the negative count reaches the comparison at Net/Buffer.cpp:211 before the handler sees it. The run theorems over `ReadFailed` are about the Windows behaviour.
- Connection.TcpConnection.SendInLoop: sends from other threads are not modelled, since the queued call keeps only the address of the caller's bytes.
- Connection.TcpConnection.RequestShutdown: the check and the assignment of the state are one step; two threads racing between them are not modelled.
- Connection.TcpConnection.SetChannel: the connection's poller is reduced to the flag that both pollers are proved to set; that the kernel forgets a descriptor that is closed while registered is not modelled.
- EventLoop.PendingQueue.DoPendingFunctors: the loop is proved for the loop thread alone; interference by other threads is in the steps of the same module.
- Polling itself: the translation of event masks and the list of active channels.
- Quit, thread start, and the real-time length of delays: `RunAfter` takes seconds while several callers pass milliseconds.
- The contents of JSON bodies and their field-by-field conversion: library calls.
- Accepting, connecting, the server's connection map, the thread pool, logging, the job manager, the worker and the HTTP gateway.
