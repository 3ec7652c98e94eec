/** The stream decoder: packets out of an arbitrarily cut byte stream. */
module PacketParser {
  import opened Common
  import opened Protocol
  import Crc

  datatype Parsed<P> = Parsed(packets: seq<Packet<P>>, rest: seq<byte>)

  function Prepend<P(!new)>(first: Option<Packet<P>>, r: Parsed<P>): Parsed<P> {
    match first
    case None => r
    case Some(p) => r.(packets := [p] + r.packets)
  }

  /** What one pass over the buffer delivers and what it leaves. */
  function Parse<P(!new)>(codec: Codec<P>, buf: seq<byte>): (r: Parsed<P>)
    decreases |buf|
  {
    if |buf| < HEADER_SIZE then Parsed([], buf)
    else
      match ReadHeader(buf)
      case None => Parse(codec, buf[1..])
      case Some(h) =>
        if |buf| < FrameLength(h) then Parsed([], buf)
        else Prepend(Deserialize(codec, buf[..FrameLength(h)]), Parse(codec, buf[FrameLength(h)..]))
  }

  /** One attempt: the packet it yields, if any, and the buffer it leaves. */
  function TryOne<P(!new)>(codec: Codec<P>, buf: seq<byte>): (Option<Packet<P>>, seq<byte>)
    requires |buf| > 0
  {
    match ReadHeader(buf)
    case None => (None, buf[1..])
    case Some(h) =>
      if |buf| < FrameLength(h) then (None, buf)
      else (Deserialize(codec, buf[..FrameLength(h)]), buf[FrameLength(h)..])
  }

  class PacketParser<P(!new)> {
    var buffer: seq<byte>
    const codec: Codec<P>
    const crc: Crc.CrcTable

    constructor (codec: Codec<P>, crc: Crc.CrcTable)
      ensures buffer == [] && this.codec == codec && this.crc == crc
    {
      buffer := [];
      this.codec := codec;
      this.crc := crc;
    }

    method Feed(data: seq<byte>)
      modifies this
      ensures buffer == old(buffer) + data
    {
      buffer := buffer + data;
    }

    method Reset()
      modifies this
      ensures buffer == []
    {
      buffer := [];
    }

    predicate CanParse()
      reads this
    {
      |buffer| >= HEADER_SIZE
    }

    method ParseAll(output: seq<Packet<P>>) returns (out: seq<Packet<P>>, parsed: nat)
      requires crc.Valid()
      modifies this, crc`inited, crc.table
      ensures crc.Valid()
      ensures out == output + Parse(codec, old(buffer)).packets
      ensures parsed == |Parse(codec, old(buffer)).packets|
      ensures buffer == Parse(codec, old(buffer)).rest
    {
      hide ReadHeader, Deserialize;
      out, parsed := output, 0;
      ghost var found: seq<Packet<P>> := [];
      ghost var whole := Parse(codec, buffer);
      while |buffer| >= HEADER_SIZE
        invariant crc.Valid()
        invariant out == output + found && parsed == |found|
        invariant whole == Parsed(found + Parse(codec, buffer).packets, Parse(codec, buffer).rest)
        decreases |buffer|
      {
        var header := ReadHeader(buffer);
        if header.None? {
          buffer := buffer[1..];
          continue;
        }
        var packetLen := FrameLength(header.value);
        if |buffer| < packetLen {
          break;
        }
        var packet := DeserializeFrom(codec, crc, buffer[..packetLen]);
        if packet.Some? {
          out := out + [packet.value];
          parsed := parsed + 1;
          found := found + [packet.value];
        }
        buffer := buffer[packetLen..];
      }
    }

    method TryParseOne() returns (packet: Option<Packet<P>>)
      requires crc.Valid() && |buffer| > 0
      modifies this, crc`inited, crc.table
      ensures crc.Valid()
      ensures (packet, buffer) == TryOne(codec, old(buffer))
    {
      hide ReadHeader, Deserialize;
      var header := ReadHeader(buffer);
      if header.None? {
        buffer := buffer[1..];
        return None;
      }
      var totalLen := FrameLength(header.value);
      if |buffer| < totalLen {
        return None;
      }
      packet := DeserializeFrom(codec, crc, buffer[..totalLen]);
      buffer := buffer[totalLen..];
    }
  }

  // ---------------------------------------------------------------- cutting the stream

  /** Parsing a longer stream is parsing its first part and going on from what that left. */
  lemma {:induction false} ParseAppend<P(!new)>(codec: Codec<P>, a: seq<byte>, b: seq<byte>)
    ensures var first := Parse(codec, a); var second := Parse(codec, first.rest + b);
      Parse(codec, a + b) == Parsed(first.packets + second.packets, second.rest)
    decreases |a|
  {
    hide ReadHeader, Deserialize, Prepend;
    if |a| >= HEADER_SIZE {
      ReadHeaderPrefix(a, b);
      match ReadHeader(a)
      case None =>
        assert (a + b)[1..] == a[1..] + b;
        ParseAppend(codec, a[1..], b);
      case Some(h) =>
        var n := FrameLength(h);
        if |a| >= n {
          assert (a + b)[..n] == a[..n] && (a + b)[n..] == a[n..] + b;
          ParseAppend(codec, a[n..], b);
          var first := Parse(codec, a[n..]);
          PrependAppend(Deserialize(codec, a[..n]), first, Parse(codec, first.rest + b));
        }
    }
  }

  lemma PrependAppend<P(!new)>(p: Option<Packet<P>>, a: Parsed<P>, b: Parsed<P>)
    ensures Prepend(p, Parsed(a.packets + b.packets, b.rest)) == Parsed(Prepend(p, a).packets + b.packets, b.rest)
    ensures Prepend(p, a).rest == a.rest
  {
    if p.Some? {
      assert [p.value] + (a.packets + b.packets) == ([p.value] + a.packets) + b.packets;
    }
  }

  /** What a pass leaves behind, a second pass leaves alone. */
  lemma {:induction false} ParseRest<P(!new)>(codec: Codec<P>, buf: seq<byte>)
    ensures var rest := Parse(codec, buf).rest; Parse(codec, rest) == Parsed([], rest)
    decreases |buf|
  {
    hide ReadHeader, Deserialize;
    if |buf| >= HEADER_SIZE {
      match ReadHeader(buf)
      case None => ParseRest(codec, buf[1..]);
      case Some(h) =>
        if |buf| >= FrameLength(h) {
          ParseRest(codec, buf[FrameLength(h)..]);
        }
    }
  }

  /** The packets of a prefix of the stream are a prefix of the packets of the stream. */
  lemma ParsePrefix<P(!new)>(codec: Codec<P>, a: seq<byte>, b: seq<byte>)
    ensures Parse(codec, a).packets <= Parse(codec, a + b).packets
  {
    hide Parse;
    ParseAppend(codec, a, b);
  }

  /** The ways a client drives the parser; single attempts are made under `CanParse`. */
  datatype ParserOp = FeedOp(data: seq<byte>) | ParseAllOp | TryParseOneOp

  datatype ParserState<P> = ParserState(buffer: seq<byte>, out: seq<Packet<P>>)

  function StepParser<P(!new)>(codec: Codec<P>, s: ParserState<P>, op: ParserOp): ParserState<P> {
    match op
    case FeedOp(data) => s.(buffer := s.buffer + data)
    case ParseAllOp =>
      var r := Parse(codec, s.buffer);
      ParserState(r.rest, s.out + r.packets)
    case TryParseOneOp =>
      if |s.buffer| < HEADER_SIZE then s
      else
        match TryOne(codec, s.buffer)
        case (None, rest) => ParserState(rest, s.out)
        case (Some(p), rest) => ParserState(rest, s.out + [p])
  }

  function RunParser<P(!new)>(codec: Codec<P>, ops: seq<ParserOp>): ParserState<P> {
    if ops == [] then ParserState([], [])
    else StepParser(codec, RunParser(codec, ops[..|ops| - 1]), ops[|ops| - 1])
  }

  function Fed(ops: seq<ParserOp>): seq<byte> {
    if ops == [] then []
    else Fed(ops[..|ops| - 1]) + (match ops[|ops| - 1] case FeedOp(data) => data case _ => [])
  }

  lemma TryOneKeeps<P(!new)>(codec: Codec<P>, buf: seq<byte>)
    requires |buf| >= HEADER_SIZE
    ensures var (p, rest) := TryOne(codec, buf); Prepend(p, Parse(codec, rest)) == Parse(codec, buf)
  {
    hide ReadHeader, Deserialize;
  }

  /** An attempt keeps the meaning of a non-empty buffer exactly under `CanParse`: on a shorter
      buffer it throws away a byte that may belong to a packet still arriving. */
  lemma TryOneNeedsCanParse<P(!new)>(codec: Codec<P>, buf: seq<byte>)
    requires |buf| > 0
    ensures |buf| >= HEADER_SIZE <==>
      (var (p, rest) := TryOne(codec, buf); Prepend(p, Parse(codec, rest)) == Parse(codec, buf))
  {
    hide FieldsOf, Acceptable, Deserialize;
    if |buf| >= HEADER_SIZE {
      TryOneKeeps(codec, buf);
    } else {
      assert Parse(codec, buf[1..]).rest == buf[1..] && Parse(codec, buf).rest == buf;
    }
  }

  /** Whatever was fed, in whatever pieces and with whatever calls in between, what is out
      plus what the buffer still holds is the parse of the whole stream. */
  lemma {:induction false} StreamInvariant<P(!new)>(codec: Codec<P>, ops: seq<ParserOp>)
    ensures var s := RunParser(codec, ops); var pending := Parse(codec, s.buffer);
      Parse(codec, Fed(ops)) == Parsed(s.out + pending.packets, pending.rest)
    decreases |ops|
  {
    hide Parse, TryOne;
    if ops == [] {
      assert Parse(codec, []) == Parsed([], []) by { EmptyParse(codec); }
    } else {
      var before, op := ops[..|ops| - 1], ops[|ops| - 1];
      var s := RunParser(codec, before);
      StreamInvariant(codec, before);
      assert !op.FeedOp? ==> Fed(ops) == Fed(before);
      match op
      case FeedOp(data) =>
        ParseAppend(codec, Fed(before), data);
        ParseAppend(codec, s.buffer, data);
      case ParseAllOp =>
        ParseRest(codec, s.buffer);
        var found := s.out + Parse(codec, s.buffer).packets;
        assert found + [] == found;
      case TryParseOneOp =>
        if |s.buffer| >= HEADER_SIZE {
          TryOneKeeps(codec, s.buffer);
        }
    }
  }

  lemma EmptyParse<P(!new)>(codec: Codec<P>)
    ensures Parse(codec, []) == Parsed([], [])
  {}

  /** Nothing more can be extracted: too short for a header, or an attempt changes nothing. */
  predicate Settled<P(!new)>(codec: Codec<P>, buf: seq<byte>) {
    |buf| < HEADER_SIZE || TryOne(codec, buf).1 == buf
  }

  lemma SettledParse<P(!new)>(codec: Codec<P>, buf: seq<byte>)
    ensures Settled(codec, buf) <==> Parse(codec, buf) == Parsed([], buf)
  {
    hide ReadHeader, Deserialize;
    if |buf| >= HEADER_SIZE && ReadHeader(buf).None? {
      ParseShrinks(codec, buf[1..]);
    } else if |buf| >= HEADER_SIZE && |buf| >= FrameLength(ReadHeader(buf).value) {
      ParseShrinks(codec, buf[FrameLength(ReadHeader(buf).value)..]);
    }
  }

  lemma {:induction false} ParseShrinks<P(!new)>(codec: Codec<P>, buf: seq<byte>)
    ensures |Parse(codec, buf).rest| <= |buf|
    decreases |buf|
  {
    hide ReadHeader, Deserialize;
    if |buf| >= HEADER_SIZE {
      match ReadHeader(buf)
      case None => ParseShrinks(codec, buf[1..]);
      case Some(h) =>
        if |buf| >= FrameLength(h) {
          ParseShrinks(codec, buf[FrameLength(h)..]);
        }
    }
  }

  /** Every way of cutting the stream and of calling the parser that ends with nothing left to
      extract delivers what one `Feed` of the whole stream and one `ParseAll` deliver. */
  lemma FragmentationIndependence<P(!new)>(codec: Codec<P>, ops: seq<ParserOp>)
    requires Settled(codec, RunParser(codec, ops).buffer)
    ensures RunParser(codec, ops) == RunParser(codec, [FeedOp(Fed(ops)), ParseAllOp])
  {
    hide Parse, TryOne, RunParser, Fed, Settled;
    var whole := [FeedOp(Fed(ops)), ParseAllOp];
    StreamInvariant(codec, ops);
    SettledParse(codec, RunParser(codec, ops).buffer);
    TwoOps(codec, Fed(ops));
  }

  lemma TwoOps<P(!new)>(codec: Codec<P>, data: seq<byte>)
    ensures var r := Parse(codec, data);
      RunParser(codec, [FeedOp(data), ParseAllOp]) == ParserState(r.rest, r.packets)
  {
    hide Parse;
    var ops: seq<ParserOp> := [FeedOp(data), ParseAllOp];
    assert ops[..1] == [FeedOp(data)];
    assert RunParser(codec, [FeedOp(data)]) == ParserState([] + data, []);
    assert [] + data == data;
  }

  lemma ParseAllSettles<P(!new)>(codec: Codec<P>, ops: seq<ParserOp>)
    requires |ops| > 0 && ops[|ops| - 1] == ParseAllOp
    ensures Settled(codec, RunParser(codec, ops).buffer)
  {
    hide Parse, TryOne, Settled;
    var s := RunParser(codec, ops[..|ops| - 1]);
    ParseRest(codec, s.buffer);
    SettledParse(codec, RunParser(codec, ops).buffer);
  }

  /** The same calls made from any state, with `Reset` among the things a client can do before. */
  function RunParserFrom<P(!new)>(codec: Codec<P>, s: ParserState<P>, ops: seq<ParserOp>): ParserState<P> {
    if ops == [] then s
    else StepParser(codec, RunParserFrom(codec, s, ops[..|ops| - 1]), ops[|ops| - 1])
  }

  /** After a reset the parser forgets: whatever was fed before, the packets delivered afterwards
      are those of a new parser. */
  lemma {:induction false} ResetStartsAfresh<P(!new)>(codec: Codec<P>, out: seq<Packet<P>>, ops: seq<ParserOp>)
    ensures var r := RunParser(codec, ops);
      RunParserFrom(codec, ParserState([], out), ops) == ParserState(r.buffer, out + r.out)
    decreases |ops|
  {
    hide Parse, TryOne;
    if ops != [] {
      ResetStartsAfresh(codec, out, ops[..|ops| - 1]);
    }
  }

  // ---------------------------------------------------------------- every byte accounted for

  /** A piece of the input the parser is done with. */
  datatype Segment = Skipped(b: byte) | Frame(bytes: seq<byte>)

  function SegmentBytes(s: Segment): seq<byte> {
    match s
    case Skipped(b) => [b]
    case Frame(bytes) => bytes
  }

  function AllBytes(segs: seq<Segment>): seq<byte> {
    if segs == [] then [] else SegmentBytes(segs[0]) + AllBytes(segs[1..])
  }

  function Delivered<P(!new)>(codec: Codec<P>, segs: seq<Segment>): seq<Packet<P>> {
    if segs == [] then []
    else
      var rest := Delivered(codec, segs[1..]);
      match segs[0]
      case Skipped(_) => rest
      case Frame(bytes) => (match Deserialize(codec, bytes) case None => rest case Some(p) => [p] + rest)
  }

  /** The stream at one segment: a byte is skipped only where no acceptable header starts, and
      a frame is one whole header with all of its body. */
  predicate Justified(seg: Segment, after: seq<byte>) {
    match seg
    case Skipped(b) => |after| + 1 >= HEADER_SIZE && ReadHeader([b] + after) == None
    case Frame(bytes) => ReadHeader(bytes).Some? && |bytes| == FrameLength(ReadHeader(bytes).value)
  }

  predicate Waiting(rest: seq<byte>) {
    |rest| < HEADER_SIZE || (ReadHeader(rest).Some? && |rest| < FrameLength(ReadHeader(rest).value))
  }

  /** `segs` then `rest` is a correct account of a stream. */
  ghost predicate Account(segs: seq<Segment>, rest: seq<byte>) {
    && Waiting(rest)
    && forall i :: 0 <= i < |segs| ==> Justified(segs[i], AllBytes(segs[i + 1..]) + rest)
  }

  function Segments(buf: seq<byte>): seq<Segment>
    decreases |buf|
  {
    if |buf| < HEADER_SIZE then []
    else
      match ReadHeader(buf)
      case None => [Skipped(buf[0])] + Segments(buf[1..])
      case Some(h) =>
        if |buf| < FrameLength(h) then []
        else [Frame(buf[..FrameLength(h)])] + Segments(buf[FrameLength(h)..])
  }

  /** A pass loses nothing: its input is, in order, skipped bytes, whole frames and the rest;
      what it delivers are the sound frames, in order. */
  lemma ParseAccounts<P(!new)>(codec: Codec<P>, buf: seq<byte>)
    ensures var segs, rest := Segments(buf), Parse(codec, buf).rest;
      && AllBytes(segs) + rest == buf
      && Account(segs, rest)
      && Parse(codec, buf).packets == Delivered(codec, segs)
  {
    hide *;
    SegmentsCover(codec, buf);
    SegmentsJustified(codec, buf);
    SegmentsDelivered(codec, buf);
  }

  lemma {:induction false} SegmentsCover<P(!new)>(codec: Codec<P>, buf: seq<byte>)
    ensures AllBytes(Segments(buf)) + Parse(codec, buf).rest == buf
    decreases |buf|
  {
    hide ReadHeader, Deserialize;
    var segs := Segments(buf);
    if segs != [] {
      var n := |SegmentBytes(segs[0])|;
      SegmentsCover(codec, buf[n..]);
      assert segs[1..] == Segments(buf[n..]);
      assert SegmentBytes(segs[0]) + buf[n..] == buf;
    }
  }

  lemma {:induction false} SegmentsDelivered<P(!new)>(codec: Codec<P>, buf: seq<byte>)
    ensures Parse(codec, buf).packets == Delivered(codec, Segments(buf))
    decreases |buf|
  {
    hide ReadHeader, Deserialize;
    var segs := Segments(buf);
    if segs != [] {
      var n := |SegmentBytes(segs[0])|;
      SegmentsDelivered(codec, buf[n..]);
      assert segs[1..] == Segments(buf[n..]);
    }
  }

  lemma {:induction false} SegmentsJustified<P(!new)>(codec: Codec<P>, buf: seq<byte>)
    ensures Account(Segments(buf), Parse(codec, buf).rest)
    decreases |buf|
  {
    hide ReadHeader, Deserialize, Account, AllBytes, Delivered, Justified;
    var segs := Segments(buf);
    if segs == [] {
      LastAccount(codec, buf);
    } else {
      var n := |SegmentBytes(segs[0])|;
      FirstJustified(buf);
      SegmentsJustified(codec, buf[n..]);
      SegmentsCover(codec, buf[n..]);
      assert segs[1..] == Segments(buf[n..]);
      AccountCons(segs, Parse(codec, buf).rest);
    }
  }

  lemma LastAccount<P(!new)>(codec: Codec<P>, buf: seq<byte>)
    requires Segments(buf) == []
    ensures Parse(codec, buf) == Parsed([], buf)
    ensures AllBytes([]) + buf == buf && Account([], buf) && Delivered(codec, []) == []
  {
    hide FieldsOf, Acceptable, Deserialize;
  }

  lemma FirstJustified(buf: seq<byte>)
    requires Segments(buf) != []
    ensures var seg := Segments(buf)[0];
      0 < |SegmentBytes(seg)| <= |buf| && Justified(seg, buf[|SegmentBytes(seg)|..])
  {
    hide FieldsOf, Acceptable;
    match ReadHeader(buf)
    case None =>
      assert [buf[0]] + buf[1..] == buf;
    case Some(h) =>
      var n := FrameLength(h);
      ReadHeaderPrefix(buf[..n], buf[n..]);
      assert buf[..n] + buf[n..] == buf;
  }

  lemma AccountCons(segs: seq<Segment>, rest: seq<byte>)
    requires segs != [] && Account(segs[1..], rest) && Justified(segs[0], AllBytes(segs[1..]) + rest)
    ensures Account(segs, rest)
  {
    hide AllBytes, Justified, Waiting;
    forall i | 0 <= i < |segs|
      ensures Justified(segs[i], AllBytes(segs[i + 1..]) + rest)
    {
      if i > 0 {
        assert segs[1..][i - 1] == segs[i] && segs[1..][i..] == segs[i + 1..];
      }
    }
  }

  /** There is only one correct account of a stream, so the one above is it. */
  lemma {:induction false} AccountUnique<P(!new)>(codec: Codec<P>, segs: seq<Segment>, rest: seq<byte>)
    requires Account(segs, rest)
    ensures Segments(AllBytes(segs) + rest) == segs
    ensures Parse(codec, AllBytes(segs) + rest) == Parsed(Delivered(codec, segs), rest)
    decreases |segs|
  {
    hide FieldsOf, Acceptable, Deserialize, ReadHeader, Justified;
    if segs == [] {
      assert AllBytes(segs) + rest == rest;
      OnlyWaiting(codec, rest);
    } else {
      hide Parse, Segments;
      var tail := AllBytes(segs[1..]) + rest;
      AccountTail(segs, rest);
      AccountUnique(codec, segs[1..], rest);
      assert AllBytes(segs) + rest == SegmentBytes(segs[0]) + tail;
      FirstSegment(codec, segs[0], tail);
    }
  }

  lemma AccountTail(segs: seq<Segment>, rest: seq<byte>)
    requires segs != [] && Account(segs, rest)
    ensures Account(segs[1..], rest) && Justified(segs[0], AllBytes(segs[1..]) + rest)
  {
    hide AllBytes, Justified, Waiting;
    forall i | 0 <= i < |segs[1..]|
      ensures Justified(segs[1..][i], AllBytes(segs[1..][i + 1..]) + rest)
    {
      assert segs[1..][i] == segs[i + 1] && segs[1..][i + 1..] == segs[i + 2..];
    }
  }

  lemma OnlyWaiting<P(!new)>(codec: Codec<P>, rest: seq<byte>)
    requires Waiting(rest)
    ensures Segments(rest) == [] && Parse(codec, rest) == Parsed([], rest)
  {
    hide ReadHeader, Deserialize;
  }

  /** What a justified segment adds in front of a stream. */
  lemma FirstSegment<P(!new)>(codec: Codec<P>, seg: Segment, tail: seq<byte>)
    requires Justified(seg, tail)
    ensures Segments(SegmentBytes(seg) + tail) == [seg] + Segments(tail)
    ensures var r := Parse(codec, tail);
      Parse(codec, SegmentBytes(seg) + tail) ==
        if seg.Skipped? then r else Prepend(Deserialize(codec, seg.bytes), r)
  {
    hide FieldsOf, Acceptable, Deserialize;
    match seg
    case Skipped(b) =>
      assert ([b] + tail)[1..] == tail;
    case Frame(bytes) =>
      ReadHeaderPrefix(bytes, tail);
      assert (bytes + tail)[..|bytes|] == bytes && (bytes + tail)[|bytes|..] == tail;
  }

  // ---------------------------------------------------------------- noise and damage

  /** No run of four bytes in `noise` is the magic. */
  ghost predicate MagicFree(noise: seq<byte>) {
    forall i: nat :: !MagicAt(noise, i)
  }

  lemma MagicFreeTail(noise: seq<byte>)
    requires noise != [] && MagicFree(noise)
    ensures MagicFree(noise[1..])
  {
    forall i: nat
      ensures !MagicAt(noise[1..], i)
    {
      assert !MagicAt(noise, i + 1);
    }
  }

  /** Because its four bytes are distinct, the magic cannot straddle noise and a frame. */
  lemma NoStraddle(noise: seq<byte>, frame: seq<byte>)
    requires noise != [] && MagicFree(noise)
    requires frame == [] || MagicAt(frame, 0)
    ensures ReadHeader(noise + frame) == None
  {
    hide FieldsOf, Acceptable;
    var s, k := noise + frame, |noise|;
    assert !MagicAt(noise, 0);
    assert k < 4 && frame != [] ==> s[k] == frame[0];
    HeaderHasMagic(s);
  }

  /** Noise in front of a frame is skipped byte by byte. */
  lemma {:induction false} SkipNoise<P(!new)>(codec: Codec<P>, noise: seq<byte>, frame: seq<byte>)
    requires MagicFree(noise)
    requires |frame| >= HEADER_SIZE && MagicAt(frame, 0)
    ensures Parse(codec, noise + frame) == Parse(codec, frame)
  {
    hide ReadHeader, Deserialize, Prepend;
    if noise == [] {
      assert noise + frame == frame;
    } else {
      NoStraddle(noise, frame);
      assert (noise + frame)[1..] == noise[1..] + frame;
      MagicFreeTail(noise);
      SkipNoise(codec, noise[1..], frame);
    }
  }

  /** Noise at the end is skipped down to the bytes too few to judge. */
  lemma {:induction false} SkipTail<P(!new)>(codec: Codec<P>, noise: seq<byte>)
    requires MagicFree(noise)
    ensures Parse(codec, noise) == Parsed([], noise[Max(0, |noise| - (HEADER_SIZE - 1))..])
  {
    hide ReadHeader, Deserialize, Prepend;
    if |noise| >= HEADER_SIZE {
      NoStraddle(noise, []);
      assert noise + [] == noise;
      MagicFreeTail(noise);
      SkipTail(codec, noise[1..]);
    }
  }

  /** How many bytes are skipped before the first frame or the rest. */
  function LeadingSkips(segs: seq<Segment>): nat {
    if segs == [] || segs[0].Frame? then 0 else 1 + LeadingSkips(segs[1..])
  }

  /** Any run of bytes in front of enough others is skipped as a whole exactly when no acceptable
      header starts inside it; magic-free noise in front of a frame is one such case. */
  lemma {:induction false} SkippedExactly(noise: seq<byte>, after: seq<byte>)
    requires |after| >= HEADER_SIZE
    ensures |noise| <= LeadingSkips(Segments(noise + after)) <==>
      forall i :: 0 <= i < |noise| ==> ReadHeader(noise[i..] + after) == None
    decreases |noise|
  {
    hide FieldsOf, Acceptable;
    if noise != [] {
      var s := noise + after;
      assert noise[0..] == noise;
      assert s[1..] == noise[1..] + after;
      SkippedExactly(noise[1..], after);
      assert forall i :: 0 <= i < |noise[1..]| ==> noise[1..][i..] == noise[i + 1..];
      assert forall i :: 1 <= i < |noise| ==> noise[i..] == noise[1..][i - 1..];
      if ReadHeader(s).None? {
        assert Segments(s)[1..] == Segments(s[1..]);
      }
    }
  }

  /** What a header inside noise does: everything after it is withheld, packets included,
      exactly as long as fewer bytes than it announces have followed. */
  lemma FalseHeaderWithholds<P(!new)>(codec: Codec<P>, h: TransportHeader, after: seq<byte>)
    requires Acceptable(h)
    ensures Parse(codec, HeaderBytes(h) + after) == Parsed([], HeaderBytes(h) + after) <==> |after| < h.bodyLen
  {
    hide FieldsOf, Acceptable, HeaderBytes, Deserialize, Parse;
    HeaderRoundTrip(h, after);
    SettledParse(codec, HeaderBytes(h) + after);
  }

  /** A packet on the wire after some noise; `body` is what arrives of its encoded body. */
  datatype Arrival<P> = Arrival(noise: seq<byte>, content: P, body: seq<byte>)

  function ArrivalBytes<P(!new)>(codec: Codec<P>, a: Arrival<P>): seq<byte> {
    a.noise + (HeaderBytes(MakeHeader(codec.dump(a.content))) + a.body)
  }

  function Stream<P(!new)>(codec: Codec<P>, arrivals: seq<Arrival<P>>, tail: seq<byte>): seq<byte> {
    if arrivals == [] then tail
    else ArrivalBytes(codec, arrivals[0]) + Stream(codec, arrivals[1..], tail)
  }

  predicate Intact<P(!new)>(codec: Codec<P>, a: Arrival<P>) {
    a.body == codec.dump(a.content)
  }

  /** Noise never contains the magic, and a body that is not intact suffered one burst. */
  ghost predicate Expected<P(!new)>(codec: Codec<P>, a: Arrival<P>) {
    && |codec.dump(a.content)| < TWO_TO_THE_32
    && MagicFree(a.noise)
    && (Intact(codec, a) || exists at: nat :: Crc.BurstApart(codec.dump(a.content), a.body, at))
  }

  function Received<P(!new)>(codec: Codec<P>, arrivals: seq<Arrival<P>>): seq<Packet<P>> {
    if arrivals == [] then []
    else
      var rest := Received(codec, arrivals[1..]);
      if Intact(codec, arrivals[0])
      then [Packet(MakeHeader(codec.dump(arrivals[0].content)), arrivals[0].content)] + rest
      else rest
  }

  /** Through any noise without the magic and any bursts, `ParseAll` delivers exactly the intact
      packets, in order, and drops exactly the damaged ones. */
  lemma {:induction false} Resynchronises<P(!new)>(codec: Codec<P>, arrivals: seq<Arrival<P>>, tail: seq<byte>)
    requires codec.Lawful() && MagicFree(tail)
    requires forall a :: a in arrivals ==> Expected(codec, a)
    ensures Parse(codec, Stream(codec, arrivals, tail))
      == Parsed(Received(codec, arrivals), tail[Max(0, |tail| - (HEADER_SIZE - 1))..])
    decreases |arrivals|
  {
    hide Parse, MagicFree, MakeHeader, HeaderBytes;
    if arrivals == [] {
      SkipTail(codec, tail);
    } else {
      var a, rest := arrivals[0], Stream(codec, arrivals[1..], tail);
      var frame := HeaderBytes(MakeHeader(codec.dump(a.content))) + a.body;
      Resynchronises(codec, arrivals[1..], tail);
      OneFrame(codec, a, rest);
      assert ArrivalBytes(codec, a) + rest == a.noise + (frame + rest);
      SkipNoise(codec, a.noise, frame + rest);
    }
  }

  lemma OneFrame<P(!new)>(codec: Codec<P>, a: Arrival<P>, rest: seq<byte>)
    requires codec.Lawful() && Expected(codec, a)
    ensures var frame := HeaderBytes(MakeHeader(codec.dump(a.content))) + a.body;
      && |frame| >= HEADER_SIZE && MagicAt(frame + rest, 0)
      && Parse(codec, frame + rest) == Prepend(
        if Intact(codec, a) then Some(Packet(MakeHeader(codec.dump(a.content)), a.content)) else None,
        Parse(codec, rest))
  {
    hide FieldsOf, Acceptable, HeaderBytes, Deserialize, MagicFree;
    var body := codec.dump(a.content);
    var h := MakeHeader(body);
    var frame := HeaderBytes(h) + a.body;
    MadeHeaderAcceptable(body);
    DeserializeFrame(codec, h, a.body);
    HeaderHasMagic(frame);
    ReadHeaderPrefix(frame, rest);
    assert (frame + rest)[..|frame|] == frame && (frame + rest)[|frame|..] == rest;
    if Intact(codec, a) {
      SerializeRoundTrip(codec, a.content);
    } else {
      var at: nat :| Crc.BurstApart(body, a.body, at);
      DamageRejected(codec, a.content, a.body, at);
    }
  }
}
