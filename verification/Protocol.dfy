/** The transport header and the framing of one packet. */
module Protocol {
  import opened Common
  import Crc

  type byte = Crc.byte

  const MAGIC: bv32 := 0x4153_4348
  const MAGIC_BYTES: seq<byte> := [0x41, 0x53, 0x43, 0x48]
  const VERSION: bv16 := 1
  const HEADER_SIZE := 16
  const TWO_TO_THE_32 := 0x1_0000_0000

  /** The length field is used as a number, so it is kept as one; on it a shift by 8k bits is a
      division by 256^k and a mask of eight bits is a remainder by 256. */
  type u32 = n: int | 0 <= n < TWO_TO_THE_32

  datatype TransportHeader = TransportHeader(
    magic: bv32,
    version: bv16,
    reserve: bv16,
    bodyLen: u32,
    checksum: bv32)

  /** The JSON library as the protocol uses it: `dump` writes base header and body as text,
      `parse` reads them back or fails. */
  datatype Codec<!P(!new)> = Codec(dump: P -> seq<byte>, parse: seq<byte> -> Option<P>) {
    ghost predicate Lawful() {
      forall p :: dump(p) != [] && parse(dump(p)) == Some(p)
    }
  }

  datatype Packet<P> = Packet(header: TransportHeader, content: P)

  // ---------------------------------------------------------------- big-endian fields

  function WriteU32(v: bv32): (out: seq<byte>)
    ensures |out| == 4
  {
    [((v >> 24) & 0xFF) as bv8, ((v >> 16) & 0xFF) as bv8, ((v >> 8) & 0xFF) as bv8, (v & 0xFF) as bv8]
  }

  function WriteU16(v: bv16): (out: seq<byte>)
    ensures |out| == 2
  {
    [((v >> 8) & 0xFF) as bv8, (v & 0xFF) as bv8]
  }

  function ReadU32(b0: byte, b1: byte, b2: byte, b3: byte): bv32 {
    ((b0 as bv32) << 24) | ((b1 as bv32) << 16) | ((b2 as bv32) << 8) | (b3 as bv32)
  }

  function ReadU16(b0: byte, b1: byte): bv16 {
    ((b0 as bv16) << 8) | (b1 as bv16)
  }

  function Octet(n: nat): byte
    requires n < 0x100
  {
    n as bv8
  }

  function Value(b: byte): (n: nat)
    ensures n < 0x100
  {
    b as int
  }

  function WriteLength(n: u32): (out: seq<byte>)
    ensures |out| == 4
  {
    [Octet(n / 0x100_0000), Octet(n / 0x1_0000 % 0x100), Octet(n / 0x100 % 0x100), Octet(n % 0x100)]
  }

  function ReadLength(b0: byte, b1: byte, b2: byte, b3: byte): u32 {
    Value(b0) * 0x100_0000 + Value(b1) * 0x1_0000 + Value(b2) * 0x100 + Value(b3)
  }

  lemma ValueSuccessor(b: byte)
    requires b != 0xFF
    ensures Value(b + 1) == Value(b) + 1
  {}

  lemma ValueOctet(b: byte)
    ensures Octet(Value(b)) == b
  {}

  /** Every number below 256 is the value of a byte, found by counting up to it. */
  lemma ByteWithValue(n: nat) returns (b: byte)
    requires n < 0x100
    ensures Value(b) == n
  {
    b := 0;
    for k := 0 to n
      invariant Value(b) == k
    {
      ValueSuccessor(b);
      b := b + 1;
    }
  }

  lemma OctetValue(n: nat)
    requires n < 0x100
    ensures Value(Octet(n)) == n
  {
    hide Octet, Value;
    var b := ByteWithValue(n);
    ValueOctet(b);
  }

  lemma LengthRoundTrip(n: u32)
    ensures var s := WriteLength(n); ReadLength(s[0], s[1], s[2], s[3]) == n
  {
    hide Octet, Value;
    OctetValue(n / 0x100_0000);
    OctetValue(n / 0x1_0000 % 0x100);
    OctetValue(n / 0x100 % 0x100);
    OctetValue(n % 0x100);
    FourDigits(n);
  }

  lemma FourDigits(n: nat)
    ensures n / 0x100_0000 * 0x100_0000 + n / 0x1_0000 % 0x100 * 0x1_0000 + n / 0x100 % 0x100 * 0x100 + n % 0x100 == n
  {
    var a := n / 0x100;
    var b := a / 0x100;
    assert n / 0x1_0000 == b;
    assert n / 0x100_0000 == b / 0x100;
  }

  lemma LengthBytes(b0: byte, b1: byte, b2: byte, b3: byte)
    ensures WriteLength(ReadLength(b0, b1, b2, b3)) == [b0, b1, b2, b3]
  {
    hide Octet, Value;
    ValueOctet(b0);
    ValueOctet(b1);
    ValueOctet(b2);
    ValueOctet(b3);
    Base256(Value(b0), Value(b1), Value(b2), Value(b3));
  }

  lemma Base256(a: nat, b: nat, c: nat, d: nat)
    requires a < 0x100 && b < 0x100 && c < 0x100 && d < 0x100
    ensures var n := a * 0x100_0000 + b * 0x1_0000 + c * 0x100 + d;
      && n / 0x100_0000 == a && n / 0x1_0000 % 0x100 == b && n / 0x100 % 0x100 == c && n % 0x100 == d
  {
    var n := a * 0x100_0000 + b * 0x1_0000 + c * 0x100 + d;
    assert n / 0x100 == (a * 0x100 + b) * 0x100 + c;
    assert n / 0x1_0000 == a * 0x100 + b;
    assert n / 0x100_0000 == a;
  }

  lemma U32RoundTrip(v: bv32)
    ensures var s := WriteU32(v); ReadU32(s[0], s[1], s[2], s[3]) == v
  {}

  lemma U32Bytes(b0: byte, b1: byte, b2: byte, b3: byte)
    ensures WriteU32(ReadU32(b0, b1, b2, b3)) == [b0, b1, b2, b3]
  {}

  lemma U16RoundTrip(v: bv16)
    ensures var s := WriteU16(v); ReadU16(s[0], s[1]) == v
  {}

  lemma U16Bytes(b0: byte, b1: byte)
    ensures WriteU16(ReadU16(b0, b1)) == [b0, b1]
  {}

  lemma MagicBytes()
    ensures WriteU32(MAGIC) == MAGIC_BYTES
  {}

  // ---------------------------------------------------------------- the header

  function HeaderBytes(h: TransportHeader): (out: seq<byte>)
    ensures |out| == HEADER_SIZE
  {
    WriteU32(h.magic) + WriteU16(h.version) + WriteU16(h.reserve)
    + WriteLength(h.bodyLen) + WriteU32(h.checksum)
  }

  predicate Acceptable(h: TransportHeader) {
    h.magic == MAGIC && h.version <= VERSION
  }

  function FieldsOf(buf: seq<byte>): TransportHeader
    requires |buf| >= HEADER_SIZE
  {
    TransportHeader(
      ReadU32(buf[0], buf[1], buf[2], buf[3]),
      ReadU16(buf[4], buf[5]),
      ReadU16(buf[6], buf[7]),
      ReadLength(buf[8], buf[9], buf[10], buf[11]),
      ReadU32(buf[12], buf[13], buf[14], buf[15]))
  }

  function ReadHeader(buf: seq<byte>): (r: Option<TransportHeader>)
    ensures r.Some? ==> |buf| >= HEADER_SIZE
  {
    if |buf| < HEADER_SIZE then None
    else
      var h := FieldsOf(buf);
      if Acceptable(h) then Some(h) else None
  }

  /** Length on the wire of the frame that starts with header `h`. */
  function FrameLength(h: TransportHeader): (n: nat)
    ensures HEADER_SIZE <= n < HEADER_SIZE + TWO_TO_THE_32
  {
    HEADER_SIZE + h.bodyLen
  }

  lemma FieldsRoundTrip(h: TransportHeader, rest: seq<byte>)
    ensures FieldsOf(HeaderBytes(h) + rest) == h
  {
    hide WriteU32, WriteU16, WriteLength, ReadU32, ReadU16, ReadLength;
    U32RoundTrip(h.magic);
    U16RoundTrip(h.version);
    U16RoundTrip(h.reserve);
    LengthRoundTrip(h.bodyLen);
    U32RoundTrip(h.checksum);
  }

  /** Reading gives back every header that was written, whatever follows it, exactly when its
      magic is the protocol's and its version is not newer than this side's. */
  lemma HeaderRoundTrip(h: TransportHeader, rest: seq<byte>)
    ensures ReadHeader(HeaderBytes(h) + rest) == Some(h) <==> Acceptable(h)
    ensures !Acceptable(h) ==> ReadHeader(HeaderBytes(h) + rest) == None
  {
    hide FieldsOf, HeaderBytes;
    FieldsRoundTrip(h, rest);
  }

  /** Every accepted header determines the sixteen bytes it was read from. */
  lemma HeaderDetermined(buf: seq<byte>)
    requires ReadHeader(buf).Some?
    ensures buf[..HEADER_SIZE] == HeaderBytes(ReadHeader(buf).value)
  {
    hide WriteU32, WriteU16, WriteLength, ReadU32, ReadU16, ReadLength;
    U32Bytes(buf[0], buf[1], buf[2], buf[3]);
    U16Bytes(buf[4], buf[5]);
    U16Bytes(buf[6], buf[7]);
    LengthBytes(buf[8], buf[9], buf[10], buf[11]);
    U32Bytes(buf[12], buf[13], buf[14], buf[15]);
  }

  predicate MagicAt(s: seq<byte>, i: nat) {
    i + 4 <= |s| && s[i] == MAGIC_BYTES[0] && s[i + 1] == MAGIC_BYTES[1]
    && s[i + 2] == MAGIC_BYTES[2] && s[i + 3] == MAGIC_BYTES[3]
  }

  lemma HeaderHasMagic(buf: seq<byte>)
    ensures ReadHeader(buf).Some? ==> MagicAt(buf, 0)
  {
    hide WriteU32, ReadU32, ReadU16, ReadLength;
    if |buf| >= HEADER_SIZE {
      U32Bytes(buf[0], buf[1], buf[2], buf[3]);
      MagicBytes();
    }
  }

  lemma ReadHeaderPrefix(a: seq<byte>, b: seq<byte>)
    requires |a| >= HEADER_SIZE
    ensures ReadHeader(a + b) == ReadHeader(a)
  {
    hide ReadU32, ReadU16, ReadLength, Acceptable;
  }

  // ---------------------------------------------------------------- the bytes on the wire

  /** Four bytes, the most significant first, that stand for a word. */
  predicate BigEndian(b: seq<byte>, v: bv32) {
    |b| == 4 && v ==
      (b[0] as bv32) * 0x100_0000 + (b[1] as bv32) * 0x1_0000 + (b[2] as bv32) * 0x100 + (b[3] as bv32)
  }

  /** The same for a number. */
  predicate BigEndianNumber(b: seq<byte>, n: int) {
    |b| == 4 && n ==
      (b[0] as int) * 0x100_0000 + (b[1] as int) * 0x1_0000 + (b[2] as int) * 0x100 + (b[3] as int)
  }

  lemma WordOnWire(v: bv32)
    ensures BigEndian(WriteU32(v), v)
  {}

  lemma LengthOnWire(n: u32)
    ensures BigEndianNumber(WriteLength(n), n)
  {
    hide Octet;
    LengthRoundTrip(n);
  }

  lemma WordFromWire(b0: byte, b1: byte, b2: byte, b3: byte)
    ensures BigEndian([b0, b1, b2, b3], ReadU32(b0, b1, b2, b3))
  {}

  /** Which sixteen bytes are accepted as a header, and what they say: "ASCH", a version of 0 or 1,
      two bytes that are ignored, then length and checksum, most significant byte first. */
  lemma HeaderAccepted(buf: seq<byte>)
    ensures ReadHeader(buf).Some? <==>
      && |buf| >= 16
      && buf[..4] == [0x41, 0x53, 0x43, 0x48]
      && buf[4] == 0 && (buf[5] == 0 || buf[5] == 1)
    ensures ReadHeader(buf).Some? ==> var h := ReadHeader(buf).value;
      BigEndianNumber(buf[8..12], h.bodyLen) && BigEndian(buf[12..16], h.checksum)
  {
    if |buf| >= 16 {
      hide ReadU32, ReadU16, ReadLength, BigEndian, BigEndianNumber;
      MagicFromWire(buf[0], buf[1], buf[2], buf[3]);
      VersionFromWire(buf[4], buf[5]);
      LengthFromWire(buf[8], buf[9], buf[10], buf[11]);
      WordFromWire(buf[12], buf[13], buf[14], buf[15]);
      assert buf[..4] == [buf[0], buf[1], buf[2], buf[3]];
      assert buf[8..12] == [buf[8], buf[9], buf[10], buf[11]];
      assert buf[12..16] == [buf[12], buf[13], buf[14], buf[15]];
    }
  }

  lemma MagicFromWire(b0: byte, b1: byte, b2: byte, b3: byte)
    ensures ReadU32(b0, b1, b2, b3) == MAGIC <==> [b0, b1, b2, b3] == [0x41, 0x53, 0x43, 0x48]
  {
    hide WriteU32, ReadU32;
    U32Bytes(b0, b1, b2, b3);
    U32Bytes(0x41, 0x53, 0x43, 0x48);
    MagicBytes();
    U32RoundTrip(MAGIC);
  }

  lemma LengthFromWire(b0: byte, b1: byte, b2: byte, b3: byte)
    ensures BigEndianNumber([b0, b1, b2, b3], ReadLength(b0, b1, b2, b3))
  {
    hide WriteLength, ReadLength, BigEndianNumber;
    LengthBytes(b0, b1, b2, b3);
    LengthOnWire(ReadLength(b0, b1, b2, b3));
  }

  lemma VersionFromWire(b0: byte, b1: byte)
    ensures ReadU16(b0, b1) <= VERSION <==> b0 == 0 && (b1 == 0 || b1 == 1)
  {}

  // ---------------------------------------------------------------- one packet

  function MakeHeader(body: seq<byte>): TransportHeader {
    TransportHeader(MAGIC, VERSION, 0, |body| % TWO_TO_THE_32, Crc.Crc32(0, body))
  }

  function Serialize<P(!new)>(codec: Codec<P>, p: P): seq<byte> {
    HeaderBytes(MakeHeader(codec.dump(p))) + codec.dump(p)
  }

  function Deserialize<P(!new)>(codec: Codec<P>, buf: seq<byte>): Option<Packet<P>> {
    match ReadHeader(buf)
    case None => None
    case Some(h) =>
      if |buf| < FrameLength(h) then None
      else
        var body := buf[HEADER_SIZE..FrameLength(h)];
        if Crc.Crc32(0, body) != h.checksum then None
        else
          match codec.parse(body)
          case None => None
          case Some(p) => Some(Packet(h, p))
  }

  /** What a packet looks like on the wire, byte by byte. */
  lemma WireFormat<P(!new)>(codec: Codec<P>, p: P)
    ensures var s, body := Serialize(codec, p), codec.dump(p);
      && |s| == 16 + |body| && s[16..] == body
      && s[..8] == [0x41, 0x53, 0x43, 0x48, 0, 1, 0, 0]
      && BigEndianNumber(s[8..12], |body| % 0x1_0000_0000)
      && BigEndian(s[12..16], Crc.Crc32(0, body))
  {
    hide WriteU32, WriteU16, WriteLength, BigEndian, BigEndianNumber, Crc.Crc32;
    var s, body := Serialize(codec, p), codec.dump(p);
    var h := MakeHeader(body);
    MagicBytes();
    VersionOnWire();
    LengthOnWire(h.bodyLen);
    WordOnWire(h.checksum);
    assert s[8..12] == WriteLength(h.bodyLen) && s[12..16] == WriteU32(h.checksum);
    assert s[..8] == WriteU32(MAGIC) + WriteU16(VERSION) + WriteU16(0);
  }

  lemma VersionOnWire()
    ensures WriteU16(VERSION) == [0, 1] && WriteU16(0) == [0, 0]
  {}

  method SerializeInto<P(!new)>(codec: Codec<P>, crc: Crc.CrcTable, p: P, out: seq<byte>) returns (r: seq<byte>)
    requires crc.Valid()
    modifies crc`inited, crc.table
    ensures crc.Valid()
    ensures r == out + Serialize(codec, p)
  {
    var body := codec.dump(p);
    var checksum := crc.Compute(0, body);
    var header := TransportHeader(MAGIC, VERSION, 0, |body| % TWO_TO_THE_32, checksum);
    r := out + HeaderBytes(header);
    r := r + body;
  }

  method DeserializeFrom<P(!new)>(codec: Codec<P>, crc: Crc.CrcTable, buf: seq<byte>) returns (r: Option<Packet<P>>)
    requires crc.Valid()
    modifies crc`inited, crc.table
    ensures crc.Valid()
    ensures r == Deserialize(codec, buf)
  {
    hide FieldsOf, Acceptable;
    var h := ReadHeader(buf);
    if h.None? || |buf| < FrameLength(h.value) {
      return None;
    }
    var body := buf[HEADER_SIZE..FrameLength(h.value)];
    var actual := crc.Compute(0, body);
    if actual != h.value.checksum {
      return None;
    }
    var parsed := codec.parse(body);
    match parsed
    case None => r := None;
    case Some(p) => r := Some(Packet(h.value, p));
  }

  /** A frame made from `header` and any body of the announced length is accepted exactly when
      the body passes the checksum and parses. */
  lemma DeserializeFrame<P(!new)>(codec: Codec<P>, h: TransportHeader, body: seq<byte>)
    requires Acceptable(h) && h.bodyLen == |body|
    ensures ReadHeader(HeaderBytes(h) + body) == Some(h)
    ensures |HeaderBytes(h) + body| == FrameLength(h)
    ensures Deserialize(codec, HeaderBytes(h) + body) ==
      if Crc.Crc32(0, body) == h.checksum && codec.parse(body).Some?
      then Some(Packet(h, codec.parse(body).value)) else None
  {
    hide FieldsOf, Acceptable, HeaderBytes;
    HeaderRoundTrip(h, body);
    var frame := HeaderBytes(h) + body;
    assert frame[HEADER_SIZE..FrameLength(h)] == body;
  }

  lemma MadeHeaderAcceptable(body: seq<byte>)
    ensures Acceptable(MakeHeader(body))
    ensures MakeHeader(body).bodyLen == |body| % TWO_TO_THE_32
  {
  }

  /** The receiver sees the frame end where the sender ended it exactly when the encoded body
      fits the 32-bit length field; a longer body is announced modulo 2^32. */
  lemma FramingExact<P(!new)>(codec: Codec<P>, p: P)
    ensures ReadHeader(Serialize(codec, p)).Some?
    ensures FrameLength(ReadHeader(Serialize(codec, p)).value) == |Serialize(codec, p)|
      <==> |codec.dump(p)| < TWO_TO_THE_32
  {
    hide FieldsOf, Acceptable, HeaderBytes, MakeHeader;
    var body := codec.dump(p);
    MadeHeaderAcceptable(body);
    HeaderRoundTrip(MakeHeader(body), body);
  }

  lemma SerializeRoundTrip<P(!new)>(codec: Codec<P>, p: P)
    requires codec.Lawful() && |codec.dump(p)| < TWO_TO_THE_32
    ensures Deserialize(codec, Serialize(codec, p)) == Some(Packet(MakeHeader(codec.dump(p)), p))
  {
    hide FieldsOf, Acceptable, HeaderBytes;
    MadeHeaderAcceptable(codec.dump(p));
    DeserializeFrame(codec, MakeHeader(codec.dump(p)), codec.dump(p));
  }

  /** A frame whose body suffered a burst of up to 32 bits is always rejected. */
  lemma DamageRejected<P(!new)>(codec: Codec<P>, p: P, body: seq<byte>, at: nat)
    requires |codec.dump(p)| < TWO_TO_THE_32
    requires Crc.BurstApart(codec.dump(p), body, at)
    ensures Deserialize(codec, HeaderBytes(MakeHeader(codec.dump(p))) + body) == None
  {
    hide FieldsOf, Acceptable, HeaderBytes;
    MadeHeaderAcceptable(codec.dump(p));
    DeserializeFrame(codec, MakeHeader(codec.dump(p)), body);
    Crc.BurstDetected(0, codec.dump(p), body, at);
  }
}
