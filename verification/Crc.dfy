/** The checksum of the transport header.

    The reference is the bit-serial CRC register of RFC 1952, section 8: message bits enter
    one at a time, least significant bit of each byte first, into a 32-bit register with the
    reflected polynomial 0xEDB88320.  The program's byte-wise, table-driven form is proved
    equal to it, and the algebra of the register then gives the error-detection guarantee.

    Word operations carry names so that a proof can hide them and reason about the
    register only through the few laws it needs. */
module Crc {
  type byte = bv8

  const BURST_BITS := 32

  // ---------------------------------------------------------------- reference definition

  /** One message bit enters the register. */
  function FeedBit(reg: bv32, bit: bool): bv32 {
    if (reg & 1 == 1) != bit then (reg >> 1) ^ 0xEDB8_8320 else reg >> 1
  }

  function FeedBits(reg: bv32, bits: seq<bool>): bv32
    decreases bits
  {
    if bits == [] then reg else FeedBits(FeedBit(reg, bits[0]), bits[1..])
  }

  function ByteBits(b: byte): (bits: seq<bool>)
    ensures |bits| == 8
  {
    [b & 1 != 0, b & 2 != 0, b & 4 != 0, b & 8 != 0,
     b & 16 != 0, b & 32 != 0, b & 64 != 0, b & 128 != 0]
  }

  function Bits(data: seq<byte>): (bits: seq<bool>)
    ensures |bits| == 8 * |data|
  {
    if data == [] then [] else ByteBits(data[0]) + Bits(data[1..])
  }

  function Flip(c: bv32): bv32 {
    c ^ 0xFFFF_FFFF
  }

  /** The CRC-32 of `data`, continuing from the CRC `crc` of what came before. */
  function Crc32(crc: bv32, data: seq<byte>): bv32 {
    Flip(FeedBits(Flip(crc), Bits(data)))
  }

  // ---------------------------------------------------------------- the table-driven form

  /** One round of the table builder's inner loop. */
  function Shift(c: bv32): bv32 {
    if c & 1 == 1 then 0xEDB8_8320 ^ (c >> 1) else c >> 1
  }

  function Shifts(c: bv32, n: nat): bv32
    decreases n
  {
    if n == 0 then c else Shifts(Shift(c), n - 1)
  }

  function Index(reg: bv32, b: byte): byte {
    ((reg ^ (b as bv32)) & 0xFF) as bv8
  }

  function Combine(entry: bv32, reg: bv32): bv32 {
    entry ^ (reg >> 8)
  }

  function Wide(b: byte): bv32 {
    b as bv32
  }

  ghost predicate IsTable(table: seq<bv32>) {
    |table| == 256 && forall b: byte :: table[b as int] == Shifts(Wide(b), 8)
  }

  /** The function-local static table together with the flag that says it has been built. */
  class CrcTable {
    var inited: bool
    const table: array<bv32>

    ghost predicate Valid()
      reads this, table
    {
      table.Length == 256 && (inited ==> IsTable(table[..]))
    }

    constructor ()
      ensures Valid() && !inited && fresh(table)
    {
      inited := false;
      table := new bv32[256];
    }

    method Build()
      requires Valid()
      modifies this`inited, table
      ensures Valid() && inited
    {
      hide Shift;
      for i := 0 to 256
        invariant forall b: byte :: b as int < i ==> table[b as int] == Shifts(Wide(b), 8)
      {
        var c := Wide(i as bv8);
        for j := 0 to 8
          invariant Shifts(c, 8 - j) == Shifts(Wide(i as bv8), 8)
        {
          c := Shift(c);
        }
        table[i] := c;
      }
      inited := true;
    }

    /** The byte loop: one table look-up for each byte. */
    method Compute(crc: bv32, data: seq<byte>) returns (r: bv32)
      requires Valid()
      modifies this`inited, table
      ensures Valid() && inited
      ensures r == Crc32(crc, data)
    {
      hide Shift, FeedBit, Flip, Index, Combine, Wide, ByteBits;
      if !inited {
        Build();
      }
      var reg := Flip(crc);
      for i := 0 to |data|
        invariant Valid() && inited
        invariant reg == FeedBits(Flip(crc), Bits(data[..i]))
      {
        TableStep(reg, data[i]);
        BitsSnoc(data[..i], data[i]);
        assert data[..i] + [data[i]] == data[..i + 1];
        FeedBitsAppend(Flip(crc), Bits(data[..i]), ByteBits(data[i]));
        reg := Combine(table[Index(reg, data[i]) as int], reg);
      }
      assert data[..|data|] == data;
      r := Flip(reg);
    }
  }

  // ---------------------------------------------------------------- laws of single words

  function Xor(x: bv32, y: bv32): bv32 {
    x ^ y
  }

  function Half(y: bv32): bv32 {
    y >> 1
  }

  predicate Odd(y: bv32) {
    y & 1 == 1
  }

  /** A word whose low byte is `b` and whose other bytes are the low bytes of `high`. */
  function Join(b: byte, high: bv32): bv32 {
    (b as bv32) ^ (high << 8)
  }

  lemma FlipFlip(c: bv32)
    ensures Flip(Flip(c)) == c
  {}

  lemma FlipInjective(x: bv32, y: bv32)
    requires Flip(x) == Flip(y)
    ensures x == y
  {}

  lemma XorInjective(c: bv32, x: bv32, y: bv32)
    requires Xor(c, x) == Xor(c, y)
    ensures x == y
  {}

  lemma XorZero(x: bv32)
    ensures Xor(x, 0) == x
  {}

  lemma FeedBitInjective(x: bv32, y: bv32, bit: bool)
    requires FeedBit(x, bit) == FeedBit(y, bit)
    ensures x == y
  {}

  lemma FeedFalse(x: bv32)
    ensures FeedBit(x, false) == Shift(x)
  {}

  /** What waits in `y` above its lowest bit rides along unchanged while that bit is fed. */
  lemma ShiftXor(x: bv32, y: bv32)
    ensures Shift(Xor(x, y)) == Xor(FeedBit(x, Odd(y)), Half(y))
  {
    assert Odd(x ^ y) == (Odd(x) != Odd(y));
    assert (x ^ y) >> 1 == (x >> 1) ^ (y >> 1);
  }

  lemma JoinHalves(b: byte, high: bv32)
    requires high < 0x100_0000
    ensures ByteBits(b) == EightLow(Join(b, high)) && Half8(Join(b, high)) == high
  {}

  lemma JoinInjective(a: byte, x: bv32, b: byte, y: bv32)
    requires Join(a, x) == Join(b, y) && x < 0x100_0000 && y < 0x100_0000
    ensures a == b && x == y
  {
    hide Join;
    JoinParts(a, x);
    JoinParts(b, y);
  }

  lemma JoinParts(b: byte, high: bv32)
    requires high < 0x100_0000
    ensures (Join(b, high) & 0xFF) as bv8 == b && Join(b, high) >> 8 == high
  {}

  lemma JoinBound(b: byte, high: bv32)
    ensures high < 0x1_0000 ==> Join(b, high) < 0x100_0000
    ensures high < 0x100 ==> Join(b, high) < 0x1_0000
    ensures high == 0 ==> Join(b, high) < 0x100
    ensures Join(b, 0) == Wide(b)
  {}

  /** The register split into the byte that indexes the table and the rest. */
  lemma SplitIndex(reg: bv32, b: byte)
    ensures Xor(reg, Wide(b)) == Xor(Wide(Index(reg, b)), Join(0, reg >> 8))
    ensures reg >> 8 < 0x100_0000
    ensures forall c :: Combine(c, reg) == Xor(c, reg >> 8)
  {}

  // ---------------------------------------------------------------- algebra of the register

  /** The `n` low bits of a word, lowest first. */
  function LowBits(y: bv32, n: nat): (bits: seq<bool>)
    ensures |bits| == n
    decreases n
  {
    if n == 0 then [] else [Odd(y)] + LowBits(Half(y), n - 1)
  }

  function Halves(y: bv32, n: nat): bv32
    decreases n
  {
    if n == 0 then y else Halves(Half(y), n - 1)
  }

  /** Xoring a word in and shifting is feeding its bits; bits not yet fed stay linear. */
  lemma {:induction false} ShiftsXor(x: bv32, y: bv32, n: nat)
    ensures Shifts(Xor(x, y), n) == Xor(FeedBits(x, LowBits(y, n)), Halves(y, n))
    decreases n
  {
    hide Shift, Xor, FeedBit, Half, Odd;
    if n > 0 {
      ShiftXor(x, y);
      ShiftsXor(FeedBit(x, Odd(y)), Half(y), n - 1);
      assert LowBits(y, n)[1..] == LowBits(Half(y), n - 1);
    }
  }

  lemma {:induction false} LowBitsSplit(y: bv32, m: nat, n: nat)
    ensures LowBits(y, m + n) == LowBits(y, m) + LowBits(Halves(y, m), n)
    ensures Halves(y, m + n) == Halves(Halves(y, m), n)
    decreases m
  {
    hide Half, Odd;
    if m > 0 {
      LowBitsSplit(Half(y), m - 1, n);
      var low, high := LowBits(Half(y), m - 1), LowBits(Halves(y, m), n);
      assert [Odd(y)] + low + high == [Odd(y)] + (low + high);
    }
  }

  lemma {:induction false} FeedBitsAppend(reg: bv32, a: seq<bool>, b: seq<bool>)
    ensures FeedBits(reg, a + b) == FeedBits(FeedBits(reg, a), b)
    decreases a
  {
    hide FeedBit;
    if a == [] {
      assert a + b == b;
    } else {
      assert (a + b)[1..] == a[1..] + b;
      FeedBitsAppend(FeedBit(reg, a[0]), a[1..], b);
    }
  }

  lemma {:induction false} FeedBitsInjective(x: bv32, y: bv32, bits: seq<bool>)
    requires FeedBits(x, bits) == FeedBits(y, bits)
    ensures x == y
    decreases bits
  {
    hide FeedBit;
    if bits != [] {
      FeedBitsInjective(FeedBit(x, bits[0]), FeedBit(y, bits[0]), bits[1..]);
      FeedBitInjective(x, y, bits[0]);
    }
  }

  lemma {:induction false} BitsAppend(a: seq<byte>, b: seq<byte>)
    ensures Bits(a + b) == Bits(a) + Bits(b)
  {
    hide ByteBits;
    if a == [] {
      assert a + b == b;
    } else {
      assert (a + b)[1..] == a[1..] + b;
      BitsAppend(a[1..], b);
    }
  }

  lemma BitsSnoc(a: seq<byte>, b: byte)
    ensures Bits(a + [b]) == Bits(a) + ByteBits(b)
  {
    hide ByteBits;
    BitsAppend(a, [b]);
    assert Bits([b]) == ByteBits(b) + Bits([]);
  }

  function EightLow(y: bv32): seq<bool> {
    [Odd(y), Odd(Half(y)), Odd(Half(Half(y))), Odd(Half(Half(Half(y)))),
     Odd(Half(Half(Half(Half(y))))), Odd(Half(Half(Half(Half(Half(y)))))),
     Odd(Half(Half(Half(Half(Half(Half(y))))))), Odd(Half(Half(Half(Half(Half(Half(Half(y))))))))]
  }

  function Half8(y: bv32): bv32 {
    Half(Half(Half(Half(Half(Half(Half(Half(y))))))))
  }

  lemma LowBits8(y: bv32)
    ensures LowBits(y, 8) == EightLow(y) && Halves(y, 8) == Half8(y)
  {
    hide Half, Odd, LowBits, Halves;
    LowBits4(y);
    LowBits4(Half(Half(Half(Half(y)))));
    LowBitsSplit(y, 4, 4);
  }

  lemma LowBits4(y: bv32)
    ensures LowBits(y, 4) == [Odd(y), Odd(Half(y)), Odd(Half(Half(y))), Odd(Half(Half(Half(y))))]
    ensures Halves(y, 4) == Half(Half(Half(Half(y))))
  {
    hide Half, Odd;
    var y2 := Half(Half(y));
    assert LowBits(y2, 2) == [Odd(y2)] + LowBits(Half(y2), 1);
    assert LowBits(Half(y2), 1) == [Odd(Half(y2))] + LowBits(Half(Half(y2)), 0);
    assert LowBits(Half(y), 3) == [Odd(Half(y))] + LowBits(y2, 2);
    assert Halves(y, 4) == Halves(Half(y), 3) == Halves(y2, 2) == Halves(Half(y2), 1);
  }

  lemma JoinLowBits(b: byte, high: bv32)
    requires high < 0x100_0000
    ensures LowBits(Join(b, high), 8) == ByteBits(b) && Halves(Join(b, high), 8) == high
  {
    hide Half, Odd, Join, ByteBits, EightLow, Half8;
    LowBits8(Join(b, high));
    JoinHalves(b, high);
  }

  lemma {:induction false} FeedFalses(x: bv32, n: nat)
    ensures FeedBits(x, seq(n, _ => false)) == Shifts(x, n)
    decreases n
  {
    hide FeedBit, Shift;
    if n > 0 {
      FeedFalse(x);
      assert seq(n, _ => false)[1..] == seq(n - 1, _ => false);
      FeedFalses(Shift(x), n - 1);
    }
  }

  /** One table look-up does the work of eight register steps. */
  lemma TableStep(reg: bv32, b: byte)
    ensures Combine(Shifts(Wide(Index(reg, b)), 8), reg) == FeedBits(reg, ByteBits(b))
  {
    hide Shift, FeedBit, Xor, Half, Odd, Join, Combine, Index, Wide, ByteBits;
    var low, high := Wide(Index(reg, b)), reg >> 8;
    SplitIndex(reg, b);
    ShiftsXor(reg, Wide(b), 8);
    JoinBound(b, 0);
    JoinLowBits(b, 0);
    XorZero(FeedBits(reg, ByteBits(b)));
    ShiftsXor(low, Join(0, high), 8);
    JoinLowBits(0, high);
    ZeroByteBits();
    FeedFalses(low, 8);
  }

  lemma ZeroByteBits()
    ensures ByteBits(0) == seq(8, _ => false)
  {}

  /** The CRC of a whole is the CRC of its second part continued from that of the first. */
  lemma Crc32Incremental(crc: bv32, a: seq<byte>, b: seq<byte>)
    ensures Crc32(Crc32(crc, a), b) == Crc32(crc, a + b)
  {
    hide Flip, FeedBit, ByteBits;
    FlipFlip(FeedBits(Flip(crc), Bits(a)));
    BitsAppend(a, b);
    FeedBitsAppend(Flip(crc), Bits(a), Bits(b));
  }

  // ---------------------------------------------------------------- error detection

  function Word(v: seq<byte>): bv32
    requires |v| == 4
  {
    Join(v[0], Join(v[1], Join(v[2], Join(v[3], 0))))
  }

  lemma WordBits(v: seq<byte>)
    requires |v| == 4
    ensures LowBits(Word(v), 32) == Bits(v) && Halves(Word(v), 32) == 0
  {
    hide Half, Odd, Join, ByteBits, Halves, LowBits;
    var w3 := Join(v[3], 0);
    var w2 := Join(v[2], w3);
    var w1 := Join(v[1], w2);
    JoinBound(v[3], 0);
    JoinBound(v[2], w3);
    JoinBound(v[1], w2);
    JoinLowBits(v[3], 0);
    JoinLowBits(v[2], w3);
    JoinLowBits(v[1], w2);
    JoinLowBits(v[0], w1);
    LowBitsSplit(w2, 8, 8);
    LowBitsSplit(w1, 8, 16);
    LowBitsSplit(Word(v), 8, 24);
    assert v[1..][1..] == v[2..] && v[2..][1..] == v[3..] && v[3..][1..] == [];
    assert Bits(v[3..]) == ByteBits(v[3]) + Bits([]);
    assert Bits(v[2..]) == ByteBits(v[2]) + Bits(v[3..]);
    assert Bits(v[1..]) == ByteBits(v[1]) + Bits(v[2..]);
  }

  lemma WordInjective(v: seq<byte>, w: seq<byte>)
    requires |v| == |w| == 4 && Word(v) == Word(w)
    ensures v == w
  {
    hide Join;
    var v3, w3 := Join(v[3], 0), Join(w[3], 0);
    var v2, w2 := Join(v[2], v3), Join(w[2], w3);
    var v1, w1 := Join(v[1], v2), Join(w[1], w2);
    JoinBound(v[3], 0);
    JoinBound(v[2], v3);
    JoinBound(v[1], v2);
    JoinBound(w[3], 0);
    JoinBound(w[2], w3);
    JoinBound(w[1], w2);
    JoinInjective(v[0], v1, w[0], w1);
    JoinInjective(v[1], v2, w[1], w2);
    JoinInjective(v[2], v3, w[2], w3);
    JoinInjective(v[3], 0, w[3], 0);
  }

  lemma {:induction false} ShiftsInjective(x: bv32, y: bv32, n: nat)
    requires Shifts(x, n) == Shifts(y, n)
    ensures x == y
    decreases n
  {
    hide Shift, FeedBit;
    if n > 0 {
      ShiftsInjective(Shift(x), Shift(y), n - 1);
      FeedFalse(x);
      FeedFalse(y);
      FeedBitInjective(x, y, false);
    }
  }

  /** From one register state, four bytes reach every state at most once. */
  lemma FourBytesInjective(reg: bv32, v: seq<byte>, w: seq<byte>)
    requires |v| == |w| == 4 && FeedBits(reg, Bits(v)) == FeedBits(reg, Bits(w))
    ensures v == w
  {
    hide Shift, FeedBit, Xor, Half, Odd, Word, ByteBits, Shifts, Halves, LowBits, FeedBits, Bits;
    WordBits(v);
    WordBits(w);
    ShiftsXor(reg, Word(v), 32);
    ShiftsXor(reg, Word(w), 32);
    ShiftsInjective(Xor(reg, Word(v)), Xor(reg, Word(w)), 32);
    XorInjective(reg, Word(v), Word(w));
    WordInjective(v, w);
  }

  /** The byte with the given eight bits. */
  function ByteOfBits(s: seq<bool>): (b: byte)
    requires |s| == 8
    ensures ByteBits(b) == s
  {
    ByteOfEight(s[0], s[1], s[2], s[3], s[4], s[5], s[6], s[7])
  }

  function ByteOfEight(s0: bool, s1: bool, s2: bool, s3: bool,
                       s4: bool, s5: bool, s6: bool, s7: bool): (b: byte)
    ensures (b & 1 != 0) == s0 && (b & 2 != 0) == s1 && (b & 4 != 0) == s2 && (b & 8 != 0) == s3
    ensures (b & 16 != 0) == s4 && (b & 32 != 0) == s5 && (b & 64 != 0) == s6 && (b & 128 != 0) == s7
  {
    (if s0 then 1 else 0) | (if s1 then 2 else 0) | (if s2 then 4 else 0)
    | (if s3 then 8 else 0) | (if s4 then 16 else 0) | (if s5 then 32 else 0)
    | (if s6 then 64 else 0) | (if s7 then 128 else 0)
  }

  function WindowBytes(w: seq<bool>): (v: seq<byte>)
    requires |w| == BURST_BITS
    ensures |v| == 4
  {
    [ByteOfBits(w[..8]), ByteOfBits(w[8..16]), ByteOfBits(w[16..24]), ByteOfBits(w[24..])]
  }

  lemma BytesOfWindow(w: seq<bool>)
    requires |w| == BURST_BITS
    ensures Bits(WindowBytes(w)) == w
  {
    hide ByteBits, ByteOfBits;
    var v := WindowBytes(w);
    assert v[1..][1..] == v[2..] && v[2..][1..] == v[3..] && v[3..][1..] == [];
    assert Bits(v[3..]) == ByteBits(v[3]) + Bits([]);
    assert Bits(v[2..]) == ByteBits(v[2]) + Bits(v[3..]);
    assert Bits(v[1..]) == ByteBits(v[1]) + Bits(v[2..]);
  }

  /** Any window of at most 32 bits leaves its own mark on the register. */
  lemma WindowInjective(reg: bv32, v: seq<bool>, w: seq<bool>)
    requires |v| == |w| <= BURST_BITS && FeedBits(reg, v) == FeedBits(reg, w)
    ensures v == w
  {
    hide FeedBit, FeedBits, WindowBytes;
    var pad := seq(BURST_BITS - |v|, _ => false);
    FeedBitsAppend(reg, v, pad);
    FeedBitsAppend(reg, w, pad);
    BytesOfWindow(v + pad);
    BytesOfWindow(w + pad);
    FourBytesInjective(reg, WindowBytes(v + pad), WindowBytes(w + pad));
    assert v == (v + pad)[..|v|] && w == (w + pad)[..|w|];
  }

  /** Two messages that differ, and only inside 32 consecutive bits starting at bit `at`. */
  ghost predicate BurstApart(a: seq<byte>, b: seq<byte>, at: nat) {
    && |a| == |b| && a != b
    && forall i :: 0 <= i < 8 * |a| && !(at <= i < at + BURST_BITS) ==> Bits(a)[i] == Bits(b)[i]
  }

  /** No burst of up to 32 bits can hide from the checksum, wherever it starts. */
  lemma BurstDetected(crc: bv32, a: seq<byte>, b: seq<byte>, at: nat)
    requires BurstApart(a, b, at)
    ensures Crc32(crc, a) != Crc32(crc, b)
  {
    hide Flip, FeedBit, FeedBits, ByteBits;
    var x, y, reg := Bits(a), Bits(b), Flip(crc);
    var lo := if at < |x| then at else |x|;
    var hi := if at + BURST_BITS < |x| then at + BURST_BITS else |x|;
    assert x == x[..lo] + x[lo..hi] + x[hi..];
    assert y == x[..lo] + y[lo..hi] + x[hi..];
    if Crc32(crc, a) == Crc32(crc, b) {
      FlipInjective(FeedBits(reg, x), FeedBits(reg, y));
      WindowDetected(reg, x[..lo], x[lo..hi], y[lo..hi], x[hi..]);
      BitsInjective(a, b);
    }
  }

  /** Two streams that differ only inside one window of at most 32 bits end differently. */
  lemma WindowDetected(reg: bv32, p: seq<bool>, v: seq<bool>, w: seq<bool>, s: seq<bool>)
    requires |v| == |w| <= BURST_BITS
    requires FeedBits(reg, p + v + s) == FeedBits(reg, p + w + s)
    ensures v == w
  {
    hide FeedBit, FeedBits;
    SplitFeed(reg, p, v, s);
    SplitFeed(reg, p, w, s);
    var before := FeedBits(reg, p);
    FeedBitsInjective(FeedBits(before, v), FeedBits(before, w), s);
    WindowInjective(before, v, w);
  }

  lemma SplitFeed(reg: bv32, p: seq<bool>, w: seq<bool>, s: seq<bool>)
    ensures FeedBits(reg, p + w + s) == FeedBits(FeedBits(FeedBits(reg, p), w), s)
  {
    hide FeedBit;
    FeedBitsAppend(reg, p + w, s);
    FeedBitsAppend(reg, p, w);
  }

  lemma {:induction false} BitsInjective(a: seq<byte>, b: seq<byte>)
    requires |a| == |b| && Bits(a) == Bits(b)
    ensures a == b
  {
    hide ByteBits;
    if a != [] {
      assert Bits(a)[8..] == Bits(a[1..]) && Bits(b)[8..] == Bits(b[1..]);
      BitsInjective(a[1..], b[1..]);
      assert Bits(a)[..8] == ByteBits(a[0]) && Bits(b)[..8] == ByteBits(b[0]);
      ByteBitsInjective(a[0], b[0]);
      assert a == [a[0]] + a[1..] && b == [b[0]] + b[1..];
    }
  }

  lemma ByteBitsInjective(a: byte, b: byte)
    requires ByteBits(a) == ByteBits(b)
    ensures a == b
  {
    var s, t := ByteBits(a), ByteBits(b);
    assert s[0] == t[0] && s[1] == t[1] && s[2] == t[2] && s[3] == t[3];
    assert s[4] == t[4] && s[5] == t[5] && s[6] == t[6] && s[7] == t[7];
  }

  lemma {:induction false} BitAt(a: seq<byte>, i: nat)
    requires i < 8 * |a|
    ensures Bits(a)[i] == ByteBits(a[i / 8])[i % 8]
  {
    hide ByteBits;
    if i >= 8 {
      BitAt(a[1..], i - 8);
      assert Bits(a)[i] == Bits(a[1..])[i - 8];
    }
  }

  /** Changing bytes only inside four consecutive ones is such a burst. */
  lemma FourBytesAreABurst(a: seq<byte>, b: seq<byte>, at: nat)
    requires |a| == |b| && a != b
    requires forall i :: 0 <= i < |a| && !(at <= i < at + 4) ==> a[i] == b[i]
    ensures BurstApart(a, b, 8 * at)
  {
    hide ByteBits, Bits;
    forall i | 0 <= i < 8 * |a| && !(8 * at <= i < 8 * at + BURST_BITS)
      ensures Bits(a)[i] == Bits(b)[i]
    {
      BitAt(a, i);
      BitAt(b, i);
    }
  }
}
