/** The checksum as it is defined: the remainder of a polynomial division over the field of two
    elements.  Nothing here refers to words but through their single bits, so the generator, the
    order of the bits and the two inversions are fixed independently of the register code. */
module Polynomial {
  import Crc

  type byte = Crc.byte

  /** A polynomial is the set of its exponents. */
  type Poly = set<nat>

  /** x^32 + x^26 + x^23 + ... + x + 1, the generator of IEEE 802.3. */
  const GENERATOR: Poly := {32, 26, 23, 22, 16, 12, 11, 10, 8, 7, 5, 4, 2, 1, 0}

  function Add(p: Poly, q: Poly): Poly {
    (p - q) + (q - p)
  }

  function TimesX(p: Poly): Poly {
    set k | k in p :: k + 1
  }

  /** The product of the generator with the polynomial whose coefficients are `q`, highest first. */
  function Multiple(q: seq<bool>): Poly {
    if q == [] then {}
    else
      var n := |q| - 1;
      Add(TimesX(Multiple(q[..n])), if q[n] then GENERATOR else {})
  }

  /** The coefficient of a word's bit `i`, counted from the lowest. */
  predicate Bit(w: bv32, i: nat) {
    Crc.Odd(Crc.Halves(w, i))
  }

  /** The lowest bit of a register is the coefficient of x^31. */
  predicate Coefficient(reg: bv32, k: nat) {
    k < 32 && Bit(reg, 31 - k)
  }

  function RegisterPoly(reg: bv32): Poly {
    set k: nat | k < 32 && Coefficient(reg, k)
  }

  /** The product of `p` and x^n. */
  function Raised(p: Poly, n: nat): Poly {
    set k | k in p :: k + n
  }

  /** The message, its first bit the highest coefficient, followed by 32 zeros. */
  function MessagePoly(bits: seq<bool>): Poly {
    set i: nat | i < |bits| && bits[i] :: 32 + (|bits| - 1 - i)
  }

  /** What is divided: the start value is added to the first 32 coefficients of the message. */
  function Dividend(start: Poly, bits: seq<bool>): Poly {
    Add(Raised(start, |bits|), MessagePoly(bits))
  }

  /** `r` is the remainder of `p` divided by the generator, and `q` the quotient. */
  predicate Divides(p: Poly, q: seq<bool>, r: Poly) {
    p == Add(Multiple(q), r) && forall k :: k in r ==> k < 32
  }

  // ---------------------------------------------------------------- bits of words

  lemma {:induction false} BitOfXor(x: bv32, y: bv32, i: nat)
    ensures Bit(Crc.Xor(x, y), i) == (Bit(x, i) != Bit(y, i))
    decreases i
  {
    hide Crc.Half, Crc.Odd, Crc.Xor;
    XorParts(x, y);
    if i > 0 {
      BitOfXor(Crc.Half(x), Crc.Half(y), i - 1);
    }
  }

  lemma XorParts(x: bv32, y: bv32)
    ensures Crc.Odd(Crc.Xor(x, y)) == (Crc.Odd(x) != Crc.Odd(y))
    ensures Crc.Half(Crc.Xor(x, y)) == Crc.Xor(Crc.Half(x), Crc.Half(y))
  {}

  lemma {:induction false} BitInList(w: bv32, n: nat, i: nat)
    requires i < n
    ensures Crc.LowBits(w, n)[i] == Bit(w, i)
    decreases i
  {
    hide Crc.Half, Crc.Odd;
    if i > 0 {
      BitInList(Crc.Half(w), n - 1, i - 1);
    }
  }

  lemma AllShiftedOut(w: bv32)
    ensures Crc.Halves(w, 32) == 0 && !Bit(w, 32)
  {
    hide Crc.Half, Crc.Odd, Crc.Halves;
    Crc.LowBitsSplit(w, 16, 16);
    Crc.LowBitsSplit(w, 8, 8);
    Crc.LowBitsSplit(Crc.Halves(w, 16), 8, 8);
    Crc.LowBits8(w);
    Crc.LowBits8(Crc.Halves(w, 8));
    Crc.LowBits8(Crc.Halves(w, 16));
    Crc.LowBits8(Crc.Halves(Crc.Halves(w, 16), 8));
    ShiftedOut(w);
  }

  lemma ShiftedOut(w: bv32)
    ensures Crc.Half8(Crc.Half8(Crc.Half8(Crc.Half8(w)))) == 0 && !Crc.Odd(0)
  {}

  // ---------------------------------------------------------------- one message bit

  /** The word that the register code xors in is the generator without its highest term. */
  lemma GeneratorWord(k: nat)
    requires k < 32
    ensures Bit(0xEDB8_8320, 31 - k) <==> k in GENERATOR
  {
    hide Crc.Half, Crc.Odd, Crc.Halves, Crc.LowBits, Bit, Crc.EightLow, Crc.Half8;
    var w: bv32 := 0xEDB8_8320;
    Crc.LowBitsSplit(w, 8, 24);
    Crc.LowBitsSplit(Crc.Halves(w, 8), 8, 16);
    Crc.LowBitsSplit(Crc.Halves(w, 16), 8, 8);
    Crc.LowBitsSplit(w, 8, 8);
    Crc.LowBitsSplit(w, 16, 8);
    Crc.LowBits8(w);
    Crc.LowBits8(Crc.Halves(w, 8));
    Crc.LowBits8(Crc.Halves(w, 16));
    Crc.LowBits8(Crc.Halves(w, 24));
    GeneratorBytes();
    BitInList(w, 32, 31 - k);
  }

  lemma GeneratorBytes()
    ensures Crc.Half8(0xEDB8_8320) == 0xED_B883 && Crc.Half8(0xED_B883) == 0xEDB8 && Crc.Half8(0xEDB8) == 0xED
    ensures Crc.EightLow(0xEDB8_8320) == [false, false, false, false, false, true, false, false]
    ensures Crc.EightLow(0xED_B883) == [true, true, false, false, false, false, false, true]
    ensures Crc.EightLow(0xEDB8) == [false, false, false, true, true, true, false, true]
    ensures Crc.EightLow(0xED) == [true, false, true, true, false, true, true, true]
  {}

  /** One step of the register is one step of the long division: multiply by x, bring in the next
      message bit at x^32, and take the generator away when x^32 appears. */
  lemma FeedIsDivision(reg: bv32, bit: bool)
    ensures var t := Add(TimesX(RegisterPoly(reg)), if bit then {32} else {});
      RegisterPoly(Crc.FeedBit(reg, bit)) == if 32 in t then Add(t, GENERATOR) else t
  {
    hide Crc.FeedBit, Bit, Crc.Xor, Crc.Half, Crc.Odd;
    var t := Add(TimesX(RegisterPoly(reg)), if bit then {32} else {});
    var next := Crc.FeedBit(reg, bit);
    var low := Bit(reg, 0);
    assert 31 in RegisterPoly(reg) <==> Coefficient(reg, 31);
    assert 32 in t <==> low != bit;
    forall k: nat
      ensures k in RegisterPoly(next) <==> k in if 32 in t then Add(t, GENERATOR) else t
    {
      if k < 32 {
        FedBit(reg, bit, 31 - k);
        GeneratorWord(k);
        if k == 0 {
          AllShiftedOut(reg);
        } else {
          assert k - 1 in RegisterPoly(reg) <==> Coefficient(reg, k - 1);
        }
        assert k in RegisterPoly(next) <==> Coefficient(next, k);
      }
    }
  }

  lemma FedBit(reg: bv32, bit: bool, i: nat)
    ensures Bit(Crc.FeedBit(reg, bit), i) == (Bit(reg, i + 1) != (Bit(reg, 0) != bit && Bit(0xEDB8_8320, i)))
  {
    assert Crc.Odd(reg) == Bit(reg, 0) && Bit(Crc.Half(reg), i) == Bit(reg, i + 1);
    FedWord(reg, bit);
    BitOfXor(Crc.Half(reg), 0xEDB8_8320, i);
  }

  lemma FedWord(reg: bv32, bit: bool)
    ensures Crc.FeedBit(reg, bit) ==
      if Crc.Odd(reg) != bit then Crc.Xor(Crc.Half(reg), 0xEDB8_8320) else Crc.Half(reg)
  {}

  // ---------------------------------------------------------------- a whole message

  lemma MoreRaised(p: Poly, n: nat)
    ensures Raised(p, n + 1) == TimesX(Raised(p, n))
  {
    forall k | k in p
      ensures k + (n + 1) in TimesX(Raised(p, n))
    {
      assert k + n in Raised(p, n);
    }
  }

  lemma InMessage(bits: seq<bool>, k: nat)
    ensures k in MessagePoly(bits) <==> 32 <= k < 32 + |bits| && bits[31 + |bits| - k]
  {
    if 32 <= k < 32 + |bits| && bits[31 + |bits| - k] {
      var i := 31 + |bits| - k;
      assert bits[i] && k == 32 + (|bits| - 1 - i);
    }
  }

  lemma InTimesX(p: Poly, k: nat)
    ensures k in TimesX(p) <==> k > 0 && k - 1 in p
  {}

  lemma MoreMessage(bits: seq<bool>, bit: bool)
    ensures MessagePoly(bits + [bit]) == Add(TimesX(MessagePoly(bits)), if bit then {32} else {})
  {
    hide MessagePoly, TimesX;
    var before, after := MessagePoly(bits), MessagePoly(bits + [bit]);
    forall k: nat
      ensures k in after <==> (k in TimesX(before)) != (bit && k == 32)
    {
      InMessage(bits + [bit], k);
      InTimesX(before, k);
      if k > 0 {
        InMessage(bits, k - 1);
      }
    }
  }

  lemma MoreDividend(start: Poly, bits: seq<bool>, bit: bool)
    ensures Dividend(start, bits + [bit]) == Add(TimesX(Dividend(start, bits)), if bit then {32} else {})
  {
    hide Raised, MessagePoly, TimesX;
    MoreRaised(start, |bits|);
    MoreMessage(bits, bit);
    TimesXAdd(Raised(start, |bits|), MessagePoly(bits));
  }

  lemma TimesXAdd(p: Poly, q: Poly)
    ensures TimesX(Add(p, q)) == Add(TimesX(p), TimesX(q))
  {
    assert forall k: nat :: k in TimesX(p) <==> k >= 1 && k - 1 in p;
    assert forall k: nat :: k in TimesX(q) <==> k >= 1 && k - 1 in q;
    assert forall k: nat :: k in TimesX(Add(p, q)) <==> k >= 1 && k - 1 in Add(p, q);
  }

  /** The register holds the remainder of everything fed so far. */
  lemma {:induction false} Quotient(reg: bv32, bits: seq<bool>) returns (q: seq<bool>)
    ensures |q| == |bits|
    ensures Divides(Dividend(RegisterPoly(reg), bits), q, RegisterPoly(Crc.FeedBits(reg, bits)))
    decreases |bits|
  {
    hide Crc.FeedBit, RegisterPoly;
    if bits == [] {
      q := [];
      DividendOfNothing(RegisterPoly(reg));
      RegisterDegree(reg);
    } else {
      var n := |bits| - 1;
      var before, bit := bits[..n], bits[n];
      assert bits == before + [bit];
      var mid := Crc.FeedBits(reg, before);
      var rest := Quotient(reg, before);
      Crc.FeedBitsAppend(reg, before, [bit]);
      assert Crc.FeedBits(mid, [bit]) == Crc.FeedBit(mid, bit);
      MoreDividend(RegisterPoly(reg), before, bit);
      FeedIsDivision(mid, bit);
      RegisterDegree(Crc.FeedBit(mid, bit));
      var t := Add(TimesX(RegisterPoly(mid)), if bit then {32} else {});
      q := rest + [32 in t];
      assert q[..n] == rest;
      TimesXAdd(Multiple(rest), RegisterPoly(mid));
      hide Multiple, TimesX;
      Regroup(TimesX(Multiple(rest)), TimesX(RegisterPoly(mid)), if bit then {32} else {},
              if 32 in t then GENERATOR else {}, RegisterPoly(Crc.FeedBit(mid, bit)));
      assert Multiple(q) == Add(TimesX(Multiple(rest)), if 32 in t then GENERATOR else {}) by {
        LastTerm(q);
      }
    }
  }

  lemma LastTerm(q: seq<bool>)
    requires q != []
    ensures var n := |q| - 1; Multiple(q) == Add(TimesX(Multiple(q[..n])), if q[n] then GENERATOR else {})
  {}

  lemma Regroup(m: Poly, r: Poly, b: Poly, g: Poly, next: Poly)
    requires next == Add(Add(r, b), g)
    ensures Add(Add(m, r), b) == Add(Add(m, g), next)
  {}

  lemma DividendOfNothing(start: Poly)
    ensures Dividend(start, []) == start == Add(Multiple([]), start)
  {
    assert forall k :: k in start ==> k + 0 in Raised(start, 0);
    assert Raised(start, 0) == start;
  }

  lemma RegisterDegree(reg: bv32)
    ensures forall k :: k in RegisterPoly(reg) ==> k < 32
  {}

  // ---------------------------------------------------------------- only one remainder

  /** The difference of two quotients of the same length. */
  function Differences(a: seq<bool>, b: seq<bool>): (d: seq<bool>)
    requires |a| == |b|
    ensures |d| == |a|
  {
    seq(|a|, i requires 0 <= i < |a| => a[i] != b[i])
  }

  lemma {:induction false} MultipleLinear(a: seq<bool>, b: seq<bool>)
    requires |a| == |b|
    ensures Multiple(Differences(a, b)) == Add(Multiple(a), Multiple(b))
    decreases |a|
  {
    if a != [] {
      hide Multiple, TimesX, Add;
      var n := |a| - 1;
      MultipleLinear(a[..n], b[..n]);
      assert Differences(a, b)[..n] == Differences(a[..n], b[..n]);
      LastTerm(a);
      LastTerm(b);
      LastTerm(Differences(a, b));
      TimesXAdd(Multiple(a[..n]), Multiple(b[..n]));
      SumOfTerms(a[n], b[n]);
      SumOfSums(TimesX(Multiple(a[..n])), if a[n] then GENERATOR else {},
                TimesX(Multiple(b[..n])), if b[n] then GENERATOR else {});
    }
  }

  lemma SumOfTerms(a: bool, b: bool)
    ensures Add(if a then GENERATOR else {}, if b then GENERATOR else {}) == if a != b then GENERATOR else {}
  {}

  lemma SumOfSums(a: Poly, g: Poly, b: Poly, h: Poly)
    ensures Add(Add(a, g), Add(b, h)) == Add(Add(a, b), Add(g, h))
  {}

  /** A multiple that is not zero reaches x^32 at least: its first coefficient that is set is
      never cancelled. */
  lemma {:induction false} MultipleReaches(q: seq<bool>, i: nat)
    requires i < |q| && q[i] && forall j :: 0 <= j < i ==> !q[j]
    ensures 31 + |q| - i in Multiple(q)
    ensures forall k :: k in Multiple(q) ==> k <= 31 + |q| - i
    decreases |q|
  {
    hide Multiple, TimesX;
    var n := |q| - 1;
    var before := Multiple(q[..n]);
    LastTerm(q);
    if i == n {
      NoMultiple(q[..n]);
    } else {
      MultipleReaches(q[..n], i);
    }
    InTimesX(before, 31 + |q| - i);
    forall k | k in Multiple(q)
      ensures k <= 31 + |q| - i
    {
      InTimesX(before, k);
    }
  }

  lemma {:induction false} NoMultiple(q: seq<bool>)
    requires forall j :: 0 <= j < |q| ==> !q[j]
    ensures Multiple(q) == {}
    decreases |q|
  {
    if q != [] {
      NoMultiple(q[..|q| - 1]);
    }
  }

  /** A division has one quotient and one remainder. */
  lemma DivisionUnique(p: Poly, q: seq<bool>, r: Poly, q': seq<bool>, r': Poly)
    requires |q| == |q'| && Divides(p, q, r) && Divides(p, q', r')
    ensures q == q' && r == r'
  {
    var d := Differences(q, q');
    MultipleLinear(q, q');
    SameDividend(Multiple(q), r, Multiple(q'), r');
    if q != q' {
      var i := FirstSet(d, q, q');
      MultipleReaches(d, i);
    }
  }

  lemma SameDividend(m: Poly, r: Poly, m': Poly, r': Poly)
    requires Add(m, r) == Add(m', r')
    ensures Add(m, m') == Add(r, r')
    ensures m == m' ==> r == r'
  {}

  lemma FirstSet(d: seq<bool>, a: seq<bool>, b: seq<bool>) returns (i: nat)
    requires |a| == |b| && a != b && d == Differences(a, b)
    ensures i < |d| && d[i] && forall j :: 0 <= j < i ==> !d[j]
  {
    var apart: nat :| apart < |a| && a[apart] != b[apart];
    i := 0;
    while !d[i]
      invariant i <= apart && forall j :: 0 <= j < i ==> !d[j]
      decreases apart - i
    {
      i := i + 1;
    }
  }

  lemma {:induction false} WordOfBits(x: bv32, y: bv32, n: nat)
    requires Crc.LowBits(x, n) == Crc.LowBits(y, n) && Crc.Halves(x, n) == Crc.Halves(y, n)
    ensures x == y
    decreases n
  {
    hide Crc.Half, Crc.Odd;
    if n > 0 {
      assert Crc.LowBits(x, n)[0] == Crc.LowBits(y, n)[0];
      assert Crc.LowBits(x, n)[1..] == Crc.LowBits(y, n)[1..];
      WordOfBits(Crc.Half(x), Crc.Half(y), n - 1);
      OddAndHalf(x, y);
    }
  }

  lemma OddAndHalf(x: bv32, y: bv32)
    requires Crc.Odd(x) == Crc.Odd(y) && Crc.Half(x) == Crc.Half(y)
    ensures x == y
  {}

  lemma RegisterPolyInjective(x: bv32, y: bv32)
    requires RegisterPoly(x) == RegisterPoly(y)
    ensures x == y
  {
    hide Bit, Crc.LowBits, Crc.Halves;
    forall i | 0 <= i < 32
      ensures Crc.LowBits(x, 32)[i] == Crc.LowBits(y, 32)[i]
    {
      BitInList(x, 32, i);
      BitInList(y, 32, i);
      assert 31 - i in RegisterPoly(x) <==> Coefficient(x, 31 - i);
      assert 31 - i in RegisterPoly(y) <==> Coefficient(y, 31 - i);
    }
    AllShiftedOut(x);
    AllShiftedOut(y);
    WordOfBits(x, y, 32);
  }

  // ---------------------------------------------------------------- the checksum

  ghost predicate IsRemainder(p: Poly, n: nat, r: Poly) {
    exists q :: |q| == n && Divides(p, q, r)
  }

  lemma RegisterIsRemainder(start: bv32, bits: seq<bool>, w: bv32)
    ensures w == Crc.FeedBits(start, bits) <==>
      IsRemainder(Dividend(RegisterPoly(start), bits), |bits|, RegisterPoly(w))
  {
    hide Crc.FeedBits, RegisterPoly, Divides, Dividend;
    var p, rest := Dividend(RegisterPoly(start), bits), Crc.FeedBits(start, bits);
    var q := Quotient(start, bits);
    if q' :| |q'| == |bits| && Divides(p, q', RegisterPoly(w)) {
      DivisionUnique(p, q, RegisterPoly(rest), q', RegisterPoly(w));
      RegisterPolyInjective(rest, w);
    }
  }

  /** The checksum is the one word whose complement is the remainder, by the generator, of the
      message with the complement of the start value in front. */
  lemma ChecksumIsRemainder(crc: bv32, data: seq<byte>, r: bv32)
    ensures r == Crc.Crc32(crc, data) <==>
      IsRemainder(Dividend(RegisterPoly(crc ^ 0xFFFF_FFFF), Crc.Bits(data)), 8 * |data|,
                  RegisterPoly(r ^ 0xFFFF_FFFF))
  {
    hide Crc.FeedBits, Crc.Bits, RegisterPoly, IsRemainder, Dividend;
    assert crc ^ 0xFFFF_FFFF == Crc.Flip(crc) && r ^ 0xFFFF_FFFF == Crc.Flip(r);
    hide Crc.Flip;
    RegisterIsRemainder(Crc.Flip(crc), Crc.Bits(data), Crc.Flip(r));
    Crc.FlipFlip(r);
    Crc.FlipFlip(Crc.FeedBits(Crc.Flip(crc), Crc.Bits(data)));
  }

  /** The check value of the catalogues: the checksum of the text "123456789". */
  lemma CheckValue()
    ensures Crc.Crc32(0, [0x31, 0x32, 0x33, 0x34, 0x35, 0x36, 0x37, 0x38, 0x39]) == 0xCBF4_3926
  {
    hide Crc.FeedBits, Crc.Bits, Crc.ByteBits, FeedByte;
    var s: seq<byte> := [0x31, 0x32, 0x33, 0x34, 0x35, 0x36, 0x37, 0x38, 0x39];
    CheckSteps();
    Unfed(0xFFFF_FFFF, s);
    Fed(0xFFFF_FFFF, s, 0, 0x7C23_1048);
    Fed(0xFFFF_FFFF, s, 1, 0xB0AC_BB32);
    Fed(0xFFFF_FFFF, s, 2, 0x77B7_9C2D);
    Fed(0xFFFF_FFFF, s, 3, 0x641C_1F5C);
    Fed(0xFFFF_FFFF, s, 4, 0x340A_C5E3);
    Fed(0xFFFF_FFFF, s, 5, 0xF68D_2C9E);
    Fed(0xFFFF_FFFF, s, 6, 0xAFFC_9660);
    Fed(0xFFFF_FFFF, s, 7, 0x651F_2550);
    Fed(0xFFFF_FFFF, s, 8, 0x340B_C6D9);
    assert s[..9] == s;
  }

  lemma Unfed(reg: bv32, s: seq<byte>)
    ensures Crc.FeedBits(reg, Crc.Bits(s[..0])) == reg
  {}

  lemma Fed(reg: bv32, s: seq<byte>, i: nat, after: bv32)
    requires i < |s| && FeedByte(Crc.FeedBits(reg, Crc.Bits(s[..i])), s[i]) == after
    ensures Crc.FeedBits(reg, Crc.Bits(s[..i + 1])) == after
  {
    hide Crc.ByteBits, Crc.FeedBit, FeedByte;
    assert s[..i + 1] == s[..i] + [s[i]];
    Crc.BitsSnoc(s[..i], s[i]);
    Crc.FeedBitsAppend(reg, Crc.Bits(s[..i]), Crc.ByteBits(s[i]));
    FedByte(Crc.FeedBits(reg, Crc.Bits(s[..i])), s[i]);
  }

  function FeedByte(reg: bv32, b: byte): bv32 {
    var r4 := FeedFour(reg, b & 1 != 0, b & 2 != 0, b & 4 != 0, b & 8 != 0);
    FeedFour(r4, b & 16 != 0, b & 32 != 0, b & 64 != 0, b & 128 != 0)
  }

  function FeedFour(reg: bv32, a: bool, b: bool, c: bool, d: bool): bv32 {
    Crc.FeedBit(Crc.FeedBit(Crc.FeedBit(Crc.FeedBit(reg, a), b), c), d)
  }

  lemma FedFour(reg: bv32, a: bool, b: bool, c: bool, d: bool)
    ensures Crc.FeedBits(reg, [a, b, c, d]) == FeedFour(reg, a, b, c, d)
  {
    hide Crc.FeedBit;
    var r1 := Crc.FeedBit(reg, a);
    var r2 := Crc.FeedBit(r1, b);
    var r3 := Crc.FeedBit(r2, c);
    assert [a, b, c, d][1..] == [b, c, d] && [b, c, d][1..] == [c, d] && [c, d][1..] == [d] && [d][1..] == [];
    assert Crc.FeedBits(r3, [d]) == Crc.FeedBit(r3, d);
    assert Crc.FeedBits(r2, [c, d]) == Crc.FeedBits(r3, [d]);
    assert Crc.FeedBits(r1, [b, c, d]) == Crc.FeedBits(r2, [c, d]);
  }

  lemma FedByte(reg: bv32, b: byte)
    ensures Crc.FeedBits(reg, Crc.ByteBits(b)) == FeedByte(reg, b)
  {
    hide Crc.FeedBit, Crc.FeedBits, FeedFour;
    var bits := Crc.ByteBits(b);
    assert bits == bits[..4] + bits[4..];
    assert bits[..4] == [bits[0], bits[1], bits[2], bits[3]] && bits[4..] == [bits[4], bits[5], bits[6], bits[7]];
    FedFour(reg, bits[0], bits[1], bits[2], bits[3]);
    FedFour(FeedFour(reg, bits[0], bits[1], bits[2], bits[3]), bits[4], bits[5], bits[6], bits[7]);
    Crc.FeedBitsAppend(reg, bits[..4], bits[4..]);
  }

  lemma CheckSteps()
    ensures FeedByte(0xFFFF_FFFF, 0x31) == 0x7C23_1048 && FeedByte(0x7C23_1048, 0x32) == 0xB0AC_BB32
    ensures FeedByte(0xB0AC_BB32, 0x33) == 0x77B7_9C2D && FeedByte(0x77B7_9C2D, 0x34) == 0x641C_1F5C
    ensures FeedByte(0x641C_1F5C, 0x35) == 0x340A_C5E3 && FeedByte(0x340A_C5E3, 0x36) == 0xF68D_2C9E
    ensures FeedByte(0xF68D_2C9E, 0x37) == 0xAFFC_9660 && FeedByte(0xAFFC_9660, 0x38) == 0x651F_2550
    ensures FeedByte(0x651F_2550, 0x39) == 0x340B_C6D9
  {}
}
