/**
 * The checksum register as a 32-bit word with shift and XOR, which fixes the generator 0x04C11DB7, the start
 * value and the order of the bits (power_ecu_com_common.cpp:36-64), and lets checksums be computed.
 */
module CrcWords {
  import opened Octets
  import opened Crc32

  const GENERATOR: bv32 := 0x04C1_1DB7
  const TOP: bv32 := 0x8000_0000

  /** v and m have a bit in common. */
  predicate Has(v: bv32, m: bv32) {
    v & m != 0
  }

  /** The bit of x^(31 - i). */
  function Mask(i: nat): bv32
    requires i < 32
  {
    if i == 0 then 0x8000_0000 else Mask(i - 1) >> 1
  }

  /** The word as a register, its highest bit first. */
  function Coefficients(v: bv32): Register {
    seq(32, i requires 0 <= i < 32 => Has(v, Mask(i)))
  }

  function Double(v: bv32): bv32 {
    v << 1
  }

  function Half(v: bv32): bv32 {
    v >> 1
  }

  function Plus(x: bv32, y: bv32): bv32 {
    x ^ y
  }

  function Reduce(v: bv32, carry: bool): bv32 {
    (v << 1) ^ (if carry then 0x04C1_1DB7 else 0)
  }

  /** The textbook step: shift left, and XOR the generator if the bit that falls out differs from the input. */
  function ShiftBit(v: bv32, bit: bool): bv32 {
    Reduce(v, (v >= 0x8000_0000) != bit)
  }

  predicate Single(m: bv32) {
    m != 0 && m & (m - 1) == 0
  }

  lemma Masks()
    ensures Mask(0) == 0x8000_0000 && Mask(1) == 0x4000_0000 && Mask(2) == 0x2000_0000 && Mask(3) == 0x1000_0000
    ensures Mask(4) == 0x800_0000 && Mask(5) == 0x400_0000 && Mask(6) == 0x200_0000 && Mask(7) == 0x100_0000
    ensures Mask(8) == 0x80_0000 && Mask(9) == 0x40_0000 && Mask(10) == 0x20_0000 && Mask(11) == 0x10_0000
    ensures Mask(12) == 0x8_0000 && Mask(13) == 0x4_0000 && Mask(14) == 0x2_0000 && Mask(15) == 0x1_0000
    ensures Mask(16) == 0x8000 && Mask(17) == 0x4000 && Mask(18) == 0x2000 && Mask(19) == 0x1000
    ensures Mask(20) == 0x800 && Mask(21) == 0x400 && Mask(22) == 0x200 && Mask(23) == 0x100
    ensures Mask(24) == 0x80 && Mask(25) == 0x40 && Mask(26) == 0x20 && Mask(27) == 0x10
    ensures Mask(28) == 8 && Mask(29) == 4 && Mask(30) == 2 && Mask(31) == 1
  {
  }

  lemma MaskShape(i: nat)
    requires i < 32
    ensures Single(Mask(i)) && Half(Mask(i)) == if i < 31 then Mask(i + 1) else 0
  {
    Masks();
    hide Mask;
  }

  lemma GeneratorBits(i: nat)
    requires i < 32
    ensures Coefficient(i) <==> Has(GENERATOR, Mask(i))
  {
    Masks();
    hide Mask;
  }

  lemma PlusHas(x: bv32, y: bv32, m: bv32)
    requires Single(m)
    ensures Has(Plus(x, y), m) <==> Has(x, m) != Has(y, m)
  {
    hide Plus;
    hide Single;
    SingleAnd(x, m);
    SingleAnd(y, m);
    AndDistributes(x, y, m);
    SameOrNot(x & m, y & m);
  }

  lemma AndDistributes(x: bv32, y: bv32, m: bv32)
    ensures Plus(x, y) & m == Plus(x & m, y & m)
  {
  }

  lemma SameOrNot(a: bv32, b: bv32)
    ensures Plus(a, b) == 0 <==> a == b
  {
    PlusTwice(a, b);
    hide Plus;
  }

  lemma PlusTwice(a: bv32, b: bv32)
    ensures Plus(Plus(a, b), b) == a && Plus(0, b) == b && Plus(b, b) == 0
  {
  }

  lemma SingleAnd(x: bv32, m: bv32)
    requires Single(m)
    ensures m != 0 && (x & m == 0 || x & m == m)
  {
  }

  lemma DoubleHas(v: bv32, m: bv32)
    ensures Has(Double(v), m) <==> Has(v, Half(m))
  {
    assert (v << 1) & m == (v & (m >> 1)) << 1;
  }

  lemma TopBit(v: bv32)
    ensures Has(v, TOP) <==> v >= 0x8000_0000
  {
  }

  lemma XorZero(v: bv32)
    ensures v ^ 0 == v
  {
  }

  lemma ShiftBitIs(v: bv32, bit: bool)
    ensures ShiftBit(v, bit) == if Has(v, TOP) != bit then Plus(Double(v), GENERATOR) else Double(v)
  {
    TopBit(v);
    hide Has;
    hide Reduce;
    Reduced(v, Has(v, TOP) != bit);
  }

  lemma Reduced(v: bv32, carry: bool)
    ensures Reduce(v, carry) == if carry then Plus(Double(v), GENERATOR) else Double(v)
  {
    if !carry {
      XorZero(v << 1);
    }
  }

  lemma ShiftBitHas(v: bv32, bit: bool, m: bv32)
    requires Single(m)
    ensures Has(ShiftBit(v, bit), m) <==> Has(v, Half(m)) != (Has(v, TOP) != bit && Has(GENERATOR, m))
  {
    hide Has;
    hide Single;
    hide Half;
    ShiftBitIs(v, bit);
    hide ShiftBit;
    hide Plus;
    hide Double;
    PlusHas(Double(v), GENERATOR, m);
    DoubleHas(v, m);
  }

  lemma NothingSet(v: bv32)
    ensures !Has(v, 0)
  {
  }

  lemma ShiftBitAt(v: bv32, bit: bool, i: nat)
    requires i < 32
    ensures Has(ShiftBit(v, bit), Mask(i)) <==>
      (i < 31 && Has(v, Mask(i + 1))) != (Has(v, Mask(0)) != bit && Has(GENERATOR, Mask(i)))
  {
    hide Has;
    hide Single;
    hide Half;
    hide ShiftBit;
    assert Mask(0) == TOP;
    hide Mask;
    NothingSet(v);
    MaskShape(i);
    ShiftBitHas(v, bit, Mask(i));
  }

  lemma FeedBitAt(reg: Register, bit: bool, i: nat)
    requires i < 32
    ensures FeedBit(reg, bit)[i] == ((i < 31 && reg[i + 1]) != ((reg[0] != bit) && Coefficient(i)))
  {
    hide Coefficient;
  }

  lemma CoefficientsAt(v: bv32, i: nat)
    requires i < 32
    ensures Coefficients(v)[i] == Has(v, Mask(i))
  {
    hide Has;
    hide Mask;
  }

  /** One step of the register is one step on the word. */
  lemma ShiftIsFeed(v: bv32, bit: bool)
    ensures FeedBit(Coefficients(v), bit) == Coefficients(ShiftBit(v, bit))
  {
    hide Has;
    hide Mask;
    hide Coefficients;
    hide FeedBit;
    hide ShiftBit;
    hide Coefficient;
    forall i: nat | i < 32
      ensures FeedBit(Coefficients(v), bit)[i] == Coefficients(ShiftBit(v, bit))[i]
    {
      FeedBitAt(Coefficients(v), bit, i);
      CoefficientsAt(v, 0);
      CoefficientsAt(ShiftBit(v, bit), i);
      ShiftBitAt(v, bit, i);
      GeneratorBits(i);
      if i < 31 {
        CoefficientsAt(v, i + 1);
      }
    }
  }

  // ---- octets -------------------------------------------------------------------------------------------------

  predicate BitOf(c: Octet, weight: nat)
    requires weight > 0
  {
    c as int / weight % 2 == 1
  }

  /** Eight bits, the highest first. */
  function ShiftByte(v: bv32, a: bool, b: bool, c: bool, d: bool, e: bool, f: bool, g: bool, h: bool): bv32 {
    var w := ShiftBit(ShiftBit(ShiftBit(ShiftBit(v, a), b), c), d);
    ShiftBit(ShiftBit(ShiftBit(ShiftBit(w, e), f), g), h)
  }

  function ShiftOctet(v: bv32, c: Octet): bv32 {
    ShiftByte(v, BitOf(c, 128), BitOf(c, 64), BitOf(c, 32), BitOf(c, 16),
                 BitOf(c, 8), BitOf(c, 4), BitOf(c, 2), BitOf(c, 1))
  }

  function ShiftOctets(v: bv32, s: Packet): bv32
    decreases |s|
  {
    if s == [] then v else ShiftOctets(ShiftOctet(v, s[0]), s[1..])
  }

  lemma DigitsNext(v: nat, n: nat)
    ensures BinaryDigits(v, n + 1) == BinaryDigits(v / 2, n) + [v % 2 == 1]
  {
  }

  lemma OctetBitsAre(c: Octet)
    ensures OctetBits(c) == [BitOf(c, 128), BitOf(c, 64), BitOf(c, 32), BitOf(c, 16)]
                          + [BitOf(c, 8), BitOf(c, 4), BitOf(c, 2), BitOf(c, 1)]
  {
    hide BinaryDigits;
    var n := c as int;
    FourDigits(n / 16, 0);
    FourDigits(n, 4);
    Quotients(n);
    var none := BinaryDigits(n / 16 / 16, 0);
    assert none == [];
  }

  lemma Quotients(n: nat)
    ensures n / 16 / 2 == n / 32 && n / 16 / 4 == n / 64 && n / 16 / 8 == n / 128
  {
  }

  lemma FourDigits(v: nat, n: nat)
    ensures BinaryDigits(v, n + 4)
         == BinaryDigits(v / 16, n) + [v / 8 % 2 == 1, v / 4 % 2 == 1, v / 2 % 2 == 1, v % 2 == 1]
  {
    hide BinaryDigits;
    DigitsNext(v, n + 3);
    DigitsNext(v / 2, n + 2);
    DigitsNext(v / 4, n + 1);
    DigitsNext(v / 8, n);
    assert v / 2 / 2 == v / 4 && v / 4 / 2 == v / 8 && v / 8 / 2 == v / 16;
  }

  lemma FeedFour(v: bv32, a: bool, b: bool, c: bool, d: bool)
    ensures FeedBits(Coefficients(v), [a, b, c, d])
         == Coefficients(ShiftBit(ShiftBit(ShiftBit(ShiftBit(v, a), b), c), d))
  {
    hide FeedBits;
    hide FeedBit;
    hide Coefficients;
    hide ShiftBit;
    var v1 := ShiftBit(v, a);
    var v2 := ShiftBit(v1, b);
    var v3 := ShiftBit(v2, c);
    ShiftIsFeed(v, a);
    ShiftIsFeed(v1, b);
    ShiftIsFeed(v2, c);
    ShiftIsFeed(v3, d);
    FeedNext(Coefficients(v), a, [b, c, d]);
    FeedNext(Coefficients(v1), b, [c, d]);
    FeedNext(Coefficients(v2), c, [d]);
    FeedNext(Coefficients(v3), d, []);
    FeedNothing(Coefficients(ShiftBit(v3, d)));
    assert [a] + [b, c, d] == [a, b, c, d] && [b] + [c, d] == [b, c, d] && [c] + [d] == [c, d] && [d] + [] == [d];
  }

  lemma FeedNext(reg: Register, bit: bool, bits: seq<bool>)
    ensures FeedBits(reg, [bit] + bits) == FeedBits(FeedBit(reg, bit), bits)
  {
    hide FeedBit;
    assert ([bit] + bits)[1..] == bits;
  }

  lemma OctetIsFed(v: bv32, c: Octet)
    ensures ProcessByte(Coefficients(v), c) == Coefficients(ShiftOctet(v, c))
  {
    hide FeedBits;
    hide Coefficients;
    hide ShiftBit;
    hide OctetBits;
    var high, low := [BitOf(c, 128), BitOf(c, 64), BitOf(c, 32), BitOf(c, 16)],
                     [BitOf(c, 8), BitOf(c, 4), BitOf(c, 2), BitOf(c, 1)];
    OctetBitsAre(c);
    FeedConcat(Coefficients(v), high, low);
    FeedFour(v, high[0], high[1], high[2], high[3]);
    var w := ShiftBit(ShiftBit(ShiftBit(ShiftBit(v, high[0]), high[1]), high[2]), high[3]);
    FeedFour(w, low[0], low[1], low[2], low[3]);
  }

  /** The register fed with bits holds the word shifted octet by octet, for every message and start value. */
  lemma {:induction false} ShiftRefines(v: bv32, s: Packet)
    ensures FeedBits(Coefficients(v), Bits(s)) == Coefficients(ShiftOctets(v, s))
    decreases |s|
  {
    hide FeedBits;
    hide Coefficients;
    hide ProcessByte;
    hide ShiftOctet;
    if s == [] {
      FeedNothing(Coefficients(v));
    } else {
      FeedByte(Coefficients(v), s[0], s[1..]);
      assert [s[0]] + s[1..] == s;
      OctetIsFed(v, s[0]);
      ShiftRefines(ShiftOctet(v, s[0]), s[1..]);
    }
  }

  lemma FeedNothing(reg: Register)
    ensures FeedBits(reg, []) == reg
  {
  }

  // ---- as numbers ---------------------------------------------------------------------------------------------

  function Weight(b: bool, w: nat): nat {
    if b then w else 0
  }

  /** The k-th hexadecimal digit of the word, the highest one first. */
  function HexDigit(v: bv32, k: nat): nat
    requires k < 8
  {
    Weight(Has(v, Mask(4 * k)), 8) + Weight(Has(v, Mask(4 * k + 1)), 4)
      + Weight(Has(v, Mask(4 * k + 2)), 2) + Weight(Has(v, Mask(4 * k + 3)), 1)
  }

  function HexValue(v: bv32, k: nat): nat
    requires k <= 8
  {
    if k == 0 then 0 else 16 * HexValue(v, k - 1) + HexDigit(v, k - 1)
  }

  lemma NumberNext(bits: seq<bool>, k: nat)
    requires k < |bits|
    ensures Number(bits[..k + 1]) == 2 * Number(bits[..k]) + Weight(bits[k], 1)
  {
    assert bits[..k + 1][..k] == bits[..k];
  }

  lemma NumberOfFour(bits: seq<bool>, j: nat)
    requires j + 4 <= |bits|
    ensures Number(bits[..j + 4]) == 16 * Number(bits[..j])
      + (Weight(bits[j], 8) + Weight(bits[j + 1], 4) + Weight(bits[j + 2], 2) + Weight(bits[j + 3], 1))
  {
    hide Number;
    NumberNext(bits, j);
    NumberNext(bits, j + 1);
    NumberNext(bits, j + 2);
    NumberNext(bits, j + 3);
  }

  lemma {:induction false} NumberIsHex(v: bv32, k: nat)
    requires k <= 8
    ensures Number(Coefficients(v)[..4 * k]) == HexValue(v, k)
    decreases k
  {
    hide Has;
    hide Mask;
    hide Coefficients;
    var bits := Coefficients(v);
    if k == 0 {
      assert bits[..0] == [];
    } else {
      hide Number;
      hide Weight;
      NumberIsHex(v, k - 1);
      var j := 4 * (k - 1);
      NumberOfFour(bits, j);
      CoefficientsAt(v, j);
      CoefficientsAt(v, j + 1);
      CoefficientsAt(v, j + 2);
      CoefficientsAt(v, j + 3);
    }
  }

  lemma NumberOf(v: bv32)
    ensures Number(Coefficients(v)) == HexValue(v, 8)
  {
    hide Coefficients;
    hide Number;
    hide HexValue;
    NumberIsHex(v, 8);
    assert Coefficients(v)[..32] == Coefficients(v);
  }

  lemma AllOnes()
    ensures Coefficients(0xFFFF_FFFF) == Initial()
  {
    Masks();
    hide Mask;
  }

  /** For every buffer: its checksum is the word that shifting and XORing makes of it, octet by octet. */
  lemma ChecksumShifts(s: Packet)
    ensures Checksum(s) == HexValue(ShiftOctets(0xFFFF_FFFF, WordSwapped(s)), 8)
  {
    hide Coefficients;
    hide FeedBits;
    hide Bits;
    hide WordSwapped;
    hide ShiftOctets;
    hide HexValue;
    hide Number;
    AllOnes();
    ShiftRefines(0xFFFF_FFFF, WordSwapped(s));
    NumberOf(ShiftOctets(0xFFFF_FFFF, WordSwapped(s)));
  }

  /** The generator and the start value, written as `uint32_t` numbers. */
  lemma ParametersAre()
    ensures Number(seq(32, i requires 0 <= i < 32 => Coefficient(i))) == 0x04C1_1DB7
    ensures Number(Initial()) == 0xFFFF_FFFF
  {
    hide Number;
    AllOnes();
    NumberOf(0xFFFF_FFFF);
    NumberOf(GENERATOR);
    OnesValue();
    GeneratorValue();
    hide HexValue;
    forall i: nat | i < 32
      ensures Coefficients(GENERATOR)[i] == Coefficient(i)
    {
      CoefficientsAt(GENERATOR, i);
      GeneratorBits(i);
    }
    hide Coefficients;
    assert Coefficients(GENERATOR) == seq(32, i requires 0 <= i < 32 => Coefficient(i));
  }

  lemma OnesValue()
    ensures HexValue(0xFFFF_FFFF, 8) == 0xFFFF_FFFF
  {
    Masks();
    hide Mask;
  }

  lemma GeneratorValue()
    ensures HexValue(GENERATOR, 8) == 0x04C1_1DB7
  {
    Masks();
    hide Mask;
  }

  /** The published check value of these parameters, that of the ASCII text 123456789. */
  lemma CheckValue()
    ensures Number(FeedBits(Initial(), Bits("123456789"))) == 0x0376_E6E7
  {
    hide Coefficients;
    hide FeedBits;
    hide Bits;
    hide HexValue;
    hide Number;
    AllOnes();
    ShiftRefines(0xFFFF_FFFF, "123456789");
    CheckWord();
    NumberOf(0x0376_E6E7);
    CheckNumber();
  }

  lemma CheckWord()
    ensures ShiftOctets(0xFFFF_FFFF, "123456789") == 0x0376_E6E7
  {
    hide ShiftOctet;
    hide ShiftByte;
    hide ShiftOctets;
    CheckOctets();
    CheckSteps();
    ShiftFour(0xFFFF_FFFF, "123456789");
    assert "123456789"[4..] == "56789";
    ShiftFour(0xA695_C4AA, "56789");
    assert "56789"[4..] == "9";
    ShiftNext(0x49E3_C2FB, "9");
    assert "9"[1..] == [];
    ShiftNone(0x0376_E6E7);
  }

  lemma CheckOctets()
    ensures forall v :: ShiftOctet(v, '1') == ShiftByte(v, false, false, true, true, false, false, false, true)
    ensures forall v :: ShiftOctet(v, '2') == ShiftByte(v, false, false, true, true, false, false, true, false)
    ensures forall v :: ShiftOctet(v, '3') == ShiftByte(v, false, false, true, true, false, false, true, true)
    ensures forall v :: ShiftOctet(v, '4') == ShiftByte(v, false, false, true, true, false, true, false, false)
    ensures forall v :: ShiftOctet(v, '5') == ShiftByte(v, false, false, true, true, false, true, false, true)
    ensures forall v :: ShiftOctet(v, '6') == ShiftByte(v, false, false, true, true, false, true, true, false)
    ensures forall v :: ShiftOctet(v, '7') == ShiftByte(v, false, false, true, true, false, true, true, true)
    ensures forall v :: ShiftOctet(v, '8') == ShiftByte(v, false, false, true, true, true, false, false, false)
    ensures forall v :: ShiftOctet(v, '9') == ShiftByte(v, false, false, true, true, true, false, false, true)
  {
    hide ShiftByte;
  }

  lemma CheckSteps()
    ensures ShiftByte(0xFFFF_FFFF, false, false, true, true, false, false, false, true) == 0x9EFB_CF93
    ensures ShiftByte(0x9EFB_CF93, false, false, true, true, false, false, true, false) == 0x3FEC_5E6A
    ensures ShiftByte(0x3FEC_5E6A, false, false, true, true, false, false, true, true) == 0xD952_F164
    ensures ShiftByte(0xD952_F164, false, false, true, true, false, true, false, false) == 0xA695_C4AA
    ensures ShiftByte(0xA695_C4AA, false, false, true, true, false, true, false, true) == 0xBD9A_B747
    ensures ShiftByte(0xBD9A_B747, false, false, true, true, false, true, true, false) == 0xD8F0_6C8F
    ensures ShiftByte(0xD8F0_6C8F, false, false, true, true, false, true, true, true) == 0x0D8A_14C4
    ensures ShiftByte(0x0D8A_14C4, false, false, true, true, true, false, false, false) == 0x49E3_C2FB
    ensures ShiftByte(0x49E3_C2FB, false, false, true, true, true, false, false, true) == 0x0376_E6E7
  {
  }

  lemma ShiftFour(v: bv32, s: Packet)
    requires |s| >= 4
    ensures ShiftOctets(v, s)
         == ShiftOctets(ShiftOctet(ShiftOctet(ShiftOctet(ShiftOctet(v, s[0]), s[1]), s[2]), s[3]), s[4..])
  {
    hide ShiftOctet;
    hide ShiftOctets;
    ShiftNext(v, s);
    var w := ShiftOctet(v, s[0]);
    ShiftNext(w, s[1..]);
    ShiftNext(ShiftOctet(w, s[1]), s[2..]);
    ShiftNext(ShiftOctet(ShiftOctet(w, s[1]), s[2]), s[3..]);
    assert s[1..][1..] == s[2..] && s[2..][1..] == s[3..] && s[3..][1..] == s[4..];
  }

  lemma ShiftNext(v: bv32, s: Packet)
    requires s != []
    ensures ShiftOctets(v, s) == ShiftOctets(ShiftOctet(v, s[0]), s[1..])
  {
    hide ShiftOctet;
  }

  lemma ShiftNone(v: bv32)
    ensures ShiftOctets(v, []) == v
  {
  }

  lemma CheckNumber()
    ensures HexValue(0x0376_E6E7, 8) == 0x0376_E6E7
  {
    Masks();
    hide Mask;
  }

  /** The checksum of the acknowledgement frame the ECU sends (network_mock.cpp). */
  lemma RxackChecksum()
    ensures Checksum("E,rxack,015,h00,") == 0x8369_3205
  {
    hide HexValue;
    hide ShiftOctets;
    ChecksumShifts("E,rxack,015,h00,");
    RxackSwapped();
    RxackWord();
    RxackNumber();
  }

  lemma RxackSwapped()
    ensures WordSwapped("E,rxack,015,h00,") == "xr,E,kca,510,00h"
  {
  }

  lemma RxackWord()
    ensures ShiftOctets(0xFFFF_FFFF, "xr,E,kca,510,00h") == 0x8369_3205
  {
    hide ShiftOctet;
    hide ShiftByte;
    hide ShiftOctets;
    RxackOctets();
    RxackSteps();
    ShiftFour(0xFFFF_FFFF, "xr,E,kca,510,00h");
    assert "xr,E,kca,510,00h"[4..] == ",kca,510,00h";
    ShiftFour(0x6D89_D1E9, ",kca,510,00h");
    assert ",kca,510,00h"[4..] == ",510,00h";
    ShiftFour(0xF22F_47B8, ",510,00h");
    assert ",510,00h"[4..] == ",00h";
    ShiftFour(0x727C_FAF2, ",00h");
    assert ",00h"[4..] == "";
    ShiftNone(0x8369_3205);
  }

  lemma RxackOctets()
    ensures forall v :: ShiftOctet(v, 'x') == ShiftByte(v, false, true, true, true, true, false, false, false)
    ensures forall v :: ShiftOctet(v, 'r') == ShiftByte(v, false, true, true, true, false, false, true, false)
    ensures forall v :: ShiftOctet(v, ',') == ShiftByte(v, false, false, true, false, true, true, false, false)
    ensures forall v :: ShiftOctet(v, 'E') == ShiftByte(v, false, true, false, false, false, true, false, true)
    ensures forall v :: ShiftOctet(v, 'k') == ShiftByte(v, false, true, true, false, true, false, true, true)
    ensures forall v :: ShiftOctet(v, 'c') == ShiftByte(v, false, true, true, false, false, false, true, true)
    ensures forall v :: ShiftOctet(v, 'a') == ShiftByte(v, false, true, true, false, false, false, false, true)
    ensures forall v :: ShiftOctet(v, '5') == ShiftByte(v, false, false, true, true, false, true, false, true)
    ensures forall v :: ShiftOctet(v, '1') == ShiftByte(v, false, false, true, true, false, false, false, true)
    ensures forall v :: ShiftOctet(v, '0') == ShiftByte(v, false, false, true, true, false, false, false, false)
    ensures forall v :: ShiftOctet(v, 'h') == ShiftByte(v, false, true, true, false, true, false, false, false)
  {
    hide ShiftByte;
  }

  lemma RxackSteps()
    ensures ShiftByte(0xFFFF_FFFF, false, true, true, true, true, false, false, false) == 0x88B4_4FEB
    ensures ShiftByte(0x88B4_4FEB, false, true, true, true, false, false, true, false) == 0x127D_C0DF
    ensures ShiftByte(0x127D_C0DF, false, false, true, false, true, true, false, false) == 0x957C_129A
    ensures ShiftByte(0x957C_129A, false, true, false, false, false, true, false, true) == 0x6D89_D1E9
    ensures ShiftByte(0x6D89_D1E9, false, false, true, false, true, true, false, false) == 0xB996_84C0
    ensures ShiftByte(0xB996_84C0, false, true, true, false, true, false, true, true) == 0x8E9D_B087
    ensures ShiftByte(0x8E9D_B087, false, true, true, false, false, false, true, true) == 0x69D4_27AA
    ensures ShiftByte(0x69D4_27AA, false, true, true, false, false, false, false, true) == 0xF22F_47B8
    ensures ShiftByte(0xF22F_47B8, false, false, true, false, true, true, false, false) == 0x0252_53E3
    ensures ShiftByte(0x0252_53E3, false, false, true, true, false, true, false, true) == 0x9826_DE95
    ensures ShiftByte(0x9826_DE95, false, false, true, true, false, false, false, true) == 0xF538_3301
    ensures ShiftByte(0xF538_3301, false, false, true, true, false, false, false, false) == 0x727C_FAF2
    ensures ShiftByte(0x727C_FAF2, false, false, true, false, true, true, false, false) == 0x38E3_F90D
    ensures ShiftByte(0x38E3_F90D, false, false, true, true, false, false, false, false) == 0xC5F1_E0B8
    ensures ShiftByte(0xC5F1_E0B8, false, false, true, true, false, false, false, false) == 0x6F9D_2E62
    ensures ShiftByte(0x6F9D_2E62, false, true, true, false, true, false, false, false) == 0x8369_3205
  {
  }

  lemma RxackNumber()
    ensures HexValue(0x8369_3205, 8) == 0x8369_3205
  {
    Masks();
    hide Mask;
  }

  /** A command whose last word is padded (power_ecu_com_common-test.cpp). */
  lemma PumpChecksum()
    ensures Checksum("H,pump_,013,1,") == 0x4B40_7CCA
  {
    hide HexValue;
    hide ShiftOctets;
    ChecksumShifts("H,pump_,013,1,");
    PumpSwapped();
    PumpWord();
    PumpNumber();
  }

  lemma PumpSwapped()
    ensures WordSwapped("H,pump_,013,1,") == "up,H,_pm,310\0\0,1"
  {
  }

  lemma PumpWord()
    ensures ShiftOctets(0xFFFF_FFFF, "up,H,_pm,310\0\0,1") == 0x4B40_7CCA
  {
    hide ShiftOctet;
    hide ShiftByte;
    hide ShiftOctets;
    PumpOctets();
    PumpSteps();
    ShiftFour(0xFFFF_FFFF, "up,H,_pm,310\0\0,1");
    assert "up,H,_pm,310\0\0,1"[4..] == ",_pm,310\0\0,1";
    ShiftFour(0x0687_408C, ",_pm,310\0\0,1");
    assert ",_pm,310\0\0,1"[4..] == ",310\0\0,1";
    ShiftFour(0xD7B1_AED1, ",310\0\0,1");
    assert ",310\0\0,1"[4..] == "\0\0,1";
    ShiftFour(0xF240_B39D, "\0\0,1");
    assert "\0\0,1"[4..] == "";
    ShiftNone(0x4B40_7CCA);
  }

  lemma PumpOctets()
    ensures forall v :: ShiftOctet(v, 'u') == ShiftByte(v, false, true, true, true, false, true, false, true)
    ensures forall v :: ShiftOctet(v, 'p') == ShiftByte(v, false, true, true, true, false, false, false, false)
    ensures forall v :: ShiftOctet(v, ',') == ShiftByte(v, false, false, true, false, true, true, false, false)
    ensures forall v :: ShiftOctet(v, 'H') == ShiftByte(v, false, true, false, false, true, false, false, false)
    ensures forall v :: ShiftOctet(v, '_') == ShiftByte(v, false, true, false, true, true, true, true, true)
    ensures forall v :: ShiftOctet(v, 'm') == ShiftByte(v, false, true, true, false, true, true, false, true)
    ensures forall v :: ShiftOctet(v, '3') == ShiftByte(v, false, false, true, true, false, false, true, true)
    ensures forall v :: ShiftOctet(v, '1') == ShiftByte(v, false, false, true, true, false, false, false, true)
    ensures forall v :: ShiftOctet(v, '0') == ShiftByte(v, false, false, true, true, false, false, false, false)
    ensures forall v :: ShiftOctet(v, '\0') == ShiftByte(v, false, false, false, false, false, false, false, false)
  {
    hide ShiftByte;
  }

  lemma PumpSteps()
    ensures ShiftByte(0xFFFF_FFFF, false, true, true, true, false, true, false, true) == 0xB979_C938
    ensures ShiftByte(0xB979_C938, false, true, true, true, false, false, false, false) == 0x068A_5896
    ensures ShiftByte(0x068A_5896, false, false, true, false, true, true, false, false) == 0x3DF1_F636
    ensures ShiftByte(0x3DF1_F636, false, true, false, false, true, false, false, false) == 0x0687_408C
    ensures ShiftByte(0x0687_408C, false, false, true, false, true, true, false, false) == 0x30E9_EC36
    ensures ShiftByte(0x30E9_EC36, false, true, false, true, true, true, true, true) == 0x7D06_4D2A
    ensures ShiftByte(0x7D06_4D2A, false, true, true, true, false, false, false, false) == 0x3780_ACD3
    ensures ShiftByte(0x3780_ACD3, false, true, true, false, true, true, false, true) == 0xD7B1_AED1
    ensures ShiftByte(0xD7B1_AED1, false, false, true, false, true, true, false, false) == 0x135D_E768
    ensures ShiftByte(0x135D_E768, false, false, true, true, false, false, true, true) == 0xC5C4_DEE0
    ensures ShiftByte(0xC5C4_DEE0, false, false, true, true, false, false, false, true) == 0x5E62_6BD5
    ensures ShiftByte(0x5E62_6BD5, false, false, true, true, false, false, false, false) == 0xF240_B39D
    ensures ShiftByte(0xF240_B39D, false, false, false, false, false, false, false, false) == 0xC089_5B67
    ensures ShiftByte(0xC089_5B67, false, false, false, false, false, false, false, false) == 0xD4D1_F799
    ensures ShiftByte(0xD4D1_F799, false, false, true, false, true, true, false, false) == 0x7E47_89B1
    ensures ShiftByte(0x7E47_89B1, false, false, true, true, false, false, false, true) == 0x4B40_7CCA
  {
  }

  lemma PumpNumber()
    ensures HexValue(0x4B40_7CCA, 8) == 0x4B40_7CCA
  {
    Masks();
    hide Mask;
  }
}
