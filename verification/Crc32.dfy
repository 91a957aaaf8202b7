/**
 * The frame checksum (power_ecu_com_common.cpp): CRC-32 with the MPEG-2 parameters of
 * ITU-T H.222.0 | ISO/IEC 13818-1, Annex A, applied to 4-byte words in reversed byte order.
 */
module Crc32 {
  import opened Octets
  import opened Numerals

  /** The CRC register as coefficients over GF(2), that of x^31 first. */
  type Register = r: seq<bool> | |r| == 32 witness seq(32, _ => false)

  /** The generator polynomial below x^32, 0x04C11DB7, by its exponents; the start value is 0xFFFFFFFF. */
  const POLYNOMIAL: set<int> := {26, 23, 22, 16, 12, 11, 10, 8, 7, 5, 4, 2, 1, 0}

  function Initial(): Register {
    seq(32, _ => true)
  }

  predicate Coefficient(i: int) {
    31 - i in POLYNOMIAL
  }

  // ---- the shift register -------------------------------------------------------------------------------------

  /** Shifts one place towards the high end; a one that falls out is reduced by the polynomial. */
  function Shift(reg: Register): Register {
    seq(32, i requires 0 <= i < 32 => (i < 31 && reg[i + 1]) != (reg[0] && Coefficient(i)))
  }

  function FeedBit(reg: Register, bit: bool): Register {
    Shift(reg[0 := reg[0] != bit])
  }

  function FeedBits(reg: Register, bits: seq<bool>): Register
    decreases |bits|
  {
    if bits == [] then reg else FeedBits(FeedBit(reg, bits[0]), bits[1..])
  }

  /** The low n bits of v, most significant first. */
  function BinaryDigits(v: nat, n: nat): (bits: seq<bool>)
    ensures |bits| == n
    decreases n
  {
    if n == 0 then [] else BinaryDigits(v / 2, n - 1) + [v % 2 == 1]
  }

  function OctetBits(c: Octet): (bits: seq<bool>)
    ensures |bits| == 8
  {
    BinaryDigits(c as int, 8)
  }

  /** `boost::crc_optimal::process_byte` for a register that is not reflected. */
  function ProcessByte(reg: Register, c: Octet): Register {
    FeedBits(reg, OctetBits(c))
  }

  function Bits(s: Packet): (bits: seq<bool>)
    ensures |bits| == 8 * |s|
  {
    if s == [] then [] else OctetBits(s[0]) + Bits(s[1..])
  }

  /** The order in which the ECU checksums a buffer: each word reversed, the last one zero padded. */
  function WordSwapped(s: Packet): Packet {
    if s == [] then []
    else if |s| == 1 then ['\0', '\0', '\0', s[0]]
    else if |s| == 2 then ['\0', '\0', s[1], s[0]]
    else if |s| == 3 then ['\0', s[2], s[1], s[0]]
    else [s[3], s[2], s[1], s[0]] + WordSwapped(s[4..])
  }

  function Crc(s: Packet): Register {
    FeedBits(Initial(), Bits(WordSwapped(s)))
  }

  method CalculateCrc32(buffer: Packet, start: nat, end: nat) returns (checksum: nat)
    requires start <= end <= |buffer|
    ensures checksum == Checksum(buffer[start..end])
  {
    var crc32 := Initial();
    var current := start;
    NothingLeft();
    hide FeedBits;
    hide Bits;
    hide WordSwapped;
    hide ProcessByte;
    while current != end
      invariant start <= current <= end
      invariant FeedBits(crc32, Bits(WordSwapped(buffer[current..end]))) == Crc(buffer[start..end])
      decreases end - current
    {
      var distance := end - current;
      ghost var rest := buffer[current..end];
      var b3 := if distance >= 4 then buffer[current + 3] else '\0';
      var b2 := if distance >= 3 then buffer[current + 2] else '\0';
      var b1 := if distance >= 2 then buffer[current + 1] else '\0';
      var b0 := buffer[current];
      assert b3 == ByteAt(rest, 3) && b2 == ByteAt(rest, 2) && b1 == ByteAt(rest, 1) && b0 == rest[0];
      WordStep(crc32, rest);
      crc32 := ProcessByte(crc32, b3);
      crc32 := ProcessByte(crc32, b2);
      crc32 := ProcessByte(crc32, b1);
      crc32 := ProcessByte(crc32, b0);
      current := if distance >= 4 then current + 4 else end;
      assert buffer[current..end] == if |rest| >= 4 then rest[4..] else [];
    }
    assert buffer[current..end] == [];
    checksum := Number(crc32);
  }

  lemma NothingLeft()
    ensures forall reg: Register :: FeedBits(reg, Bits(WordSwapped([]))) == reg
  {
  }

  function ByteAt(s: Packet, i: nat): Octet {
    if i < |s| then s[i] else '\0'
  }

  lemma WordStep(reg: Register, s: Packet)
    requires s != []
    ensures FeedBits(reg, Bits(WordSwapped(s)))
         == FeedBits(ProcessByte(ProcessByte(ProcessByte(ProcessByte(reg,
                       ByteAt(s, 3)), ByteAt(s, 2)), ByteAt(s, 1)), s[0]),
                     Bits(WordSwapped(if |s| >= 4 then s[4..] else [])))
  {
    var rest := if |s| >= 4 then s[4..] else [];
    assert WordSwapped(s) == [ByteAt(s, 3), ByteAt(s, 2), ByteAt(s, 1), s[0]] + WordSwapped(rest);
    FeedWord(reg, ByteAt(s, 3), ByteAt(s, 2), ByteAt(s, 1), s[0], WordSwapped(rest));
  }

  lemma FeedWord(reg: Register, a: Octet, b: Octet, c: Octet, d: Octet, rest: Packet)
    ensures FeedBits(reg, Bits([a, b, c, d] + rest))
         == FeedBits(ProcessByte(ProcessByte(ProcessByte(ProcessByte(reg, a), b), c), d), Bits(rest))
  {
    hide FeedBits;
    hide Bits;
    hide ProcessByte;
    FeedByte(reg, a, [b, c, d] + rest);
    FeedByte(ProcessByte(reg, a), b, [c, d] + rest);
    FeedByte(ProcessByte(ProcessByte(reg, a), b), c, [d] + rest);
    FeedByte(ProcessByte(ProcessByte(ProcessByte(reg, a), b), c), d, rest);
    assert [a, b, c, d] + rest == [a] + ([b, c, d] + rest);
    assert [b, c, d] + rest == [b] + ([c, d] + rest);
    assert [c, d] + rest == [c] + ([d] + rest);
  }

  lemma FeedByte(reg: Register, c: Octet, rest: Packet)
    ensures FeedBits(reg, Bits([c] + rest)) == FeedBits(ProcessByte(reg, c), Bits(rest))
  {
    assert ([c] + rest)[1..] == rest;
    FeedConcat(reg, OctetBits(c), Bits(rest));
  }

  lemma {:induction false} FeedConcat(reg: Register, a: seq<bool>, b: seq<bool>)
    ensures FeedBits(reg, a + b) == FeedBits(FeedBits(reg, a), b)
    decreases |a|
  {
    if a == [] {
      assert a + b == b;
    } else {
      assert (a + b)[1..] == a[1..] + b;
      FeedConcat(FeedBit(reg, a[0]), a[1..], b);
    }
  }

  // ---- the register against long division ---------------------------------------------------------------------

  function Zeros(n: nat): (bits: seq<bool>)
    ensures |bits| == n
  {
    seq(n, _ => false)
  }

  /** XORs a short bit string onto the front of a longer one. */
  function Onto(front: seq<bool>, bits: seq<bool>): (r: seq<bool>)
    requires |front| <= |bits|
    ensures |r| == |bits|
  {
    seq(|bits|, i requires 0 <= i < |bits| => bits[i] != (i < |front| && front[i]))
  }

  /** One step of long division: cancels the leading coefficient and drops it. */
  function Cancel(bits: seq<bool>): (r: seq<bool>)
    requires |bits| > 32
    ensures |r| == |bits| - 1
  {
    seq(|bits| - 1, i requires 0 <= i < |bits| - 1 => bits[i + 1] != (bits[0] && Coefficient(i)))
  }

  /**
   * Schoolbook division over GF(2): the remainder of a bit string (leading coefficient first)
   * by x^32 + sum of x^e for e in POLYNOMIAL.
   */
  function Remainder(bits: seq<bool>): (r: seq<bool>)
    requires |bits| >= 32
    ensures |r| == 32
    decreases |bits|
  {
    if |bits| == 32 then bits else Remainder(Cancel(bits))
  }

  /** The shift register divides: its content is the remainder of message * x^32, start value included. */
  lemma {:induction false} RegisterIsRemainder(reg: Register, message: seq<bool>)
    ensures FeedBits(reg, message) == Remainder(Onto(reg, message + Zeros(32)))
    decreases |message|
  {
    if message == [] {
      assert Onto(reg, message + Zeros(32)) == reg;
    } else {
      RegisterIsRemainder(FeedBit(reg, message[0]), message[1..]);
      assert Cancel(Onto(reg, message + Zeros(32))) == Onto(FeedBit(reg, message[0]), message[1..] + Zeros(32));
    }
  }

  // ---- what the checksum detects ------------------------------------------------------------------------------

  /** The polynomial has a constant term, so the register step loses nothing. */
  lemma ShiftInjective(a: Register, b: Register)
    requires Shift(a) == Shift(b)
    ensures a == b
  {
    assert Shift(a)[31] == a[0] && Shift(b)[31] == b[0];
    forall j | 1 <= j < 32
      ensures a[j] == b[j]
    {
      assert Shift(a)[j - 1] == Shift(b)[j - 1];
    }
  }

  lemma {:induction false} FeedInjective(a: Register, b: Register, bits: seq<bool>)
    requires FeedBits(a, bits) == FeedBits(b, bits)
    ensures a == b
    decreases |bits|
  {
    if bits != [] {
      FeedInjective(FeedBit(a, bits[0]), FeedBit(b, bits[0]), bits[1..]);
      ShiftInjective(a[0 := a[0] != bits[0]], b[0 := b[0] != bits[0]]);
      assert a[0] == b[0];
      assert forall i :: 1 <= i < 32 ==> a[i] == a[0 := a[0] != bits[0]][i];
    }
  }

  lemma ShiftXor(reg: Register, bits: seq<bool>)
    requires |bits| <= 31
    ensures Onto(bits, Shift(reg)) == Shift(Onto([false] + bits, reg))
  {
  }

  /** Feeding up to 32 bits amounts to XORing them onto the register first. */
  lemma {:induction false} FeedSame(a: Register, x: seq<bool>, b: Register, y: seq<bool>)
    requires |x| == |y| <= 32
    requires FeedBits(a, x) == FeedBits(b, y)
    ensures Onto(x, a) == Onto(y, b)
    decreases |x|
  {
    if x != [] {
      FeedSame(FeedBit(a, x[0]), x[1..], FeedBit(b, y[0]), y[1..]);
      var a', b' := a[0 := a[0] != x[0]], b[0 := b[0] != y[0]];
      ShiftXor(a', x[1..]);
      ShiftXor(b', y[1..]);
      ShiftInjective(Onto([false] + x[1..], a'), Onto([false] + y[1..], b'));
      assert Onto([false] + x[1..], a') == Onto(x, a);
      assert Onto([false] + y[1..], b') == Onto(y, b);
    } else {
      assert Onto(x, a) == a && Onto(y, b) == b;
    }
  }

  /** Any error confined to 32 consecutive bits of the checksummed stream is detected. */
  lemma BurstDetected(reg: Register, before: seq<bool>, x: seq<bool>, y: seq<bool>, after: seq<bool>)
    requires |x| == |y| <= 32 && x != y
    ensures FeedBits(reg, before + x + after) != FeedBits(reg, before + y + after)
  {
    var r := FeedBits(reg, before);
    FeedConcat(reg, before + x, after);
    FeedConcat(reg, before + y, after);
    FeedConcat(reg, before, x);
    FeedConcat(reg, before, y);
    if FeedBits(reg, before + x + after) == FeedBits(reg, before + y + after) {
      FeedInjective(FeedBits(r, x), FeedBits(r, y), after);
      FeedSame(r, x, r, y);
      forall i | 0 <= i < |x|
        ensures x[i] == y[i]
      {
        assert Onto(x, r)[i] == Onto(y, r)[i];
      }
    }
  }

  /** H.222.0 Annex A: the register ends at zero exactly when the message is followed by its own CRC. */
  lemma ZeroResidue(message: seq<bool>, check: Register)
    ensures FeedBits(Initial(), message + check) == Zeros(32) <==> check == FeedBits(Initial(), message)
  {
    var r := FeedBits(Initial(), message);
    FeedConcat(Initial(), message, check);
    FeedPrefix(r, 0);
    assert r[0..] == r && r + Zeros(0) == r;
    if FeedBits(r, check) == FeedBits(r, r) {
      FeedSame(r, check, r, r);
      forall i | 0 <= i < 32
        ensures check[i] == r[i]
      {
        assert Onto(check, r)[i] == Onto(r, r)[i];
      }
    }
  }

  /** Feeding a register its own remaining bits empties it. */
  lemma {:induction false} FeedPrefix(r: Register, n: nat)
    requires n <= 32
    ensures FeedBits(r[n..] + Zeros(n), r[n..]) == Zeros(32)
    decreases 32 - n
  {
    var reg := r[n..] + Zeros(n);
    if n < 32 {
      assert FeedBit(reg, r[n]) == r[n + 1..] + Zeros(n + 1);
      FeedPrefix(r, n + 1);
    } else {
      assert reg == Zeros(32);
    }
  }

  // ---- words and bytes ----------------------------------------------------------------------------------------

  /** Byte b of word w of the checksummed stream is byte 3 - b of word w of the buffer, or zero padding. */
  lemma {:induction false} WordSwappedAt(s: Packet, w: nat, b: nat)
    requires 4 * w < |s| && b < 4
    ensures |s| <= |WordSwapped(s)| < |s| + 4 && |WordSwapped(s)| % 4 == 0
    ensures 4 * w + b < |WordSwapped(s)| && WordSwapped(s)[4 * w + b] == ByteAt(s, 4 * w + 3 - b)
    decreases |s|
  {
    if |s| > 4 {
      WordSwappedAt(s[4..], if w == 0 then 0 else w - 1, b);
    }
  }

  lemma {:induction false} WordSwappedSplit(p: Packet, s: Packet)
    requires |p| % 4 == 0
    ensures WordSwapped(p + s) == WordSwapped(p) + WordSwapped(s)
    decreases |p|
  {
    if p == [] {
      assert p + s == s;
    } else {
      assert (p + s)[4..] == p[4..] + s;
      WordSwappedSplit(p[4..], s);
    }
  }

  lemma {:induction false} BitsConcat(s: Packet, t: Packet)
    ensures Bits(s + t) == Bits(s) + Bits(t)
    decreases |s|
  {
    if s == [] {
      assert s + t == t;
    } else {
      assert (s + t)[1..] == s[1..] + t;
      BitsConcat(s[1..], t);
    }
  }

  lemma {:induction false} DigitsInjective(v: nat, w: nat, n: nat)
    requires BinaryDigits(v, n) == BinaryDigits(w, n)
    requires v < Power2(n) && w < Power2(n)
    ensures v == w
    decreases n
  {
    if n > 0 {
      var a, b := BinaryDigits(v / 2, n - 1), BinaryDigits(w / 2, n - 1);
      assert BinaryDigits(v, n)[..n - 1] == a && BinaryDigits(w, n)[..n - 1] == b;
      assert BinaryDigits(v, n)[n - 1] == (v % 2 == 1) && BinaryDigits(w, n)[n - 1] == (w % 2 == 1);
      DigitsInjective(v / 2, w / 2, n - 1);
    }
  }

  lemma {:induction false} BitsInjective(s: Packet, t: Packet)
    requires |s| == |t| && Bits(s) == Bits(t)
    ensures s == t
    decreases |s|
  {
    if s != [] {
      assert Bits(s)[..8] == OctetBits(s[0]) && Bits(t)[..8] == OctetBits(t[0]);
      assert Bits(s)[8..] == Bits(s[1..]) && Bits(t)[8..] == Bits(t[1..]);
      assert Power2(8) == 256;
      DigitsInjective(s[0] as int, t[0] as int, 8);
      BitsInjective(s[1..], t[1..]);
      assert s == [s[0]] + s[1..] && t == [t[0]] + t[1..];
    }
  }

  /** Changing bytes of one aligned 4-byte word, and nothing else, changes the checksum. */
  lemma WordErrorDetected(before: Packet, x: Packet, y: Packet, after: Packet)
    requires |before| % 4 == 0
    requires |x| == |y| <= 4 && x != y
    requires |x| == 4 || after == []
    ensures Crc(before + x + after) != Crc(before + y + after)
  {
    hide WordSwapped;
    StreamSplit(before, x, after);
    StreamSplit(before, y, after);
    var u, v := WordSwapped(x), WordSwapped(y);
    WordInjective(x, y);
    if Bits(u) == Bits(v) {
      BitsInjective(u, v);
    }
    BurstDetected(Initial(), Bits(WordSwapped(before)), Bits(u), Bits(v), Bits(WordSwapped(after)));
  }

  lemma StreamSplit(before: Packet, x: Packet, after: Packet)
    requires |before| % 4 == 0
    requires |x| == 4 || (|x| < 4 && after == [])
    ensures Bits(WordSwapped(before + x + after))
         == Bits(WordSwapped(before)) + Bits(WordSwapped(x)) + Bits(WordSwapped(after))
  {
    var w, u, v := WordSwapped(before), WordSwapped(x), WordSwapped(after);
    assert before + x + after == before + (x + after);
    WordSwappedSplit(before, x + after);
    assert WordSwapped(x + after) == u + v by {
      if after == [] {
        assert x + after == x;
      } else {
        WordSwappedSplit(x, after);
      }
    }
    assert w + (u + v) == w + u + v;
    BitsConcat(w + u, v);
    BitsConcat(w, u);
  }

  lemma WordInjective(x: Packet, y: Packet)
    requires 0 < |x| == |y| <= 4 && x != y
    ensures |WordSwapped(x)| == |WordSwapped(y)| == 4
    ensures WordSwapped(x) != WordSwapped(y)
  {
    hide WordSwapped;
    var i :| 0 <= i < |x| && x[i] != y[i];
    WordSwappedAt(x, 0, 3 - i);
    WordSwappedAt(y, 0, 3 - i);
  }

  // ---- the checksum as a number -------------------------------------------------------------------------------

  function Number(bits: seq<bool>): (n: nat)
    ensures n < Power2(|bits|)
  {
    if bits == [] then 0
    else 2 * Number(bits[..|bits| - 1]) + (if bits[|bits| - 1] then 1 else 0)
  }

  /** `crc32.checksum()`: the register as a `uint32_t`. */
  function Checksum(s: Packet): (n: nat)
    ensures n < 0x1_0000_0000
  {
    Power2At32();
    Number(Crc(s))
  }

  lemma Power2At32()
    ensures Power2(32) == 0x1_0000_0000
  {
    assert Power2(8) == 0x100;
    assert Power2(16) == 0x1_0000;
    assert Power2(24) == 0x100_0000;
  }

  lemma {:induction false} NumberInjective(a: seq<bool>, b: seq<bool>)
    requires |a| == |b| && Number(a) == Number(b)
    ensures a == b
    decreases |a|
  {
    if a != [] {
      var n := |a| - 1;
      NumberInjective(a[..n], b[..n]);
      assert a == a[..n] + [a[n]] && b == b[..n] + [b[n]];
    }
  }
}
