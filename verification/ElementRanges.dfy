/**
 * Exactly which fields the element decoders accept, and which number of the stored type comes out when
 * the field holds more than the type can (power_ecu_com_element_decoder.hpp and
 * power_ecu_com_element_encoder.hpp).
 */
module ElementRanges {
  import opened Octets
  import opened Numerals
  import opened Elements

  /** The six integer types. */
  lemma TypeRanges()
    ensures U8.Min() == 0 && U8.Max() == 255 && U16.Min() == 0 && U16.Max() == 65535
    ensures U32.Min() == 0 && U32.Max() == 4_294_967_295
    ensures I8.Min() == -128 && I8.Max() == 127 && I16.Min() == -32768 && I16.Max() == 32767
    ensures I32.Min() == -2_147_483_648 && I32.Max() == 2_147_483_647
  {
  }

  lemma DigitsOnTheLink(d: nat, base: nat, c: Octet)
    requires IsBase(base)
    ensures d < base ==> DigitChar(d, base) == "0123456789ABCDEF"[d]
    ensures IsDigit(c, 10) <==> c in "0123456789"
    ensures IsDigit(c, 16) <==> c in "0123456789ABCDEF"
  {
    assert c in "0123456789" <==> '0' <= c <= '9' by {
      DecimalDigits(c);
    }
    HexDigits(c);
    DigitTable(d);
  }

  lemma DecimalDigits(c: Octet)
    ensures c in "0123456789" <==> '0' <= c <= '9'
  {
    if '0' <= c <= '9' {
      assert "0123456789"[c as int - '0' as int] == c;
    }
  }

  lemma HexDigits(c: Octet)
    ensures c in "0123456789ABCDEF" <==> '0' <= c <= '9' || 'A' <= c <= 'F'
  {
    if '0' <= c <= '9' {
      assert "0123456789ABCDEF"[c as int - '0' as int] == c;
    } else if 'A' <= c <= 'F' {
      assert "0123456789ABCDEF"[10 + c as int - 'A' as int] == c;
    }
  }

  lemma DigitTable(d: nat)
    ensures d < 10 ==> "0123456789ABCDEF"[d] as int == '0' as int + d
    ensures 10 <= d < 16 ==> "0123456789ABCDEF"[d] as int == 'A' as int + d - 10
  {
  }

  // ---- unsigned -----------------------------------------------------------------------------------------------

  predicate InRange(n: int, output: Output) {
    output.Min() <= n <= output.Max()
  }

  /** An unsigned element takes just its digits, and stores the number modulo the size of its type. */
  lemma UnsignedDecoded(digits: nat, output: Output, field: Packet)
    requires output.Unsigned()
    ensures var v := DecodeElement(Uint(digits, output), field);
      (v.Some? <==> |field| == digits && IsNumeral(field, 10)) &&
      (v.Some? ==> v.value.Num? && InRange(v.value.n, output) &&
                   (NumeralValue(field, 10) - v.value.n) % (output.Max() + 1) == 0)
    ensures var v := DecodeElement(HexUint(digits, output), field);
      (v.Some? <==> |field| == digits + 1 && field[0] == 'h' && IsNumeral(field[1..], 16)) &&
      (v.Some? ==> v.value.Num? && InRange(v.value.n, output) &&
                   (NumeralValue(field[1..], 16) - v.value.n) % (output.Max() + 1) == 0)
  {
    hide NumeralValue;
    if IsNumeral(field, 10) {
      TruncatedModulo(NumeralValue(field, 10), output);
    }
    if field != [] && IsNumeral(field[1..], 16) {
      TruncatedModulo(NumeralValue(field[1..], 16), output);
    }
  }

  lemma TruncatedModulo(n: nat, output: Output)
    requires output.Unsigned()
    ensures InRange(Truncated(n, output), output) && (n - Truncated(n, output)) % (output.Max() + 1) == 0
  {
    match output
    case U8 => LowByte(n);
    case U16 => LowHalf(n);
    case _ =>
  }

  lemma LowByte(n: nat)
    ensures (n - n % 0x1_0000_0000 % 0x100) % 0x100 == 0
  {
    var q, m := n / 0x1_0000_0000, n % 0x1_0000_0000;
    assert n - m % 0x100 == 0x100 * (q * 0x100_0000 + m / 0x100);
  }

  lemma LowHalf(n: nat)
    ensures (n - n % 0x1_0000_0000 % 0x1_0000) % 0x1_0000 == 0
  {
    var q, m := n / 0x1_0000_0000, n % 0x1_0000_0000;
    assert n - m % 0x1_0000 == 0x1_0000 * (q * 0x1_0000 + m / 0x1_0000);
  }

  // ---- signed -------------------------------------------------------------------------------------------------

  function Distance(a: int, b: int): nat {
    if a < b then b - a else a - b
  }

  /** Of all numbers of the stored type, x is the closest to m. */
  ghost predicate Nearest(x: int, m: int, output: Output) {
    InRange(x, output) && forall y :: InRange(y, output) ==> Distance(x, m) <= Distance(y, m)
  }

  /** A blank or a minus, and decimal digits. */
  predicate SignedField(digits: nat, field: Packet) {
    |field| == digits + 1 && (field[0] == ' ' || field[0] == '-') && IsNumeral(field[1..], 10)
  }

  function SignedNumber(field: Packet): int
    requires field != [] && IsNumeral(field[1..], 10)
  {
    var n: int := NumeralValue(field[1..], 10);
    if field[0] == '-' then -n else n
  }

  /** The number the field denotes, as far as an int32_t can hold it. */
  predicate ReadAs(field: Packet, m: int)
    requires field != [] && IsNumeral(field[1..], 10)
  {
    -0x8000_0000 <= m < 0x8000_0000 && (m - SignedNumber(field)) % 0x1_0000_0000 == 0
  }

  /**
   * A signed element takes its sign and its digits, and stores the number of its type closest to what
   * they denote.
   */
  lemma SignedDecoded(digits: nat, output: Output, field: Packet, m: int)
    ensures var v := DecodeElement(SignedInt(digits, output), field);
      (v.Some? <==> SignedField(digits, field)) &&
      (v.Some? && ReadAs(field, m) ==> v.value.Num? && Nearest(v.value.n, m, output))
  {
    hide NumeralValue;
    if SignedField(digits, field) && ReadAs(field, m) {
      WrapIs(m, SignedNumber(field));
      WrapNegated(NumeralValue(field[1..], 10));
      SaturatedNearest(m, output);
    }
  }

  lemma WrapIs(m: int, n: int)
    requires -0x8000_0000 <= m < 0x8000_0000 && (m - n) % 0x1_0000_0000 == 0
    ensures ToInt32(n) == m
  {
    var q := (m - n) / 0x1_0000_0000;
    assert n + WORD / 2 == m + WORD / 2 - q * WORD;
    Periodic(m + WORD / 2, q);
  }

  lemma WrapNegated(n: int)
    ensures ToInt32(-ToInt32(n)) == ToInt32(-n)
  {
    var q := (n + WORD / 2) / WORD;
    assert -ToInt32(n) + WORD / 2 == -n + WORD / 2 - (-q) * WORD;
    Periodic(-n + WORD / 2, -q);
  }

  lemma SaturatedNearest(m: int, output: Output)
    ensures Nearest(Saturated(m, output), m, output)
  {
  }

  // ---- what can be written ------------------------------------------------------------------------------------

  function Power(base: nat, n: nat): nat {
    if n == 0 then 1 else base * Power(base, n - 1)
  }

  /** A number is written exactly when its digits suffice; nothing is ever cut off. */
  lemma {:induction false} WrittenIffFits(n: nat, digits: nat, base: nat)
    requires IsBase(base)
    ensures EncodeDigits(n, digits, base).Some? <==> n < Power(base, digits)
    decreases digits
  {
    if digits > 0 {
      WrittenIffFits(n / base, digits - 1, base);
      Divided(n, base, Power(base, digits - 1));
    }
  }

  lemma Divided(n: nat, base: nat, p: nat)
    requires IsBase(base)
    ensures n / base < p <==> n < base * p
  {
  }
}
