/**
 * The element level of the power ECU link (power_ecu_com_element_encoder.hpp and
 * power_ecu_com_element_decoder.hpp): one comma-free field holding one value.
 */
module Elements {
  import opened Options
  import opened Octets
  import opened Numerals

  datatype Output = U8 | U16 | U32 | I8 | I16 | I32 {
    function Min(): int {
      match this
      case I8 => -0x80
      case I16 => -0x8000
      case I32 => -0x8000_0000
      case _ => 0
    }

    function Max(): nat {
      match this
      case U8 => 0xFF
      case U16 => 0xFFFF
      case U32 => 0xFFFF_FFFF
      case I8 => 0x7F
      case I16 => 0x7FFF
      case I32 => 0x7FFF_FFFF
    }

    predicate Unsigned() {
      U8? || U16? || U32?
    }
  }

  /** An element: its notation, its width in digits and the integer type it is stored in. */
  datatype Element =
    | Uint(digits: nat, output: Output)
    | HexUint(digits: nat, output: Output)
    | SignedInt(digits: nat, output: Output)
    | Text(length: nat)
  {
    predicate Valid() {
      (Uint? || HexUint?) ==> output.Unsigned()
    }

    /** Number of characters of the field, without its comma. */
    function Width(): nat {
      match this
      case Uint(digits, _) => digits
      case HexUint(digits, _) => digits + 1
      case SignedInt(digits, _) => digits + 1
      case Text(length) => length
    }
  }

  datatype Value = Num(n: int) | Str(s: Packet)

  // ---- encoding -----------------------------------------------------------------------------------------------

  function EncodeDigits(n: nat, digits: nat, base: nat): Option<Packet>
    requires IsBase(base)
  {
    if Carry(n, digits, base) == 0 then Some(FixedDigits(n, digits, base)) else None
  }

  /**
   * The field an encoder appends, or None where it returns false. The repository only encodes the
   * unsigned and text forms; the signed form is the notation its decoder reads.
   */
  function EncodeElement(e: Element, v: Value): Option<Packet> {
    match e
    case Uint(digits, _) =>
      if v.Num? && v.n >= 0 then EncodeDigits(v.n, digits, 10) else None
    case HexUint(digits, _) =>
      if v.Num? && v.n >= 0 then Prefixed("h", EncodeDigits(v.n, digits, 16)) else None
    case SignedInt(digits, _) =>
      if v.Str? then None
      else if v.n < 0 then Prefixed("-", EncodeDigits(-v.n, digits, 10))
      else Prefixed(" ", EncodeDigits(v.n, digits, 10))
    case Text(length) =>
      if v.Str? && |v.s| == length then Some(v.s) else None
  }

  function Prefixed(p: Packet, s: Option<Packet>): Option<Packet> {
    if s.Some? then Some(p + s.value) else None
  }

  /** The digit loop of ElementUintEncoder and ElementHexUintEncoder. */
  method WriteDigits(value: nat, length: nat, base: nat) returns (ok: bool, digits: Packet)
    requires IsBase(base)
    ensures ok == EncodeDigits(value, length, base).Some?
    ensures ok ==> digits == EncodeDigits(value, length, base).value
  {
    var currentValue := value;
    var convertBuffer: Packet := [];
    for i := 0 to length
      invariant |convertBuffer| == i
      invariant currentValue == Carry(value, i, base)
      invariant Reversed(convertBuffer) == FixedDigits(value, i, base)
    {
      NextDigit(value, i, base);
      convertBuffer := convertBuffer + [DigitChar(currentValue % base, base)];
      currentValue := currentValue / base;
    }
    ok := currentValue == 0;
    digits := Reversed(convertBuffer);
  }

  function Reversed(s: Packet): (r: Packet)
    ensures |r| == |s|
    ensures forall i :: 0 <= i < |s| ==> r[i] == s[|s| - 1 - i]
  {
    if s == [] then [] else [s[|s| - 1]] + Reversed(s[..|s| - 1])
  }

  /** `IElementEncoder::Encode`: appends the field to the buffer, or leaves the buffer alone. */
  method Encode(e: Element, v: Value, buffer: Packet) returns (ok: bool, newBuffer: Packet)
    requires !e.SignedInt?
    requires if e.Text? then v.Str? else v.Num? && v.n >= 0
    ensures ok == EncodeElement(e, v).Some?
    ensures newBuffer == buffer + (if ok then EncodeElement(e, v).value else [])
  {
    newBuffer := buffer;
    match e
    case Uint(digits, _) =>
      var text;
      ok, text := WriteDigits(v.n, digits, 10);
      if ok {
        newBuffer := buffer + text;
      }
    case HexUint(digits, _) =>
      var text;
      ok, text := WriteDigits(v.n, digits, 16);
      if ok {
        newBuffer := buffer + ("h" + text);
      }
    case Text(length) =>
      ok := |v.s| == length;
      if ok {
        newBuffer := buffer + v.s;
      }
  }

  // ---- decoding -----------------------------------------------------------------------------------------------

  /** The conversion to the stored type: truncation for unsigned elements, saturation for signed ones. */
  function Truncated(n: nat, output: Output): int {
    n % WORD % (output.Max() + 1)
  }

  function Saturated(n: int, output: Output): int {
    if n > output.Max() then output.Max() else if n < output.Min() then output.Min() else n
  }

  /** The value a field decodes to, or None where the decoder returns false. */
  function DecodeElement(e: Element, field: Packet): Option<Value> {
    match e
    case Uint(digits, output) =>
      if |field| == digits && IsNumeral(field, 10)
      then Some(Num(Truncated(NumeralValue(field, 10), output)))
      else None
    case HexUint(digits, output) =>
      if |field| == digits + 1 && field[0] == 'h' && IsNumeral(field[1..], 16)
      then Some(Num(Truncated(NumeralValue(field[1..], 16), output)))
      else None
    case SignedInt(digits, output) =>
      if |field| == digits + 1 && (field[0] == ' ' || field[0] == '-') && IsNumeral(field[1..], 10)
      then
        var n := ToInt32(NumeralValue(field[1..], 10));
        Some(Num(Saturated(if field[0] == '-' then ToInt32(-n) else n, output)))
      else None
    case Text(length) =>
      if |field| == length then Some(Str(field)) else None
  }

  /** The accumulation loop of the unsigned decoders. */
  method ReadDigits(digits: Packet, base: nat) returns (ok: bool, value: nat)
    requires IsBase(base)
    ensures ok == IsNumeral(digits, base)
    ensures ok ==> value == NumeralValue(digits, base) % WORD
  {
    value := 0;
    var i := 0;
    while i < |digits|
      invariant i <= |digits|
      invariant IsNumeral(digits[..i], base)
      invariant value == NumeralValue(digits[..i], base) % WORD
    {
      if !IsDigit(digits[i], base) {
        return false, value;
      }
      assert digits[..i + 1][..i] == digits[..i];
      AccumulateWraps(NumeralValue(digits[..i], base), DigitValue(digits[i], base), base);
      value := (value * base + DigitValue(digits[i], base)) % WORD;
      i := i + 1;
    }
    assert digits[..i] == digits;
    ok := true;
  }

  /** The accumulation loop of the signed decoder, in `int32_t`. */
  method ReadSigned(digits: Packet) returns (ok: bool, value: int)
    ensures ok == IsNumeral(digits, 10)
    ensures ok ==> value == ToInt32(NumeralValue(digits, 10))
  {
    value := 0;
    var i := 0;
    while i < |digits|
      invariant i <= |digits|
      invariant IsNumeral(digits[..i], 10)
      invariant value == ToInt32(NumeralValue(digits[..i], 10))
    {
      if !IsDigit(digits[i], 10) {
        return false, value;
      }
      assert digits[..i + 1][..i] == digits[..i];
      AccumulateWraps(NumeralValue(digits[..i], 10), DigitValue(digits[i], 10), 10);
      value := ToInt32(value * 10 + DigitValue(digits[i], 10));
      i := i + 1;
    }
    assert digits[..i] == digits;
    ok := true;
  }

  /** `IElementDecoder::Decode`: the new content of the target, which a failure leaves unchanged. */
  method Decode(e: Element, field: Packet, target: Value) returns (ok: bool, newTarget: Value)
    ensures ok == DecodeElement(e, field).Some?
    ensures newTarget == if ok then DecodeElement(e, field).value else target
  {
    newTarget := target;
    ok := false;
    match e
    case Uint(digits, output) =>
      if |field| == digits {
        var value;
        ok, value := ReadDigits(field, 10);
        if ok {
          newTarget := Num(value % (output.Max() + 1));
        }
      }
    case HexUint(digits, output) =>
      if |field| == digits + 1 && field[0] == 'h' {
        var value;
        ok, value := ReadDigits(field[1..], 16);
        if ok {
          newTarget := Num(value % (output.Max() + 1));
        }
      }
    case SignedInt(digits, output) =>
      if |field| == digits + 1 && (field[0] == ' ' || field[0] == '-') {
        var value;
        ok, value := ReadSigned(field[1..]);
        if ok {
          if field[0] == '-' {
            value := ToInt32(-value);
          }
          if value > output.Max() {
            value := output.Max();
          } else if value < output.Min() {
            value := output.Min();
          }
          newTarget := Num(value);
        }
      }
    case Text(length) =>
      if |field| == length {
        ok := true;
        newTarget := Str(field);
      }
  }

  // ---- encoder and decoder are inverse ------------------------------------------------------------------------

  /** In range: representable in the stored type, narrow enough for the digits, and free of commas. */
  predicate Fits(e: Element, v: Value) {
    e.Valid() &&
    match e
    case Uint(digits, output) => v.Num? && 0 <= v.n <= output.Max() && Carry(v.n, digits, 10) == 0
    case HexUint(digits, output) => v.Num? && 0 <= v.n <= output.Max() && Carry(v.n, digits, 16) == 0
    case SignedInt(digits, output) =>
      v.Num? && output.Min() <= v.n <= output.Max() && -WORD / 2 < v.n < WORD / 2 &&
      Carry(if v.n < 0 then -v.n else v.n, digits, 10) == 0
    case Text(length) => v.Str? && |v.s| == length && ',' !in v.s
  }

  lemma TruncatedFits(n: nat, output: Output)
    requires n <= output.Max()
    ensures Truncated(n, output) == n
  {
  }

  lemma SignedFits(n: int, output: Output)
    requires output.Min() <= n <= output.Max() && -WORD / 2 < n < WORD / 2
    ensures Saturated(n, output) == n
    ensures ToInt32(n) == n && ToInt32(-n) == -n
  {
  }

  /** A numeral holds no comma. */
  lemma NoComma(n: nat, digits: nat, base: nat)
    requires IsBase(base)
    ensures ',' !in FixedDigits(n, digits, base)
  {
    assert !IsDigit(',', base);
  }

  /** Any value in range is written as a comma-free field of the declared width and read back. */
  lemma ElementRoundTrip(e: Element, v: Value)
    requires Fits(e, v)
    ensures EncodeElement(e, v).Some?
    ensures var field := EncodeElement(e, v).value;
      |field| == e.Width() && ',' !in field && DecodeElement(e, field) == Some(v)
  {
    match e
    case Uint(digits, output) =>
      DigitsDenote(v.n, digits, 10);
      NoComma(v.n, digits, 10);
      TruncatedFits(v.n, output);
    case HexUint(digits, output) =>
      HexRoundTrip(digits, output, v.n);
    case SignedInt(digits, output) =>
      SignedRoundTrip(digits, output, v.n);
    case Text(_) =>
  }

  lemma HexRoundTrip(digits: nat, output: Output, n: nat)
    requires Fits(HexUint(digits, output), Num(n))
    ensures var field: Packet := "h" + FixedDigits(n, digits, 16);
      ',' !in field && DecodeElement(HexUint(digits, output), field) == Some(Num(n))
  {
    var field: Packet := "h" + FixedDigits(n, digits, 16);
    assert field[1..] == FixedDigits(n, digits, 16);
    DigitsDenote(n, digits, 16);
    NoComma(n, digits, 16);
    TruncatedFits(n, output);
  }

  lemma SignedRoundTrip(digits: nat, output: Output, n: int)
    requires Fits(SignedInt(digits, output), Num(n))
    ensures var field: Packet := (if n < 0 then "-" else " ") + FixedDigits(if n < 0 then -n else n, digits, 10);
      ',' !in field && DecodeElement(SignedInt(digits, output), field) == Some(Num(n))
  {
    var m := if n < 0 then -n else n;
    var field: Packet := (if n < 0 then "-" else " ") + FixedDigits(m, digits, 10);
    assert field[1..] == FixedDigits(m, digits, 10);
    DigitsDenote(m, digits, 10);
    NoComma(m, digits, 10);
    SignedFits(n, output);
  }

  /** The number in a field does not exceed the stored type. */
  predicate Untruncated(e: Element, field: Packet)
    requires DecodeElement(e, field).Some?
  {
    match e
    case Uint(_, output) => NumeralValue(field, 10) <= output.Max()
    case HexUint(_, output) => NumeralValue(field[1..], 16) <= output.Max()
    case _ => true
  }

  /**
   * Conversely, an accepted unsigned or text field is the one the encoder writes for its value if and
   * only if the decoder did not truncate it.
   */
  lemma ElementCanonical(e: Element, field: Packet)
    requires e.Valid() && !e.SignedInt?
    requires DecodeElement(e, field).Some?
    ensures EncodeElement(e, DecodeElement(e, field).value) == Some(field) <==> Untruncated(e, field)
  {
    match e
    case Uint(_, output) =>
      CanonicalDigits(field, 10, output);
    case HexUint(_, output) =>
      CanonicalDigits(field[1..], 16, output);
      assert field == "h" + field[1..];
      var n := Truncated(NumeralValue(field[1..], 16), output);
      assert ("h" + FixedDigits(n, |field| - 1, 16))[1..] == FixedDigits(n, |field| - 1, 16);
    case Text(_) =>
  }

  lemma CanonicalDigits(digits: Packet, base: nat, output: Output)
    requires IsBase(base) && IsNumeral(digits, base) && output.Unsigned()
    ensures var n := NumeralValue(digits, base);
      EncodeDigits(Truncated(n, output), |digits|, base) == Some(digits) <==> n <= output.Max()
  {
    var n := NumeralValue(digits, base);
    DigitsOfValue(digits, base);
    if n <= output.Max() {
      TruncatedFits(n, output);
    } else {
      var t := Truncated(n, output);
      TruncatedBound(n, output);
      if Carry(t, |digits|, base) == 0 {
        DigitsDenote(t, |digits|, base);
      }
    }
  }

  lemma TruncatedBound(n: nat, output: Output)
    ensures Truncated(n, output) <= output.Max()
  {
  }
}
