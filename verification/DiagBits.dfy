/**
 * Bit sets as hexadecimal text: written by `ElementHexUintBitsEncoder` (power_ecu_com_element_encoder.hpp)
 * and read by `ParseDiagStatus` (info_command.cpp).
 */
module DiagBits {
  import opened Options
  import opened Octets
  import opened Numerals
  import opened Elements

  // ---- bit positions ------------------------------------------------------------------------------------------

  predicate Ascending(positions: seq<nat>) {
    forall i :: 0 < i < |positions| ==> positions[i - 1] < positions[i]
  }

  predicate Below(positions: seq<nat>, n: nat) {
    forall i :: 0 <= i < |positions| ==> positions[i] < n
  }

  function SumPowers(positions: seq<nat>): nat {
    if positions == [] then 0
    else SumPowers(positions[..|positions| - 1]) + Power2(positions[|positions| - 1])
  }

  /** The number whose bits below n are the members of a set. */
  function SetValue(bits: set<nat>, n: nat): nat {
    if n == 0 then 0 else SetValue(bits, n - 1) + (if n - 1 in bits then Power2(n - 1) else 0)
  }

  lemma {:induction false} SetValueBound(bits: set<nat>, n: nat)
    ensures SetValue(bits, n) < Power2(n)
  {
    if n > 0 {
      SetValueBound(bits, n - 1);
    }
  }

  lemma {:induction false} SetValueAdd(bits: set<nat>, k: nat, n: nat)
    requires k !in bits
    ensures SetValue(bits + {k}, n) == SetValue(bits, n) + (if k < n then Power2(k) else 0)
  {
    if n > 0 {
      SetValueAdd(bits, k, n - 1);
    }
  }

  /** Binary notation is unique: an ascending list that adds up to a set's value lists exactly that set. */
  lemma {:induction false} PositionsAreBits(positions: seq<nat>, bits: set<nat>, n: nat)
    requires Ascending(positions) && Below(positions, n)
    requires SumPowers(positions) == SetValue(bits, n)
    ensures forall k: nat :: k < n ==> (k in positions <==> k in bits)
    decreases n
  {
    if n > 0 {
      var m := |positions| - 1;
      SetValueBound(bits, n - 1);
      if positions != [] && positions[m] == n - 1 {
        var rest := positions[..m];
        AscendingBelow(positions);
        assert n - 1 in bits;
        PositionsAreBits(rest, bits, n - 1);
        assert positions == rest + [n - 1];
      } else {
        AscendingBelow(positions);
        assert Below(positions, n - 1);
        ListValueBound(positions, n - 1);
        assert n - 1 !in bits;
        PositionsAreBits(positions, bits, n - 1);
      }
    }
  }

  lemma {:induction false} ListValueBound(positions: seq<nat>, n: nat)
    requires Ascending(positions) && Below(positions, n)
    ensures SumPowers(positions) < Power2(n)
    decreases n
  {
    if n > 0 && positions != [] {
      var m := |positions| - 1;
      AscendingBelow(positions);
      if positions[m] == n - 1 {
        ListValueBound(positions[..m], n - 1);
      } else {
        ListValueBound(positions, n - 1);
      }
    }
  }

  lemma {:induction false} AscendingBelow(positions: seq<nat>)
    requires Ascending(positions)
    ensures positions != [] ==> Below(positions[..|positions| - 1], positions[|positions| - 1])
    ensures positions != [] ==> Below(positions, positions[|positions| - 1] + 1)
    decreases |positions|
  {
    if |positions| > 1 {
      AscendingBelow(positions[..|positions| - 1]);
    }
  }

  // ---- ParseDiagStatus ----------------------------------------------------------------------------------------

  predicate IsHex(text: Packet) {
    forall i :: 0 <= i < |text| ==> AnyCaseDigit(text[i], 16).Some?
  }

  function HexValue(text: Packet): nat
    requires IsHex(text)
  {
    if text == [] then 0
    else HexValue(text[..|text| - 1]) * 16 + AnyCaseDigit(text[|text| - 1], 16).value
  }

  /** A hexadecimal digit of either case, and its value. */
  lemma DigitOfEitherCase(c: Octet, d: nat)
    requires d < 16
    ensures AnyCaseDigit(c, 16) == Some(d) <==> c == "0123456789ABCDEF"[d] || c == "0123456789abcdef"[d]
    ensures AnyCaseDigit(c, 10) == Some(d) <==> d < 10 && c == "0123456789"[d]
  {
    assert d < 10 ==> "0123456789ABCDEF"[d] as int == '0' as int + d;
    assert d < 10 ==> "0123456789abcdef"[d] as int == '0' as int + d && "0123456789"[d] as int == '0' as int + d;
    assert d >= 10 ==> "0123456789ABCDEF"[d] as int == 'A' as int + d - 10;
    assert d >= 10 ==> "0123456789abcdef"[d] as int == 'a' as int + d - 10;
  }

  lemma {:induction false} HexValuePrepend(c: Octet, text: Packet)
    requires IsHex([c] + text)
    ensures IsHex(text) && AnyCaseDigit(c, 16).Some?
    ensures HexValue([c] + text) == AnyCaseDigit(c, 16).value * Power2(4 * |text|) + HexValue(text)
    decreases |text|
  {
    var all := [c] + text;
    assert AnyCaseDigit(all[0], 16).Some?;
    assert forall i :: 0 <= i < |text| ==> text[i] == all[i + 1];
    if text == [] {
      assert all[..0] == [];
    } else {
      var n := |text| - 1;
      assert all[..|all| - 1] == [c] + text[..n];
      HexValuePrepend(c, text[..n]);
      PowerOfDigits(n);
      Regroup(AnyCaseDigit(c, 16).value, Power2(4 * n), HexValue(text[..n]), AnyCaseDigit(text[n], 16).value);
    }
  }

  lemma Regroup(d: nat, p: nat, h: nat, e: nat)
    ensures (d * p + h) * 16 + e == d * (16 * p) + (h * 16 + e)
  {
  }

  lemma PowerOfDigits(n: nat)
    ensures Power2(4 * (n + 1)) == 16 * Power2(4 * n)
  {
    assert Power2(4 * n + 4) == 2 * Power2(4 * n + 3);
    assert Power2(4 * n + 3) == 2 * Power2(4 * n + 2);
    assert Power2(4 * n + 2) == 2 * Power2(4 * n + 1);
  }

  /** The bits of a digit, as `std::bitset<4>` tests them. */
  predicate Bit(v: nat, j: nat)
    requires j < 4
  {
    (if j == 0 then v else if j == 1 then v / 2 else if j == 2 then v / 4 else v / 8) % 2 == 1
  }

  /** What the bits of a digit below j contribute when its lowest bit has weight 2^base. */
  function LowBits(v: nat, j: nat, base: nat): nat
    requires j <= 4
  {
    if j == 0 then 0 else LowBits(v, j - 1, base) + (if Bit(v, j - 1) then Power2(base + (j - 1)) else 0)
  }

  lemma FourBits(v: nat, base: nat)
    requires v < 16
    ensures LowBits(v, 4, base) == v * Power2(base)
  {
    hide Power2;
    hide Bit;
    Binary(v);
    NextPowers(base);
    var p := Power2(base);
    LowBitsNext(v, 0, base);
    LowBitsNext(v, 1, base);
    LowBitsNext(v, 2, base);
    LowBitsNext(v, 3, base);
    hide LowBits;
    assert LowBits(v, 2, base) == (if Bit(v, 0) then p else 0) + (if Bit(v, 1) then 2 * p else 0);
  }

  lemma LowBitsNext(v: nat, j: nat, base: nat)
    requires j < 4
    ensures LowBits(v, j + 1, base) == LowBits(v, j, base) + (if Bit(v, j) then Power2(base + j) else 0)
    ensures LowBits(v, 0, base) == 0
  {
    hide Power2;
    hide Bit;
  }

  lemma NextPowers(base: nat)
    ensures Power2(base + 1) == 2 * Power2(base)
    ensures Power2(base + 2) == 4 * Power2(base)
    ensures Power2(base + 3) == 8 * Power2(base)
  {
    assert Power2(base + 3) == 2 * Power2(base + 2);
  }

  lemma Binary(v: nat)
    requires v < 16
    ensures v == (if Bit(v, 0) then 1 else 0) + (if Bit(v, 1) then 2 else 0) +
                 (if Bit(v, 2) then 4 else 0) + (if Bit(v, 3) then 8 else 0)
  {
  }

  /**
   * `ParseDiagStatus`, None where `std::stoi` throws: for any hexadecimal string the powers of two at
   * the positions returned, which come in ascending order, add up to the string's value.
   */
  method ParseDiagStatus(text: Packet) returns (result: Option<seq<nat>>)
    ensures result.Some? <==> IsHex(text)
    ensures result.Some? ==>
      Ascending(result.value) && Below(result.value, 4 * |text|) && SumPowers(result.value) == HexValue(text)
  {
    var positions: seq<nat> := [];
    assert text[|text|..] == [];
    for i := 0 to |text|
      invariant IsHex(text[|text| - i..])
      invariant Ascending(positions) && Below(positions, 4 * i)
      invariant SumPowers(positions) == HexValue(text[|text| - i..])
    {
      var c := text[|text| - i - 1];
      var digit := AnyCaseDigit(c, 16);
      if digit.None? {
        return None;
      }
      ghost var rest := text[|text| - i..];
      assert text[|text| - (i + 1)..] == [c] + rest;
      positions := PushDigit(positions, digit.value, 4 * i);
      HexValuePrepend(c, rest);
    }
    assert text[|text| - |text|..] == text;
    result := Some(positions);
  }

  /** The inner loop of `ParseDiagStatus`. */
  method PushDigit(positions: seq<nat>, v: nat, base: nat) returns (result: seq<nat>)
    requires v < 16 && Ascending(positions) && Below(positions, base)
    ensures Ascending(result) && Below(result, base + 4)
    ensures SumPowers(result) == v * Power2(base) + SumPowers(positions)
  {
    hide Bit;
    hide Ascending;
    hide Below;
    hide SumPowers;
    result := positions;
    for j := 0 to 4
      invariant Ascending(result) && Below(result, base + j)
      invariant SumPowers(result) == LowBits(v, j, base) + SumPowers(positions)
    {
      Appended(result, base + j);
      if Bit(v, j) {
        result := result + [base + j];
      }
    }
    FourBits(v, base);
  }

  lemma Appended(positions: seq<nat>, k: nat)
    requires Ascending(positions) && Below(positions, k)
    ensures Ascending(positions + [k]) && Below(positions + [k], k + 1) && Below(positions, k + 1)
    ensures SumPowers(positions + [k]) == SumPowers(positions) + Power2(k)
  {
    hide Power2;
    assert (positions + [k])[..|positions|] == positions;
  }

  // ---- ElementHexUintBitsEncoder ------------------------------------------------------------------------------

  const SIZE := 0x1_0000_0000_0000_0000

  class ElementHexUintBitsEncoder {
    const length: nat
    var bitMap: map<nat, bool>

    constructor (length: nat)
      ensures this.length == length && bitMap == map[]
    {
      this.length := length;
      bitMap := map[];
    }

    ghost predicate Valid()
      reads this
    {
      length <= 8 && forall k :: k in bitMap ==> k < 4 * length
    }

    /** The registered flags that are up. */
    function Flags(): set<nat>
      reads this
    {
      set k | k in bitMap && bitMap[k]
    }

    /**
     * Registers a bit with the flag to be evaluated for it. The bound is computed in `size_t`, so an
     * encoder without digits, for which it wraps around, takes any bit.
     */
    method RegisterBit(bit: nat, flag: bool) returns (ok: bool)
      requires bit < WORD && 4 * length < SIZE
      modifies this
      ensures old(Valid()) && length > 0 ==> Valid()
      ensures ok == ((length == 0 || bit < 4 * length) && bit !in old(bitMap))
      ensures bitMap == if ok then old(bitMap)[bit := flag] else old(bitMap)
    {
      if bit > (length * 4 - 1) % SIZE {
        return false;
      }
      if bit in bitMap {
        return false;
      }
      bitMap := bitMap[bit := flag];
      ok := true;
    }

    /** The value to be encoded, whatever the order in which the map is visited. */
    method Value() returns (value: nat)
      requires Valid()
      ensures value == SetValue(Flags(), 4 * length)
    {
      value := 0;
      var rest := bitMap.Keys;
      ghost var done: set<nat> := {};
      EmptyValue(4 * length);
      while rest != {}
        invariant rest <= bitMap.Keys
        invariant done == (set k | k in bitMap.Keys - rest && bitMap[k])
        invariant value == SetValue(done, 4 * length)
        decreases rest
      {
        var k :| k in rest;
        rest := rest - {k};
        if bitMap[k] {
          SetValueAdd(done, k, 4 * length);
          done := done + {k};
          value := value + Power2(k);
        }
      }
      assert done == Flags();
    }

    /** `Encode`: an 'h' and the digits of the value; it never fails for bits registered in range. */
    method Encode(buffer: Packet) returns (ok: bool, newBuffer: Packet)
      requires Valid()
      ensures ok && newBuffer == buffer + ("h" + FixedDigits(SetValue(Flags(), 4 * length), length, 16))
    {
      var value := Value();
      SetValueBound(Flags(), 4 * length);
      FitsInDigits(value, length);
      ok, newBuffer := Elements.Encode(HexUint(length, U32), Num(value), buffer);
    }
  }

  lemma {:induction false} EmptyValue(n: nat)
    ensures SetValue({}, n) == 0
  {
    if n > 0 {
      EmptyValue(n - 1);
    }
  }

  lemma {:induction false} FitsInDigits(v: nat, n: nat)
    requires v < Power2(4 * n)
    ensures Carry(v, n, 16) == 0
    decreases n
  {
    if n > 0 {
      PowerOfDigits(n - 1);
      FitsInDigits(v / 16, n - 1);
    }
  }

  // ---- writing and reading are inverse ------------------------------------------------------------------------

  /** The two readings of a numeral agree on the digits the encoder writes. */
  lemma {:induction false} HexValueOfNumeral(text: Packet)
    requires IsNumeral(text, 16)
    ensures IsHex(text) && HexValue(text) == NumeralValue(text, 16)
    decreases |text|
  {
    assert forall i :: 0 <= i < |text| ==> IsDigit(text[i], 16);
    if text != [] {
      HexValueOfNumeral(text[..|text| - 1]);
    }
  }

  /**
   * Bit-set round trip: an ascending list of positions that adds up to the digits written for a set of
   * flags, which is what ParseDiagStatus returns for them, lists exactly the flags that are up.
   */
  lemma FlagsReadBack(flags: set<nat>, length: nat, positions: seq<nat>)
    requires forall k :: k in flags ==> k < 4 * length
    requires var text := FixedDigits(SetValue(flags, 4 * length), length, 16);
      IsHex(text) && Ascending(positions) && Below(positions, 4 * |text|) && SumPowers(positions) == HexValue(text)
    ensures forall k: nat :: k in positions <==> k in flags
  {
    var v := SetValue(flags, 4 * length);
    SetValueBound(flags, 4 * length);
    FitsInDigits(v, length);
    DigitsDenote(v, length, 16);
    HexValueOfNumeral(FixedDigits(v, length, 16));
    PositionsAreBits(positions, flags, 4 * length);
  }

  /** The two methods run one after the other. */
  method WriteThenParse(encoder: ElementHexUintBitsEncoder) returns (positions: seq<nat>)
    requires encoder.Valid()
    ensures Ascending(positions) && forall k: nat :: k in positions <==> k in encoder.Flags()
  {
    var ok, buffer := encoder.Encode([]);
    var v := SetValue(encoder.Flags(), 4 * encoder.length);
    assert buffer[1..] == FixedDigits(v, encoder.length, 16);
    HexValueOfNumeral(FixedDigits(v, encoder.length, 16));
    var result := ParseDiagStatus(buffer[1..]);
    positions := result.value;
    FlagsReadBack(encoder.Flags(), encoder.length, positions);
  }
}
