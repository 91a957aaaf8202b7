/** Fixed-width numerals, and the C library conversions the frame decoder relies on. */
module Numerals {
  import opened Options
  import opened Octets

  const WORD := 0x1_0000_0000

  function Power2(n: nat): (p: nat)
    ensures p > 0
  {
    if n == 0 then 1 else 2 * Power2(n - 1)
  }

  // ---- digits -------------------------------------------------------------------------------------------------

  predicate IsBase(base: nat) {
    base == 10 || base == 16
  }

  /** '0'..'9', then 'A'..'F' when the base has them: lower case is not a digit on this link. */
  predicate IsDigit(c: Octet, base: nat)
    requires IsBase(base)
  {
    '0' <= c <= '9' || (base == 16 && 'A' <= c <= 'F')
  }

  function DigitValue(c: Octet, base: nat): (d: nat)
    requires IsBase(base) && IsDigit(c, base)
    ensures d < base
  {
    if c <= '9' then c as int - '0' as int else c as int - 'A' as int + 10
  }

  function DigitChar(d: nat, base: nat): (c: Octet)
    requires IsBase(base) && d < base
    ensures IsDigit(c, base) && DigitValue(c, base) == d
  {
    if d < 10 then ('0' as int + d) as char else ('A' as int + d - 10) as char
  }

  predicate IsNumeral(s: Packet, base: nat)
    requires IsBase(base)
  {
    forall c :: c in s ==> IsDigit(c, base)
  }

  /** The number a digit string denotes, without any wrap-around. */
  function NumeralValue(s: Packet, base: nat): (n: nat)
    requires IsBase(base) && IsNumeral(s, base)
    decreases |s|
  {
    if s == [] then 0
    else NumeralValue(s[..|s| - 1], base) * base + DigitValue(s[|s| - 1], base)
  }

  /** The low `width` digits of v, most significant first. */
  function FixedDigits(v: nat, width: nat, base: nat): (s: Packet)
    requires IsBase(base)
    ensures |s| == width && IsNumeral(s, base)
    decreases width
  {
    if width == 0 then [] else FixedDigits(v / base, width - 1, base) + [DigitChar(v % base, base)]
  }

  /** What is left of v once `width` digits have been divided off. */
  function Carry(v: nat, width: nat, base: nat): nat
    requires IsBase(base)
    decreases width
  {
    if width == 0 then v else Carry(v / base, width - 1, base)
  }

  /** The digit loops peel off the low digit, so each round puts one more digit in front. */
  lemma {:induction false} NextDigit(v: nat, width: nat, base: nat)
    requires IsBase(base)
    ensures FixedDigits(v, width + 1, base)
         == [DigitChar(Carry(v, width, base) % base, base)] + FixedDigits(v, width, base)
    ensures Carry(v, width + 1, base) == Carry(v, width, base) / base
    decreases width
  {
    if width > 0 {
      NextDigit(v / base, width - 1, base);
    }
  }

  /** A number that leaves no carry is denoted by its digits. */
  lemma {:induction false} DigitsDenote(v: nat, width: nat, base: nat)
    requires IsBase(base)
    requires Carry(v, width, base) == 0
    ensures NumeralValue(FixedDigits(v, width, base), base) == v
    decreases width
  {
    if width > 0 {
      var s := FixedDigits(v, width, base);
      assert s[..width - 1] == FixedDigits(v / base, width - 1, base);
      DigitsDenote(v / base, width - 1, base);
    }
  }

  /** Every digit string is the numeral of the number it denotes. */
  lemma {:induction false} DigitsOfValue(s: Packet, base: nat)
    requires IsBase(base) && IsNumeral(s, base)
    ensures FixedDigits(NumeralValue(s, base), |s|, base) == s
    ensures Carry(NumeralValue(s, base), |s|, base) == 0
    decreases |s|
  {
    if s != [] {
      var t, d := s[..|s| - 1], DigitValue(s[|s| - 1], base);
      DigitsOfValue(t, base);
      assert NumeralValue(s, base) / base == NumeralValue(t, base);
      assert NumeralValue(s, base) % base == d;
      assert s == t + [s[|s| - 1]];
    }
  }

  lemma NoDigits(base: nat)
    requires IsBase(base)
    ensures NumeralValue([], base) == 0
  {
  }

  /** Two more hexadecimal digits are one more byte. */
  lemma TwoMoreDigits(s: Packet, n: nat)
    requires n + 2 <= |s| && IsNumeral(s, 16)
    ensures NumeralValue(s[..n + 2], 16)
         == 0x100 * NumeralValue(s[..n], 16) + (DigitValue(s[n], 16) * 0x10 + DigitValue(s[n + 1], 16))
    ensures NumeralValue(s[..n + 2], 16) / 0x100 == NumeralValue(s[..n], 16)
    ensures NumeralValue(s[..n + 2], 16) % 0x100 == DigitValue(s[n], 16) * 0x10 + DigitValue(s[n + 1], 16)
  {
    hide DigitValue;
    assert s[..n + 2][..n + 1] == s[..n + 1] && s[..n + 1][..n] == s[..n];
  }

  // ---- 32-bit arithmetic --------------------------------------------------------------------------------------

  /** Two's complement reading of a value modulo 2^32. */
  function ToInt32(x: int): int {
    (x + WORD / 2) % WORD - WORD / 2
  }

  /** One round of a decoder's accumulation, modulo 2^32. */
  lemma AccumulateWraps(x: int, d: int, base: nat)
    requires IsBase(base)
    ensures (x % WORD * base + d) % WORD == (x * base + d) % WORD
    ensures ToInt32(ToInt32(x) * base + d) == ToInt32(x * base + d)
  {
    var q := x / WORD;
    assert x % WORD * base + d == x * base + d - q * base * WORD;
    Periodic(x * base + d, q * base);
    var p := (x + WORD / 2) / WORD;
    assert ToInt32(x) == x - p * WORD;
    assert ToInt32(x) * base + d + WORD / 2 == x * base + d + WORD / 2 - p * base * WORD;
    Periodic(x * base + d + WORD / 2, p * base);
  }

  lemma Periodic(x: int, k: int)
    ensures (x - k * WORD) % WORD == x % WORD
  {
  }

  // ---- C library ----------------------------------------------------------------------------------------------

  predicate IsSpace(c: Octet) {
    c == ' ' || '\t' <= c <= '\r'
  }

  function SkipSpaces(s: Packet): Packet {
    if s != [] && IsSpace(s[0]) then SkipSpaces(s[1..]) else s
  }

  function AnyCaseDigit(c: Octet, base: nat): Option<nat>
    requires IsBase(base)
  {
    if IsDigit(c, base) then Some(DigitValue(c, base))
    else if base == 16 && 'a' <= c <= 'f' then Some(c as int - 'a' as int + 10)
    else None
  }

  /** The value of the longest digit prefix of s, continuing from acc. */
  function PrefixValue(s: Packet, base: nat, acc: nat): nat
    requires IsBase(base)
    decreases |s|
  {
    if s == [] || AnyCaseDigit(s[0], base).None? then acc
    else PrefixValue(s[1..], base, acc * base + AnyCaseDigit(s[0], base).value)
  }

  /** `strtol` on a string far too short to leave the range of `long`; `atoi` is the decimal case. */
  function Strtol(s: Packet, base: nat): int
    requires IsBase(base)
  {
    var t := SkipSpaces(s);
    var negative := t != [] && t[0] == '-';
    var u := if t != [] && (t[0] == '-' || t[0] == '+') then t[1..] else t;
    var w := if base == 16 && |u| >= 2 && u[0] == '0' && (u[1] == 'x' || u[1] == 'X') then u[2..] else u;
    var n: int := PrefixValue(w, base, 0);
    if negative then -n else n
  }

  function Atoi(s: Packet): int {
    Strtol(s, 10)
  }

  /** On a plain numeral the C conversions read the number it denotes. */
  lemma StrtolNumeral(s: Packet, base: nat)
    requires IsBase(base) && IsNumeral(s, base)
    ensures Strtol(s, base) == NumeralValue(s, base)
  {
    assert SkipSpaces(s) == s by {
      assert s != [] ==> IsDigit(s[0], base);
    }
    assert s != [] ==> IsDigit(s[0], base) && s[0] != '-' && s[0] != '+';
    assert |s| >= 2 ==> IsDigit(s[1], base) && s[1] != 'x' && s[1] != 'X';
    assert PrefixValue(s, base, 0) == NumeralValue(s, base) by {
      PrefixEnds([], s, [], base);
      assert [] + s == s && s + [] == s;
    }
  }

  /** White space as the C library knows it. */
  lemma SpaceCharacters(c: Octet)
    ensures IsSpace(c) <==> c == ' ' || 9 <= c as int <= 13
  {
  }

  lemma {:induction false} SpacesSkipped(spaces: Packet, t: Packet)
    requires forall i :: 0 <= i < |spaces| ==> IsSpace(spaces[i])
    requires t == [] || !IsSpace(t[0])
    ensures SkipSpaces(spaces + t) == t
    decreases |spaces|
  {
    if spaces == [] {
      assert spaces + t == t;
    } else {
      SpacesSkipped(spaces[1..], t);
      assert (spaces + t)[1..] == spaces[1..] + t;
    }
  }

  /** What `atoi` reads in general: spaces, a sign, digits, and nothing behind them. */
  lemma AtoiReads(spaces: Packet, sign: Packet, digits: Packet, rest: Packet)
    requires forall i :: 0 <= i < |spaces| ==> IsSpace(spaces[i])
    requires sign == "" || sign == "-" || sign == "+"
    requires digits != [] && IsNumeral(digits, 10) && (rest == [] || !IsDigit(rest[0], 10))
    ensures var n: int := NumeralValue(digits, 10);
      Atoi(spaces + (sign + (digits + rest))) == if sign == "-" then -n else n
  {
    hide SkipSpaces;
    hide PrefixValue;
    hide NumeralValue;
    var u := digits + rest;
    var t := sign + u;
    assert IsDigit(digits[0], 10) && u[0] == digits[0];
    SpacesSkipped(spaces, t);
    PrefixEnds([], digits, rest, 10);
    NoDigits(10);
    assert [] + digits == digits;
    assert sign == "" ==> t == u;
    assert sign != "" ==> t[1..] == u;
  }

  lemma {:induction false} PrefixEnds(p: Packet, s: Packet, rest: Packet, base: nat)
    requires IsBase(base) && IsNumeral(p, base) && IsNumeral(s, base)
    requires rest == [] || AnyCaseDigit(rest[0], base).None?
    ensures IsNumeral(p + s, base)
    ensures PrefixValue(s + rest, base, NumeralValue(p, base)) == NumeralValue(p + s, base)
    decreases |s|
  {
    if s == [] {
      assert p + s == p && s + rest == rest;
    } else {
      var p' := p + [s[0]];
      assert p'[..|p'| - 1] == p;
      assert p + s == p' + s[1..];
      assert (s + rest)[1..] == s[1..] + rest;
      PrefixEnds(p', s[1..], rest, base);
    }
  }
}
