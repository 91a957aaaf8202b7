/**
 * The packets of the power ECU link as their constructors list them (power_ecu_com_data_decoder.cpp
 * and power_ecu_com_data_encoder.cpp).
 */
module Schemas {
  import opened Octets
  import opened Numerals
  import opened Elements
  import opened DataPackets

  function Repeat(e: Element, n: nat): (r: seq<Element>)
    ensures |r| == n
  {
    if n == 0 then [] else [e] + Repeat(e, n - 1)
  }

  // ---- packets received from the ECU --------------------------------------------------------------------------

  function Ecu1Format(): Format {
    Format("ecu1_", 326,
           [Uint(10, U32), Text(14), Text(3), Text(17), Text(65), SignedInt(5, U16), SignedInt(5, U16)] +
           [SignedInt(5, I16), SignedInt(5, U16), SignedInt(3, I8), HexUint(4, U16), Uint(5, U16)] +
           [HexUint(4, U16), Uint(3, U8), HexUint(2, U8), Text(17)] +
           Repeat(SignedInt(10, I32), 10) +
           [HexUint(2, U8)],
           Ecu1)
  }

  /** Voltages are stored as uint16_t and currents as int16_t; both are five signed digits. */
  function Rails(kinds: string): (r: seq<Element>)
    ensures |r| == |kinds|
  {
    if kinds == [] then []
    else [SignedInt(5, if kinds[0] == 'V' then U16 else I16)] + Rails(kinds[1..])
  }

  function Ecu2Format(): Format {
    Format("ecu2_", 291,
           [Text(14)] + Rails("VAVAVAVAVAVA" + "VVAVAVAVAVA" + "VVVVAVAAVAAV") + Repeat(SignedInt(3, I16), 4),
           Ecu2)
  }

  function RxackFormat(): Format {
    Format("rxack", 15, [HexUint(2, U8)], Rxack)
  }

  function VerFormat(): Format {
    Format("ver__", 95, [Text(41), Text(41)], Ver)
  }

  /** The declared size of a packet is the length of its layout, and the header can carry it. */
  predicate Consistent(f: Format) {
    |f.name| == 5 && f.size == Layout(f.elements) && f.size <= 999 && Shaped(f.kind, f.elements)
  }

  lemma {:induction false} LayoutConcat(a: seq<Element>, b: seq<Element>)
    ensures Layout(a + b) == Layout(a) + Layout(b) - 11
    decreases |a|
  {
    if a == [] {
      assert a + b == b;
    } else {
      assert (a + b)[1..] == a[1..] + b;
      LayoutConcat(a[1..], b);
    }
  }

  lemma {:induction false} LayoutRepeat(e: Element, n: nat)
    ensures Layout(Repeat(e, n)) == 11 + n * (e.Width() + 1)
  {
    if n > 0 {
      hide Element.Width;
      LayoutRepeat(e, n - 1);
      assert Repeat(e, n)[1..] == Repeat(e, n - 1);
    }
  }

  /** The field widths of the received packets add up to the sizes declared apart from them. */
  lemma ReceivedPacketsConsistent()
    ensures Consistent(Ecu1Format()) && Consistent(Ecu2Format()) && Consistent(RxackFormat()) && Consistent(VerFormat())
  {
    Ecu1Consistent();
    Ecu2Consistent();
    assert VerFormat().elements[1..] == [Text(41)];
  }

  lemma LayoutOfFive(a: seq<Element>, b: seq<Element>, c: seq<Element>, d: seq<Element>, e: seq<Element>)
    ensures Layout(a + b + c + d + e) == Layout(a) + Layout(b) + Layout(c) + Layout(d) + Layout(e) - 44
  {
    hide Layout;
    LayoutConcat(a + b + c + d, e);
    LayoutConcat(a + b + c, d);
    LayoutConcat(a + b, c);
    LayoutConcat(a, b);
  }

  lemma Ecu1Consistent()
    ensures Consistent(Ecu1Format())
  {
    hide Layout;
    hide Repeat;
    Ecu1Rows();
    LayoutOfFive(
      [Uint(10, U32), Text(14), Text(3), Text(17), Text(65), SignedInt(5, U16), SignedInt(5, U16)],
      [SignedInt(5, I16), SignedInt(5, U16), SignedInt(3, I8), HexUint(4, U16), Uint(5, U16)],
      [HexUint(4, U16), Uint(3, U8), HexUint(2, U8), Text(17)],
      Repeat(SignedInt(10, I32), 10),
      [HexUint(2, U8)]);
    LayoutRepeat(SignedInt(10, I32), 10);
  }

  lemma Ecu1Rows()
    ensures Layout([Uint(10, U32), Text(14), Text(3), Text(17), Text(65), SignedInt(5, U16), SignedInt(5, U16)]) == 139
    ensures Layout([SignedInt(5, I16), SignedInt(5, U16), SignedInt(3, I8), HexUint(4, U16), Uint(5, U16)]) == 42
    ensures Layout([HexUint(4, U16), Uint(3, U8), HexUint(2, U8), Text(17)]) == 43
    ensures Layout([HexUint(2, U8)]) == 15
  {
    Ecu1Row1();
    Ecu1Row2();
  }

  lemma Ecu1Row1()
    ensures Layout([Uint(10, U32), Text(14), Text(3), Text(17), Text(65), SignedInt(5, U16), SignedInt(5, U16)]) == 139
  {
  }

  lemma Ecu1Row2()
    ensures Layout([SignedInt(5, I16), SignedInt(5, U16), SignedInt(3, I8), HexUint(4, U16), Uint(5, U16)]) == 42
  {
  }

  lemma Ecu2Consistent()
    ensures Consistent(Ecu2Format())
  {
    var kinds := "VAVAVAVAVAVA" + "VVAVAVAVAVA" + "VVVVAVAAVAAV";
    LayoutConcat([Text(14)] + Rails(kinds), Repeat(SignedInt(3, I16), 4));
    LayoutConcat([Text(14)], Rails(kinds));
    LayoutRepeat(SignedInt(3, I16), 4);
    RailsLayout(kinds);
  }

  lemma {:induction false} RailsLayout(kinds: string)
    ensures Layout(Rails(kinds)) == 11 + 7 * |kinds|
  {
    if kinds != [] {
      RailsLayout(kinds[1..]);
      assert Rails(kinds)[1..] == Rails(kinds[1..]);
    }
  }

  // ---- commands sent to the ECU -------------------------------------------------------------------------------

  datatype Command = Command(name: Packet, size: Packet, elements: seq<Element>)

  /** A one-digit switch, and a bit set of two hexadecimal digits (built in a `uint32_t`). */
  function Switch(name: Packet): Command {
    Command(name, "013", [Uint(1, U8)])
  }

  function BitSet(name: Packet): Command {
    Command(name, "015", [HexUint(2, U32)])
  }

  function HeartCommand(): Command {
    Command("heart", "027", [HexUint(4, U16), HexUint(8, U32)])
  }

  function GetvCommand(): Command {
    Command("getv_", "015", [HexUint(2, U8)])
  }

  function Commands(): seq<Command> {
    [Command("time_", "026", [Text(14)]),
     BitSet("start"), Command("stop_", "011", []),
     HeartCommand(),
     Switch("pump_"), Switch("pbmsw"),
     Command("ledc_", "023", [Uint(3, U8), Uint(3, U8), Uint(3, U8)]),
     BitSet("g_res"), Command("solsw", "015", [HexUint(2, U8)]),
     BitSet("pdcmd"), BitSet("mute_"), GetvCommand(),
     Command("undck", "011", []),
     Switch("12vu_"), Switch("5vd3_"), Switch("5vd4_"), Switch("5vd5_"),
     Command("rpros", "055", [Uint(1, U8), Text(41)]), Command("rproe", "011", [])]
  }

  /** The three digits a command announces are those of its layout. */
  predicate Announces(c: Command) {
    |c.name| == 5 && |c.size| == 3 && IsNumeral(c.size, 10) && NumeralValue(c.size, 10) == Layout(c.elements)
  }

  lemma CommandsAnnounceTheirLayout(k: nat)
    requires k < |Commands()|
    ensures Announces(Commands()[k])
  {
    hide NumeralValue;
    hide Layout;
    SizeFields();
    DataFields();
  }

  lemma SizeFields()
    ensures NumeralValue("011", 10) == 11 && NumeralValue("013", 10) == 13 && NumeralValue("015", 10) == 15
    ensures NumeralValue("023", 10) == 23 && NumeralValue("026", 10) == 26 && NumeralValue("027", 10) == 27
    ensures NumeralValue("055", 10) == 55
  {
    hide NumeralValue;
    SizeDigits("011");
    SizeDigits("013");
    SizeDigits("015");
    SizeDigits("023");
    SizeDigits("026");
    SizeDigits("027");
    SizeDigits("055");
  }

  lemma DataFields()
    ensures Layout([]) == 11
    ensures forall e :: Layout([e]) == 12 + e.Width()
    ensures Layout([HexUint(4, U16), HexUint(8, U32)]) == 27
    ensures Layout([Uint(3, U8), Uint(3, U8), Uint(3, U8)]) == 23
    ensures Layout([Uint(1, U8), Text(41)]) == 55
  {
  }

  lemma SizeDigits(s: Packet)
    requires |s| == 3 && IsNumeral(s, 10)
    ensures NumeralValue(s, 10)
         == DigitValue(s[0], 10) * 100 + DigitValue(s[1], 10) * 10 + DigitValue(s[2], 10)
  {
    assert s[..2][..1] == s[..1];
    assert s[..1][..0] == [];
    assert NumeralValue(s[..1], 10) == DigitValue(s[0], 10);
    assert NumeralValue(s[..2], 10) == DigitValue(s[0], 10) * 10 + DigitValue(s[1], 10);
  }
}
