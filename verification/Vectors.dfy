/**
 * Whole frames, byte for byte: the acknowledgement that the simulated ECU sends (network_mock.cpp) and a
 * command whose checksum is on record (power_ecu_com_common-test.cpp).
 */
module Vectors {
  import opened Octets
  import opened Numerals
  import opened Elements
  import opened DataPackets
  import opened Schemas
  import opened Frames
  import opened FrameStream
  import opened FrameCodec
  import opened LinkCodec
  import opened CrcWords
  import EcuRuns

  /** The byte that the digits at position n denote. */
  function HexByte(s: Packet, n: nat): nat
    requires n + 2 <= |s| && IsNumeral(s, 16)
  {
    DigitValue(s[n], 16) * 0x10 + DigitValue(s[n + 1], 16)
  }

  lemma ChecksumDigits(n: nat, s: Packet)
    requires |s| == 8 && IsNumeral(s, 16)
    requires n == 0x100 * (0x100 * (0x100 * HexByte(s, 0) + HexByte(s, 2)) + HexByte(s, 4)) + HexByte(s, 6)
    ensures FixedDigits(n, 8, 16) == s
  {
    hide NumeralValue;
    hide FixedDigits;
    hide Carry;
    hide HexByte;
    EightDigitsDenote(s);
    DigitsOfValue(s, 16);
  }

  lemma EightDigitsDenote(s: Packet)
    requires |s| == 8 && IsNumeral(s, 16)
    ensures NumeralValue(s, 16)
         == 0x100 * (0x100 * (0x100 * HexByte(s, 0) + HexByte(s, 2)) + HexByte(s, 4)) + HexByte(s, 6)
  {
    hide NumeralValue;
    hide DigitValue;
    TwoMoreDigits(s, 0);
    TwoMoreDigits(s, 2);
    TwoMoreDigits(s, 4);
    TwoMoreDigits(s, 6);
    assert s[..0] == [] && s[..8] == s;
    NoDigits(16);
  }

  lemma FooterOf(body: Packet, s: Packet)
    requires FixedDigits(Crc32.Checksum(body), 8, 16) == s
    ensures Footer(body) == "h" + s + ",\n"
  {
  }

  lemma RxackDigits()
    ensures FixedDigits(0x8369_3205, 8, 16) == "83693205"
  {
    ChecksumDigits(0x8369_3205, "83693205");
  }

  lemma PumpDigits()
    ensures FixedDigits(0x4B40_7CCA, 8, 16) == "4B407CCA"
  {
    ChecksumDigits(0x4B40_7CCA, "4B407CCA");
  }

  /** The acknowledgement of the ECU. */
  lemma RxackFrame()
    ensures EcuRuns.AckFrame("h00,") == "E,rxack,015,h00,h83693205,\n"
  {
    hide Crc32.Checksum;
    hide FixedDigits;
    hide Body;
    RxackChecksum();
    RxackDigits();
    RxackBody();
    FooterOf("E,rxack,015,h00,", "83693205");
    assert "E,rxack,015,h00,h83693205,\n" == "E,rxack,015,h00," + "h83693205,\n";
  }

  lemma RxackBody()
    ensures Body('E', "rxack", SizeText("h00,"), "h00,") == "E,rxack,015,h00,"
  {
  }

  /** What becomes of it: one accepted frame, which says that the command was taken. */
  lemma RxackDecoded(frame: Packet)
    requires frame == "E,rxack,015,h00,h83693205,\n"
    ensures Drain(frame) == Drained([Accepted("rxack", 15, "h00,")], [])
    ensures LeadingFields(RxackFormat().elements, "h00,") == [Num(0)]
  {
    hide Drain;
    hide LeadingFields;
    hide EcuRuns.AckFrame;
    RxackFrame();
    EcuRuns.LoneAck("h00,");
    EcuRuns.OneField("h00,", "00");
  }

  /** The command that switches the pump on. */
  lemma PumpFrame()
    ensures EncodedFrame([], Switch("pump_"), [Num(1)]) == "H,pump_,013,1,h4B407CCA,\n"
  {
    hide Crc32.Checksum;
    hide FixedDigits;
    hide Body;
    hide EncodedFrame;
    hide EncodeFields;
    PumpChecksum();
    PumpDigits();
    PumpBody();
    FooterOf("H,pump_,013,1,", "4B407CCA");
    CommandIsFrame([], Switch("pump_"), [Num(1)]);
    assert "H,pump_,013,1,h4B407CCA,\n" == "H,pump_,013,1," + "h4B407CCA,\n";
  }

  lemma PumpBody()
    ensures var c := Switch("pump_");
      Body('H', c.name, c.size, EncodeFields(c.elements, [Num(1)]).text) == "H,pump_,013,1,"
  {
  }
}
