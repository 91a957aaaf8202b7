/**
 * The frame level of the power ECU link: `E,name_,sss,data...,hCCCCCCCC,\n`, where sss counts
 * everything after the header and the checksum covers everything before its own 'h'
 * (power_ecu_com_frame_encoder.cpp and power_ecu_com_frame_decoder.cpp).
 */
module Frames {
  import opened Octets
  import opened Numerals
  import opened Crc32

  const HEADER_LENGTH := 12
  const FOOTER_LENGTH := 11

  // ---- encoding -----------------------------------------------------------------------------------------------

  function Body(tag: Octet, name: Packet, size: Packet, data: Packet): (body: Packet)
    ensures |body| == 4 + |name| + |size| + |data|
  {
    [tag] + "," + name + "," + size + "," + data
  }

  function Footer(body: Packet): (footer: Packet)
    ensures |footer| == FOOTER_LENGTH
  {
    "h" + FixedDigits(Checksum(body), 8, 16) + ",\n"
  }

  function Frame(tag: Octet, name: Packet, size: Packet, data: Packet): Packet {
    var body := Body(tag, name, size, data);
    body + Footer(body)
  }

  /** The three digits that announce a data section. */
  function SizeText(data: Packet): Packet {
    FixedDigits(|data| + FOOTER_LENGTH, 3, 10)
  }

  // ---- decoding -----------------------------------------------------------------------------------------------

  /** What one call of the frame decoder finds at the start of its range. */
  datatype Finding =
    | Incomplete(skip: nat)                                         // result_out_of_range
    | Malformed(next: nat)                                          // protocol_error
    | Framed(name: Packet, size: nat, data: Packet, next: nat)      // CRC-valid frame
  {
    /** Where the decoder leaves its output iterator. */
    function Cursor(): nat {
      if Incomplete? then skip else next
    }

    function Shifted(k: nat): (f: Finding)
      ensures f.Cursor() == Cursor() + k
    {
      match this
      case Incomplete(skip) => Incomplete(skip + k)
      case Malformed(next) => Malformed(next + k)
      case Framed(name, size, data, next) => Framed(name, size, data, next + k)
    }
  }

  /** `packet_size = std::atoi(...)`: a negative value becomes a huge `size_t`. */
  function PacketSize(field: Packet): nat
    requires |field| == 3
  {
    SizeAtMostThreeDigits(field);
    var n := Atoi(field);
    if n < 0 then n + 0x1_0000_0000_0000_0000 else n
  }

  lemma SizeAtMostThreeDigits(field: Packet)
    requires |field| == 3
    ensures -999 <= Atoi(field) <= 999
  {
    var t := SkipSpaces(field);
    SkipShortens(field);
    var u := if t != [] && (t[0] == '-' || t[0] == '+') then t[1..] else t;
    PrefixBound(u, 0, 1);
  }

  lemma {:induction false} SkipShortens(s: Packet)
    ensures |SkipSpaces(s)| <= |s|
    decreases |s|
  {
    if s != [] && IsSpace(s[0]) {
      SkipShortens(s[1..]);
    }
  }

  lemma {:induction false} PrefixBound(s: Packet, acc: nat, bound: nat)
    requires acc < bound && |s| <= 3
    ensures PrefixValue(s, 10, acc) < bound * Power10(|s|)
    decreases |s|
  {
    if s != [] && AnyCaseDigit(s[0], 10).Some? {
      PrefixBound(s[1..], acc * 10 + AnyCaseDigit(s[0], 10).value, bound * 10);
    }
  }

  function Power10(n: nat): (p: nat)
    requires n <= 3
    ensures p >= 1
  {
    if n == 0 then 1 else if n == 1 then 10 else if n == 2 then 100 else 1000
  }

  /** The decoder from the start character on. */
  function Parse(s: Packet): (f: Finding)
    ensures f.Cursor() <= |s|
    ensures if f.Incomplete? then f.skip == 0 else f.next >= 2
  {
    if |s| < HEADER_LENGTH then Incomplete(0)
    else if s[1] != ',' then Malformed(2)
    else if s[7] != ',' then Malformed(8)
    else
      var size := PacketSize(s[8..11]);
      if size < FOOTER_LENGTH then Malformed(11)
      else if s[11] != ',' then Malformed(12)
      else if |s| - HEADER_LENGTH < size then Incomplete(0)
      else
        var stop := HEADER_LENGTH + size - FOOTER_LENGTH;
        if Checksum(s[..stop]) != Strtol(s[stop + 1..stop + 9], 16) % WORD
        then Malformed(HEADER_LENGTH + size)
        else Framed(s[2..7], size, s[HEADER_LENGTH..stop], HEADER_LENGTH + size)
  }

  /** The search for frames that start with the given character: 'E' those of the ECU, 'H' those of the host. */
  function ScanFor(tag: Octet, s: Packet): (f: Finding)
    ensures f.Cursor() <= |s|
    ensures !f.Incomplete? ==> f.next > 0
  {
    var e := Find(s, tag);
    if e == |s| then Incomplete(e) else Parse(s[e..]).Shifted(e)
  }

  /** One call of `PowerEcuComFrameDecoder::Decode`, up to the choice of a data decoder. */
  function Scan(s: Packet): (f: Finding)
    ensures f.Cursor() <= |s|
    ensures !f.Incomplete? ==> f.next > 0
  {
    ScanFor('E', s)
  }

  // ---- what the encoder writes is what the decoder finds ------------------------------------------------------

  /** A checksum is always eight digits, and the C conversion reads them back. */
  lemma FooterReadsBack(body: Packet)
    ensures Strtol(Footer(body)[1..9], 16) == Checksum(body)
  {
    var digits := FixedDigits(Checksum(body), 8, 16);
    assert Footer(body)[1..9] == digits;
    EightDigits(Checksum(body));
    DigitsDenote(Checksum(body), 8, 16);
    StrtolNumeral(digits, 16);
  }

  lemma ChecksumIsWord(body: Packet)
    ensures Checksum(body) % WORD == Checksum(body)
  {
    hide Checksum;
  }

  lemma EightDigits(n: nat)
    requires n < WORD
    ensures Carry(n, 8, 16) == 0
  {
    var a := n / 16;
    var b := a / 16;
    var c := b / 16;
    var d := c / 16;
    assert d < 0x1_0000;
    assert Carry(n, 8, 16) == Carry(d, 4, 16);
    var e := d / 16;
    var f := e / 16;
    assert Carry(d, 4, 16) == Carry(f, 2, 16);
  }

  lemma SizeReadsBack(n: nat)
    requires n <= 999
    ensures Carry(n, 3, 10) == 0
    ensures PacketSize(FixedDigits(n, 3, 10)) == n
  {
    DigitsDenote(n, 3, 10);
    StrtolNumeral(FixedDigits(n, 3, 10), 10);
  }

  /**
   * Header and size in place, the decoder looks at nothing but the checksum: it takes the data
   * section over when the body has the announced checksum and skips the whole frame otherwise.
   */
  lemma ParseFrame(tag: Octet, name: Packet, data: Packet, footer: Packet, rest: Packet)
    requires |name| == 5 && |data| + FOOTER_LENGTH <= 999 && |footer| == FOOTER_LENGTH
    ensures var body := Body(tag, name, SizeText(data), data);
      Parse(body + footer + rest)
      == if Checksum(body) == Strtol(footer[1..9], 16) % WORD
         then Framed(name, |data| + FOOTER_LENGTH, data, |body| + FOOTER_LENGTH)
         else Malformed(|body| + FOOTER_LENGTH)
  {
    hide Checksum;
    hide Strtol;
    hide PacketSize;
    hide FixedDigits;
    var size := |data| + FOOTER_LENGTH;
    SizeReadsBack(size);
    var body := Body(tag, name, SizeText(data), data);
    var s := body + footer + rest;
    assert s[8..11] == SizeText(data);
    assert s[2..7] == name;
    assert s[..|body|] == body;
    assert s[HEADER_LENGTH..|body|] == data;
    assert s[|body| + 1..|body| + 9] == footer[1..9];
  }

  lemma ScanAfterNoise(tag: Octet, noise: Packet, s: Packet)
    requires tag !in noise && s != [] && s[0] == tag
    ensures ScanFor(tag, noise + s) == Parse(s).Shifted(|noise|)
  {
    hide Parse;
    assert (noise + s)[..|noise|] == noise;
    FindUnique(noise + s, tag, |noise|);
    assert (noise + s)[|noise|..] == s;
  }

  lemma ScanFrame(tag: Octet, noise: Packet, name: Packet, data: Packet, footer: Packet, rest: Packet)
    requires tag !in noise
    requires |name| == 5 && |data| + FOOTER_LENGTH <= 999 && |footer| == FOOTER_LENGTH
    ensures var body := Body(tag, name, SizeText(data), data);
      ScanFor(tag, noise + (body + footer) + rest)
      == if Checksum(body) == Strtol(footer[1..9], 16) % WORD
         then Framed(name, |data| + FOOTER_LENGTH, data, |noise| + |body| + FOOTER_LENGTH)
         else Malformed(|noise| + |body| + FOOTER_LENGTH)
  {
    var body := Body(tag, name, SizeText(data), data);
    var s := body + footer + rest;
    assert s[0] == tag;
    assert noise + (body + footer) + rest == noise + s;
    ScanAfterNoise(tag, noise, s);
    ParseFrame(tag, name, data, footer, rest);
  }

  /** Frame round trip: noise without the start character is skipped and the frame after it comes out intact. */
  lemma FrameReadsBack(tag: Octet, noise: Packet, name: Packet, data: Packet, rest: Packet)
    requires tag !in noise
    requires |name| == 5 && |data| + FOOTER_LENGTH <= 999
    ensures var frame := Frame(tag, name, SizeText(data), data);
      ScanFor(tag, noise + frame + rest) == Framed(name, |data| + FOOTER_LENGTH, data, |noise| + |frame|)
  {
    hide ScanFor;
    hide Footer;
    hide Checksum;
    hide Strtol;
    hide SizeText;
    var body := Body(tag, name, SizeText(data), data);
    FooterReadsBack(body);
    ChecksumIsWord(body);
    ScanFrame(tag, noise, name, data, Footer(body), rest);
  }

  lemma FrameRoundTrip(noise: Packet, name: Packet, data: Packet, rest: Packet)
    requires 'E' !in noise
    requires |name| == 5 && |data| + FOOTER_LENGTH <= 999
    ensures var frame := Frame('E', name, SizeText(data), data);
      Scan(noise + frame + rest) == Framed(name, |data| + FOOTER_LENGTH, data, |noise| + |frame|)
  {
    hide ScanFor;
    hide Footer;
    FrameReadsBack('E', noise, name, data, rest);
  }

  /**
   * A frame whose data section was altered within one aligned 4-byte word is rejected and skipped
   * whole: the words of the frame are counted from its 'E', so a data word starts at 12 + 4k.
   */
  lemma WordErrorRejected(noise: Packet, name: Packet, p: Packet, x: Packet, y: Packet, q: Packet, rest: Packet)
    requires 'E' !in noise
    requires |name| == 5 && |p + x + q| + FOOTER_LENGTH <= 999
    requires |p| % 4 == 0 && |x| == |y| <= 4 && x != y && (|x| == 4 || q == [])
    ensures var sent := Body('E', name, SizeText(p + x + q), p + x + q);
      var received := Body('E', name, SizeText(p + x + q), p + y + q) + Footer(sent);
      Scan(noise + received + rest) == Malformed(|noise| + |received|)
  {
    hide ScanFor;
    hide Footer;
    hide Checksum;
    assert SizeText(p + x + q) == SizeText(p + y + q);
    var sent := Body('E', name, SizeText(p + x + q), p + x + q);
    AlteredChecksum(name, SizeText(p + x + q), p, x, y, q);
    FooterReadsBack(sent);
    ScanFrame('E', noise, name, p + y + q, Footer(sent), rest);
  }

  lemma AlteredChecksum(name: Packet, size: Packet, p: Packet, x: Packet, y: Packet, q: Packet)
    requires |name| == 5 && |size| == 3
    requires |p| % 4 == 0 && |x| == |y| <= 4 && x != y && (|x| == 4 || q == [])
    ensures Checksum(Body('E', name, size, p + x + q)) != Checksum(Body('E', name, size, p + y + q))
  {
    var header := Body('E', name, size, []);
    var sent, altered := Body('E', name, size, p + x + q), Body('E', name, size, p + y + q);
    assert sent == header + p + x + q && altered == header + p + y + q;
    WordErrorDetected(header + p, x, y, q);
    if Checksum(sent) == Checksum(altered) {
      NumberInjective(Crc(sent), Crc(altered));
    }
  }
}
