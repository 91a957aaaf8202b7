/**
 * The decode loop of `PowerEcuProtocol::ReceiveAll` (power_ecu_protocol.cpp:407-423) over a byte
 * stream that arrives in arbitrary chunks.
 */
module FrameStream {
  import opened Octets
  import opened Numerals
  import opened Frames

  /** What the loop reports for one call of the decoder that did not end the loop. */
  datatype Report = Rejected | Accepted(name: Packet, size: nat, data: Packet)

  datatype Drained = Drained(reports: seq<Report>, residue: Packet)

  function ReportOf(f: Finding): Report
    requires !f.Incomplete?
  {
    match f
    case Malformed(_) => Rejected
    case Framed(name, size, data, _) => Accepted(name, size, data)
  }

  /** Decodes until the decoder asks for more input, and keeps what it did not consume. */
  function Drain(buffer: Packet): Drained
    decreases |buffer|
  {
    var f := Scan(buffer);
    if f.Incomplete? then Drained([], buffer[f.skip..])
    else
      var rest := Drain(buffer[f.next..]);
      Drained([ReportOf(f)] + rest.reports, rest.residue)
  }

  lemma DrainNext(rest: Packet)
    ensures var f := Scan(rest);
      Drain(rest) == if f.Incomplete? then Drained([], rest[f.skip..])
                     else Drained([ReportOf(f)] + Drain(rest[f.next..]).reports, Drain(rest[f.next..]).residue)
    ensures rest == [] ==> Drain(rest) == Drained([], [])
  {
    hide Parse;
  }

  // ---- independence of the chunking ---------------------------------------------------------------------------

  /** A verdict on a frame does not change when more input arrives. */
  lemma ParseStable(s: Packet, more: Packet)
    requires s != [] && s[0] == 'E'
    requires !Parse(s).Incomplete?
    ensures Parse(s + more) == Parse(s)
  {
    hide Crc32.Checksum;
    hide Strtol;
    var t := s + more;
    assert t[8..11] == s[8..11];
    if s[1] == ',' && s[7] == ',' && PacketSize(s[8..11]) >= FOOTER_LENGTH && s[11] == ',' {
      var stop := HEADER_LENGTH + PacketSize(s[8..11]) - FOOTER_LENGTH;
      assert t[..stop] == s[..stop];
      assert t[stop + 1..stop + 9] == s[stop + 1..stop + 9];
      assert t[2..7] == s[2..7];
      assert t[HEADER_LENGTH..stop] == s[HEADER_LENGTH..stop];
    }
  }

  /** What is dropped while waiting for input never matters later. */
  lemma ScanStable(s: Packet, more: Packet)
    ensures !Scan(s).Incomplete? ==> Scan(s + more) == Scan(s)
    ensures Scan(s).Incomplete? ==> Scan(s + more) == Scan(s[Scan(s).skip..] + more).Shifted(Scan(s).skip)
  {
    hide Parse;
    hide Find;
    var e := Find(s, 'E');
    if e == |s| {
      ScanWithoutStart(s, more);
      assert s[e..] + more == more;
    } else {
      FindStable(s, more, 'E');
      assert (s + more)[e..] == s[e..] + more;
      ParsedAtStart(s[e..], more);
    }
  }

  lemma ScanAt(s: Packet)
    ensures var e := Find(s, 'E');
      Scan(s) == if e == |s| then Incomplete(|s|) else Parse(s[e..]).Shifted(e)
  {
    hide Parse;
    hide Find;
  }

  lemma ScanWithoutStart(s: Packet, more: Packet)
    requires Find(s, 'E') == |s|
    ensures Scan(s + more) == Scan(more).Shifted(|s|)
  {
    hide Scan;
    hide Parse;
    hide Find;
    var j := Find(more, 'E');
    ScanAt(s + more);
    ScanAt(more);
    FindStable(s, more, 'E');
    BeyondPrefix(s, more, j);
  }

  lemma BeyondPrefix(s: Packet, more: Packet, j: nat)
    requires j <= |more|
    ensures (s + more)[|s| + j..] == more[j..]
  {
  }

  lemma ParsedAtStart(t: Packet, more: Packet)
    requires t != [] && t[0] == 'E'
    ensures Scan(t + more) == Parse(t + more)
    ensures !Parse(t).Incomplete? ==> Parse(t + more) == Parse(t)
    ensures Parse(t).Incomplete? ==> t[Parse(t).skip..] == t
  {
    hide Parse;
    assert (t + more)[..0] == [];
    FindUnique(t + more, 'E', 0);
    assert (t + more)[0..] == t + more;
    if !Parse(t).Incomplete? {
      ParseStable(t, more);
    }
  }

  /** Chunk invariance: decoding a, keeping the residue and going on with b is decoding a + b. */
  lemma {:induction false} ChunkInvariance(a: Packet, b: Packet)
    ensures var first := Drain(a);
      var second := Drain(first.residue + b);
      Drain(a + b) == Drained(first.reports + second.reports, second.residue)
    decreases |a|
  {
    hide Scan;
    ScanStable(a, b);
    var f := Scan(a);
    if f.Incomplete? {
      DrainDropsPrefix(a + b, a[f.skip..] + b, f.skip);
      var second := Drain(a[f.skip..] + b);
      assert [] + second.reports == second.reports;
    } else {
      assert (a + b)[f.next..] == a[f.next..] + b;
      ChunkInvariance(a[f.next..], b);
      var rest, second := Drain(a[f.next..]), Drain(Drain(a[f.next..]).residue + b);
      assert [ReportOf(f)] + (rest.reports + second.reports) == [ReportOf(f)] + rest.reports + second.reports;
    }
  }

  lemma DrainDropsPrefix(s: Packet, t: Packet, k: nat)
    requires k <= |s| && t == s[k..]
    requires Scan(s) == Scan(t).Shifted(k)
    ensures Drain(s) == Drain(t)
  {
    hide Scan;
    var f := Scan(t);
    assert s[k..][f.Cursor()..] == s[k + f.Cursor()..];
  }

  /** Bytes without a start character never delay or alter what follows them. */
  lemma NoiseDropped(noise: Packet, rest: Packet)
    requires 'E' !in noise
    ensures Drain(noise + rest) == Drain(rest)
  {
    hide Scan;
    ScanWithoutStart(noise, rest);
    DrainDropsPrefix(noise + rest, rest, |noise|);
  }

  /**
   * Noise that ends in a start character does matter: the decoder consumes the frame's own 'E' as the
   * character that should have been a comma, and loses the frame.
   */
  lemma StraySkipped(frame: Packet, rest: Packet)
    requires |frame| >= HEADER_LENGTH && frame[0] == 'E' && 'E' !in frame[1..]
    ensures Drain("E" + frame + rest) == Drained([Rejected] + Drain(rest).reports, Drain(rest).residue)
  {
    hide Drain;
    var s := "E" + frame + rest;
    assert s[..0] == [] && s[0..] == s;
    FindUnique(s, 'E', 0);
    assert Scan(s) == Malformed(2);
    assert s[2..] == frame[1..] + rest;
    NoiseDropped(frame[1..], rest);
    DrainNext(s);
  }

  function Concat(chunks: seq<Packet>): Packet {
    if chunks == [] then [] else chunks[0] + Concat(chunks[1..])
  }

  /** The receiver's whole history: each read appends a chunk to the residue and drains it. */
  function DrainChunks(residue: Packet, chunks: seq<Packet>): Drained
    decreases |chunks|
  {
    if chunks == [] then Drained([], residue)
    else
      var first := Drain(residue + chunks[0]);
      var rest := DrainChunks(first.residue, chunks[1..]);
      Drained(first.reports + rest.reports, rest.residue)
  }

  /** However the bytes are cut into reads, the reports and the residue are those of a single read. */
  lemma {:induction false} ChunkingIsIrrelevant(residue: Packet, chunks: seq<Packet>)
    requires Drain(residue) == Drained([], residue)
    ensures DrainChunks(residue, chunks) == Drain(residue + Concat(chunks))
    decreases |chunks|
  {
    hide Drain;
    if chunks == [] {
      assert residue + Concat(chunks) == residue;
    } else {
      hide Concat;
      var first := Drain(residue + chunks[0]);
      ResidueIsDrained(residue + chunks[0]);
      ChunkingIsIrrelevant(first.residue, chunks[1..]);
      ChunkInvariance(residue + chunks[0], Concat(chunks[1..]));
      ConcatNext(residue, chunks);
    }
  }

  lemma ConcatNext(residue: Packet, chunks: seq<Packet>)
    requires chunks != []
    ensures residue + Concat(chunks) == residue + chunks[0] + Concat(chunks[1..])
  {
  }

  /** The loop stops only where the decoder cannot go on: draining the residue again changes nothing. */
  lemma {:induction false} ResidueIsDrained(buffer: Packet)
    ensures Drain(Drain(buffer).residue) == Drained([], Drain(buffer).residue)
    decreases |buffer|
  {
    hide Parse;
    var f := Scan(buffer);
    if f.Incomplete? {
      ScanStable(buffer, []);
      var r := buffer[f.skip..];
      assert buffer + [] == buffer && r + [] == r;
      assert Scan(r).Incomplete? && Scan(r).skip == 0;
      assert r[0..] == r;
    } else {
      ResidueIsDrained(buffer[f.next..]);
    }
  }

  // ---- the receive buffer stays small -------------------------------------------------------------------------

  const RESIDUE_LIMIT := 1010

  /** A complete header whose size field reads as a negative number. */
  predicate NegativeSize(s: Packet) {
    |s| >= HEADER_LENGTH && s[..2] == "E," && s[7] == ',' && s[11] == ',' && Atoi(s[8..11]) < 0
  }

  lemma {:induction false} ResidueShape(buffer: Packet)
    ensures var r := Drain(buffer).residue;
      r == [] || (r[0] == 'E' && (|r| <= RESIDUE_LIMIT || NegativeSize(r)))
    decreases |buffer|
  {
    var f := Scan(buffer);
    if f.Incomplete? {
      var r := buffer[f.skip..];
      if r != [] {
        assert r[0] == 'E' && Parse(r).Incomplete?;
        WaitingHeader(r);
      }
    } else {
      hide Scan;
      ResidueShape(buffer[f.next..]);
    }
  }

  lemma WaitingHeader(r: Packet)
    requires r != [] && r[0] == 'E' && Parse(r).Incomplete?
    ensures |r| <= RESIDUE_LIMIT || NegativeSize(r)
  {
    hide Crc32.Checksum;
    hide Strtol;
    if |r| >= HEADER_LENGTH {
      SizeAtMostThreeDigits(r[8..11]);
    }
  }

  /** With a negative size the decoder waits for more bytes than any buffer can hold. */
  lemma NegativeSizeStalls(r: Packet)
    requires NegativeSize(r) && |r| < 0x8000_0000_0000_0000
    ensures Drain(r) == Drained([], r)
  {
    hide Crc32.Checksum;
    hide Strtol;
    assert r[0] == r[..2][0] && r[1] == r[..2][1];
    SizeAtMostThreeDigits(r[8..11]);
    assert r[..0] == [];
    FindUnique(r, 'E', 0);
    assert r[0..] == r;
    assert Parse(r) == Incomplete(0);
  }

  /**
   * The exact condition under which reception can get stuck: more than 1010 bytes are kept without
   * being consumed if and only if they start with a complete header of negative size.
   */
  lemma StalledIffNegativeSize(buffer: Packet)
    requires RESIDUE_LIMIT < |buffer| < 0x8000_0000_0000_0000
    ensures Drain(buffer) == Drained([], buffer) <==> NegativeSize(buffer)
  {
    hide Scan;
    ResidueShape(buffer);
    if NegativeSize(buffer) {
      NegativeSizeStalls(buffer);
    }
  }

  /** One such header, `E,ecu1_,-01,`, stops reception for good: nothing that follows is ever decoded. */
  lemma StalledForever(more: Packet)
    requires |more| < 0x7000_0000_0000_0000
    ensures Drain("E,ecu1_,-01," + more) == Drained([], "E,ecu1_,-01," + more)
  {
    hide Drain;
    hide Atoi;
    var r: Packet := "E,ecu1_,-01," + more;
    assert r[8..11] == "-01";
    MinusOne();
    NegativeSizeStalls(r);
  }

  lemma MinusOne()
    ensures Atoi("-01") < 0
  {
    var field, digits: Packet := "-01", "01";
    assert field[1..] == digits;
    assert SkipSpaces(field) == field;
    assert digits[1..] == "1";
    assert PrefixValue(digits, 10, 0) == PrefixValue("1", 10, 0);
    assert PrefixValue("1", 10, 0) == 1;
  }
}
