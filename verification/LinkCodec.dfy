/** What the three codec levels of the power ECU link achieve together. */
module LinkCodec {
  import opened Options
  import opened Octets
  import opened Numerals
  import opened Elements
  import opened DataPackets
  import opened Frames
  import opened FrameStream
  import opened Resync
  import opened Schemas
  import opened FrameCodec

  // ---- encoder and decoder are symmetric ----------------------------------------------------------------------

  /** The size digits of a command are right exactly when its whole data section could be encoded. */
  lemma SizeRightIffEncoded(c: Command, values: seq<Value>)
    requires Announces(c) && |values| == |c.elements|
    ensures var data := EncodeFields(c.elements, values);
      c.size == SizeText(data.text) <==> data.ok
  {
    var data := EncodeFields(c.elements, values);
    EncodedLength(c.elements, values);
    DigitsOfValue(c.size, 10);
    ThreeDigits(c.size);
    SizeReadsBack(|data.text| + 11);
    DigitsDenote(|data.text| + 11, 3, 10);
  }

  /**
   * What the host sends. An encoder appends to its buffer: tag, name, size and data, and the checksum of
   * all that the buffer then holds.
   */
  lemma CommandIsFrame(buffer: Packet, c: Command, values: seq<Value>)
    requires |values| == |c.elements|
    ensures var text := EncodeFields(c.elements, values).text;
      var sent := EncodedFrame(buffer, c, values);
      |sent| == |buffer| + |c.name| + |c.size| + |text| + 15 &&
      sent == buffer + "H," + c.name + "," + c.size + "," + text + Footer(sent[..|sent| - 11])
    ensures EncodedFrame([], c, values) == Frame('H', c.name, c.size, EncodeFields(c.elements, values).text)
  {
    hide Footer;
    hide EncodeFields;
    var text := EncodeFields(c.elements, values).text;
    var sent := EncodedFrame(buffer, c, values);
    assert sent[..|sent| - 11] == buffer + "H," + c.name + "," + c.size + "," + text;
    var body := Body('H', c.name, c.size, text);
    assert [] + body == body;
  }

  /** Read as a host frame, the bytes are the command with these values. */
  predicate ReadsBack(sent: Packet, c: Command, values: seq<Value>)
    requires |values| == |c.elements|
  {
    ScanFor('H', sent)
      == if EncodeFields(c.elements, values).ok
         then Framed(c.name, Layout(c.elements), EncodeFields(c.elements, values).text, |sent|)
         else Incomplete(0)
  }

  /**
   * The frame encoder ignores a failed data encode. Read as a host frame, what it writes is taken over
   * whole if the data encoded; otherwise its size field asks for more than was written and the reader
   * swallows what follows.
   */
  lemma FrameCompleteIffEncoded(c: Command, values: seq<Value>)
    requires Announces(c) && |values| == |c.elements|
    ensures ReadsBack(EncodedFrame([], c, values), c, values)
  {
    hide Footer;
    hide EncodeFields;
    hide EncodedFrame;
    hide FixedDigits;
    hide Layout;
    var data := EncodeFields(c.elements, values);
    CommandIsFrame([], c, values);
    EncodedLength(c.elements, values);
    SizeRightIffEncoded(c, values);
    ThreeDigits(c.size);
    var frame := Frame('H', c.name, c.size, data.text);
    if data.ok {
      hide ScanFor;
      FrameReadsBack('H', [], c.name, data.text, []);
      assert [] + frame + [] == frame;
    } else {
      StarvedFrame(c, data.text, Footer(Body('H', c.name, c.size, data.text)));
    }
  }

  lemma StarvedFrame(c: Command, text: Packet, footer: Packet)
    requires Announces(c) && |text| + FOOTER_LENGTH < Layout(c.elements) && |footer| == FOOTER_LENGTH
    ensures ScanFor('H', Body('H', c.name, c.size, text) + footer) == Incomplete(0)
  {
    hide NumeralValue;
    hide Strtol;
    hide Crc32.Checksum;
    var s := Body('H', c.name, c.size, text) + footer;
    assert s[8..11] == c.size;
    StrtolNumeral(c.size, 10);
    ThreeDigits(c.size);
    assert s[..0] == [];
    FindUnique(s, 'H', 0);
    assert s[0..] == s;
  }

  lemma ThreeDigits(s: Packet)
    requires |s| == 3 && IsNumeral(s, 10)
    ensures NumeralValue(s, 10) <= 999
  {
    SizeDigits(s);
  }

  /**
   * Link round trip: for every consistent packet format, values in range come out of the decoder as
   * they went into the encoder, whatever E-free noise comes before the frame and whatever follows it.
   */
  lemma LinkRoundTrip(f: Format, values: seq<Value>, noise: Packet, rest: Packet, s: State)
    requires Consistent(f) && AllFit(f.elements, values) && Matches(f, s)
    requires 'E' !in noise
    ensures var text := EncodeFields(f.elements, values).text;
      var frame := Frame('E', f.name, SizeText(text), text);
      Scan(noise + frame + rest) == Framed(f.name, f.size, text, |noise| + |frame|) &&
      Decodes(f.elements, text) && DecodeState(f, s, text) == Update(f.kind, s.(raw := values))
  {
    hide Scan;
    hide Frame;
    hide SizeText;
    hide EncodeFields;
    hide LeadingFields;
    hide Ecu1Image;
    var text := EncodeFields(f.elements, values).text;
    DataRoundTrip(f.elements, values);
    EncodedLength(f.elements, values);
    FrameRoundTrip(noise, f.name, text, rest);
    assert Overwrite(s.raw, values) == values;
  }

  /**
   * In particular the loop of `ReceiveAll` decodes the frame after any noise that clears, and goes on
   * behind it.
   */
  lemma StreamRoundTrip(f: Format, values: seq<Value>, noise: Packet, rest: Packet)
    requires Consistent(f) && AllFit(f.elements, values)
    requires Clears(noise)
    ensures var text := EncodeFields(f.elements, values).text;
      Drain(noise + Frame('E', f.name, SizeText(text), text) + rest)
      == Drained(NoiseReports(noise) + [Accepted(f.name, f.size, text)] + Drain(rest).reports, Drain(rest).residue)
  {
    hide Drain;
    hide Footer;
    hide EncodeFields;
    hide LeadingFields;
    hide Clears;
    hide NoiseReports;
    DataRoundTrip(f.elements, values);
    EncodedLength(f.elements, values);
    NoisyRoundTrip(noise, f.name, EncodeFields(f.elements, values).text, rest);
  }

  /**
   * A frame with an altered data word is reported and skipped whole. To the data decoders it is as if
   * the frame had not been there.
   */
  lemma AlteredFrameHarmless(formats: map<Packet, Format>, states: map<Packet, State>, noise: Packet, name: Packet,
                             p: Packet, x: Packet, y: Packet, q: Packet, rest: Packet)
    requires Known(formats, states)
    requires Clears(noise) && |name| == 5 && |p + x + q| + FOOTER_LENGTH <= 999
    requires |p| % 4 == 0 && |x| == |y| <= 4 && x != y && (|x| == 4 || q == [])
    ensures var sent := Body('E', name, SizeText(p + x + q), p + x + q);
      var received := Body('E', name, SizeText(p + x + q), p + y + q) + Footer(sent);
      var reports := Drain(noise + received + rest).reports;
      var others := NoiseReports(noise) + Drain(rest).reports;
      reports == NoiseReports(noise) + [Rejected] + Drain(rest).reports &&
      DispatchAll(formats, states, reports) == Dispatched(DispatchAll(formats, states, others).states, false)
  {
    hide Scan;
    hide Footer;
    hide SizeText;
    hide Clears;
    hide NoiseReports;
    hide DispatchAll;
    hide Drain;
    var sent := Body('E', name, SizeText(p + x + q), p + x + q);
    var received := Body('E', name, SizeText(p + x + q), p + y + q) + Footer(sent);
    WordErrorRejected([], name, p, x, y, q, rest);
    var t := received + rest;
    assert [] + received + rest == t;
    DrainNext(t);
    assert t[|received|..] == rest;
    NoiseCleared(noise, t);
    assert noise + received + rest == noise + t;
    var before, after := NoiseReports(noise), Drain(rest).reports;
    assert before + ([Rejected] + after) == before + [Rejected] + after;
    RejectionInert(formats, states, before, after);
  }

  lemma RejectionInert(formats: map<Packet, Format>, states: map<Packet, State>,
                       before: seq<Report>, after: seq<Report>)
    requires Known(formats, states)
    ensures DispatchAll(formats, states, before + [Rejected] + after)
         == Dispatched(DispatchAll(formats, states, before + after).states, false)
  {
    hide DecodeState;
    var middle := DispatchAll(formats, states, before).states;
    DispatchConcat(formats, states, before, after);
    DispatchConcat(formats, states, before, [Rejected] + after);
    assert before + ([Rejected] + after) == before + [Rejected] + after;
    assert ([Rejected] + after)[1..] == after;
    assert Dispatch(formats, middle, Rejected) == Dispatched(middle, false);
  }

  /** Chunk invariance for the data decoders too: states, verdict and residue do not depend on the cut. */
  lemma ChunkedDecoding(formats: map<Packet, Format>, states: map<Packet, State>, a: Packet, b: Packet)
    requires Known(formats, states)
    ensures var first := Drain(a);
      var second := Drain(first.residue + b);
      var whole := Drain(a + b);
      var x := DispatchAll(formats, states, first.reports);
      var y := DispatchAll(formats, x.states, second.reports);
      DispatchAll(formats, states, whole.reports) == Dispatched(y.states, x.ok && y.ok) &&
      whole.residue == second.residue
  {
    hide Drain;
    hide Dispatch;
    hide DispatchAll;
    ChunkInvariance(a, b);
    DispatchConcat(formats, states, Drain(a).reports, Drain(Drain(a).residue + b).reports);
  }

  lemma SplitLast(reports: seq<Report>)
    requires reports != []
    ensures reports == reports[..|reports| - 1] + [reports[|reports| - 1]]
  {
  }

  lemma DispatchLast(formats: map<Packet, Format>, states: map<Packet, State>, reports: seq<Report>)
    requires Known(formats, states) && reports != []
    ensures var k := |reports| - 1;
      DispatchAll(formats, states, reports).states
      == Dispatch(formats, DispatchAll(formats, states, reports[..k]).states, reports[k]).states
  {
    hide *;
    var k := |reports| - 1;
    SplitLast(reports);
    DispatchNext(formats, states, reports[..k], reports[k]);
  }

  // ---- published snapshots ------------------------------------------------------------------------------------

  /** The report completes a packet of this format: right name and size, and every field decodes. */
  predicate Completes(f: Format, r: Report) {
    r.Accepted? && r.name == f.name && r.size == f.size && Decodes(f.elements, r.data)
  }

  function LastComplete(f: Format, reports: seq<Report>): Option<Packet>
    decreases |reports|
  {
    if reports == [] then None
    else if Completes(f, reports[|reports| - 1]) then Some(reports[|reports| - 1].data)
    else LastComplete(f, reports[..|reports| - 1])
  }

  /** Where the last complete packet is. */
  lemma {:induction false} LastCompleteAt(f: Format, reports: seq<Report>) returns (i: nat)
    requires LastComplete(f, reports).Some?
    ensures i < |reports| && Completes(f, reports[i]) && reports[i].data == LastComplete(f, reports).value
    ensures forall k :: i < k < |reports| ==> !Completes(f, reports[k])
    decreases |reports|
  {
    hide Completes;
    i := |reports| - 1;
    if !Completes(f, reports[i]) {
      i := LastCompleteAt(f, reports[..i]);
    }
  }

  lemma {:induction false} SomeComplete(f: Format, reports: seq<Report>, i: nat)
    requires i < |reports| && Completes(f, reports[i])
    ensures LastComplete(f, reports).Some?
    decreases |reports|
  {
    hide Completes;
    if i < |reports| - 1 {
      SomeComplete(f, reports[..|reports| - 1], i);
    }
  }

  predicate Buffered(kind: Kind) {
    kind.Ecu1? || kind.Ver?
  }

  /** What `Update` publishes for a completely decoded data section. */
  function Image(f: Format, text: Packet): seq<Value>
    requires f.kind.Ecu1? ==> |f.elements| == 27
    requires Decodes(f.elements, text)
  {
    Update(f.kind, State(LeadingFields(f.elements, text), [], false)).out
  }

  lemma LastCompleteDecodes(f: Format, reports: seq<Report>)
    ensures LastComplete(f, reports).Some? ==> Decodes(f.elements, LastComplete(f, reports).value)
    decreases |reports|
  {
  }

  /**
   * Snapshot consistency: whatever frames arrive, partially decodable ones included, the published
   * ecu1 (and version) parameters are the image of the last completely decoded frame, or untouched.
   */
  lemma {:induction false} SnapshotConsistent(formats: map<Packet, Format>, states: map<Packet, State>,
                                              n: Packet, reports: seq<Report>)
    requires Known(formats, states) && n in formats && formats[n].name == n && Buffered(formats[n].kind)
    ensures LastComplete(formats[n], reports).Some? ==>
      Decodes(formats[n].elements, LastComplete(formats[n], reports).value)
    ensures var last := LastComplete(formats[n], reports);
      Published(formats[n].kind, DispatchAll(formats, states, reports).states[n])
      == if last.Some? then Image(formats[n], last.value) else Published(formats[n].kind, states[n])
    decreases |reports|
  {
    LastCompleteDecodes(formats[n], reports);
    if reports != [] {
      var k := |reports| - 1;
      DispatchLast(formats, states, reports);
      SnapshotConsistent(formats, states, n, reports[..k]);
      PublishStep(formats, DispatchAll(formats, states, reports[..k]).states, n, reports[k]);
    }
  }

  lemma PublishStep(formats: map<Packet, Format>, states: map<Packet, State>, n: Packet, r: Report)
    requires Known(formats, states) && n in formats && formats[n].name == n && Buffered(formats[n].kind)
    ensures Published(formats[n].kind, Dispatch(formats, states, r).states[n])
         == if Completes(formats[n], r) then Image(formats[n], r.data) else Published(formats[n].kind, states[n])
  {
    hide LeadingFields;
    if Completes(formats[n], r) {
      var values := LeadingFields(formats[n].elements, r.data);
      assert Overwrite(states[n].raw, values) == values;
    }
  }

  /**
   * The flag that a client clears and polls: up again once an rxack or version packet has been decoded
   * completely, and for no other reason.
   */
  lemma {:induction false} FlagTracksComplete(formats: map<Packet, Format>, states: map<Packet, State>,
                                              n: Packet, reports: seq<Report>)
    requires Known(formats, states) && n in formats && formats[n].name == n
    ensures var f := formats[n];
      DispatchAll(formats, states, reports).states[n].received
      == (states[n].received || ((f.kind.Rxack? || f.kind.Ver?) && LastComplete(f, reports).Some?))
    decreases |reports|
  {
    if reports != [] {
      hide Dispatch;
      hide Completes;
      var k := |reports| - 1;
      DispatchLast(formats, states, reports);
      FlagTracksComplete(formats, states, n, reports[..k]);
      FlagStep(formats, DispatchAll(formats, states, reports[..k]).states, n, reports[k]);
    }
  }

  lemma FlagStep(formats: map<Packet, Format>, states: map<Packet, State>, n: Packet, r: Report)
    requires Known(formats, states) && n in formats && formats[n].name == n
    ensures var f := formats[n];
      Dispatch(formats, states, r).states[n].received
      == (states[n].received || ((f.kind.Rxack? || f.kind.Ver?) && Completes(f, r)))
  {
    hide LeadingFields;
    hide Overwrite;
    hide Ecu1Image;
  }

  /** What is published of a complete packet: the image of its ecu1 fields. */
  lemma Ecu1Published(f: Format, text: Packet)
    requires f.kind.Ecu1? && |f.elements| == 27 && Decodes(f.elements, text)
    ensures Image(f, text) == Ecu1Image(LeadingFields(f.elements, text))
  {
    hide LeadingFields;
    hide Ecu1Image;
  }

  /** Both versions, each without its first character. */
  lemma VersionsPublished(f: Format, text: Packet, ecu: Packet, com: Packet, c: Octet, d: Octet)
    requires f.kind.Ver? && Decodes(f.elements, text)
    requires LeadingFields(f.elements, text) == [Str([c] + ecu), Str([d] + com)]
    ensures Image(f, text) == [Str(ecu), Str(com)]
  {
    hide LeadingFields;
    assert ([c] + ecu)[1..] == ecu && ([d] + com)[1..] == com;
  }

  /** The report reaches the decoder of this format: right name and size. */
  predicate Reached(f: Format, r: Report) {
    r.Accepted? && r.name == f.name && r.size == f.size
  }

  /** The value that the newest frame to get as far as field j gave it. */
  function NewestField(f: Format, reports: seq<Report>, j: nat): Option<Value>
    decreases |reports|
  {
    if reports == [] then None
    else
      var k := |reports| - 1;
      if Reached(f, reports[k]) && j < |LeadingFields(f.elements, reports[k].data)|
      then Some(LeadingFields(f.elements, reports[k].data)[j])
      else NewestField(f, reports[..k], j)
  }

  /**
   * ecu2 publishes the fields its elements write: after any reports, each field is what the newest frame
   * that decoded that far gave it, or untouched.
   */
  lemma {:induction false} FieldsAreNewest(formats: map<Packet, Format>, states: map<Packet, State>,
                                           n: Packet, reports: seq<Report>, j: nat)
    requires Known(formats, states) && n in formats && formats[n].name == n && formats[n].kind.Ecu2?
    requires j < |formats[n].elements|
    ensures var newest := NewestField(formats[n], reports, j);
      |Published(formats[n].kind, DispatchAll(formats, states, reports).states[n])| == |formats[n].elements| &&
      Published(formats[n].kind, DispatchAll(formats, states, reports).states[n])[j]
      == if newest.Some? then newest.value else Published(formats[n].kind, states[n])[j]
    decreases |reports|
  {
    hide LeadingFields;
    hide DispatchAll;
    hide Dispatch;
    hide Known;
    if reports != [] {
      var k := |reports| - 1;
      DispatchLast(formats, states, reports);
      FieldsAreNewest(formats, states, n, reports[..k], j);
      FieldStep(formats, DispatchAll(formats, states, reports[..k]).states, n, reports[k], j);
    } else {
      DispatchNone(formats, states);
      KnownMatches(formats, states, n);
    }
  }

  lemma FieldStep(formats: map<Packet, Format>, states: map<Packet, State>, n: Packet, r: Report, j: nat)
    requires Known(formats, states) && n in formats && formats[n].name == n && formats[n].kind.Ecu2?
    requires j < |formats[n].elements|
    ensures var vs := if Reached(formats[n], r) then LeadingFields(formats[n].elements, r.data) else [];
      |Published(formats[n].kind, Dispatch(formats, states, r).states[n])| == |formats[n].elements| &&
      |Published(formats[n].kind, states[n])| == |formats[n].elements| &&
      Published(formats[n].kind, Dispatch(formats, states, r).states[n])[j]
      == if j < |vs| then vs[j] else Published(formats[n].kind, states[n])[j]
  {
    hide LeadingFields;
  }

  /**
   * So an ecu2 frame that fails half way shows through: the published parameters stay as they were
   * exactly when the fields before the failure repeat them.
   */
  lemma DirectMixes(f: Format, s: State, text: Packet)
    requires Matches(f, s) && f.kind.Ecu2? && !Decodes(f.elements, text)
    ensures var vs := LeadingFields(f.elements, text);
      Published(f.kind, DecodeState(f, s, text)) == vs + s.raw[|vs|..] &&
      (Published(f.kind, DecodeState(f, s, text)) == Published(f.kind, s) <==> vs == s.raw[..|vs|])
  {
    hide LeadingFields;
    var vs := LeadingFields(f.elements, text);
    assert (vs + s.raw[|vs|..])[..|vs|] == vs;
    assert s.raw == s.raw[..|vs|] + s.raw[|vs|..];
  }

  /** The fields of the last completely decoded frame, or the ones from before the first. */
  function LastWhole(f: Format, reports: seq<Report>, initial: seq<Value>): seq<Value> {
    var last := LastComplete(f, reports);
    if last.Some? then LeadingFields(f.elements, last.value) else initial
  }

  /** After the first k reports the published fields are those of one frame, the last complete one. */
  predicate WholeAfter(formats: map<Packet, Format>, states: map<Packet, State>, n: Packet, reports: seq<Report>,
                       k: nat)
    requires Known(formats, states) && n in formats && k <= |reports|
  {
    var f := formats[n];
    Published(f.kind, DispatchAll(formats, states, reports[..k]).states[n])
    == LastWhole(f, reports[..k], Published(f.kind, states[n]))
  }

  /** Report k is no frame that fails half way, or its decoded fields repeat those of the last complete one. */
  predicate Repeats(f: Format, reports: seq<Report>, k: nat, initial: seq<Value>)
    requires k < |reports|
  {
    Reached(f, reports[k]) && !Completes(f, reports[k]) ==>
      LeadingFields(f.elements, reports[k].data) <= LastWhole(f, reports[..k], initial)
  }

  lemma WholeStep(formats: map<Packet, Format>, states: map<Packet, State>, n: Packet, reports: seq<Report>, k: nat)
    requires Known(formats, states) && n in formats && formats[n].name == n && formats[n].kind.Ecu2?
    requires k < |reports| && WholeAfter(formats, states, n, reports, k)
    ensures WholeAfter(formats, states, n, reports, k + 1)
      <==> Repeats(formats[n], reports, k, Published(formats[n].kind, states[n]))
  {
    hide LeadingFields;
    hide DispatchAll;
    hide Known;
    var f := formats[n];
    var now := reports[..k + 1];
    assert now[..k] == reports[..k];
    DispatchLast(formats, states, now);
    var before := DispatchAll(formats, states, reports[..k]).states;
    KnownMatches(formats, before, n);
    if Reached(f, reports[k]) {
      var data := reports[k].data;
      if Decodes(f.elements, data) {
        assert Overwrite(before[n].raw, LeadingFields(f.elements, data)) == LeadingFields(f.elements, data);
      } else {
        DirectMixes(f, before[n], data);
        PrefixIff(LeadingFields(f.elements, data), before[n].raw);
      }
    }
  }

  lemma PrefixIff(a: seq<Value>, b: seq<Value>)
    requires |a| <= |b|
    ensures a <= b <==> a == b[..|a|]
  {
  }

  /**
   * Exactly when ecu2 always publishes one whole frame: after each report the published parameters are
   * those of the last completely decoded frame (or the initial ones), if and only if every frame that
   * reaches the decoder and fails there repeats, up to its failure, the complete one before it.
   */
  lemma {:induction false} AlwaysWholeIff(formats: map<Packet, Format>, states: map<Packet, State>, n: Packet,
                                          reports: seq<Report>, m: nat)
    requires Known(formats, states) && n in formats && formats[n].name == n && formats[n].kind.Ecu2?
    requires m <= |reports|
    ensures (forall k :: 0 <= k <= m ==> WholeAfter(formats, states, n, reports, k))
      <==> (forall k :: 0 <= k < m ==> Repeats(formats[n], reports, k, Published(formats[n].kind, states[n])))
    decreases m
  {
    hide WholeAfter;
    hide Repeats;
    if m == 0 {
      WholeAtFirst(formats, states, n, reports);
    } else {
      AlwaysWholeIff(formats, states, n, reports, m - 1);
      if WholeAfter(formats, states, n, reports, m - 1) {
        WholeStep(formats, states, n, reports, m - 1);
      }
    }
  }

  lemma WholeAtFirst(formats: map<Packet, Format>, states: map<Packet, State>, n: Packet, reports: seq<Report>)
    requires Known(formats, states) && n in formats
    ensures WholeAfter(formats, states, n, reports, 0)
  {
    assert reports[..0] == [];
  }

  lemma TornFields(date: Packet, filler: Packet)
    requires |date| == 14 && ',' !in date && |filler| == 265 && ',' !in filler
    ensures |TornData(date, filler)| + FOOTER_LENGTH == Ecu2Format().size
    ensures LeadingFields(Ecu2Format().elements, TornData(date, filler)) == [Str(date)]
  {
    var data := TornData(date, filler);
    assert data[..14] == date && data[15..] == filler;
    FindUnique(data, ',', 14);
    assert filler[..265] == filler;
    FindUnique(filler, ',', 265);
    var elements := Ecu2Format().elements;
    assert elements[0] == Text(14);
    StopsAt(elements, data);
    StopsAt(elements[1..], filler);
  }

  /** An ecu2 data section of the right length whose second field is not a number. */
  function TornData(date: Packet, filler: Packet): Packet {
    date + "," + filler
  }

  /**
   * A frame with the right size and checksum whose second field is not a number replaces the published
   * date next to the old readings, after any noise that clears.
   */
  lemma Ecu2Tears(formats: map<Packet, Format>, states: map<Packet, State>, noise: Packet,
                  date: Packet, filler: Packet)
    requires Known(formats, states) && ECU2 in formats && formats[ECU2] == Ecu2Format()
    requires Clears(noise) && |date| == 14 && ',' !in date && |filler| == 265 && ',' !in filler
    ensures var data := TornData(date, filler);
      var reports := Drain(noise + Frame('E', ECU2, SizeText(data), data)).reports;
      var before := DispatchAll(formats, states, NoiseReports(noise)).states[ECU2];
      var after := DispatchAll(formats, states, reports);
      !after.ok && |before.raw| > 0 &&
      Published(Ecu2, after.states[ECU2]) == [Str(date)] + Published(Ecu2, before)[1..]
  {
    hide Drain;
    hide Frame;
    hide SizeText;
    hide Clears;
    hide NoiseReports;
    hide LeadingFields;
    hide Repeat;
    hide Rails;
    var data := TornData(date, filler);
    TornFields(date, filler);
    NoisyRoundTrip(noise, ECU2, data, []);
    var frame := Frame('E', ECU2, SizeText(data), data);
    assert noise + frame + [] == noise + frame;
    DrainNext([]);
    var r := Accepted(ECU2, Ecu2Format().size, data);
    assert NoiseReports(noise) + [r] + [] == NoiseReports(noise) + [r];
    DispatchNext(formats, states, NoiseReports(noise), r);
    hide DispatchAll;
    var before := DispatchAll(formats, states, NoiseReports(noise)).states;
    Ecu2HasFields();
    assert Reaches(formats, r);
  }

  const ECU2: Packet := "ecu2_"

  lemma Ecu2HasFields()
    ensures |Ecu2Format().elements| > 1
  {
  }
}
