/** What the protocol of EcuLink guarantees to its clients in every state a run reaches. */
module EcuRuns {
  import opened Options
  import opened Octets
  import opened Numerals
  import opened Elements
  import opened DataPackets
  import opened Schemas
  import opened Frames
  import opened FrameStream
  import opened Resync
  import opened FrameCodec
  import opened LinkCodec
  import opened EcuLink

  // ---- published parameters -----------------------------------------------------------------------------------

  /** What one public call hands to the data decoders. */
  function CallReports(s: Link, e: Event): seq<Report>
    requires Inv(s)
  {
    if e.Receive? && e.chunk.Some? then Drain(s.buffer + Fitting(s, e.chunk.value)).reports else []
  }

  /** All frames a run has received, in order. */
  function RunReports(s: Link, events: seq<Event>): seq<Report>
    requires Inv(s)
    decreases |events|
  {
    if events == [] then []
    else CallReports(s, events[0]) + RunReports(Step(s, events[0]).link, events[1..])
  }

  /** The data decoders do not influence each other. */
  lemma {:induction false} DispatchLocal(formats: map<Packet, Format>, a: map<Packet, State>, b: map<Packet, State>,
                                         reports: seq<Report>, n: Packet)
    requires Known(formats, a) && Known(formats, b) && n in formats && a[n] == b[n]
    ensures DispatchAll(formats, a, reports).states[n] == DispatchAll(formats, b, reports).states[n]
    decreases |reports|
  {
    hide DecodeState;
    hide Decodes;
    if reports != [] {
      DispatchLocal(formats, Dispatch(formats, a, reports[0]).states, Dispatch(formats, b, reports[0]).states,
                    reports[1..], n);
    }
  }

  lemma StepDispatches(s: Link, e: Event, n: Packet)
    requires Inv(s) && n in s.formats && n != RXACK
    ensures Step(s, e).link.formats == s.formats
    ensures Step(s, e).link.states[n] == DispatchAll(s.formats, s.states, CallReports(s, e)).states[n]
  {
    hide Drain;
    hide DispatchAll;
    hide Known;
    DispatchNone(s.formats, s.states);
  }

  /** Over any run, every decoder but rxack has simply decoded all the frames that arrived. */
  lemma {:induction false} RunDispatches(s: Link, events: seq<Event>, n: Packet)
    requires Inv(s) && n in s.formats && n != RXACK
    ensures Run(s, events).link.formats == s.formats
    ensures Run(s, events).link.states[n] == DispatchAll(s.formats, s.states, RunReports(s, events)).states[n]
    decreases |events|
  {
    hide Step;
    hide CallReports;
    if events != [] {
      hide DispatchAll;
      var t := Step(s, events[0]).link;
      var first, rest := CallReports(s, events[0]), RunReports(t, events[1..]);
      StepDispatches(s, events[0], n);
      RunDispatches(t, events[1..], n);
      DispatchLocal(s.formats, t.states, DispatchAll(s.formats, s.states, first).states, rest, n);
      DispatchConcat(s.formats, s.states, first, rest);
    }
  }

  /**
   * Snapshot consistency in every reachable state: the published ecu1 (and version) parameters are the
   * image of the last completely decoded frame of the run, or what they were at its start.
   */
  lemma SnapshotInEveryState(s: Link, events: seq<Event>, n: Packet)
    requires Inv(s) && n in s.formats && s.formats[n].name == n && Buffered(s.formats[n].kind)
    ensures var f, last := s.formats[n], LastComplete(s.formats[n], RunReports(s, events));
      n in Run(s, events).link.states && (last.Some? ==> Decodes(f.elements, last.value)) &&
      Published(f.kind, Run(s, events).link.states[n])
      == if last.Some? then Image(f, last.value) else Published(f.kind, s.states[n])
  {
    hide Run;
    hide RunReports;
    hide DispatchAll;
    hide LastComplete;
    RunDispatches(s, events, n);
    SnapshotConsistent(s.formats, s.states, n, RunReports(s, events));
  }

  /** In every reachable state, each published ecu2 field is what the newest frame to get that far gave it. */
  lemma FieldsInEveryState(s: Link, events: seq<Event>, n: Packet, j: nat)
    requires Inv(s) && n in s.formats && s.formats[n].name == n && s.formats[n].kind.Ecu2?
    requires j < |s.formats[n].elements|
    ensures var f, newest := s.formats[n], NewestField(s.formats[n], RunReports(s, events), j);
      n in Run(s, events).link.states && |Published(f.kind, Run(s, events).link.states[n])| == |f.elements| &&
      Published(f.kind, Run(s, events).link.states[n])[j]
      == if newest.Some? then newest.value else Published(f.kind, s.states[n])[j]
  {
    hide Run;
    hide RunReports;
    hide DispatchAll;
    hide NewestField;
    RunDispatches(s, events, n);
    FieldsAreNewest(s.formats, s.states, n, RunReports(s, events), j);
  }

  // ---- how old an acknowledgement can be ----------------------------------------------------------------------

  lemma {:induction false} BufferSettled(s: Link, events: seq<Event>)
    requires Inv(s) && Drain(s.buffer) == Drained([], s.buffer)
    ensures var b := Run(s, events).link.buffer; Drain(b) == Drained([], b)
    decreases |events|
  {
    if events != [] {
      StepSettled(s, events[0]);
      hide Step;
      BufferSettled(Step(s, events[0]).link, events[1..]);
    }
  }

  lemma StepSettled(s: Link, e: Event)
    requires Inv(s) && Drain(s.buffer) == Drained([], s.buffer)
    ensures var b := Step(s, e).link.buffer; Drain(b) == Drained([], b)
  {
    hide Drain;
    hide DispatchAll;
    if e.Receive? && e.chunk.Some? {
      ResidueIsDrained(s.buffer + Fitting(s, e.chunk.value));
    }
  }

  /**
   * How recent an acknowledgement is: over any run that starts with an empty buffer, the rxack frame that
   * acknowledges a command in some call of ReceiveAll is one whose last byte arrived in that call.
   */
  lemma AckEndsInThisCall(start: Link, events: seq<Event>, chunk: Packet) returns (span: Span)
    requires Inv(start) && start.buffer == []
    requires AckIn(Run(start, events).link, chunk).Some?
    ensures var s := Run(start, events).link;
      var input := s.buffer + Fitting(s, chunk);
      span in Spans(input) && Completes(RxackFormat(), span.report) &&
      span.report.data == AckIn(s, chunk).value && |s.buffer| < span.end <= |input|
  {
    hide Step;
    hide Scan;
    hide LeadingFields;
    var s := Run(start, events).link;
    var input := s.buffer + Fitting(s, chunk);
    DrainNext([]);
    BufferSettled(start, events);
    DrainNext(s.buffer);
    AcceptedEndsLate(s.buffer, Fitting(s, chunk));
    ReportsAreFrames(input);
    var i := LastCompleteAt(RxackFormat(), Drain(input).reports);
    span := Spans(input)[i];
  }

  const ZERO: Packet := "h00,"
  const ONE: Packet := "h01,"

  /** An rxack frame. */
  function AckFrame(code: Packet): Packet {
    Frame('E', RXACK, SizeText(code), code)
  }

  function AckReport(code: Packet): Report {
    Accepted(RXACK, 15, code)
  }

  lemma AckFrameDecodes(code: Packet, rest: Packet)
    requires |code| == 4
    ensures Drain(AckFrame(code) + rest) == Drained([AckReport(code)] + Drain(rest).reports, Drain(rest).residue)
  {
    hide Drain;
    hide Frame;
    hide SizeText;
    hide Clears;
    hide NoiseReports;
    SmallNoise([]);
    NoisyRoundTrip([], RXACK, code, rest);
    assert [] + AckFrame(code) == AckFrame(code);
    assert [] + [AckReport(code)] == [AckReport(code)];
  }

  lemma AckDataDecodes()
    ensures Accepts(AckReport(ZERO)) && Refuses(AckReport(ONE))
  {
    OneField(ZERO, "00");
    OneField(ONE, "01");
  }

  lemma AckCompletes()
    ensures LastComplete(RxackFormat(), [AckReport(ZERO)]) == Some(ZERO)
  {
    AckDataDecodes();
    LastOfOne(RxackFormat(), AckReport(ZERO));
  }

  lemma OneField(code: Packet, digits: Packet)
    requires digits == "00" || digits == "01"
    requires code == "h" + digits + ","
    ensures LeadingFields(RxackFormat().elements, code) == [Num(if digits == "00" then 0 else 1)]
  {
    var field: Packet := "h" + digits;
    assert code[..3] == field && code[3] == ',';
    FindUnique(code, ',', 3);
    assert field[1..] == digits;
    TwoDigits(digits);
    StopsAt(RxackFormat().elements, code);
  }

  lemma TwoDigits(s: Packet)
    requires |s| == 2 && IsNumeral(s, 16)
    ensures NumeralValue(s, 16) == 16 * DigitValue(s[0], 16) + DigitValue(s[1], 16)
  {
    assert s[..1][..0] == [];
    assert NumeralValue(s[..1], 16) == DigitValue(s[0], 16);
  }

  lemma AckFrameWaits()
    ensures |AckFrame(ZERO)| == 27 && Drain(AckFrame(ZERO)[..26]) == Drained([], AckFrame(ZERO)[..26])
  {
    hide Footer;
    hide Drain;
    PrefixWaits(RXACK, ZERO, 26);
  }

  lemma LoneAck(code: Packet)
    requires |code| == 4
    ensures Drain(AckFrame(code)) == Drained([AckReport(code)], [])
  {
    hide AckFrame;
    hide Drain;
    AckFrameDecodes(code, []);
    DrainNext([]);
    assert AckFrame(code) + [] == AckFrame(code);
    assert [AckReport(code)] + [] == [AckReport(code)];
  }

  /**
   * A refusal can be lost: when one read holds an rxack frame that refuses and one that accepts, the
   * command in flight counts as accepted.
   */
  lemma RefusalMasked(s: Link, now: int)
    requires Inv(s) && s.buffer == [] && s.waiting
    ensures var r := Step(s, Receive(now, Some(AckFrame(ONE) + AckFrame(ZERO))));
      r.outputs == [Removed(s.queue[0], Acknowledged)] && r.result != OperationCanceled
  {
    hide Drain;
    hide AckFrame;
    hide LeadingFields;
    hide Step;
    AckFrameWaits();
    LoneAck(ZERO);
    AckFrameDecodes(ONE, AckFrame(ZERO));
    AckDataDecodes();
    AckLength();
    var chunk := AckFrame(ONE) + AckFrame(ZERO);
    assert Fitting(s, chunk) == chunk && [] + chunk == chunk;
    var reports := [AckReport(ONE)] + [AckReport(ZERO)];
    assert Drain(chunk).reports == reports && reports[0] == AckReport(ONE) && reports[1] == AckReport(ZERO);
    RefusalMaskedIff(s, now, chunk, 0);
    SomeComplete(RxackFormat(), reports, 1);
    RemovalCause(s, now, chunk);
    StepIsReceive(s, now, chunk);
  }

  lemma AckLength()
    ensures |AckFrame(ONE)| == 27
  {
    hide Footer;
    hide Drain;
    PrefixWaits(RXACK, ONE, 26);
  }

  lemma StepIsReceive(s: Link, now: int, chunk: Packet)
    requires Inv(s)
    ensures Step(s, Receive(now, Some(chunk))) == ReceiveStep(s, now, Some(chunk))
  {
    hide ReceiveStep;
  }

  /**
   * No more than that: an acknowledgement that had arrived before the command went out, all but its last
   * byte, acknowledges the command once that byte is read.
   */
  lemma EarlyAckCounts(s: Link, t0: int, t1: int, t2: int)
    requires Inv(s) && s.buffer == [] && s.queue != [] && !s.waiting
    ensures var early, late := AckFrame(ZERO)[..26], AckFrame(ZERO)[26..];
      Run(s, [Receive(t0, Some(early)), Send(t1, true), Receive(t2, Some(late))]).outputs
      == [Transmitted(s.queue[0]), Removed(s.queue[0], Acknowledged)]
  {
    hide Drain;
    hide AckFrame;
    hide Step;
    hide Run;
    LoneAck(ZERO);
    AckCompletes();
    AckFrameWaits();
    var a, b := AckFrame(ZERO)[..26], AckFrame(ZERO)[26..];
    assert a + b == AckFrame(ZERO);
    var s1 := PartKept(s, t0, a);
    var s2 := CommandGoesOut(s1, t1);
    assert Fitting(s2, b) == b;
    RemovalCause(s2, t2, b);
    StepIsReceive(s2, t2, b);
    RunOfThree(s, Receive(t0, Some(a)), Send(t1, true), Receive(t2, Some(b)));
  }

  /** Bytes that complete no frame only lengthen the buffer. */
  lemma PartKept(s: Link, now: int, part: Packet) returns (t: Link)
    requires Inv(s) && s.buffer == [] && !s.waiting
    requires |part| <= BUFFER_SIZE && Drain(part) == Drained([], part)
    ensures t == s.(buffer := part) && Inv(t)
    ensures Step(s, Receive(now, Some(part))).link == t && Step(s, Receive(now, Some(part))).outputs == []
  {
    hide Drain;
    DispatchNone(s.formats, s.states);
    hide DispatchAll;
    t := Step(s, Receive(now, Some(part))).link;
    assert [] + part == part;
  }

  lemma CommandGoesOut(s: Link, now: int) returns (t: Link)
    requires Inv(s) && s.queue != [] && !s.waiting
    ensures t == Step(s, Send(now, true)).link && Inv(t)
    ensures t.buffer == s.buffer && t.queue == s.queue && t.waiting
    ensures Step(s, Send(now, true)).outputs == [Transmitted(s.queue[0])]
  {
    t := Step(s, Send(now, true)).link;
  }

  lemma LastOfOne(f: Format, r: Report)
    requires Completes(f, r)
    ensures LastComplete(f, [r]) == Some(r.data)
  {
    hide Completes;
  }

  lemma RunOfThree(s: Link, e0: Event, e1: Event, e2: Event)
    requires Inv(s)
    ensures var r0 := Step(s, e0);
      var r1 := Step(r0.link, e1);
      Run(s, [e0, e1, e2]).outputs == r0.outputs + r1.outputs + Step(r1.link, e2).outputs
  {
    hide Run;
    hide Step;
    hide Known;
    RunOfTwo(s, e0, e1);
    RunOfOne(Step(Step(s, e0).link, e1).link, e2);
    RunConcat(s, [e0, e1], [e2]);
    assert [e0, e1, e2] == [e0, e1] + [e2];
  }
}
