/**
 * Where in a stream the frames are that the decoder reports, and exactly which bytes before a frame
 * make the decoder lose it (power_ecu_com_frame_decoder.cpp:108-180).
 */
module Resync {
  import opened Octets
  import opened Numerals
  import opened Frames
  import opened FrameStream

  // ---- what is reported, and where ----------------------------------------------------------------------------

  /** One call of the decoder that did not ask for more input: from its start character to its cursor. */
  datatype Span = Span(start: nat, end: nat, report: Report)
  {
    function Shifted(k: nat): Span {
      Span(start + k, end + k, report)
    }
  }

  function Shift(spans: seq<Span>, k: nat): (r: seq<Span>)
    ensures |r| == |spans|
    ensures forall i :: 0 <= i < |r| ==> r[i] == spans[i].Shifted(k)
  {
    if spans == [] then [] else [spans[0].Shifted(k)] + Shift(spans[1..], k)
  }

  /** The calls of the decode loop, in order. */
  function Spans(s: Packet): seq<Span>
    decreases |s|
  {
    var f := Scan(s);
    if f.Incomplete? then []
    else [Span(Find(s, 'E'), f.next, ReportOf(f))] + Shift(Spans(s[f.next..]), f.next)
  }

  lemma SpansNext(s: Packet)
    ensures Scan(s).Incomplete? ==> Spans(s) == []
    ensures !Scan(s).Incomplete? ==>
      var f := Scan(s);
      Spans(s) == [Span(Find(s, 'E'), f.next, ReportOf(f))] + Shift(Spans(s[f.next..]), f.next)
  {
    hide Scan;
  }

  /** The bytes the decoder checks in a frame it accepts; it looks at neither the 'h' nor the ",\n" of the footer. */
  predicate IsFrame(b: Packet, name: Packet, size: nat, data: Packet) {
    size >= FOOTER_LENGTH && |b| == HEADER_LENGTH + size &&
    b[0] == 'E' && b[1] == ',' && b[2..7] == name && b[7] == ',' && PacketSize(b[8..11]) == size && b[11] == ',' &&
    b[HEADER_LENGTH..|b| - FOOTER_LENGTH] == data &&
    Crc32.Checksum(b[..|b| - FOOTER_LENGTH]) == Strtol(b[|b| - 10..|b| - 2], 16) % WORD
  }

  /** A span lies in the input, and an accepted one is a run of bytes with a header, a size and a matching checksum. */
  predicate Sound(s: Packet, span: Span) {
    span.start < span.end <= |s| &&
    match span.report
    case Rejected => true
    case Accepted(name, size, data) => IsFrame(s[span.start..span.end], name, size, data)
  }

  /**
   * Soundness of the decoder: the reports of the loop are those of successive, non-overlapping runs of
   * the input, and each accepted one is a frame with its size and its checksum.
   */
  lemma {:induction false} ReportsAreFrames(s: Packet)
    ensures var spans := Spans(s);
      |Drain(s).reports| == |spans| &&
      (forall i :: 0 <= i < |spans| ==> Drain(s).reports[i] == spans[i].report && Sound(s, spans[i])) &&
      (forall i :: 0 < i < |spans| ==> spans[i - 1].end <= spans[i].start)
    decreases |s|
  {
    hide Scan;
    hide Sound;
    DrainNext(s);
    SpansNext(s);
    var f := Scan(s);
    if !f.Incomplete? {
      FirstSound(s);
      ReportsAreFrames(s[f.next..]);
      var rest := Spans(s[f.next..]);
      forall i | 0 <= i < |rest|
        ensures Sound(s, rest[i].Shifted(f.next))
      {
        SoundShifted(s, f.next, rest[i]);
      }
    }
  }

  lemma FirstSound(s: Packet)
    requires !Scan(s).Incomplete?
    ensures Sound(s, Span(Find(s, 'E'), Scan(s).next, ReportOf(Scan(s))))
  {
    hide Crc32.Checksum;
    hide Strtol;
    hide PacketSize;
    hide Find;
    var e := Find(s, 'E');
    var t := s[e..];
    var f := Parse(t);
    if f.Framed? {
      var b := t[..f.next];
      assert s[e..e + f.next] == b;
      assert b[8..11] == t[8..11];
      assert b[2..7] == t[2..7];
      var stop := f.next - FOOTER_LENGTH;
      assert b[..stop] == t[..stop];
      assert b[stop + 1..stop + 9] == t[stop + 1..stop + 9];
      assert b[HEADER_LENGTH..stop] == t[HEADER_LENGTH..stop];
    }
  }

  lemma SoundShifted(s: Packet, k: nat, span: Span)
    requires k <= |s| && Sound(s[k..], span)
    ensures Sound(s, span.Shifted(k))
  {
    hide IsFrame;
    assert s[k..][span.start..span.end] == s[span.start + k..span.end + k];
  }

  // ---- a verdict depends on the bytes it consumes -------------------------------------------------------------

  /** Any other input that starts with the consumed bytes, and holds a header at all, gets the same verdict. */
  lemma VerdictLocal(t: Packet, u: Packet)
    requires t != [] && t[0] == 'E' && !Parse(t).Incomplete?
    requires |u| >= HEADER_LENGTH && Parse(t).next <= |u| && u[..Parse(t).next] == t[..Parse(t).next]
    ensures u[0] == 'E' && Parse(u) == Parse(t)
  {
    hide Crc32.Checksum;
    hide Strtol;
    hide PacketSize;
    var n := Parse(t).next;
    assert forall i :: 0 <= i < n ==> u[i] == u[..n][i] && t[i] == t[..n][i];
    if n >= 11 {
      assert u[8..11] == u[..n][8..11] == t[8..11];
    }
    if n >= HEADER_LENGTH + FOOTER_LENGTH {
      var stop := n - FOOTER_LENGTH;
      assert u[..stop] == u[..n][..stop] == t[..stop];
      assert u[stop + 1..stop + 9] == u[..n][stop + 1..stop + 9] == t[stop + 1..stop + 9];
      assert u[2..7] == u[..n][2..7] == t[2..7];
      assert u[HEADER_LENGTH..stop] == u[..n][HEADER_LENGTH..stop] == t[HEADER_LENGTH..stop];
    }
  }

  /** The same for two continuations of one input, if the verdict falls within what they share. */
  lemma VerdictShared(t: Packet, x: Packet, y: Packet)
    requires t != [] && t[0] == 'E' && |x| >= HEADER_LENGTH && |y| >= HEADER_LENGTH
    requires !Parse(t + x).Incomplete? && Parse(t + x).next <= |t|
    ensures Parse(t + y) == Parse(t + x)
  {
    hide Parse;
    var n := Parse(t + x).next;
    assert (t + x)[..n] == t[..n] == (t + y)[..n];
    VerdictLocal(t + x, t + y);
  }

  lemma ShortIncomplete(s: Packet)
    requires |s| < HEADER_LENGTH
    ensures Scan(s).Incomplete?
  {
  }

  /** What was consumed within bytes the decoder could not finish with was no accepted frame. */
  lemma ConsumedWithin(b: Packet, c: Packet)
    requires Scan(b).Incomplete? && !Scan(b + c).Incomplete? && Scan(b + c).next <= |b|
    ensures Scan(b + c).Malformed? && |b| - Scan(b + c).next < HEADER_LENGTH
  {
    hide Parse;
    var e := Find(b + c, 'E');
    FindStable(b, c, 'E');
    var t, u := (b + c)[e..], b[e..];
    var n := Parse(t).next;
    assert t[..n] == u[..n];
    if |u| >= HEADER_LENGTH {
      VerdictLocal(t, u);
    } else if Scan(b + c).Framed? {
      FirstSound(b + c);
    }
  }

  /**
   * Bytes on which the decoder waits hold no finished frame: any frame accepted once more has arrived
   * ends within what arrived.
   */
  lemma {:induction false} AcceptedEndsLate(b: Packet, c: Packet)
    requires Scan(b).Incomplete?
    ensures forall i :: 0 <= i < |Spans(b + c)| && Spans(b + c)[i].report.Accepted? ==> Spans(b + c)[i].end > |b|
    decreases |b|
  {
    hide Scan;
    hide Sound;
    SpansNext(b + c);
    var f := Scan(b + c);
    if !f.Incomplete? {
      var rest := (b + c)[f.next..];
      if f.next <= |b| {
        ConsumedWithin(b, c);
        ShortIncomplete(b[f.next..]);
        assert rest == b[f.next..] + c;
        AcceptedEndsLate(b[f.next..], c);
      }
    }
  }

  /** A frame that has not arrived completely is kept as it is. */
  lemma PrefixWaits(name: Packet, data: Packet, k: nat)
    requires |name| == 5 && |data| + FOOTER_LENGTH <= 999
    requires 0 < k < HEADER_LENGTH + |data| + FOOTER_LENGTH
    ensures var s := Frame('E', name, SizeText(data), data)[..k]; Drain(s) == Drained([], s)
  {
    var size := SizeText(data);
    PartOfFrame(name, size, data, k);
    SizeReadsBack(|data| + FOOTER_LENGTH);
    hide SizeText;
    hide Frame;
    hide Scan;
    hide PacketSize;
    var s := Frame('E', name, size, data)[..k];
    DrainNext(s);
    WaitsForRest(s);
    assert s[0..] == s;
  }

  lemma PartOfFrame(name: Packet, size: Packet, data: Packet, k: nat)
    requires |name| == 5 && |size| == 3 && 0 < k < HEADER_LENGTH + |data| + FOOTER_LENGTH
    ensures |Frame('E', name, size, data)| == HEADER_LENGTH + |data| + FOOTER_LENGTH
    ensures var s := Frame('E', name, size, data)[..k];
      s[0] == 'E' &&
      (k >= HEADER_LENGTH ==> s[1] == ',' && s[7] == ',' && s[8..11] == size && s[11] == ',')
  {
    hide Footer;
    var frame := Frame('E', name, size, data);
    assert frame[8..11] == size;
    if k >= HEADER_LENGTH {
      assert frame[..k][8..11] == frame[8..11];
    }
  }

  lemma WaitsForRest(s: Packet)
    requires s != [] && s[0] == 'E'
    requires |s| >= HEADER_LENGTH ==>
      s[1] == ',' && s[7] == ',' && s[11] == ',' &&
      FOOTER_LENGTH <= PacketSize(s[8..11]) && |s| - HEADER_LENGTH < PacketSize(s[8..11])
    ensures Scan(s) == Incomplete(0)
  {
    hide Crc32.Checksum;
    hide Strtol;
    hide PacketSize;
    assert s[..0] == [] && s[0..] == s;
    FindUnique(s, 'E', 0);
  }

  // ---- which noise loses a frame ------------------------------------------------------------------------------

  /** Stands for any frame that may follow; only its having a header matters. */
  const PAD: Packet := "E,00000,000,"

  /** The first call of the decoder on noise with an 'E' in it, whatever frame follows. */
  function FirstVerdict(noise: Packet): Finding
    requires Find(noise, 'E') < |noise|
  {
    Parse(noise[Find(noise, 'E')..] + PAD)
  }

  /**
   * Every call of the decoder that starts within the noise also ends within it. This can be told from
   * the noise alone.
   */
  predicate Clears(noise: Packet)
    decreases |noise|
  {
    var e := Find(noise, 'E');
    e == |noise| ||
    (var f := FirstVerdict(noise);
     !f.Incomplete? && e + f.next <= |noise| && Clears(noise[e + f.next..]))
  }

  /** What is reported for such noise. */
  function NoiseReports(noise: Packet): seq<Report>
    requires Clears(noise)
    decreases |noise|
  {
    hide Parse;
    var e := Find(noise, 'E');
    if e == |noise| then []
    else [ReportOf(FirstVerdict(noise))] + NoiseReports(noise[e + FirstVerdict(noise).next..])
  }

  lemma FindInNoise(noise: Packet, t: Packet)
    requires Find(noise, 'E') < |noise|
    ensures Find(noise + t, 'E') == Find(noise, 'E')
    ensures (noise + t)[Find(noise, 'E')..] == noise[Find(noise, 'E')..] + t
  {
    FindStable(noise, t, 'E');
  }

  /** The first call on noise that goes on with a frame, against the one on the padded noise. */
  lemma FirstCall(noise: Packet, t: Packet)
    requires Find(noise, 'E') < |noise| && |t| >= HEADER_LENGTH
    ensures var e := Find(noise, 'E');
      var f := FirstVerdict(noise);
      var g := Scan(noise + t);
      Find(noise + t, 'E') == e &&
      if !f.Incomplete? && e + f.next <= |noise| then g == f.Shifted(e)
      else g.Incomplete? || g.next > |noise|
  {
    hide Parse;
    var e := Find(noise, 'E');
    FindInNoise(noise, t);
    var rest := noise[e..];
    var f, g := Parse(rest + PAD), Parse(rest + t);
    if !f.Incomplete? && f.next <= |rest| {
      VerdictShared(rest, PAD, t);
    } else if !g.Incomplete? && g.next <= |rest| {
      VerdictShared(rest, t, PAD);
    }
  }

  /** Noise that clears is reported for itself and leaves what follows alone. */
  lemma {:induction false} NoiseCleared(noise: Packet, t: Packet)
    requires Clears(noise) && |t| >= HEADER_LENGTH
    ensures Drain(noise + t) == Drained(NoiseReports(noise) + Drain(t).reports, Drain(t).residue)
    decreases |noise|
  {
    hide Scan;
    hide Drain;
    hide Find;
    hide FirstVerdict;
    var e := Find(noise, 'E');
    if e == |noise| {
      assert noise[..|noise|] == noise;
      NoiseDropped(noise, t);
      assert [] + Drain(t).reports == Drain(t).reports;
    } else {
      FirstCall(noise, t);
      var k := e + FirstVerdict(noise).next;
      assert (noise + t)[k..] == noise[k..] + t;
      DrainNext(noise + t);
      NoiseCleared(noise[k..], t);
      Regroup(ReportOf(FirstVerdict(noise)), NoiseReports(noise[k..]), Drain(t).reports);
    }
  }

  lemma Regroup(r: Report, a: seq<Report>, b: seq<Report>)
    ensures [r] + (a + b) == [r] + a + b
  {
  }

  /** A frame that stands at position k is reported there. */
  predicate ReportedAt(s: Packet, k: nat, n: nat, report: Report) {
    Span(k, k + n, report) in Spans(s)
  }

  /**
   * Exactly when a frame gets through: it is reported at its place if and only if the noise before it
   * clears, whatever the frame contains and whatever follows it.
   */
  lemma {:induction false} FrameReportedIff(noise: Packet, name: Packet, data: Packet, rest: Packet)
    requires |name| == 5 && |data| + FOOTER_LENGTH <= 999
    ensures var frame := Frame('E', name, SizeText(data), data);
      ReportedAt(noise + (frame + rest), |noise|, |frame|, Accepted(name, |data| + FOOTER_LENGTH, data))
      <==> Clears(noise)
    decreases |noise|
  {
    hide Scan;
    hide Frame;
    hide FirstVerdict;
    hide SizeText;
    hide Spans;
    hide Shift;
    hide Clears;
    var frame := Frame('E', name, SizeText(data), data);
    var e := Find(noise, 'E');
    ClearsNext(noise);
    if e == |noise| {
      ReportedAfterSilence(noise, name, data, rest);
    } else {
      FrameStart(name, data);
      FirstCall(noise, frame + rest);
      var g := Scan(noise + (frame + rest));
      if !g.Incomplete? && g.next <= |noise| {
        FrameReportedIff(noise[g.next..], name, data, rest);
      }
      ReportedLater(noise, frame + rest, |frame|, Accepted(name, |data| + FOOTER_LENGTH, data));
    }
  }

  lemma ClearsNext(noise: Packet)
    ensures var e := Find(noise, 'E');
      Clears(noise) <==>
        e == |noise| ||
        (var f := FirstVerdict(noise);
         !f.Incomplete? && e + f.next <= |noise| && Clears(noise[e + f.next..]))
  {
    hide FirstVerdict;
    hide Find;
  }

  lemma ReportedAfterSilence(noise: Packet, name: Packet, data: Packet, rest: Packet)
    requires |name| == 5 && |data| + FOOTER_LENGTH <= 999 && Find(noise, 'E') == |noise|
    ensures var frame := Frame('E', name, SizeText(data), data);
      ReportedAt(noise + (frame + rest), |noise|, |frame|, Accepted(name, |data| + FOOTER_LENGTH, data))
  {
    hide Scan;
    hide Frame;
    hide SizeText;
    hide Spans;
    hide Find;
    var frame := Frame('E', name, SizeText(data), data);
    FrameStart(name, data);
    var t := frame + rest;
    assert noise[..|noise|] == noise;
    FrameRoundTrip(noise, name, data, rest);
    assert noise + frame + rest == noise + t;
    FindStable(noise, t, 'E');
    assert t[..0] == [];
    FindUnique(t, 'E', 0);
    FirstReported(noise + t);
  }

  lemma FirstReported(s: Packet)
    requires !Scan(s).Incomplete?
    ensures Span(Find(s, 'E'), Scan(s).next, ReportOf(Scan(s))) in Spans(s)
  {
    hide Scan;
    assert Spans(s)[0] == Span(Find(s, 'E'), Scan(s).next, ReportOf(Scan(s)));
  }

  /** What stands behind the noise is reported there if the call on the noise ends in time for it. */
  lemma ReportedLater(noise: Packet, t: Packet, n: nat, report: Report)
    requires Find(noise + t, 'E') < |noise|
    ensures var g := Scan(noise + t);
      ReportedAt(noise + t, |noise|, n, report) <==>
        !g.Incomplete? && g.next <= |noise| && ReportedAt(noise[g.next..] + t, |noise| - g.next, n, report)
  {
    hide Scan;
    hide Spans;
    SpansNext(noise + t);
    var g := Scan(noise + t);
    if !g.Incomplete? {
      var spans, tail := Spans(noise + t), Spans((noise + t)[g.next..]);
      assert spans[1..] == Shift(tail, g.next);
      var target := Span(|noise|, |noise| + n, report);
      if g.next <= |noise| {
        assert (noise + t)[g.next..] == noise[g.next..] + t;
        InTail(spans, tail, g.next, target);
      } else {
        NotInTail(spans, tail, g.next, target);
      }
    }
  }

  lemma NotInTail(spans: seq<Span>, tail: seq<Span>, k: nat, target: Span)
    requires spans != [] && spans[0].start < target.start < k && spans[1..] == Shift(tail, k)
    ensures target !in spans
  {
    forall i | 0 <= i < |spans|
      ensures spans[i] != target
    {
      if i > 0 {
        assert spans[i] == spans[1..][i - 1];
      }
    }
  }

  lemma FrameStart(name: Packet, data: Packet)
    requires |name| == 5 && |data| + FOOTER_LENGTH <= 999
    ensures var frame := Frame('E', name, SizeText(data), data);
      |frame| >= HEADER_LENGTH && frame[0] == 'E'
  {
    hide Footer;
  }

  lemma InTail(spans: seq<Span>, tail: seq<Span>, k: nat, target: Span)
    requires spans != [] && spans[0].start < target.start && spans[1..] == Shift(tail, k)
    requires k <= target.start <= target.end
    ensures target in spans <==> Span(target.start - k, target.end - k, target.report) in tail
  {
    var back := Span(target.start - k, target.end - k, target.report);
    if back in tail {
      var i :| 0 <= i < |tail| && tail[i] == back;
      assert spans[i + 1] == spans[1..][i] == target;
    }
    if target in spans {
      var i :| 0 <= i < |spans| && spans[i] == target;
      assert spans[1..][i - 1] == target;
      assert tail[i - 1] == back;
    }
  }

  /** Round trip through any noise that clears: the frame is reported after it, and nothing is disturbed. */
  lemma NoisyRoundTrip(noise: Packet, name: Packet, data: Packet, rest: Packet)
    requires Clears(noise)
    requires |name| == 5 && |data| + FOOTER_LENGTH <= 999
    ensures var frame := Frame('E', name, SizeText(data), data);
      Drain(noise + frame + rest)
      == Drained(NoiseReports(noise) + [Accepted(name, |data| + FOOTER_LENGTH, data)] + Drain(rest).reports,
                 Drain(rest).residue)
  {
    hide Scan;
    hide Frame;
    hide Clears;
    hide NoiseReports;
    var frame := Frame('E', name, SizeText(data), data);
    FrameStart(name, data);
    var t := frame + rest;
    NoiseCleared(noise, t);
    assert noise + frame + rest == noise + t;
    FrameRoundTrip([], name, data, rest);
    assert [] + frame + rest == t;
    DrainNext(t);
    assert t[|frame|..] == rest;
    var a := [Accepted(name, |data| + FOOTER_LENGTH, data)];
    assert NoiseReports(noise) + (a + Drain(rest).reports) == NoiseReports(noise) + a + Drain(rest).reports;
  }

  /** Bytes without an 'E' clear silently; "EX" clears with one rejection; a lone 'E' does not clear. */
  lemma SmallNoise(noise: Packet)
    ensures 'E' !in noise ==> Clears(noise) && NoiseReports(noise) == []
    ensures Clears("EX") && NoiseReports("EX") == [Rejected]
    ensures !Clears("E")
  {
    hide Crc32.Checksum;
    hide Strtol;
    hide PacketSize;
    var ex: Packet, e: Packet := "EX", "E";
    assert ex[..0] == [] && e[..0] == [];
    FindUnique(ex, 'E', 0);
    FindUnique(e, 'E', 0);
    assert ex[0..] == ex && e[0..] == e;
    assert FirstVerdict(ex) == Malformed(2) && ex[2..] == [];
    assert FirstVerdict(e) == Malformed(2);
    if 'E' !in noise {
      assert noise[..|noise|] == noise;
      FindUnique(noise, 'E', |noise|);
    }
  }

  /**
   * One 'E' directly in front of any frame loses the frame: the decoder takes the frame's own 'E' for the
   * character that should have been a comma. With no other 'E' in the frame, nothing else is lost.
   */
  lemma StrayStartLosesFrame(name: Packet, data: Packet, rest: Packet)
    requires |name| == 5 && |data| + FOOTER_LENGTH <= 999
    ensures var frame := Frame('E', name, SizeText(data), data);
      !ReportedAt("E" + (frame + rest), 1, |frame|, Accepted(name, |data| + FOOTER_LENGTH, data)) &&
      ('E' !in frame[1..] ==>
        Drain("E" + frame + rest) == Drained([Rejected] + Drain(rest).reports, Drain(rest).residue))
  {
    hide Clears;
    hide Spans;
    hide Drain;
    hide Frame;
    var frame := Frame('E', name, SizeText(data), data);
    FrameStart(name, data);
    SmallNoise("E");
    FrameReportedIff("E", name, data, rest);
    if 'E' !in frame[1..] {
      StraySkipped(frame, rest);
    }
  }
}
