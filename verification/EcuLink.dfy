/**
 * The command, acknowledgement and heartbeat protocol of `PowerEcuProtocol` (power_ecu_protocol.cpp)
 * as a state machine. The clock, the network's success and the bytes it delivers are inputs of
 * each step; times are in nanoseconds.
 */
module EcuLink {
  import opened Options
  import opened Octets
  import opened Numerals
  import opened Elements
  import opened DataPackets
  import opened Schemas
  import opened FrameStream
  import opened FrameCodec
  import opened LinkCodec

  const BUFFER_SIZE := 4000
  const COMMAND_QUEUE_SIZE := 1000
  const SECOND := 1_000_000_000
  const COMMAND_TIMEOUT := 10 * SECOND
  const HEARTBEAT_PERIOD := 5 * SECOND
  const RXACK: Packet := "rxack"

  datatype Link = Link(
    known: set<Packet>,                 // commands with an encoder
    formats: map<Packet, Format>,       // registered data decoders
    states: map<Packet, State>,
    buffer: Packet,                     // receive_buffer_
    queue: seq<Packet>,                 // command_queue_
    waiting: bool,                      // is_waiting_ack_
    lastSend: int,
    lastHeartbeat: int,
    counts: nat)                        // heartbeat counter, a uint32_t

  datatype Result = Success | InvalidArgument | NetworkDown | ProtocolError | OperationCanceled | TimedOut

  datatype Event =
    | Add(name: Packet)
    | Send(now: int, delivered: bool)
    | Receive(now: int, chunk: Option<Packet>)

  datatype Cause = Acknowledged | Expired

  datatype Output =
    | Enqueued(name: Packet)
    | Overwritten(name: Packet)
    | Transmitted(name: Packet)
    | Heartbeat(delivered: bool)
    | Removed(name: Packet, cause: Cause)

  datatype Stepped = Stepped(link: Link, outputs: seq<Output>, result: Result)

  /** What holds between any two public calls. */
  predicate Inv(s: Link) {
    Known(s.formats, s.states) &&
    RXACK in s.formats && s.formats[RXACK] == RxackFormat() &&
    |s.queue| <= COMMAND_QUEUE_SIZE && |s.buffer| <= BUFFER_SIZE && s.counts < WORD &&
    (s.waiting ==> s.queue != [] && !AckFlag(s))
  }

  predicate AckFlag(s: Link)
    requires RXACK in s.states
  {
    s.states[RXACK].received
  }

  /** `*is_receive_ack_ = false` in SendCommand. */
  function DropFlag(states: map<Packet, State>): map<Packet, State>
    requires RXACK in states
  {
    states[RXACK := states[RXACK].(received := false)]
  }

  function Step(s: Link, e: Event): (r: Stepped)
    requires Inv(s)
    ensures Inv(r.link)
  {
    match e
    case Add(name) => AddStep(s, name)
    case Send(now, delivered) => SendStep(s, now, delivered)
    case Receive(now, chunk) => ReceiveStep(s, now, chunk)
  }

  /** `AddCommandQueue`: a full circular buffer silently drops its front. */
  function AddStep(s: Link, name: Packet): (r: Stepped)
    requires Inv(s)
    ensures Inv(r.link)
  {
    if name !in s.known then Stepped(s, [], InvalidArgument)
    else if |s.queue| == COMMAND_QUEUE_SIZE then
      Stepped(s.(queue := s.queue[1..] + [name]), [Overwritten(s.queue[0]), Enqueued(name)], Success)
    else Stepped(s.(queue := s.queue + [name]), [Enqueued(name)], Success)
  }

  /** `SendAll` */
  function SendStep(s: Link, now: int, delivered: bool): (r: Stepped)
    requires Inv(s)
    ensures Inv(r.link)
  {
    if s.queue != [] && !s.waiting then
      if delivered then
        Stepped(s.(states := DropFlag(s.states), lastSend := now, waiting := true), [Transmitted(s.queue[0])], Success)
      else Stepped(s, [], NetworkDown)
    else if now - s.lastHeartbeat > HEARTBEAT_PERIOD then
      var t := s.(counts := (s.counts + 1) % WORD);
      if delivered then
        Stepped(t.(states := DropFlag(s.states), lastHeartbeat := s.lastHeartbeat + HEARTBEAT_PERIOD),
                [Heartbeat(true)], Success)
      else Stepped(t, [Heartbeat(false)], NetworkDown)
    else Stepped(s, [], Success)
  }

  /** The network never delivers more than the receive buffer can take. */
  function Fitting(s: Link, chunk: Packet): Packet
    requires |s.buffer| <= BUFFER_SIZE
  {
    if |s.buffer| + |chunk| <= BUFFER_SIZE then chunk else chunk[..BUFFER_SIZE - |s.buffer|]
  }

  /** `ReceiveAll` */
  function ReceiveStep(s: Link, now: int, chunk: Option<Packet>): (r: Stepped)
    requires Inv(s)
    ensures Inv(r.link)
  {
    if chunk.None? then Stepped(s, [], NetworkDown)
    else
      var drained := Drain(s.buffer + Fitting(s, chunk.value));
      var d := DispatchAll(s.formats, s.states, drained.reports);
      ResidueShorter(s.buffer + Fitting(s, chunk.value));
      var t := s.(buffer := drained.residue, states := d.states);
      var result := if d.ok then Success else ProtocolError;
      if s.waiting && AckFlag(t) then
        Stepped(t.(waiting := false, queue := s.queue[1..]), [Removed(s.queue[0], Acknowledged)],
                if t.states[RXACK].raw[0] != Num(0) then OperationCanceled else result)
      else if s.waiting && now - s.lastSend > COMMAND_TIMEOUT then
        Stepped(t.(waiting := false, queue := s.queue[1..]), [Removed(s.queue[0], Expired)], TimedOut)
      else Stepped(t, [], result)
  }

  lemma {:induction false} ResidueShorter(buffer: Packet)
    ensures |Drain(buffer).residue| <= |buffer|
    decreases |buffer|
  {
    hide Frames.Scan;
    if !Frames.Scan(buffer).Incomplete? {
      ResidueShorter(buffer[Frames.Scan(buffer).next..]);
    }
  }

  // ---- runs ---------------------------------------------------------------------------------------------------

  datatype Ran = Ran(link: Link, outputs: seq<Output>)

  function Run(s: Link, events: seq<Event>): (r: Ran)
    requires Inv(s)
    ensures Inv(r.link)
    decreases |events|
  {
    if events == [] then Ran(s, [])
    else
      var first := Step(s, events[0]);
      var rest := Run(first.link, events[1..]);
      Ran(rest.link, first.outputs + rest.outputs)
  }

  // ---- the command log ----------------------------------------------------------------------------------------

  datatype Log = EnqueuedLog | TransmittedLog | RemovedLog | OverwrittenLog

  function Entry(o: Output, log: Log): seq<Packet> {
    match (o, log)
    case (Enqueued(name), EnqueuedLog) => [name]
    case (Transmitted(name), TransmittedLog) => [name]
    case (Removed(name, _), RemovedLog) => [name]
    case (Overwritten(name), OverwrittenLog) => [name]
    case _ => []
  }

  /** The command names one kind of output mentions, in order. */
  function Names(outputs: seq<Output>, log: Log): seq<Packet> {
    if outputs == [] then [] else Entry(outputs[0], log) + Names(outputs[1..], log)
  }

  lemma {:induction false} NamesConcat(a: seq<Output>, b: seq<Output>, log: Log)
    ensures Names(a + b, log) == Names(a, log) + Names(b, log)
    decreases |a|
  {
    hide Entry;
    if a == [] {
      assert a + b == b;
    } else {
      assert (a + b)[1..] == a[1..] + b;
      NamesConcat(a[1..], b, log);
    }
  }

  lemma NamesOfOne(o: Output, log: Log)
    ensures Names([o], log) == Entry(o, log)
  {
    hide Entry;
    assert [o][1..] == [];
  }

  /** The command an acknowledgement is awaited for. */
  function InFlight(s: Link): seq<Packet> {
    if s.waiting then s.queue[..if s.queue == [] then 0 else 1] else []
  }

  /** What was queued or enqueued is what was removed followed by what is queued. */
  predicate QueueAgrees(before: Link, outputs: seq<Output>, after: Link) {
    before.queue + Names(outputs, EnqueuedLog) == Names(outputs, RemovedLog) + after.queue
  }

  /** What was in flight or transmitted is what was removed followed by what is in flight. */
  predicate FlightAgrees(before: Link, outputs: seq<Output>, after: Link) {
    InFlight(before) + Names(outputs, TransmittedLog) == Names(outputs, RemovedLog) + InFlight(after)
  }

  predicate LogsAgree(before: Link, outputs: seq<Output>, after: Link) {
    QueueAgrees(before, outputs, after) && FlightAgrees(before, outputs, after)
  }

  /** Their sizes balance, overwritten commands included. */
  predicate Balanced(before: Link, outputs: seq<Output>, after: Link) {
    |before.queue| + |Names(outputs, EnqueuedLog)|
      == |Names(outputs, RemovedLog)| + |Names(outputs, OverwrittenLog)| + |after.queue| &&
    |InFlight(before)| + |Names(outputs, TransmittedLog)| == |Names(outputs, RemovedLog)| + |InFlight(after)|
  }

  predicate Lossless(outputs: seq<Output>) {
    Names(outputs, OverwrittenLog) == []
  }

  lemma StepLog(s: Link, e: Event)
    requires Inv(s)
    ensures var r := Step(s, e);
      Balanced(s, r.outputs, r.link) && (Lossless(r.outputs) ==> LogsAgree(s, r.outputs, r.link))
  {
    hide AddStep;
    hide SendStep;
    hide ReceiveStep;
    hide Names;
    match e
    case Add(name) => AddLog(s, name);
    case Send(now, delivered) => SendLog(s, now, delivered);
    case Receive(now, chunk) => ReceiveLog(s, now, chunk);
  }

  lemma AddLog(s: Link, name: Packet)
    requires Inv(s)
    ensures var r := AddStep(s, name);
      Balanced(s, r.outputs, r.link) && (Lossless(r.outputs) ==> LogsAgree(s, r.outputs, r.link))
  {
    var o := Enqueued(name);
    forall log
      ensures Names([o], log) == Entry(o, log)
    {
      NamesOfOne(o, log);
    }
    if name in s.known && |s.queue| == COMMAND_QUEUE_SIZE {
      var p := Overwritten(s.queue[0]);
      forall log
        ensures Names([p, o], log) == Entry(p, log) + Entry(o, log)
      {
        NamesOfOne(p, log);
        NamesConcat([p], [o], log);
        assert [p] + [o] == [p, o];
      }
    }
  }

  lemma SendLog(s: Link, now: int, delivered: bool)
    requires Inv(s)
    ensures var r := SendStep(s, now, delivered);
      Balanced(s, r.outputs, r.link) && (Lossless(r.outputs) ==> LogsAgree(s, r.outputs, r.link))
  {
    hide DropFlag;
    hide Known;
    hide AckFlag;
    var outputs := SendStep(s, now, delivered).outputs;
    if outputs != [] {
      forall log
        ensures Names(outputs, log) == Entry(outputs[0], log)
      {
        NamesOfOne(outputs[0], log);
        assert outputs == [outputs[0]];
      }
    }
  }

  lemma ReceiveLog(s: Link, now: int, chunk: Option<Packet>)
    requires Inv(s)
    ensures var r := ReceiveStep(s, now, chunk);
      Balanced(s, r.outputs, r.link) && (Lossless(r.outputs) ==> LogsAgree(s, r.outputs, r.link))
  {
    hide Drain;
    hide DispatchAll;
    hide Known;
    hide AckFlag;
    var r := ReceiveStep(s, now, chunk);
    if r.outputs == [] {
      assert r.link.queue == s.queue && InFlight(s) == InFlight(r.link);
    } else {
      var o := r.outputs[0];
      assert r.outputs == [o] && o.name == s.queue[0];
      assert s.queue == [s.queue[0]] + s.queue[1..];
      forall log
        ensures Names([o], log) == Entry(o, log)
      {
        NamesOfOne(o, log);
      }
    }
  }

  /**
   * Log refinement, for every run of any interleaving: as long as the queue never overflows, what was
   * enqueued is what was removed followed by what is queued, and what was transmitted is what was
   * removed followed by the command in flight. So commands go out in order, once, one at a time.
   */
  lemma {:induction false} LogRefinement(s: Link, events: seq<Event>)
    requires Inv(s)
    requires Lossless(Run(s, events).outputs)
    ensures LogsAgree(s, Run(s, events).outputs, Run(s, events).link)
    decreases |events|
  {
    hide Step;
    hide Names;
    hide InFlight;
    if events == [] {
      NamesOfNone();
    } else {
      var first := Step(s, events[0]);
      var rest := Run(first.link, events[1..]);
      RunNames(first.outputs, rest.outputs);
      StepLog(s, events[0]);
      LogRefinement(first.link, events[1..]);
      var x, y := first.outputs, rest.outputs;
      LogAssoc(s.queue, Names(x, EnqueuedLog), Names(x, RemovedLog), first.link.queue,
               Names(y, EnqueuedLog), Names(y, RemovedLog), rest.link.queue);
      LogAssoc(InFlight(s), Names(x, TransmittedLog), Names(x, RemovedLog), InFlight(first.link),
               Names(y, TransmittedLog), Names(y, RemovedLog), InFlight(rest.link));
    }
  }

  lemma NamesOfNone()
    ensures forall log :: Names([], log) == []
  {
  }

  lemma RunNames(x: seq<Output>, y: seq<Output>)
    ensures forall log :: Names(x + y, log) == Names(x, log) + Names(y, log)
  {
    hide Names;
    forall log
      ensures Names(x + y, log) == Names(x, log) + Names(y, log)
    {
      NamesConcat(x, y, log);
    }
  }

  lemma LogAssoc(q: seq<Packet>, e: seq<Packet>, r: seq<Packet>, q': seq<Packet>,
                 e': seq<Packet>, r': seq<Packet>, q'': seq<Packet>)
    requires q + e == r + q' && q' + e' == r' + q''
    ensures q + (e + e') == (r + r') + q''
  {
    assert q + (e + e') == (q + e) + e';
    assert r + q' + e' == r + (q' + e');
  }

  /** Overflow is exactly what breaks the queue log; that at most one command is in flight survives it. */
  lemma {:induction false} LogExact(s: Link, events: seq<Event>)
    requires Inv(s)
    ensures var r := Run(s, events);
      Balanced(s, r.outputs, r.link) &&
      (QueueAgrees(s, r.outputs, r.link) <==> Lossless(r.outputs))
    decreases |events|
  {
    hide Step;
    hide Names;
    hide InFlight;
    var r := Run(s, events);
    if events == [] {
      NamesOfNone();
    } else {
      var first := Step(s, events[0]);
      var rest := Run(first.link, events[1..]);
      RunNames(first.outputs, rest.outputs);
      StepLog(s, events[0]);
      LogExact(first.link, events[1..]);
    }
    if Lossless(r.outputs) {
      LogRefinement(s, events);
    } else {
      assert |s.queue + Names(r.outputs, EnqueuedLog)| != |Names(r.outputs, RemovedLog) + r.link.queue|;
    }
  }

  /** A command is overwritten exactly when one is added to a full queue. */
  lemma OverflowGuard(s: Link, e: Event)
    requires Inv(s)
    ensures !Lossless(Step(s, e).outputs) <==> e.Add? && e.name in s.known && |s.queue| == 1000
  {
    hide Drain;
    hide DispatchAll;
    hide Names;
    var outputs := Step(s, e).outputs;
    NamesOfNone();
    if outputs != [] {
      NamesConcat([outputs[0]], outputs[1..], OverwrittenLog);
      NamesOfOne(outputs[0], OverwrittenLog);
      assert outputs == [outputs[0]] + outputs[1..];
    }
  }

  // ---- the transmission log -----------------------------------------------------------------------------------

  /** Adding a command pushes the one in flight out of the full queue, and another one takes its place. */
  predicate Displaces(s: Link, e: Event) {
    e.Add? && e.name in s.known && |s.queue| == COMMAND_QUEUE_SIZE && s.waiting && s.queue[1] != s.queue[0]
  }

  lemma StepFlight(s: Link, e: Event)
    requires Inv(s)
    ensures FlightAgrees(s, Step(s, e).outputs, Step(s, e).link) <==> !Displaces(s, e)
  {
    hide AddStep;
    hide SendStep;
    hide ReceiveStep;
    hide Names;
    match e
    case Add(name) => AddFlight(s, name);
    case Send(now, delivered) => OverflowGuard(s, e); SendLog(s, now, delivered);
    case Receive(now, chunk) => OverflowGuard(s, e); ReceiveLog(s, now, chunk);
  }

  lemma AddFlight(s: Link, name: Packet)
    requires Inv(s)
    ensures FlightAgrees(s, AddStep(s, name).outputs, AddStep(s, name).link) <==> !Displaces(s, Add(name))
  {
    hide Names;
    hide Known;
    var r := AddStep(s, name);
    NamesMissing(r.outputs, TransmittedLog);
    NamesMissing(r.outputs, RemovedLog);
    var before, after := InFlight(s), InFlight(r.link);
    assert before + [] == before && [] + after == after;
    if s.waiting {
      assert before == [s.queue[0]] && after == [r.link.queue[0]];
      assert before[0] == s.queue[0] && after[0] == r.link.queue[0];
    }
  }

  predicate NeverDisplaces(s: Link, events: seq<Event>)
    requires Inv(s)
    decreases |events|
  {
    events == [] || (!Displaces(s, events[0]) && NeverDisplaces(Step(s, events[0]).link, events[1..]))
  }

  predicate FlightAgreesAfter(s: Link, events: seq<Event>, n: nat)
    requires Inv(s) && n <= |events|
  {
    FlightAgrees(s, Run(s, events[..n]).outputs, Run(s, events[..n]).link)
  }

  /**
   * The transmission log is exact at every moment of a run if and only if no command in flight is ever
   * displaced. Overflows while nothing is awaited do no harm to it.
   */
  lemma {:induction false} TransmissionLogExact(s: Link, events: seq<Event>)
    requires Inv(s)
    ensures (forall n :: 0 <= n <= |events| ==> FlightAgreesAfter(s, events, n)) <==> NeverDisplaces(s, events)
    decreases |events|
  {
    hide Displaces;
    hide FlightAgrees;
    hide FlightAgreesAfter;
    FlightAtFirst(s, events);
    if events != [] {
      var t := Step(s, events[0]).link;
      StepFlight(s, events[0]);
      TransmissionLogExact(t, events[1..]);
      FlightAfterOne(s, events);
      if !Displaces(s, events[0]) {
        forall n | 0 <= n < |events|
          ensures FlightAgreesAfter(s, events, n + 1) <==> FlightAgreesAfter(t, events[1..], n)
        {
          FlightShift(s, events, n);
        }
        assert forall n :: 0 < n <= |events| ==>
          (FlightAgreesAfter(s, events, n) <==> FlightAgreesAfter(t, events[1..], n - 1)) by {
          hide *;
        }
      }
    }
  }

  lemma FlightAtFirst(s: Link, events: seq<Event>)
    requires Inv(s)
    ensures FlightAgreesAfter(s, events, 0)
  {
    assert events[..0] == [];
    NamesOfNone();
  }

  lemma FlightAfterOne(s: Link, events: seq<Event>)
    requires Inv(s) && events != []
    ensures FlightAgreesAfter(s, events, 1) <==> FlightAgrees(s, Step(s, events[0]).outputs, Step(s, events[0]).link)
  {
    hide Step;
    hide FlightAgrees;
    var e := events[..1];
    assert e[0] == events[0] && e[1..] == [];
    var first := Step(s, events[0]);
    assert Run(first.link, e[1..]) == Ran(first.link, []);
    assert first.outputs + [] == first.outputs;
    assert Run(s, e) == Ran(first.link, first.outputs);
  }

  lemma FlightShift(s: Link, events: seq<Event>, n: nat)
    requires Inv(s) && n < |events|
    requires FlightAgrees(s, Step(s, events[0]).outputs, Step(s, events[0]).link)
    ensures FlightAgreesAfter(s, events, n + 1) <==> FlightAgreesAfter(Step(s, events[0]).link, events[1..], n)
  {
    hide Step;
    hide Names;
    hide InFlight;
    var e := events[..n + 1];
    assert e[0] == events[0] && e[1..] == events[1..][..n];
    var first := Step(s, events[0]);
    var rest := Run(first.link, e[1..]);
    RunNames(first.outputs, rest.outputs);
    var x, y := first.outputs, rest.outputs;
    LogCancel(InFlight(s), Names(x, TransmittedLog), Names(x, RemovedLog), InFlight(first.link),
              Names(y, TransmittedLog), Names(y, RemovedLog), InFlight(rest.link));
  }

  lemma LogCancel(q: seq<Packet>, e: seq<Packet>, r: seq<Packet>, q': seq<Packet>,
                  e': seq<Packet>, r': seq<Packet>, q'': seq<Packet>)
    requires q + e == r + q'
    ensures q + (e + e') == (r + r') + q'' <==> q' + e' == r' + q''
  {
    assert q + (e + e') == (q + e) + e' == r + (q' + e');
    assert (r + r') + q'' == r + (r' + q'');
    assert (r + (q' + e'))[|r|..] == q' + e' && (r + (r' + q''))[|r|..] == r' + q'';
  }

  // ---- acknowledgements ---------------------------------------------------------------------------------------

  /** The rxack decoder remembers the last acknowledgement frame, and that there was one. */
  lemma {:induction false} AckTracksLast(formats: map<Packet, Format>, states: map<Packet, State>, reports: seq<Report>)
    requires Known(formats, states) && RXACK in formats && formats[RXACK] == RxackFormat()
    ensures LastComplete(RxackFormat(), reports).Some? ==>
      Decodes(RxackFormat().elements, LastComplete(RxackFormat(), reports).value)
    ensures var after := DispatchAll(formats, states, reports).states[RXACK];
      var last := LastComplete(RxackFormat(), reports);
      after.received == (states[RXACK].received || last.Some?) &&
      after.raw == if last.Some? then LeadingFields(RxackFormat().elements, last.value) else states[RXACK].raw
    decreases |reports|
  {
    LastCompleteDecodes(RxackFormat(), reports);
    if reports != [] {
      hide Dispatch;
      var k := |reports| - 1;
      DispatchLast(formats, states, reports);
      AckTracksLast(formats, states, reports[..k]);
      AckStep(formats, DispatchAll(formats, states, reports[..k]).states, reports[k]);
    }
  }

  lemma AckStep(formats: map<Packet, Format>, states: map<Packet, State>, r: Report)
    requires Known(formats, states) && RXACK in formats && formats[RXACK] == RxackFormat()
    ensures var after := Dispatch(formats, states, r).states[RXACK];
      after.received == (states[RXACK].received || Completes(RxackFormat(), r)) &&
      after.raw ==
        if Completes(RxackFormat(), r) then LeadingFields(RxackFormat().elements, r.data) else states[RXACK].raw
  {
    hide LeadingFields;
    if Reaches(formats, r) && r.name == RXACK {
      var values := LeadingFields(RxackFormat().elements, r.data);
      assert |values| == 0 ==> Overwrite(states[RXACK].raw, values) == states[RXACK].raw;
      assert |values| == 1 ==> Overwrite(states[RXACK].raw, values) == values;
    }
  }

  /** The acknowledgement, if any, that a call of ReceiveAll decodes. */
  function AckIn(s: Link, chunk: Packet): Option<Packet>
    requires Inv(s)
  {
    LastComplete(RxackFormat(), Drain(s.buffer + Fitting(s, chunk)).reports)
  }

  /**
   * ACK safety: ReceiveAll removes a command exactly when one is awaited and this very call decodes a
   * CRC-valid rxack frame, or more than ten seconds have passed since it was sent.
   */
  lemma RemovalCause(s: Link, now: int, chunk: Packet)
    requires Inv(s)
    ensures var r := ReceiveStep(s, now, Some(chunk));
      var ack := AckIn(s, chunk);
      r.outputs == (if s.waiting && ack.Some? then [Removed(s.queue[0], Acknowledged)]
                    else if s.waiting && now - s.lastSend > COMMAND_TIMEOUT then [Removed(s.queue[0], Expired)]
                    else []) &&
      (r.link.waiting <==> s.waiting && ack.None? && now - s.lastSend <= COMMAND_TIMEOUT)
  {
    hide Drain;
    hide DispatchAll;
    AckTracksLast(s.formats, s.states, Drain(s.buffer + Fitting(s, chunk)).reports);
  }

  /** The last acknowledgement the call decodes is other than zero. */
  predicate Refused(s: Link, chunk: Packet)
    requires Inv(s)
  {
    AckIn(s, chunk).Some? && LeadingFields(RxackFormat().elements, AckIn(s, chunk).value) != [Num(0)]
  }

  /**
   * A public call reports a command as canceled exactly when one is awaited and the last acknowledgement
   * that this call decodes is not zero.
   */
  lemma RefusalReported(s: Link, e: Event)
    requires Inv(s)
    ensures Step(s, e).result == OperationCanceled
      <==> e.Receive? && e.chunk.Some? && s.waiting && Refused(s, e.chunk.value)
  {
    hide Drain;
    hide DispatchAll;
    hide LeadingFields;
    hide Known;
    if e.Receive? && e.chunk.Some? {
      AckTracksLast(s.formats, s.states, Drain(s.buffer + Fitting(s, e.chunk.value)).reports);
    }
  }

  /** A complete rxack frame that accepts, and one that refuses. */
  predicate Accepts(r: Report) {
    Completes(RxackFormat(), r) && LeadingFields(RxackFormat().elements, r.data) == [Num(0)]
  }

  predicate Refuses(r: Report) {
    Completes(RxackFormat(), r) && LeadingFields(RxackFormat().elements, r.data) != [Num(0)]
  }

  /**
   * Exactly when a refusal goes unreported: with a command awaited, the last refusal that a call decodes
   * is reported unless an accepting acknowledgement follows it in the same call.
   */
  lemma RefusalMaskedIff(s: Link, now: int, chunk: Packet, i: nat)
    requires Inv(s) && s.waiting
    requires var reports := Drain(s.buffer + Fitting(s, chunk)).reports;
      i < |reports| && Refuses(reports[i]) && forall k :: i < k < |reports| ==> !Refuses(reports[k])
    ensures var reports := Drain(s.buffer + Fitting(s, chunk)).reports;
      Step(s, Receive(now, Some(chunk))).result != OperationCanceled
      <==> exists j :: i < j < |reports| && Accepts(reports[j])
  {
    hide Drain;
    hide Step;
    hide LeadingFields;
    hide LastComplete;
    hide Accepts;
    hide Refuses;
    hide Known;
    RefusalReported(s, Receive(now, Some(chunk)));
    LastVerdict(Drain(s.buffer + Fitting(s, chunk)).reports, i);
  }

  /** Behind the last refusal, the last acknowledgement is an accepting one if there is any. */
  lemma LastVerdict(reports: seq<Report>, i: nat)
    requires i < |reports| && Refuses(reports[i]) && forall k :: i < k < |reports| ==> !Refuses(reports[k])
    ensures var last := LastComplete(RxackFormat(), reports);
      last.Some? &&
      (LeadingFields(RxackFormat().elements, last.value) == [Num(0)]
       <==> exists j :: i < j < |reports| && Accepts(reports[j]))
  {
    hide LeadingFields;
    hide Completes;
    hide LastComplete;
    SomeComplete(RxackFormat(), reports, i);
    var last := LastCompleteAt(RxackFormat(), reports);
    assert i < last ==> Accepts(reports[last]);
  }

  /**
   * A failed read returns before the timeout check: as long as no read succeeds, an overdue command
   * stays in flight and nothing else is transmitted, however much time goes by.
   */
  lemma {:induction false} FailedReadsNeverTimeOut(s: Link, events: seq<Event>)
    requires Inv(s) && s.waiting
    requires forall i :: 0 <= i < |events| && events[i].Receive? ==> events[i].chunk == None
    ensures var r := Run(s, events);
      r.link.waiting && r.link.lastSend == s.lastSend &&
      Names(r.outputs, RemovedLog) == [] && Names(r.outputs, TransmittedLog) == []
    decreases |events|
  {
    hide Step;
    hide Names;
    if events == [] {
      NamesOfNone();
    } else {
      var first := Step(s, events[0]);
      StaysInFlight(s, events[0]);
      FailedReadsNeverTimeOut(first.link, events[1..]);
      RunNames(first.outputs, Run(first.link, events[1..]).outputs);
    }
  }

  lemma StaysInFlight(s: Link, e: Event)
    requires Inv(s) && s.waiting && (e.Receive? ==> e.chunk == None)
    ensures var r := Step(s, e);
      r.link.waiting && r.link.lastSend == s.lastSend &&
      Names(r.outputs, RemovedLog) == [] && Names(r.outputs, TransmittedLog) == []
  {
    hide DropFlag;
    hide Names;
    var outputs := Step(s, e).outputs;
    NamesMissing(outputs, RemovedLog);
    NamesMissing(outputs, TransmittedLog);
  }

  lemma {:induction false} NamesMissing(outputs: seq<Output>, log: Log)
    requires forall o :: o in outputs ==> Entry(o, log) == []
    ensures Names(outputs, log) == []
    decreases |outputs|
  {
    if outputs != [] {
      NamesMissing(outputs[1..], log);
    }
  }

  lemma {:induction false} RunConcat(s: Link, a: seq<Event>, b: seq<Event>)
    requires Inv(s)
    ensures var first := Run(s, a);
      var second := Run(first.link, b);
      Run(s, a + b) == Ran(second.link, first.outputs + second.outputs)
    decreases |a|
  {
    hide Step;
    if a == [] {
      assert a + b == b;
      var second := Run(s, b);
      assert [] + second.outputs == second.outputs;
    } else {
      assert (a + b)[1..] == a[1..] + b;
      RunConcat(Step(s, a[0]).link, a[1..], b);
      var x, y := Step(s, a[0]).outputs, Run(Step(s, a[0]).link, a[1..]).outputs;
      var z := Run(Run(s, a).link, b).outputs;
      assert x + (y + z) == x + y + z;
    }
  }

  /** What follows an overflow while a command is in flight. */
  lemma OverflowOutputs(s: Link, name: Packet, now: int, chunk: Packet)
    requires Inv(s) && s.waiting && |s.queue| == COMMAND_QUEUE_SIZE && name in s.known
    requires AckIn(s, chunk).Some?
    ensures Run(s, [Add(name), Receive(now, Some(chunk))]).outputs
         == [Overwritten(s.queue[0]), Enqueued(name), Removed(s.queue[1], Acknowledged)]
  {
    hide Run;
    hide Drain;
    hide ReceiveStep;
    hide Known;
    var e, f := Add(name), Receive(now, Some(chunk));
    var t := Step(s, e).link;
    assert t == s.(queue := s.queue[1..] + [name]);
    assert AckIn(t, chunk) == AckIn(s, chunk);
    RemovalCause(t, now, chunk);
    assert t.queue[0] == s.queue[1];
    RunOfTwo(s, e, f);
  }

  lemma RunOfOne(s: Link, e: Event)
    requires Inv(s)
    ensures Run(s, [e]) == Ran(Step(s, e).link, Step(s, e).outputs)
  {
    hide Step;
    assert [e][1..] == [];
    assert Step(s, e).outputs + [] == Step(s, e).outputs;
  }

  lemma RunOfTwo(s: Link, e0: Event, e1: Event)
    requires Inv(s)
    ensures var r0 := Step(s, e0);
      var r1 := Step(r0.link, e1);
      Run(s, [e0, e1]) == Ran(r1.link, r0.outputs + r1.outputs)
  {
    hide Run;
    hide Step;
    hide Known;
    RunOfOne(s, e0);
    RunOfOne(Step(s, e0).link, e1);
    RunConcat(s, [e0], [e1]);
    assert [e0, e1] == [e0] + [e1];
  }

  /**
   * An overflow while a command is in flight makes its acknowledgement remove another one: everything
   * transmitted since the start is what was removed before and the command in flight, but the last one
   * removed is the command behind it, which was not transmitted.
   */
  lemma OverflowMisattributes(start: Link, events: seq<Event>, name: Packet, now: int, chunk: Packet)
    requires Inv(start) && !start.waiting && NeverDisplaces(start, events)
    requires var s := Run(start, events).link;
      s.waiting && |s.queue| == COMMAND_QUEUE_SIZE && name in s.known && AckIn(s, chunk).Some?
    ensures var before := Run(start, events);
      var after := Run(start, events + [Add(name), Receive(now, Some(chunk))]);
      Run(before.link, [Add(name), Receive(now, Some(chunk))]).outputs
        == [Overwritten(before.link.queue[0]), Enqueued(name), Removed(before.link.queue[1], Acknowledged)] &&
      Names(after.outputs, TransmittedLog) == Names(before.outputs, RemovedLog) + [before.link.queue[0]] &&
      Names(after.outputs, RemovedLog) == Names(before.outputs, RemovedLog) + [before.link.queue[1]]
  {
    hide Step;
    hide Names;
    hide Run;
    hide AckIn;
    hide NeverDisplaces;
    var s := Run(start, events).link;
    var more := [Add(name), Receive(now, Some(chunk))];
    OverflowOutputs(s, name, now, chunk);
    RunConcat(start, events, more);
    RunNames(Run(start, events).outputs, Run(s, more).outputs);
    TransmissionLogExact(start, events);
    assert FlightAgreesAfter(start, events, |events|);
    assert events[..|events|] == events;
    OverflowNames(s.queue[0], name, s.queue[1]);
    assert InFlight(s) == [s.queue[0]];
    var t := Names(Run(start, events).outputs, TransmittedLog);
    assert [] + t == t && t + [] == t;
  }

  lemma OverflowNames(x: Packet, name: Packet, y: Packet)
    ensures var outputs := [Overwritten(x), Enqueued(name), Removed(y, Acknowledged)];
      Names(outputs, TransmittedLog) == [] && Names(outputs, RemovedLog) == [y]
  {
    hide Names;
    var a := [Overwritten(x), Enqueued(name)];
    var r := Removed(y, Acknowledged);
    assert a + [r] == [Overwritten(x), Enqueued(name), r];
    forall log
      ensures Names(a + [r], log) == Names(a, log) + Entry(r, log)
    {
      NamesConcat(a, [r], log);
      NamesOfOne(r, log);
    }
    NamesMissing(a, TransmittedLog);
    NamesMissing(a, RemovedLog);
    assert [] + [y] == [y];
  }

  // ---- heartbeats ---------------------------------------------------------------------------------------------

  function Attempts(outputs: seq<Output>): nat {
    if outputs == [] then 0 else (if outputs[0].Heartbeat? then 1 else 0) + Attempts(outputs[1..])
  }

  function Beats(outputs: seq<Output>): nat {
    if outputs == [] then 0 else (if outputs[0] == Heartbeat(true) then 1 else 0) + Beats(outputs[1..])
  }

  lemma {:induction false} BeatsConcat(a: seq<Output>, b: seq<Output>)
    ensures Attempts(a + b) == Attempts(a) + Attempts(b)
    ensures Beats(a + b) == Beats(a) + Beats(b)
    decreases |a|
  {
    if a == [] {
      assert a + b == b;
    } else {
      assert (a + b)[1..] == a[1..] + b;
      BeatsConcat(a[1..], b);
    }
  }

  /** The clock never runs backwards from `from` to `until`. */
  predicate Monotone(events: seq<Event>, from: int, until: int)
    decreases |events|
  {
    if events == [] then from <= until
    else if events[0].Add? then Monotone(events[1..], from, until)
    else from <= events[0].now && Monotone(events[1..], events[0].now, until)
  }

  lemma StepBeats(s: Link, e: Event)
    requires Inv(s)
    ensures var r := Step(s, e);
      r.link.lastHeartbeat == s.lastHeartbeat + HEARTBEAT_PERIOD * Beats(r.outputs) &&
      r.link.counts == (s.counts + Attempts(r.outputs)) % WORD &&
      (Beats(r.outputs) > 0 ==> e.Send? && r.link.lastHeartbeat < e.now)
  {
    hide Drain;
    hide DispatchAll;
    hide AckFlag;
    hide DropFlag;
    hide Known;
    var outputs := Step(s, e).outputs;
    if e.Send? && outputs != [] && outputs[0].Heartbeat? {
      assert outputs == [Heartbeat(e.delivered)];
      assert Attempts(outputs) == 1 && Beats(outputs) == if e.delivered then 1 else 0;
    } else {
      NoBeats(outputs);
      assert Step(s, e).link.counts == s.counts;
    }
  }

  lemma {:induction false} NoBeats(outputs: seq<Output>)
    requires forall i :: 0 <= i < |outputs| ==> !outputs[i].Heartbeat?
    ensures Attempts(outputs) == 0 && Beats(outputs) == 0
    decreases |outputs|
  {
    if outputs != [] {
      NoBeats(outputs[1..]);
    }
  }

  lemma CountsAdd(c: nat, a: nat, b: nat)
    ensures ((c + a) % WORD + b) % WORD == (c + (a + b)) % WORD
  {
    var q := (c + a) / WORD;
    assert (c + a) % WORD + b == c + (a + b) - q * WORD;
    Periodic(c + (a + b), q);
  }

  /**
   * Heartbeats do not drift: after k successful heartbeats the stored time is exactly start + 5k s,
   * it lies before the time of the last call once one has been sent, and the counter has counted
   * the attempts modulo 2^32.
   */
  lemma {:induction false} HeartbeatSchedule(s: Link, events: seq<Event>, from: int, until: int)
    requires Inv(s) && Monotone(events, from, until)
    ensures var r := Run(s, events);
      var k := Beats(r.outputs);
      r.link.lastHeartbeat == s.lastHeartbeat + HEARTBEAT_PERIOD * k &&
      r.link.counts == (s.counts + Attempts(r.outputs)) % WORD &&
      from <= until && (k > 0 ==> r.link.lastHeartbeat < until)
    decreases |events|
  {
    hide Known;
    hide Step;
    if events != [] {
      hide Beats;
      hide Attempts;
      var first := Step(s, events[0]);
      var rest := Run(first.link, events[1..]);
      BeatsConcat(first.outputs, rest.outputs);
      StepBeats(s, events[0]);
      HeartbeatSchedule(first.link, events[1..], if events[0].Add? then from else events[0].now, until);
      CountsAdd(s.counts, Attempts(first.outputs), Attempts(rest.outputs));
    }
  }

  /** Hence fewer heartbeats were sent than five-second periods have gone by since the start. */
  lemma HeartbeatRate(s: Link, events: seq<Event>, start: int, until: int)
    requires Inv(s) && s.lastHeartbeat == start && Monotone(events, start, until)
    ensures var k := Beats(Run(s, events).outputs);
      k > 0 ==> HEARTBEAT_PERIOD * k < until - start
  {
    HeartbeatSchedule(s, events, start, until);
  }

  // ---- the receive buffer -------------------------------------------------------------------------------------

  /** The buffer has room for the longest possible frame unless a header of negative size sits in it. */
  predicate Roomy(s: Link) {
    |s.buffer| <= RESIDUE_LIMIT || NegativeSize(s.buffer)
  }

  lemma {:induction false} BufferStaysRoomy(s: Link, events: seq<Event>)
    requires Inv(s) && Roomy(s)
    ensures Roomy(Run(s, events).link)
    decreases |events|
  {
    if events != [] {
      var r := Step(s, events[0]);
      assert Roomy(r.link) by {
        hide Drain;
        hide DispatchAll;
        if events[0].Receive? && events[0].chunk.Some? {
          ResidueShape(s.buffer + Fitting(s, events[0].chunk.value));
        }
      }
      hide Step;
      BufferStaysRoomy(r.link, events[1..]);
    }
  }
}
