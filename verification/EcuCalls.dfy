/**
 * What the calls of EcuLink do and report, told from their inputs and from what a run has put out
 * before them (power_ecu_protocol.cpp:388-492).
 */
module EcuCalls {
  import opened Options
  import opened Octets
  import opened DataPackets
  import opened Schemas
  import opened FrameStream
  import opened FrameCodec
  import opened LinkCodec
  import opened EcuLink
  import opened EcuRuns

  // ---- the time of the last transmission ----------------------------------------------------------------------

  /** Transmits the next command. */
  predicate Transmits(s: Link, e: Event)
    requires Inv(s)
  {
    e.Send? && Names(Step(s, e).outputs, TransmittedLog) != []
  }

  /** When the last event of the run that transmitted a command took place. */
  function TransmissionTime(s: Link, events: seq<Event>): Option<int>
    requires Inv(s)
    decreases |events|
  {
    if events == [] then None
    else
      var rest := TransmissionTime(Step(s, events[0]).link, events[1..]);
      if rest.Some? then rest else if Transmits(s, events[0]) then Some(events[0].now) else None
  }

  lemma StepTransmission(s: Link, e: Event)
    requires Inv(s)
    ensures var r := Step(s, e);
      r.link.lastSend == (if Transmits(s, e) then e.now else s.lastSend) &&
      (r.link.waiting && !s.waiting ==> Transmits(s, e))
  {
    hide Drain;
    hide DispatchAll;
    hide DropFlag;
    hide Known;
    hide Names;
    var outputs := Step(s, e).outputs;
    if outputs != [] && outputs[0].Transmitted? {
      NamesOfOne(outputs[0], TransmittedLog);
      assert outputs == [outputs[0]];
    } else {
      NamesMissing(outputs, TransmittedLog);
    }
  }

  /**
   * After any run in which a command was transmitted, the send time is that of the last event that did so;
   * and a command that is awaited now was transmitted in the run unless one was awaited at its start.
   */
  lemma {:induction false} SendTimeIsLast(s: Link, events: seq<Event>)
    requires Inv(s)
    ensures var last, link := TransmissionTime(s, events), Run(s, events).link;
      link.lastSend == (if last.Some? then last.value else s.lastSend) &&
      (link.waiting && !s.waiting ==> last.Some?)
    decreases |events|
  {
    hide Step;
    hide Transmits;
    if events != [] {
      StepTransmission(s, events[0]);
      SendTimeIsLast(Step(s, events[0]).link, events[1..]);
    }
  }

  /** A command is removed for the given reason. */
  ghost predicate Removes(outputs: seq<Output>, cause: Cause) {
    exists n :: Removed(n, cause) in outputs
  }

  /** Of the commands transmitted in the run, one has not been removed. */
  predicate Unanswered(outputs: seq<Output>) {
    |Names(outputs, TransmittedLog)| == |Names(outputs, RemovedLog)| + 1
  }

  /**
   * The timeout, over any run that starts with nothing awaited: a command is removed as expired exactly
   * when a successful read decodes no rxack frame more than 10 s after the event that transmitted it;
   * and it is removed as acknowledged exactly when a read decodes one.
   */
  lemma ExpiryExact(start: Link, events: seq<Event>, e: Event)
    requires Inv(start) && !start.waiting
    ensures var before := Run(start, events);
      var outputs := Step(before.link, e).outputs;
      var last := TransmissionTime(start, events);
      var awaited := Unanswered(before.outputs);
      var read := e.Receive? && e.chunk.Some?;
      (awaited ==> last.Some?) &&
      (Removes(outputs, Expired) <==>
        read && awaited && AckIn(before.link, e.chunk.value).None? && e.now - last.value > 10_000_000_000) &&
      (Removes(outputs, Acknowledged) <==> read && awaited && AckIn(before.link, e.chunk.value).Some?)
  {
    hide Run;
    hide TransmissionTime;
    hide AckIn;
    hide Names;
    hide Inv;
    var s := Run(start, events).link;
    SendTimeIsLast(start, events);
    LogExact(start, events);
    AwaitedIffUnanswered(start, events);
    if e.Receive? && e.chunk.Some? {
      StepIsReceive(s, e.now, e.chunk.value);
      RemovalCause(s, e.now, e.chunk.value);
    } else {
      NothingRemoved(s, e);
    }
  }

  lemma AwaitedIffUnanswered(start: Link, events: seq<Event>)
    requires Inv(start) && !start.waiting
    ensures Run(start, events).link.waiting <==> Unanswered(Run(start, events).outputs)
  {
    hide Run;
    hide Names;
    LogExact(start, events);
  }

  lemma NothingRemoved(s: Link, e: Event)
    requires Inv(s) && !(e.Receive? && e.chunk.Some?)
    ensures forall n, cause :: Removed(n, cause) !in Step(s, e).outputs
  {
  }

  // ---- what is sent -------------------------------------------------------------------------------------------

  /**
   * A call of SendAll transmits the front of the queue exactly when there is one, none is awaited and the
   * network takes it; it tries a heartbeat exactly when it has no command to send and more than 5 s have
   * passed since the heartbeat that was due last; and it fails exactly when the network refuses either.
   */
  lemma SendDecision(start: Link, events: seq<Event>, now: int, delivered: bool)
    requires Inv(start) && !start.waiting
    ensures var before := Run(start, events);
      var s := before.link;
      var r := Step(s, Send(now, delivered));
      var ready := s.queue != [] && !Unanswered(before.outputs);
      var due := now - (start.lastHeartbeat + 5_000_000_000 * Beats(before.outputs)) > 5_000_000_000;
      (forall n :: Transmitted(n) in r.outputs <==> ready && delivered && n == s.queue[0]) &&
      (forall b :: Heartbeat(b) in r.outputs <==> !ready && due && b == delivered) &&
      r.result == if !delivered && (ready || due) then NetworkDown else Success
  {
    hide Run;
    hide Names;
    hide Beats;
    hide Known;
    hide DropFlag;
    AwaitedIffUnanswered(start, events);
    HeartbeatTime(start, events);
  }

  /** The stored heartbeat time without any assumption on the clock. */
  lemma {:induction false} HeartbeatTime(s: Link, events: seq<Event>)
    requires Inv(s)
    ensures Run(s, events).link.lastHeartbeat == s.lastHeartbeat + 5_000_000_000 * Beats(Run(s, events).outputs)
    decreases |events|
  {
    hide Step;
    if events != [] {
      hide Beats;
      var first := Step(s, events[0]);
      StepBeats(s, events[0]);
      BeatsConcat(first.outputs, Run(first.link, events[1..]).outputs);
      HeartbeatTime(first.link, events[1..]);
    }
  }

  // ---- what is queued -----------------------------------------------------------------------------------------

  /** An unknown command is refused and nothing changes; any other is queued, at 1000 in place of the oldest. */
  lemma AddDecision(s: Link, name: Packet)
    requires Inv(s)
    ensures var r := Step(s, Add(name));
      (r.result == InvalidArgument <==> name !in s.known) && (r.result == Success <==> name in s.known) &&
      (name !in s.known ==> r.link == s && r.outputs == []) &&
      (name in s.known ==>
        r.link.queue != [] && r.link.queue[|r.link.queue| - 1] == name && |r.link.queue| <= 1000 &&
        (|s.queue| < 1000 ==> r.link.queue[..|r.link.queue| - 1] == s.queue) &&
        (|s.queue| == 1000 ==> [s.queue[0]] + r.link.queue[..|r.link.queue| - 1] == s.queue))
  {
  }

  // ---- what is received ---------------------------------------------------------------------------------------

  /** The report is a frame of a registered packet, with its size, whose fields all decode. */
  predicate Readable(formats: map<Packet, Format>, r: Report) {
    match r
    case Rejected => false
    case Accepted(name, size, data) =>
      name in formats && formats[name].size == size && Decodes(formats[name].elements, data)
  }

  /** A run of the decode loop is clean exactly when everything it reported was readable. */
  lemma {:induction false} CleanIffReadable(formats: map<Packet, Format>, states: map<Packet, State>,
                                            reports: seq<Report>)
    requires Known(formats, states)
    ensures DispatchAll(formats, states, reports).ok
      <==> forall i :: 0 <= i < |reports| ==> Readable(formats, reports[i])
    decreases |reports|
  {
    hide DecodeState;
    hide Decodes;
    if reports != [] {
      var rest := reports[1..];
      CleanIffReadable(formats, Dispatch(formats, states, reports[0]).states, rest);
      assert forall i :: 0 < i < |reports| ==> reports[i] == rest[i - 1];
      assert forall i :: 0 <= i < |rest| ==> rest[i] == reports[i + 1];
    }
  }

  /**
   * What ReceiveAll returns: a failed read first, then a refused and then an expired command, then any
   * frame that was not readable. A failed read changes nothing.
   */
  lemma ReceiveDecision(s: Link, now: int, chunk: Option<Packet>)
    requires Inv(s)
    ensures var r := Step(s, Receive(now, chunk));
      var reports := CallReports(s, Receive(now, chunk));
      (chunk.None? ==> r == Stepped(s, [], NetworkDown)) &&
      (chunk.Some? ==>
        r.result == if Removes(r.outputs, Acknowledged) && Refused(s, chunk.value) then OperationCanceled
                    else if Removes(r.outputs, Expired) then TimedOut
                    else if forall i :: 0 <= i < |reports| ==> Readable(s.formats, reports[i]) then Success
                    else ProtocolError)
  {
    hide Drain;
    hide DispatchAll;
    hide Readable;
    hide Known;
    hide LastComplete;
    if chunk.Some? {
      CleanIffReadable(s.formats, s.states, CallReports(s, Receive(now, chunk)));
      RefusalReported(s, Receive(now, chunk));
      hide Refused;
      OneRemoval(s, now, chunk.value);
    }
  }

  lemma OneRemoval(s: Link, now: int, chunk: Packet)
    requires Inv(s)
    ensures var outputs := Step(s, Receive(now, Some(chunk))).outputs;
      (Removes(outputs, Acknowledged) <==> s.waiting && outputs == [Removed(s.queue[0], Acknowledged)]) &&
      (Removes(outputs, Expired) <==> s.waiting && outputs == [Removed(s.queue[0], Expired)])
  {
    hide Drain;
    hide DispatchAll;
    hide Known;
  }

  /** The bytes of a read that reach the receive buffer: all of them, or as many as fill it. */
  lemma FittingFills(s: Link, chunk: Packet)
    requires |s.buffer| <= BUFFER_SIZE
    ensures var bytes := Fitting(s, chunk);
      bytes <= chunk && |s.buffer| + |bytes| <= 4000 && (bytes == chunk || |s.buffer| + |bytes| == 4000)
  {
  }

  function CallBytes(s: Link, e: Event): Packet
    requires Inv(s)
  {
    if e.Receive? && e.chunk.Some? then Fitting(s, e.chunk.value) else []
  }

  /** All bytes that reached the receive buffer in a run. */
  function RunBytes(s: Link, events: seq<Event>): Packet
    requires Inv(s)
    decreases |events|
  {
    if events == [] then [] else CallBytes(s, events[0]) + RunBytes(Step(s, events[0]).link, events[1..])
  }

  lemma FirstOfRun(s: Link, events: seq<Event>)
    requires Inv(s) && events != []
    ensures var t := Step(s, events[0]).link;
      Run(s, events).link == Run(t, events[1..]).link &&
      RunReports(s, events) == CallReports(s, events[0]) + RunReports(t, events[1..]) &&
      RunBytes(s, events) == CallBytes(s, events[0]) + RunBytes(t, events[1..])
  {
    hide Step;
    hide CallReports;
    hide CallBytes;
  }

  lemma StepDecodes(s: Link, e: Event)
    requires Inv(s) && Drain(s.buffer) == Drained([], s.buffer)
    ensures Drain(s.buffer + CallBytes(s, e)) == Drained(CallReports(s, e), Step(s, e).link.buffer)
  {
    hide Drain;
    hide DispatchAll;
    hide Known;
    assert s.buffer + [] == s.buffer;
  }

  /**
   * The receiver over a whole run: its reports and its buffer are those of one decoding of all the bytes
   * that came in, whatever calls were made in between.
   */
  lemma {:induction false} RunDecodesStream(s: Link, events: seq<Event>)
    requires Inv(s) && Drain(s.buffer) == Drained([], s.buffer)
    ensures Drain(s.buffer + RunBytes(s, events)) == Drained(RunReports(s, events), Run(s, events).link.buffer)
    decreases |events|
  {
    hide Drain;
    hide Step;
    if events == [] {
      assert s.buffer + [] == s.buffer;
    } else {
      hide Run;
      hide RunReports;
      hide RunBytes;
      var t := Step(s, events[0]).link;
      StepSettled(s, events[0]);
      RunDecodesStream(t, events[1..]);
      FirstOfRun(s, events);
      StepDecodes(s, events[0]);
      ChunkInvariance(s.buffer + CallBytes(s, events[0]), RunBytes(t, events[1..]));
      assert s.buffer + CallBytes(s, events[0]) + RunBytes(t, events[1..])
          == s.buffer + (CallBytes(s, events[0]) + RunBytes(t, events[1..]));
    }
  }

  // ---- the acknowledgement flag -------------------------------------------------------------------------------

  /** The network takes a frame: a command or a heartbeat. */
  predicate Delivers(s: Link, e: Event)
    requires Inv(s)
  {
    e.Send? && e.delivered && Step(s, e).outputs != []
  }

  /** The frames received since the last one sent, or since the start. */
  function ReceivedSince(s: Link, events: seq<Event>): seq<Report>
    requires Inv(s)
    decreases |events|
  {
    if events == [] then []
    else
      var k := |events| - 1;
      var before := Run(s, events[..k]).link;
      if Delivers(before, events[k]) then [] else ReceivedSince(s, events[..k]) + CallReports(before, events[k])
  }

  ghost predicate Acknowledges(reports: seq<Report>) {
    exists i :: 0 <= i < |reports| && Completes(RxackFormat(), reports[i])
  }

  /** The flag that SendAll drops and ReceiveAll tests is up exactly when an rxack frame came in since the last send. */
  lemma {:induction false} FlagMeaning(s: Link, events: seq<Event>)
    requires Inv(s) && !AckFlag(s)
    ensures AckFlag(Run(s, events).link) <==> Acknowledges(ReceivedSince(s, events))
    decreases |events|
  {
    hide Completes;
    hide Step;
    hide Inv;
    hide AckFlag;
    if events != [] {
      hide Run;
      hide CallReports;
      var k := |events| - 1;
      var before := Run(s, events[..k]).link;
      FlagMeaning(s, events[..k]);
      RunSnoc(s, events);
      StepFlag(before, events[k]);
      AcknowledgesEither(ReceivedSince(s, events[..k]), CallReports(before, events[k]));
    }
  }

  lemma RunSnoc(s: Link, events: seq<Event>)
    requires Inv(s) && events != []
    ensures var k := |events| - 1;
      Run(s, events).link == Step(Run(s, events[..k]).link, events[k]).link
  {
    hide *;
    var k := |events| - 1;
    RunThenOne(s, events[..k], events[k]);
    LastApart(events);
  }

  lemma LastApart<T>(s: seq<T>)
    requires s != []
    ensures s == s[..|s| - 1] + [s[|s| - 1]]
  {
  }

  lemma RunThenOne(s: Link, events: seq<Event>, e: Event)
    requires Inv(s)
    ensures Run(s, events + [e]).link == Step(Run(s, events).link, e).link
  {
    hide *;
    RunOfOne(Run(s, events).link, e);
    RunConcat(s, events, [e]);
  }

  lemma AcknowledgesEither(a: seq<Report>, b: seq<Report>)
    ensures Acknowledges(a + b) <==> Acknowledges(a) || Acknowledges(b)
  {
    hide Completes;
    if Acknowledges(a) {
      var i :| 0 <= i < |a| && Completes(RxackFormat(), a[i]);
      assert (a + b)[i] == a[i];
    } else if Acknowledges(b) {
      var i :| 0 <= i < |b| && Completes(RxackFormat(), b[i]);
      assert (a + b)[|a| + i] == b[i];
    }
  }

  lemma StepFlag(s: Link, e: Event)
    requires Inv(s)
    ensures AckFlag(Step(s, e).link) <==> !Delivers(s, e) && (AckFlag(s) || Acknowledges(CallReports(s, e)))
  {
    hide Drain;
    hide DispatchAll;
    hide Completes;
    hide LastComplete;
    var reports := CallReports(s, e);
    if e.Receive? && e.chunk.Some? {
      AckTracksLast(s.formats, s.states, reports);
      if LastComplete(RxackFormat(), reports).Some? {
        var i := LastCompleteAt(RxackFormat(), reports);
      } else if Acknowledges(reports) {
        var i :| 0 <= i < |reports| && Completes(RxackFormat(), reports[i]);
        SomeComplete(RxackFormat(), reports, i);
      }
    }
  }
}
