/**
 * Whose acknowledgement is it? An rxack frame does not say what it answers (power_ecu_protocol.cpp:437-449).
 * Here the ECU answers every transmitted frame, heartbeats included, once and in order.
 */
module EcuAnswers {
  import opened Options
  import opened Octets
  import opened Schemas
  import opened DataPackets
  import opened FrameStream
  import opened FrameCodec
  import opened LinkCodec
  import opened EcuLink
  import opened EcuRuns

  // ---- which frame an acknowledgement answers -----------------------------------------------------------------

  /** The number of acknowledgements among some reports. */
  function AckCount(reports: seq<Report>): nat
    decreases |reports|
  {
    if reports == [] then 0
    else
      var k := |reports| - 1;
      AckCount(reports[..k]) + (if Completes(RxackFormat(), reports[k]) then 1 else 0)
  }

  lemma {:induction false} NoAckIff(reports: seq<Report>)
    ensures AckCount(reports) == 0 <==> LastComplete(RxackFormat(), reports).None?
    decreases |reports|
  {
    hide Completes;
    if reports != [] {
      NoAckIff(reports[..|reports| - 1]);
    }
  }

  /** The number of acknowledgements a public call decodes. */
  function AcksIn(s: Link, e: Event): nat
    requires Inv(s)
  {
    AckCount(CallReports(s, e))
  }

  /**
   * Frames are numbered in the order they go out: `sent` of them have, and the answers to those below
   * `answered` have been decoded. The command in flight, of the given name, was frame number `command`,
   * and `ahead` frames before it were unanswered when it went out.
   */
  datatype Ledger = Ledger(sent: nat, answered: nat, name: Packet, command: nat, ahead: nat)

  /** The ECU answers nothing that was not sent; so the acknowledgements of a call answer the frames that are next. */
  predicate Orderly(l: Ledger, s: Link, e: Event)
    requires Inv(s)
  {
    l.answered + AcksIn(s, e) <= l.sent
  }

  function Account(l: Ledger, s: Link, e: Event): Ledger
    requires Inv(s)
  {
    var outputs := Step(s, e).outputs;
    if outputs != [] && outputs[0].Transmitted? then
      Ledger(l.sent + 1, l.answered, outputs[0].name, l.sent, if l.sent >= l.answered then l.sent - l.answered else 0)
    else if outputs == [Heartbeat(true)] then l.(sent := l.sent + 1)
    else l.(answered := l.answered + AcksIn(s, e))
  }

  function Accounts(l: Ledger, s: Link, events: seq<Event>): Ledger
    requires Inv(s)
    decreases |events|
  {
    if events == [] then l else Accounts(Account(l, s, events[0]), Step(s, events[0]).link, events[1..])
  }

  predicate OrderlyThroughout(l: Ledger, s: Link, events: seq<Event>)
    requires Inv(s)
    decreases |events|
  {
    events == [] ||
    (Orderly(l, s, events[0]) &&
     OrderlyThroughout(Account(l, s, events[0]), Step(s, events[0]).link, events[1..]))
  }

  /** As long as a command is in flight, no answer has been decoded since it went out. */
  predicate Booked(l: Ledger, s: Link) {
    l.answered <= l.sent &&
    (s.waiting ==>
      s.queue != [] && s.queue[0] == l.name && l.command == l.answered + l.ahead && l.command < l.sent)
  }

  lemma AccountKeeps(l: Ledger, s: Link, e: Event)
    requires Inv(s) && Booked(l, s) && Orderly(l, s, e) && !Displaces(s, e)
    ensures Booked(Account(l, s, e), Step(s, e).link)
  {
    hide Drain;
    hide DispatchAll;
    hide AckCount;
    hide Known;
    match e
    case Add(_) =>
      AcksOfNone();
    case Send(_, _) =>
      AcksOfNone();
    case Receive(now, chunk) =>
      if chunk.Some? {
        ReceiveBooked(l, s, now, chunk.value);
      } else {
        AcksOfNone();
      }
  }

  lemma AcksOfNone()
    ensures AckCount([]) == 0
  {
  }

  lemma ReceiveBooked(l: Ledger, s: Link, now: int, chunk: Packet)
    requires Inv(s) && Booked(l, s) && Orderly(l, s, Receive(now, Some(chunk)))
    ensures var e := Receive(now, Some(chunk)); Booked(Account(l, s, e), Step(s, e).link)
  {
    hide Drain;
    hide ReceiveStep;
    hide AckCount;
    RemovalCause(s, now, chunk);
    StepIsReceive(s, now, chunk);
    NoAckIff(CallReports(s, Receive(now, Some(chunk))));
    QueueKept(s, now, chunk);
  }

  lemma QueueKept(s: Link, now: int, chunk: Packet)
    requires Inv(s)
    ensures var t := ReceiveStep(s, now, Some(chunk)).link; t.waiting ==> t.queue == s.queue
  {
    hide Drain;
    hide DispatchAll;
  }

  lemma {:induction false} AccountsKeep(l: Ledger, s: Link, events: seq<Event>)
    requires Inv(s) && Booked(l, s) && OrderlyThroughout(l, s, events) && NeverDisplaces(s, events)
    ensures Booked(Accounts(l, s, events), Run(s, events).link)
    decreases |events|
  {
    hide Step;
    hide Account;
    hide Orderly;
    hide Booked;
    hide Displaces;
    if events != [] {
      AccountKeeps(l, s, events[0]);
      AccountsKeep(Account(l, s, events[0]), Step(s, events[0]).link, events[1..]);
    }
  }

  /**
   * Attribution, over any run in which the ECU answers in order and no command in flight is displaced: when
   * a call removes a command as acknowledged, the acknowledgement that did it, the first one decoded since
   * the command went out, answers that command if and only if no frame before it, heartbeat or expired
   * command, was unanswered when it went out. And the value taken for its answer, that of the last
   * acknowledgement of the call, is its own if and only if the call decodes exactly one more than those.
   */
  lemma AckAttribution(l: Ledger, s: Link, events: seq<Event>, now: int, chunk: Packet)
    requires Inv(s) && Booked(l, s) && OrderlyThroughout(l, s, events) && NeverDisplaces(s, events)
    requires Orderly(Accounts(l, s, events), Run(s, events).link, Receive(now, Some(chunk)))
    requires Run(s, events).link.waiting && AckIn(Run(s, events).link, chunk).Some?
    ensures var t, k := Run(s, events).link, Accounts(l, s, events);
      var e := Receive(now, Some(chunk));
      var first, last := k.answered, k.answered + AcksIn(t, e) - 1;
      Step(t, e).outputs == [Removed(k.name, Acknowledged)] && first <= last < k.sent &&
      (first == k.command <==> k.ahead == 0) &&
      (last == k.command <==> AcksIn(t, e) == k.ahead + 1) &&
      (first <= k.command <= last <==> AcksIn(t, e) > k.ahead)
  {
    hide Run;
    hide Accounts;
    hide OrderlyThroughout;
    hide NeverDisplaces;
    hide ReceiveStep;
    hide Drain;
    hide AckCount;
    var t := Run(s, events).link;
    AccountsKeep(l, s, events);
    RemovalCause(t, now, chunk);
    StepIsReceive(t, now, chunk);
    NoAckIff(CallReports(t, Receive(now, Some(chunk))));
  }

  // ---- when every acknowledgement is right --------------------------------------------------------------------

  /** Commands go out only when every frame before them has been answered. */
  predicate QuietSends(l: Ledger, s: Link, events: seq<Event>)
    requires Inv(s)
    decreases |events|
  {
    events == [] ||
    ((var outputs := Step(s, events[0]).outputs;
      outputs != [] && outputs[0].Transmitted? ==> l.answered == l.sent) &&
     QuietSends(Account(l, s, events[0]), Step(s, events[0]).link, events[1..]))
  }

  /** Then no command ever has an unanswered frame ahead of it, so each is acknowledged by its own answer. */
  lemma {:induction false} QuietSendsAreAnswered(l: Ledger, s: Link, events: seq<Event>)
    requires Inv(s) && (s.waiting ==> l.ahead == 0) && QuietSends(l, s, events)
    ensures Run(s, events).link.waiting ==> Accounts(l, s, events).ahead == 0
    decreases |events|
  {
    if events != [] {
      QuietStep(l, s, events[0]);
      hide Step;
      hide Account;
      QuietSendsAreAnswered(Account(l, s, events[0]), Step(s, events[0]).link, events[1..]);
    }
  }

  lemma QuietStep(l: Ledger, s: Link, e: Event)
    requires Inv(s) && (s.waiting ==> l.ahead == 0)
    requires var outputs := Step(s, e).outputs; outputs != [] && outputs[0].Transmitted? ==> l.answered == l.sent
    ensures Step(s, e).link.waiting ==> Account(l, s, e).ahead == 0
  {
    hide Drain;
    hide DispatchAll;
    hide AckCount;
    hide Known;
  }

  // ---- a heartbeat's answer taken for a command's -------------------------------------------------------------

  /**
   * It happens: a heartbeat goes out, then a command, and the answer to the heartbeat removes the command
   * before the ECU has answered it.
   */
  lemma HeartbeatAnswersCommand(s: Link, name: Packet, t0: int, t1: int, t2: int)
    requires Inv(s) && s.buffer == [] && s.queue == [] && !s.waiting && name in s.known
    requires t0 - s.lastHeartbeat > HEARTBEAT_PERIOD
    ensures var l := Ledger(0, 0, [], 0, 0);
      var before := [Send(t0, true), Add(name), Send(t1, true)];
      var answer := Receive(t2, Some(AckFrame(ZERO)));
      var t, k := Run(s, before).link, Accounts(l, s, before);
      OrderlyThroughout(l, s, before) && Orderly(k, t, answer) &&
      Run(s, before).outputs == [Heartbeat(true), Enqueued(name), Transmitted(name)] &&
      Step(t, answer).outputs == [Removed(name, Acknowledged)] && AcksIn(t, answer) == 1 &&
      k.answered == 0 && k.command == 1
  {
    hide Step;
    hide Run;
    hide AckFrame;
    hide AckCount;
    hide Accounts;
    hide OrderlyThroughout;
    hide Known;
    var l := Ledger(0, 0, [], 0, 0);
    var e0, e1, e2 := Send(t0, true), Add(name), Send(t1, true);
    AcksOfNone();
    var s1 := HeartbeatGoesOut(s, t0);
    var s2 := CommandJoins(s1, name);
    var s3 := CommandGoesOut(s2, t1);
    RunOfThree(s, e0, e1, e2);
    RunLinkOfThree(s, e0, e1, e2);
    LedgerOfThree(l, s, e0, e1, e2);
    OneAnswer(s3, t2);
  }

  lemma HeartbeatGoesOut(s: Link, now: int) returns (t: Link)
    requires Inv(s) && s.buffer == [] && s.queue == [] && !s.waiting && now - s.lastHeartbeat > HEARTBEAT_PERIOD
    ensures t == Step(s, Send(now, true)).link && Inv(t)
    ensures t.buffer == [] && t.queue == [] && !t.waiting && t.known == s.known
    ensures Step(s, Send(now, true)).outputs == [Heartbeat(true)]
  {
    t := Step(s, Send(now, true)).link;
  }

  lemma CommandJoins(s: Link, name: Packet) returns (t: Link)
    requires Inv(s) && s.buffer == [] && s.queue == [] && !s.waiting && name in s.known
    ensures t == Step(s, Add(name)).link && Inv(t)
    ensures t.buffer == [] && t.queue == [name] && !t.waiting
    ensures Step(s, Add(name)).outputs == [Enqueued(name)]
  {
    t := Step(s, Add(name)).link;
  }

  lemma RunLinkOfThree(s: Link, e0: Event, e1: Event, e2: Event)
    requires Inv(s)
    ensures Run(s, [e0, e1, e2]).link == Step(Step(Step(s, e0).link, e1).link, e2).link
  {
    hide Run;
    hide Step;
    hide Known;
    RunOfTwo(s, e0, e1);
    RunOfOne(Step(Step(s, e0).link, e1).link, e2);
    RunConcat(s, [e0, e1], [e2]);
    assert [e0, e1, e2] == [e0, e1] + [e2];
  }

  lemma LedgerOfThree(l: Ledger, s: Link, e0: Event, e1: Event, e2: Event)
    requires Inv(s)
    ensures var s1 := Step(s, e0).link;
      var s2 := Step(s1, e1).link;
      var l1 := Account(l, s, e0);
      var l2 := Account(l1, s1, e1);
      Accounts(l, s, [e0, e1, e2]) == Account(l2, s2, e2) &&
      (OrderlyThroughout(l, s, [e0, e1, e2]) <==> Orderly(l, s, e0) && Orderly(l1, s1, e1) && Orderly(l2, s2, e2))
  {
    hide Step;
    hide Account;
    hide Orderly;
    assert [e0, e1, e2][1..] == [e1, e2] && [e1, e2][1..] == [e2] && [e2][1..] == [];
    var s1 := Step(s, e0).link;
    var s2 := Step(s1, e1).link;
    var l1 := Account(l, s, e0);
    var l2 := Account(l1, s1, e1);
    assert Accounts(l2, s2, [e2]) == Account(l2, s2, e2);
    assert OrderlyThroughout(l2, s2, [e2]) <==> Orderly(l2, s2, e2);
  }

  lemma OneAnswer(s: Link, now: int)
    requires Inv(s) && s.buffer == [] && s.waiting
    ensures var e := Receive(now, Some(AckFrame(ZERO)));
      AcksIn(s, e) == 1 && Step(s, e).outputs == [Removed(s.queue[0], Acknowledged)]
  {
    hide Drain;
    hide AckFrame;
    hide ReceiveStep;
    hide LeadingFields;
    hide Completes;
    LoneAck(ZERO);
    AckCompletes();
    AckFrameWaits();
    assert Fitting(s, AckFrame(ZERO)) == AckFrame(ZERO) && [] + AckFrame(ZERO) == AckFrame(ZERO);
    var reports := [AckReport(ZERO)];
    assert reports[..0] == [];
    NoAckIff(reports);
    RemovalCause(s, now, AckFrame(ZERO));
    StepIsReceive(s, now, AckFrame(ZERO));
  }
}
