/**
 * The MPU9150 inertial sensor: the byte-at-a-time parser that accumulates packets
 * (mpu9150_packet_parser.cpp) and the converter that picks the latest one (mpu9150_network.cpp).
 */
module Mpu9150 {
  import opened Bytes

  const HEADER1: Byte := 0x40
  const HEADER2: Byte := 0x47

  // ---- the packet grammar -------------------------------------------------------------------------------------

  /** Two header bytes, a length counting what follows it, data and a checksum over everything before it. */
  predicate WellFormed(b: seq<Byte>) {
    |b| >= 4 && b[0] == HEADER1 && b[1] == HEADER2 && b[2] >= 1 && |b| - 3 == b[2] &&
    b[|b| - 1] == Checksum(b[..|b| - 1])
  }

  /** A block with data; one without is the reply to a command and ends the exchange. */
  predicate IsData(b: seq<Byte>) {
    WellFormed(b) && b[2] >= 2
  }

  // ---- the parser ---------------------------------------------------------------------------------------------

  datatype Status = Error | Continue | Done

  datatype State = Header1 | Header2 | Length | Data | CheckSum

  datatype Parser = Parser(state: State, packet: seq<Byte>, packets: seq<Byte>, length: Byte, isReply: bool)

  datatype Fed = Fed(parser: Parser, status: Status)

  function Fresh(length: Byte): Parser {
    Parser(Header1, [], [], length, false)
  }

  /** The block collected so far, in every state a parser can be in before it reports kDone. */
  predicate Partial(p: Parser) {
    var q := p.packet;
    (|q| >= 1 ==> q[0] == HEADER1) && (|q| >= 2 ==> q[1] == HEADER2) && (|q| >= 3 ==> q[2] == p.length) &&
    match p.state
    case Header1 => |q| == 0
    case Header2 => |q| == 1
    case Length => |q| == 2
    case Data => 3 <= |q| < p.length + 2
    case CheckSum => |q| == p.length + 2 && p.length >= 1
  }

  /** Gives up on the current block. */
  function Drop(p: Parser): Fed {
    Fed(p.(state := Header1, packet := []), Continue)
  }

  /** `TryParse` on any parser, also on one that has reported kDone and was not reset. */
  function FeedAny(p: Parser, input: Byte): Fed {
    var grown := p.packet + [input];
    match p.state
    case Header1 => if input == HEADER1 then Fed(p.(state := Header2, packet := grown), Continue) else Fed(p, Continue)
    case Header2 => if input == HEADER2 then Fed(p.(state := Length, packet := grown), Continue) else Drop(p)
    case Length =>
      if input < 1 then Drop(p)
      else Fed(p.(state := if input == 1 then CheckSum else Data, packet := grown, length := input), Continue)
    case Data =>
      Fed(p.(state := if |grown| == p.length + 2 then CheckSum else Data, packet := grown), Continue)
    case CheckSum =>
      if input != Checksum(p.packet) then Drop(p)
      else
        var q := p.(packet := [], packets := p.packets + grown);
        if p.length == 1 then Fed(q.(isReply := true), Done) else Fed(q.(state := Header1), Continue)
  }

  /** `TryParse` on a parser that has not reported kDone since its last `Reset`. */
  function Feed(p: Parser, input: Byte): (r: Fed)
    requires Partial(p)
    ensures r.status != Error
    ensures r.status == Continue ==> Partial(r.parser)
    ensures r.status == Done ==> r.parser.isReply
  {
    FeedAny(p, input)
  }

  class MPU9150PacketParser {
    var state: State
    var packet: seq<Byte>
    var allPackets: seq<Byte>
    var length: Byte
    var isReplyPacket: bool

    constructor ()
      ensures exists n :: Content() == Fresh(n)
    {
      state, packet, allPackets, length, isReplyPacket := Header1, [], [], 0, false;
      new;
      assert Content() == Fresh(0);
    }

    ghost function Content(): Parser
      reads this
    {
      Parser(state, packet, allPackets, length, isReplyPacket)
    }

    method Reset()
      modifies this`state, this`packet, this`allPackets, this`isReplyPacket
      ensures Content() == Fresh(length)
    {
      state, isReplyPacket := Header1, false;
      packet, allPackets := [], [];
    }

    method TryParse(input: Byte) returns (status: Status)
      modifies this
      ensures Fed(Content(), status) == FeedAny(old(Content()), input)
      ensures Partial(old(Content())) ==> Fed(Content(), status) == Feed(old(Content()), input)
    {
      status := Continue;
      match state
      case Header1 =>
        if input == HEADER1 {
          state := Header2;
          packet := packet + [input];
        } else {
          state := Header1;
        }
      case Header2 =>
        if input == HEADER2 {
          state := Length;
          packet := packet + [input];
        } else {
          state := Header1;
          packet := [];
        }
      case Length =>
        if input < 1 {
          state := Header1;
          packet := [];
        } else if input == 1 {
          length := input;
          packet := packet + [input];
          state := CheckSum;
        } else {
          packet := packet + [input];
          length := input;
          state := Data;
        }
      case Data =>
        packet := packet + [input];
        if |packet| == length + 2 {
          state := CheckSum;
        }
      case CheckSum =>
        var sum := AddUp(packet);
        if input == sum {
          packet := packet + [input];
          allPackets := allPackets + packet;
          packet := [];
          if length == 1 {
            isReplyPacket := true;
            status := Done;
          } else {
            state := Header1;
          }
        } else {
          state := Header1;
          packet := [];
        }
    }
  }

  // ---- runs of the parser -------------------------------------------------------------------------------------

  /** Feeds bytes until kDone or the end; used counts the bytes looked at. */
  datatype Fold = Fold(parser: Parser, done: bool, used: nat)

  function FeedAll(p: Parser, bytes: seq<Byte>): (f: Fold)
    requires Partial(p)
    ensures !f.done ==> Partial(f.parser) && f.used == |bytes|
    ensures f.used <= |bytes|
    decreases |bytes|
  {
    if bytes == [] then Fold(p, false, 0)
    else
      var r := Feed(p, bytes[0]);
      if r.status == Done then Fold(r.parser, true, 1)
      else
        var rest := FeedAll(r.parser, bytes[1..]);
        rest.(used := rest.used + 1)
  }

  lemma {:induction false} FeedConcat(p: Parser, a: seq<Byte>, b: seq<Byte>)
    requires Partial(p)
    ensures var first := FeedAll(p, a);
      FeedAll(p, a + b) ==
        if first.done then first
        else
          var second := FeedAll(first.parser, b);
          second.(used := |a| + second.used)
    decreases |a|
  {
    hide Partial;
    if a == [] {
      assert a + b == b;
    } else {
      assert (a + b)[1..] == a[1..] + b;
      var r := Feed(p, a[0]);
      if r.status != Done {
        FeedConcat(r.parser, a[1..], b);
      }
    }
  }

  // ---- soundness ----------------------------------------------------------------------------------------------

  datatype Span = Span(start: nat, end: nat)

  /** In-order, non-overlapping stretches of the input, each of them a well-formed block. */
  predicate Blocks(bytes: seq<Byte>, spans: seq<Span>) {
    forall i :: 0 <= i < |spans| ==>
      spans[i].start <= spans[i].end <= |bytes| && WellFormed(bytes[spans[i].start..spans[i].end]) &&
      (i > 0 ==> spans[i - 1].end <= spans[i].start)
  }

  function Extract(bytes: seq<Byte>, spans: seq<Span>): seq<Byte>
    requires Blocks(bytes, spans)
  {
    if spans == [] then []
    else
      var n := |spans| - 1;
      Extract(bytes, spans[..n]) + bytes[spans[n].start..spans[n].end]
  }

  function LastEnd(spans: seq<Span>): nat {
    if spans == [] then 0 else spans[|spans| - 1].end
  }

  /** The accumulated packets are the blocks of some spans, and the current block follows them. */
  predicate Explains(bytes: seq<Byte>, spans: seq<Span>, p: Parser) {
    Blocks(bytes, spans) && p.packets == Extract(bytes, spans) &&
    LastEnd(spans) + |p.packet| <= |bytes| && bytes[|bytes| - |p.packet|..] == p.packet
  }

  lemma {:induction false} LongerInput(bytes: seq<Byte>, b: Byte, spans: seq<Span>)
    requires Blocks(bytes, spans)
    ensures Blocks(bytes + [b], spans) && Extract(bytes + [b], spans) == Extract(bytes, spans)
    decreases |spans|
  {
    hide WellFormed;
    forall i | 0 <= i < |spans|
      ensures bytes[spans[i].start..spans[i].end] == (bytes + [b])[spans[i].start..spans[i].end]
    {
    }
    if spans != [] {
      LongerInput(bytes, b, spans[..|spans| - 1]);
    }
  }

  lemma OneMoreSpan(bytes: seq<Byte>, spans: seq<Span>, s: Span)
    requires Blocks(bytes, spans) && LastEnd(spans) <= s.start <= s.end <= |bytes|
    requires WellFormed(bytes[s.start..s.end])
    ensures Blocks(bytes, spans + [s])
    ensures Extract(bytes, spans + [s]) == Extract(bytes, spans) + bytes[s.start..s.end]
  {
    hide WellFormed;
    var more := spans + [s];
    assert more[..|spans|] == spans;
  }

  /** A byte that completes a block adds one span; any other byte leaves the spans as they are. */
  lemma StepExplained(bytes: seq<Byte>, spans: seq<Span>, p: Parser, b: Byte) returns (more: seq<Span>)
    requires Partial(p) && Explains(bytes, spans, p)
    ensures Explains(bytes + [b], more, Feed(p, b).parser)
  {
    hide Extract;
    hide Blocks;
    hide Feed;
    hide Partial;
    hide WellFormed;
    hide Checksum;
    LongerInput(bytes, b, spans);
    more := spans;
    var all, n := bytes + [b], |bytes| - |p.packet|;
    assert all[n..] == p.packet + [b];
    if p.state == CheckSum && b == Checksum(p.packet) {
      CompletedBlock(p, b);
      assert all[n..|all|] == p.packet + [b];
      OneMoreSpan(all, spans, Span(n, |all|));
      more := spans + [Span(n, |all|)];
      assert all[|all|..] == [];
    } else {
      NoBlock(p, b);
      assert all[|all|..] == [];
    }
  }

  lemma CompletedBlock(p: Parser, b: Byte)
    requires Partial(p) && p.state == CheckSum && b == Checksum(p.packet)
    ensures WellFormed(p.packet + [b])
    ensures Feed(p, b).parser.packet == [] && Feed(p, b).parser.packets == p.packets + (p.packet + [b])
  {
    assert (p.packet + [b])[..|p.packet|] == p.packet;
  }

  lemma NoBlock(p: Parser, b: Byte)
    requires Partial(p) && !(p.state == CheckSum && b == Checksum(p.packet))
    ensures Feed(p, b).parser.packets == p.packets
    ensures Feed(p, b).parser.packet == [] || Feed(p, b).parser.packet == p.packet + [b]
  {
    hide Checksum;
  }

  lemma {:induction false} RunExplained(past: seq<Byte>, spans: seq<Span>, p: Parser, bytes: seq<Byte>)
    returns (more: seq<Span>)
    requires Partial(p) && Explains(past, spans, p)
    ensures Explains(past + bytes[..FeedAll(p, bytes).used], more, FeedAll(p, bytes).parser)
    decreases |bytes|
  {
    hide Explains;
    if bytes == [] {
      more := spans;
      assert past + bytes[..0] == past;
    } else {
      var r := Feed(p, bytes[0]);
      more := StepExplained(past, spans, p, bytes[0]);
      assert bytes[..1] == [bytes[0]];
      if r.status != Done {
        var used := FeedAll(r.parser, bytes[1..]).used;
        more := RunExplained(past + [bytes[0]], more, r.parser, bytes[1..]);
        assert past + [bytes[0]] + bytes[1..][..used] == past + bytes[..used + 1];
      }
    }
  }

  /**
   * Soundness: on any byte stream from Reset, up to the first kDone, the parser never reports an error,
   * and what it has accumulated is an in-order concatenation of well-formed, checksum-correct,
   * non-overlapping blocks of the bytes it was fed.
   */
  lemma AccumulatedAreBlocks(length: Byte, bytes: seq<Byte>) returns (spans: seq<Span>)
    ensures var f := FeedAll(Fresh(length), bytes);
      Blocks(bytes[..f.used], spans) && f.parser.packets == Extract(bytes[..f.used], spans)
  {
    spans := RunExplained([], [], Fresh(length), bytes);
    var f := FeedAll(Fresh(length), bytes);
    assert [] + bytes[..f.used] == bytes[..f.used];
  }

  // ---- completeness -------------------------------------------------------------------------------------------

  lemma {:induction false} BlockPrefix(p: Parser, b: seq<Byte>, n: nat)
    requires Partial(p) && p.state == Header1 && WellFormed(b) && n < |b|
    ensures var f := FeedAll(p, b[..n]);
      !f.done && f.parser.packet == b[..n] && f.parser.packets == p.packets && f.parser.isReply == p.isReply
    decreases n
  {
    if n == 0 {
      assert b[..0] == [];
    } else {
      BlockPrefix(p, b, n - 1);
      assert b[..n] == b[..n - 1] + [b[n - 1]];
      FeedConcat(p, b[..n - 1], [b[n - 1]]);
      var q := FeedAll(p, b[..n - 1]).parser;
      OnTrack(q, b, n - 1);
      FeedOne(q, b[n - 1]);
    }
  }

  lemma FeedOne(q: Parser, x: Byte)
    requires Partial(q)
    ensures FeedAll(q, [x]) == Fold(Feed(q, x).parser, Feed(q, x).status == Done, 1)
  {
    hide Feed;
    assert [x][1..] == [];
  }

  lemma OnTrack(q: Parser, b: seq<Byte>, n: nat)
    requires Partial(q) && WellFormed(b) && n < |b| - 1 && q.packet == b[..n]
    ensures var r := Feed(q, b[n]);
      r.status == Continue && r.parser.packet == b[..n] + [b[n]] &&
      r.parser.packets == q.packets && r.parser.isReply == q.isReply
  {
    hide Checksum;
  }

  /** A well-formed block is taken over whole; a reply ends the run. */
  lemma BlockTaken(p: Parser, b: seq<Byte>)
    requires Partial(p) && p.state == Header1 && WellFormed(b)
    ensures var f := FeedAll(p, b);
      f.parser.packets == p.packets + b && f.used == |b| && f.done == !IsData(b) &&
      (IsData(b) ==> f.parser.state == Header1)
  {
    var n := |b| - 1;
    BlockPrefix(p, b, n);
    assert b == b[..n] + [b[n]];
    FeedConcat(p, b[..n], [b[n]]);
    FeedOne(FeedAll(p, b[..n]).parser, b[n]);
  }

  /** Completeness: a noise-free concatenation of data packets is accumulated exactly. */
  lemma {:induction false} DataAccumulated(p: Parser, blocks: seq<seq<Byte>>)
    requires Partial(p) && p.state == Header1
    requires forall i :: 0 <= i < |blocks| ==> IsData(blocks[i])
    ensures var f := FeedAll(p, Join(blocks));
      !f.done && f.parser.packets == p.packets + Join(blocks) && f.parser.state == Header1
    decreases |blocks|
  {
    hide IsData;
    hide Partial;
    if blocks != [] {
      assert WellFormed(blocks[0]) by {
        IsDataWellFormed(blocks[0]);
      }
      BlockTaken(p, blocks[0]);
      FeedConcat(p, blocks[0], Join(blocks[1..]));
      DataAccumulated(FeedAll(p, blocks[0]).parser, blocks[1..]);
      assert p.packets + blocks[0] + Join(blocks[1..]) == p.packets + Join(blocks);
    } else {
      assert p.packets + [] == p.packets;
    }
  }

  lemma IsDataWellFormed(b: seq<Byte>)
    requires IsData(b)
    ensures WellFormed(b)
  {
  }

  // ---- Receive ------------------------------------------------------------------------------------------------

  datatype Result = Success | NoMessage

  /** The parse loop of `MPU9150Network::Receive` on what one read returned; its kError branch is never taken. */
  method Receive(parser: MPU9150PacketParser, buffer: seq<Byte>) returns (result: Result)
    modifies parser
    ensures exists n :: parser.Content() == FeedAll(Fresh(n), buffer).parser
    ensures result == if parser.allPackets == [] then NoMessage else Success
  {
    hide Feed;
    parser.Reset();
    ghost var n := parser.length;
    assert buffer[..0] == [];
    for i := 0 to |buffer|
      invariant Partial(parser.Content())
      invariant FeedAll(Fresh(n), buffer[..i]) == Fold(parser.Content(), false, i)
    {
      ghost var before := parser.Content();
      var status := parser.TryParse(buffer[i]);
      Advance(n, buffer, i, before);
      if status == Done {
        assert parser.Content() == FeedAll(Fresh(n), buffer).parser;
        DonePackets(before, buffer[i]);
        return Success;
      }
      assert status != Error;
    }
    assert buffer[..|buffer|] == buffer;
    assert parser.Content() == FeedAll(Fresh(n), buffer).parser;
    result := if parser.allPackets == [] then NoMessage else Success;
  }

  lemma DonePackets(p: Parser, b: Byte)
    requires Partial(p) && Feed(p, b).status == Done
    ensures Feed(p, b).parser.packets != []
  {
  }

  lemma NeverError(p: Parser, b: Byte)
    requires Partial(p)
    ensures Feed(p, b).status != Error
  {
  }

  lemma Advance(n: Byte, buffer: seq<Byte>, i: nat, q: Parser)
    requires i < |buffer| && Partial(q) && FeedAll(Fresh(n), buffer[..i]) == Fold(q, false, i)
    ensures var r := Feed(q, buffer[i]);
      FeedAll(Fresh(n), buffer[..i + 1]) == Fold(r.parser, r.status == Done, i + 1)
    ensures Feed(q, buffer[i]).status == Done ==> FeedAll(Fresh(n), buffer).parser == Feed(q, buffer[i]).parser
    ensures Feed(q, buffer[i]).status != Error
  {
    assert Partial(Fresh(n));
    hide Feed;
    hide FeedAll;
    hide Partial;
    Cut(buffer, i);
    FeedConcat(Fresh(n), buffer[..i], [buffer[i]]);
    FeedOne(q, buffer[i]);
    NeverError(q, buffer[i]);
    FeedConcat(Fresh(n), buffer[..i + 1], buffer[i + 1..]);
  }

  lemma Cut(buffer: seq<Byte>, i: nat)
    requires i < |buffer|
    ensures buffer[..i + 1] == buffer[..i] + [buffer[i]]
    ensures buffer == buffer[..i + 1] + buffer[i + 1..]
  {
  }

  // ---- Send ---------------------------------------------------------------------------------------------------

  const MAX_COMMAND_DATA := 1019

  /** A command on the wire; its length byte is a `uint8_t`. */
  function Command(instruction: Byte, data: seq<Byte>): seq<Byte> {
    var body := [HEADER1, HEADER2, (|data| + 2) % 256, instruction] + data;
    body + [Checksum(body)]
  }

  /** Up to 1019 bytes of data are let through, but the packet is well formed only up to 253 of them. */
  lemma CommandWellFormedIffFits(instruction: Byte, data: seq<Byte>)
    requires |data| <= MAX_COMMAND_DATA
    ensures WellFormed(Command(instruction, data)) <==> |data| <= 253
    ensures |data| <= 253 ==> IsData(Command(instruction, data))
  {
    hide Checksum;
    var b := Command(instruction, data);
    assert b[..|b| - 1] == [HEADER1, HEADER2, (|data| + 2) % 256, instruction] + data;
  }

  /** Sending and receiving agree: a command that fits is accumulated whole by a parser it reaches. */
  lemma CommandReadsBack(p: Parser, instruction: Byte, data: seq<Byte>)
    requires Partial(p) && p.state == Header1 && |data| <= 253
    ensures var f := FeedAll(p, Command(instruction, data));
      !f.done && f.parser.packets == p.packets + Command(instruction, data) && f.parser.state == Header1
  {
    hide Command;
    hide FeedAll;
    CommandWellFormedIffFits(instruction, data);
    BlockTaken(p, Command(instruction, data));
  }

  /** Builds the command at the front of the send buffer. */
  method BuildCommand(buffer: array<Byte>, instruction: Byte, data: seq<Byte>)
    requires |data| <= MAX_COMMAND_DATA && buffer.Length == 4095
    modifies buffer
    ensures buffer[..|data| + 5] == Command(instruction, data)
  {
    buffer[0] := HEADER1;
    buffer[1] := HEADER2;
    buffer[2] := (|data| + 2) % 256;
    buffer[3] := instruction;
    assert buffer[..4] == [HEADER1, HEADER2, (|data| + 2) % 256, instruction];
    for i := 0 to |data|
      invariant buffer[..4] == [HEADER1, HEADER2, (|data| + 2) % 256, instruction]
      invariant buffer[4..i + 4] == data[..i]
    {
      buffer[i + 4] := data[i];
    }
    ghost var body := buffer[..|data| + 4];
    assert data[..|data|] == data;
    assert body == buffer[..4] + buffer[4..|data| + 4];
    var sum := AddUp(buffer[..|data| + 4]);
    buffer[|data| + 4] := sum;
    assert buffer[..|data| + 5] == body + [sum];
  }

  datatype Write = Wrote(count: nat) | Again | WriteFailed(code: int)

  datatype SendResult = Sent | NoBufferSpace | SendTimedOut | SendFailed(code: int)

  /**
   * `MPU9150Network::Send`, given the outcomes of the writes that came in time: what has gone out is
   * always a prefix of the command, and success is reported exactly when it is all of it.
   */
  method Send(buffer: array<Byte>, instruction: Byte, data: seq<Byte>, writes: seq<Write>)
    returns (result: SendResult, sent: seq<Byte>)
    requires buffer.Length == 4095
    modifies buffer
    ensures result == NoBufferSpace <==> |data| > MAX_COMMAND_DATA
    ensures sent <= Command(instruction, data)
    ensures result == Sent <==> |data| <= MAX_COMMAND_DATA && sent == Command(instruction, data)
  {
    sent := [];
    if |data| > MAX_COMMAND_DATA {
      return NoBufferSpace, [];
    }
    BuildCommand(buffer, instruction, data);
    hide Command;
    var length := |data| + 5;
    ghost var packet := buffer[..length];
    var numDone := 0;
    for k := 0 to |writes|
      invariant numDone < length && buffer[..length] == packet && sent == packet[..numDone]
    {
      match writes[k]
      case WriteFailed(code) =>
        return SendFailed(code), sent;
      case Again =>
      case Wrote(count) =>
        var n := if count <= length - numDone then count else length - numDone;
        sent := sent + buffer[numDone..numDone + n];
        numDone := numDone + n;
        assert sent == packet[..numDone];
        if numDone == length {
          return Sent, sent;
        }
    }
    result := SendTimedOut;
  }

  // ---- the converter ------------------------------------------------------------------------------------------

  const PACKET_SIZE := 48

  function UInt32(p1: Byte, p2: Byte, p3: Byte, p4: Byte): nat {
    p1 * 0x100_0000 + p2 * 0x1_0000 + p3 * 0x100 + p4
  }

  function Timestamp(packets: seq<Byte>, i: nat): nat
    requires PACKET_SIZE * (i + 1) <= |packets|
  {
    var o := PACKET_SIZE * i;
    UInt32(packets[o + 43], packets[o + 44], packets[o + 45], packets[o + 46])
  }

  /** Packet i is the first of n packets to carry the largest timestamp. */
  predicate IsFirstLatest(packets: seq<Byte>, n: nat, i: nat) {
    PACKET_SIZE * n <= |packets| && i < n &&
    forall j :: 0 <= j < n ==>
      Timestamp(packets, j) <= Timestamp(packets, i) && (j < i ==> Timestamp(packets, j) < Timestamp(packets, i))
  }

  predicate HasNewer(packets: seq<Byte>, n: nat, last: nat)
    requires PACKET_SIZE * n <= |packets|
  {
    exists j :: 0 <= j < n && Timestamp(packets, j) > last
  }

  lemma TimestampAt(packets: seq<Byte>, i: nat)
    requires PACKET_SIZE * (i + 1) <= |packets|
    ensures var o := PACKET_SIZE * i;
      Timestamp(packets, i) == UInt32(packets[43 + o], packets[44 + o], packets[45 + o], packets[46 + o])
  {
  }

  lemma OneMorePacket(packets: seq<Byte>, i: nat, last: nat, k: nat)
    requires PACKET_SIZE * (i + 1) <= |packets|
    ensures HasNewer(packets, i + 1, last) <==> HasNewer(packets, i, last) || Timestamp(packets, i) > last
    ensures IsFirstLatest(packets, i, k) ==>
      IsFirstLatest(packets, i + 1, if Timestamp(packets, i) > Timestamp(packets, k) then i else k)
    ensures !HasNewer(packets, i, last) && Timestamp(packets, i) > last ==> IsFirstLatest(packets, i + 1, i)
  {
    hide Timestamp;
    if Timestamp(packets, i) > last {
      assert HasNewer(packets, i + 1, last);
    }
  }

  /** What `ToSensorState` does: nothing, take a packet, or copy from beyond the end of the batch. */
  datatype Taken = Nothing | Packet(packet: seq<Byte>) | OutOfRange

  class MPU9150PacketConverter {
    var lastTimestamp: nat
    var lastPacketNum: nat

    constructor ()
      ensures lastTimestamp == 0 && lastPacketNum == 0
    {
      lastTimestamp, lastPacketNum := 0, 0;
    }

    /**
     * With a newer timestamp in the batch, the first packet with the largest one is taken and that
     * timestamp remembered. Without one, the index remembered from an earlier batch is used again,
     * so the copy stays inside the batch exactly when that index still does.
     */
    method ToSensorState(packets: seq<Byte>) returns (taken: Taken)
      modifies this
      ensures |packets| % PACKET_SIZE != 0 ==>
        taken == Nothing && lastTimestamp == old(lastTimestamp) && lastPacketNum == old(lastPacketNum)
      ensures |packets| % PACKET_SIZE == 0 ==>
        var n := |packets| / PACKET_SIZE;
        if HasNewer(packets, n, old(lastTimestamp)) then
          IsFirstLatest(packets, n, lastPacketNum) && lastTimestamp == Timestamp(packets, lastPacketNum) &&
          taken == Packet(packets[PACKET_SIZE * lastPacketNum..PACKET_SIZE * (lastPacketNum + 1)])
        else
          lastTimestamp == old(lastTimestamp) && lastPacketNum == old(lastPacketNum) &&
          taken == if lastPacketNum >= n then OutOfRange
                   else Packet(packets[PACKET_SIZE * lastPacketNum..PACKET_SIZE * (lastPacketNum + 1)])
      ensures lastTimestamp >= old(lastTimestamp)
    {
      if |packets| % PACKET_SIZE != 0 {
        return Nothing;
      }
      var n := |packets| / PACKET_SIZE;
      for i := 0 to n
        invariant if HasNewer(packets, i, old(lastTimestamp)) then
            IsFirstLatest(packets, i, lastPacketNum) && lastTimestamp == Timestamp(packets, lastPacketNum) &&
            lastTimestamp > old(lastTimestamp)
          else lastTimestamp == old(lastTimestamp) && lastPacketNum == old(lastPacketNum)
      {
        hide HasNewer;
        hide IsFirstLatest;
        hide Timestamp;
        var o := PACKET_SIZE * i;
        var currentTimestamp := UInt32(packets[43 + o], packets[44 + o], packets[45 + o], packets[46 + o]);
        TimestampAt(packets, i);
        OneMorePacket(packets, i, old(lastTimestamp), lastPacketNum);
        if lastTimestamp < currentTimestamp {
          lastTimestamp := currentTimestamp;
          lastPacketNum := i;
        }
      }
      var start := PACKET_SIZE * lastPacketNum;
      taken := if start + PACKET_SIZE <= |packets| then Packet(packets[start..start + PACKET_SIZE]) else OutOfRange;
    }
  }
}
