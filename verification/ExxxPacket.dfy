/**
 * The status packets of the Exxx servo motors: the byte-at-a-time parser (exxx_packet_parser.hpp) and
 * the receive loop around it (exxx_network.cpp).
 */
module ExxxPacket {
  import opened Bytes

  const HEADER1: Byte := 0xAA
  const HEADER2: Byte := 0x55

  // ---- the packet grammar -------------------------------------------------------------------------------------

  /** A little-endian `uint16_t`. */
  function Word(low: Byte, high: Byte): nat {
    low + 256 * high
  }

  /** Header, id, length, two status bytes, payload and checksum; the length counts what follows it. */
  predicate WellFormed(ids: seq<Byte>, p: seq<Byte>) {
    |p| >= 8 && p[0] == HEADER1 && p[1] == HEADER2 && p[2] in ids &&
    Word(p[3], p[4]) >= 3 && |p| == Word(p[3], p[4]) + 5 &&
    p[|p| - 1] == Checksum(p[2..|p| - 1])
  }

  function Payload(p: seq<Byte>): seq<Byte>
    requires |p| >= 8
  {
    p[7..|p| - 1]
  }

  // ---- the parser ---------------------------------------------------------------------------------------------

  datatype Status = Error | Continue | Done

  datatype State =
    | Header1 | Header2 | NodeID | Length1 | Length2 | ErrorStatus1 | ErrorStatus2 | Data | CheckSum
    | ParserError

  datatype Parser = Parser(state: State, packet: seq<Byte>)

  datatype Fed = Fed(parser: Parser, status: Status)

  function Fresh(): Parser {
    Parser(Header1, [])
  }

  function Push(p: Parser, input: Byte, state: State): Fed {
    Fed(Parser(state, p.packet + [input]), Continue)
  }

  /** What the packet collected so far looks like in each state the parser can be in. */
  predicate Partial(ids: seq<Byte>, p: Parser) {
    var q := p.packet;
    var length := if |q| >= 5 then Word(q[3], q[4]) else 0;
    (|q| >= 1 ==> q[0] == HEADER1) && (|q| >= 2 ==> q[1] == HEADER2) && (|q| >= 3 ==> q[2] in ids) &&
    match p.state
    case Header1 => |q| == 0
    case Header2 => |q| == 1
    case NodeID => |q| == 2
    case Length1 => |q| == 3
    case Length2 => |q| == 4
    case ErrorStatus1 => |q| == 5 && length >= 3
    case ErrorStatus2 => |q| == 6 && length >= 3
    case Data => 7 <= |q| < length + 4
    case CheckSum => |q| == length + 4 && length >= 3
    case ParserError => false
  }

  /** What holds of a parser at all times, also after kError or kDone: how many bytes it has collected. */
  predicate Usable(p: Parser) {
    match p.state
    case Header1 => |p.packet| == 0
    case Header2 => |p.packet| == 1
    case NodeID => |p.packet| == 2
    case Length1 => |p.packet| == 3
    case Length2 => |p.packet| == 4
    case ErrorStatus1 => |p.packet| == 5
    case ErrorStatus2 => |p.packet| == 6
    case Data => |p.packet| >= 7
    case CheckSum => |p.packet| >= 2
    case ParserError => true
  }

  /** `TryParse` on any parser, also on one that has reported kError or kDone and was not reset. */
  function FeedAny(ids: seq<Byte>, p: Parser, input: Byte): (r: Fed)
    requires Usable(p)
    ensures Usable(r.parser)
  {
    match p.state
    case Header1 => if input == HEADER1 then Push(p, input, Header2) else Fed(p, Error)
    case Header2 => if input == HEADER2 then Push(p, input, NodeID) else Fed(p.(state := ParserError), Error)
    case NodeID => if input in ids then Push(p, input, Length1) else Fed(p.(state := ParserError), Error)
    case Length1 => Push(p, input, Length2)
    case Length2 =>
      if Word(p.packet[3], input) < 3 then Fed(Parser(ParserError, p.packet + [input]), Error)
      else Push(p, input, ErrorStatus1)
    case ErrorStatus1 => Push(p, input, ErrorStatus2)
    case ErrorStatus2 => Push(p, input, if Word(p.packet[3], p.packet[4]) == 3 then CheckSum else Data)
    case Data =>
      Push(p, input, if |p.packet| + 1 >= Word(p.packet[3], p.packet[4]) + 4 then CheckSum else Data)
    case CheckSum =>
      if input == Checksum(p.packet[2..]) then Fed(Parser(CheckSum, p.packet + [input]), Done) else Fed(p, Error)
    case ParserError => Fed(p, Error)
  }

  /** `TryParse` on a parser that has not reported anything but kContinue since its last `Reset`. */
  function Feed(ids: seq<Byte>, p: Parser, input: Byte): (r: Fed)
    requires Partial(ids, p)
    ensures r.status == Continue ==> Partial(ids, r.parser) && r.parser.packet == p.packet + [input]
    ensures r.status == Done ==> WellFormed(ids, r.parser.packet) && r.parser.packet == p.packet + [input]
  {
    FeedAny(ids, p, input)
  }

  /** After any byte that does not complete a packet, the loop goes on with a parser in good order. */
  function Resumed(ids: seq<Byte>, p: Parser, input: Byte): (q: Parser)
    requires Partial(ids, p) && Feed(ids, p, input).status != Done
    ensures Partial(ids, q) && (q == Fresh() || q.packet == p.packet + [input])
  {
    var r := Feed(ids, p, input);
    if r.status == Error then Fresh() else r.parser
  }

  lemma FeedShape(ids: seq<Byte>, p: Parser, input: Byte)
    requires Partial(ids, p)
    ensures Partial(ids, Fresh())
    ensures var r := Feed(ids, p, input);
      if r.status == Done then
        WellFormed(ids, r.parser.packet) && r.parser.packet == p.packet + [input]
      else
        Partial(ids, Resumed(ids, p, input)) &&
        (Resumed(ids, p, input) == Fresh() || Resumed(ids, p, input).packet == p.packet + [input])
  {
  }

  lemma PartialUsable(ids: seq<Byte>, p: Parser)
    requires Partial(ids, p)
    ensures Usable(p)
  {
  }

  class ExxxPacketParser {
    var state: State
    var packet: seq<Byte>
    var validIds: seq<Byte>

    constructor ()
      ensures Content() == Fresh() && Usable(Content()) && validIds == []
    {
      state, packet, validIds := Header1, [], [];
    }

    ghost function Content(): Parser
      reads this
    {
      Parser(state, packet)
    }

    method Reset()
      modifies this`state, this`packet
      ensures Content() == Fresh()
    {
      state, packet := Header1, [];
    }

    method AddID(id: Byte)
      modifies this`validIds
      ensures validIds == old(validIds) + [id]
    {
      validIds := validIds + [id];
    }

    method ClearIDs()
      modifies this`validIds
      ensures validIds == []
    {
      validIds := [];
    }

    method TryParse(input: Byte) returns (status: Status)
      requires Usable(Content())
      modifies this`state, this`packet
      ensures Usable(Content())
      ensures Fed(Content(), status) == FeedAny(validIds, old(Content()), input)
      ensures Partial(validIds, old(Content())) ==> Fed(Content(), status) == Feed(validIds, old(Content()), input)
    {
      match state
      case Header1 =>
        if input == HEADER1 {
          state := Header2;
          packet := packet + [input];
          status := Continue;
        } else {
          status := Error;
        }
      case Header2 =>
        if input == HEADER2 {
          state := NodeID;
          packet := packet + [input];
          status := Continue;
        } else {
          state := ParserError;
          status := Error;
        }
      case NodeID =>
        if input in validIds {
          packet := packet + [input];
          state := Length1;
          status := Continue;
        } else {
          state := ParserError;
          status := Error;
        }
      case Length1 =>
        packet := packet + [input];
        state := Length2;
        status := Continue;
      case Length2 =>
        packet := packet + [input];
        if Word(packet[3], packet[4]) < 3 {
          state := ParserError;
          status := Error;
        } else {
          state := ErrorStatus1;
          status := Continue;
        }
      case ErrorStatus1 =>
        packet := packet + [input];
        state := ErrorStatus2;
        status := Continue;
      case ErrorStatus2 =>
        var length := Word(packet[3], packet[4]);
        packet := packet + [input];
        state := if length == 3 then CheckSum else Data;
        status := Continue;
      case Data =>
        var length := Word(packet[3], packet[4]);
        packet := packet + [input];
        if |packet| >= length + 4 {
          state := CheckSum;
        }
        status := Continue;
      case CheckSum =>
        var sum := AddUp(packet[2..]);
        if input == sum {
          packet := packet + [input];
          status := Done;
        } else {
          status := Error;
        }
      case ParserError =>
        status := Error;
    }
  }

  // ---- the recogniser -----------------------------------------------------------------------------------------

  /** The receive loop on a stretch of bytes: any error resets the parser. */
  datatype Outcome = Pending(parser: Parser) | Found(packet: seq<Byte>, consumed: nat)

  function Search(ids: seq<Byte>, p: Parser, bytes: seq<Byte>): (o: Outcome)
    requires Partial(ids, p)
    ensures o.Pending? ==> Partial(ids, o.parser)
    ensures o.Found? ==> o.consumed <= |bytes|
    decreases |bytes|
  {
    if bytes == [] then Pending(p)
    else
      var r := Feed(ids, p, bytes[0]);
      if r.status == Done then Found(r.parser.packet, 1)
      else
        var rest := Search(ids, Resumed(ids, p, bytes[0]), bytes[1..]);
        if rest.Pending? then rest else rest.(consumed := rest.consumed + 1)
  }

  lemma {:induction false} SearchConcat(ids: seq<Byte>, p: Parser, a: seq<Byte>, b: seq<Byte>)
    requires Partial(ids, p)
    ensures var first := Search(ids, p, a);
      Search(ids, p, a + b) ==
        if first.Found? then first
        else
          var second := Search(ids, first.parser, b);
          if second.Found? then second.(consumed := |a| + second.consumed) else second
    decreases |a|
  {
    hide Feed;
    if a == [] {
      assert a + b == b;
    } else {
      assert (a + b)[1..] == a[1..] + b;
      var r := Feed(ids, p, a[0]);
      if r.status != Done {
        SearchConcat(ids, Resumed(ids, p, a[0]), a[1..], b);
      }
    }
  }

  predicate IsSuffix(s: seq<Byte>, t: seq<Byte>) {
    |s| <= |t| && t[|t| - |s|..] == s
  }

  lemma SuffixGrows(s: seq<Byte>, t: seq<Byte>, b: Byte)
    requires IsSuffix(s, t)
    ensures IsSuffix(s + [b], t + [b]) && IsSuffix([], t + [b])
  {
    assert (t + [b])[|t| - |s|..] == t[|t| - |s|..] + [b];
  }

  /**
   * Soundness: a packet the loop reports is well formed, with its header, an allowed id, its length and
   * its checksum, and is the contiguous run of bytes that ends where the loop stopped.
   */
  lemma {:induction false} SearchSound(ids: seq<Byte>, p: Parser, past: seq<Byte>, bytes: seq<Byte>)
    requires Partial(ids, p) && IsSuffix(p.packet, past)
    ensures var o := Search(ids, p, bytes);
      if o.Found? then WellFormed(ids, o.packet) && IsSuffix(o.packet, past + bytes[..o.consumed])
      else IsSuffix(o.parser.packet, past + bytes)
    decreases |bytes|
  {
    hide Feed;
    hide WellFormed;
    hide Partial;
    hide Resumed;
    hide IsSuffix;
    hide Search;
    if bytes == [] {
      SearchNone(ids, p);
      assert past + bytes == past;
    } else {
      SearchStep(ids, p, bytes);
      FeedShape(ids, p, bytes[0]);
      SuffixGrows(p.packet, past, bytes[0]);
      if Feed(ids, p, bytes[0]).status == Done {
        assert bytes[..1] == [bytes[0]];
      } else {
        var q := Resumed(ids, p, bytes[0]);
        SearchSound(ids, q, past + [bytes[0]], bytes[1..]);
        var o := Search(ids, q, bytes[1..]);
        Regroup(past, bytes, if o.Found? then o.consumed else |bytes| - 1);
      }
    }
  }

  lemma SearchNone(ids: seq<Byte>, p: Parser)
    requires Partial(ids, p)
    ensures Search(ids, p, []) == Pending(p)
  {
  }

  lemma SearchStep(ids: seq<Byte>, p: Parser, bytes: seq<Byte>)
    requires Partial(ids, p) && bytes != []
    ensures var r := Feed(ids, p, bytes[0]);
      var o := Search(ids, p, bytes);
      if r.status == Done then o == Found(r.parser.packet, 1)
      else
        Partial(ids, Resumed(ids, p, bytes[0])) &&
        var rest := Search(ids, Resumed(ids, p, bytes[0]), bytes[1..]);
        o == if rest.Found? then Found(rest.packet, rest.consumed + 1) else rest
    ensures Search(ids, p, bytes).Found? ==> Search(ids, p, bytes).consumed <= |bytes|
  {
    hide Feed;
    hide Partial;
  }

  lemma Regroup(past: seq<Byte>, bytes: seq<Byte>, k: nat)
    requires k < |bytes|
    ensures past + [bytes[0]] + bytes[1..][..k] == past + bytes[..k + 1]
    ensures past + [bytes[0]] + bytes[1..] == past + bytes
  {
  }

  /** Completeness, byte by byte: a well-formed packet keeps a reset parser going until its last byte. */
  lemma {:induction false} PrefixAccepted(ids: seq<Byte>, p: seq<Byte>, n: nat)
    requires WellFormed(ids, p) && n < |p|
    ensures Search(ids, Fresh(), p[..n]).Pending?
    ensures var q := Search(ids, Fresh(), p[..n]).parser;
      q.packet == p[..n] && q.state != ParserError
    decreases n
  {
    hide Feed;
    if n == 0 {
      assert p[..0] == [];
    } else {
      PrefixAccepted(ids, p, n - 1);
      hide Checksum;
      assert p[..n] == p[..n - 1] + [p[n - 1]];
      SearchConcat(ids, Fresh(), p[..n - 1], [p[n - 1]]);
      var q := Search(ids, Fresh(), p[..n - 1]).parser;
      FeedsOn(ids, p, q, n - 1);
      SearchOne(ids, q, p[n - 1]);
    }
  }

  lemma SearchOne(ids: seq<Byte>, q: Parser, b: Byte)
    requires Partial(ids, q) && Feed(ids, q, b).status == Continue
    ensures Search(ids, q, [b]) == Pending(Feed(ids, q, b).parser)
  {
    hide Feed;
    assert [b][1..] == [];
  }

  lemma FeedsOn(ids: seq<Byte>, p: seq<Byte>, q: Parser, n: nat)
    requires WellFormed(ids, p) && n < |p| - 1 && Partial(ids, q) && q.packet == p[..n]
    ensures Feed(ids, q, p[n]).status == Continue
  {
    hide Checksum;
  }

  /** Bytes without a header byte never take the parser anywhere. */
  lemma {:induction false} NoiseIgnored(ids: seq<Byte>, noise: seq<Byte>)
    requires HEADER1 !in noise
    ensures Search(ids, Fresh(), noise) == Pending(Fresh())
    decreases |noise|
  {
    if noise != [] {
      NoiseIgnored(ids, noise[1..]);
    }
  }

  /**
   * Completeness: after any bytes that leave the parser where `Reset` leaves it (bytes without 0xAA
   * do), every well-formed packet with an allowed id is found, and its last byte is where the loop stops.
   */
  lemma PacketFound(ids: seq<Byte>, noise: seq<Byte>, p: seq<Byte>, rest: seq<Byte>)
    requires Search(ids, Fresh(), noise) == Pending(Fresh())
    requires WellFormed(ids, p)
    ensures Search(ids, Fresh(), noise + p + rest) == Found(p, |noise| + |p|)
  {
    hide Search;
    var n := |p| - 1;
    PrefixAccepted(ids, p, n);
    var q := Search(ids, Fresh(), p[..n]).parser;
    LastByte(ids, p, q);
    assert p == p[..n] + [p[n]];
    SearchConcat(ids, Fresh(), p[..n], [p[n]]);
    SearchConcat(ids, Fresh(), noise, p);
    SearchConcat(ids, Fresh(), noise + p, rest);
  }

  lemma LastByte(ids: seq<Byte>, p: seq<Byte>, q: Parser)
    requires WellFormed(ids, p) && Partial(ids, q) && q.packet == p[..|p| - 1]
    ensures Search(ids, q, [p[|p| - 1]]) == Found(p, 1)
  {
    assert q.packet[2..] == p[2..|p| - 1];
    assert p == p[..|p| - 1] + [p[|p| - 1]];
  }

  /** A packet has been collected from its first byte on, or begins within the bytes still to come. */
  lemma {:induction false} FoundLength(ids: seq<Byte>, q: Parser, bytes: seq<Byte>)
    requires Partial(ids, q) && Search(ids, q, bytes).Found?
    ensures var o := Search(ids, q, bytes);
      |o.packet| == |q.packet| + o.consumed || |o.packet| < o.consumed
    decreases |bytes|
  {
    assert bytes != [];
    hide Feed;
    hide Partial;
    hide WellFormed;
    hide Search;
    SearchStep(ids, q, bytes);
    FeedShape(ids, q, bytes[0]);
    if Feed(ids, q, bytes[0]).status != Done {
      FoundLength(ids, Resumed(ids, q, bytes[0]), bytes[1..]);
    }
  }

  /**
   * Exactly when a packet gets through: whatever follows it, the loop reports it if and only if the
   * bytes before it complete no packet and leave the parser where `Reset` leaves it.
   */
  lemma PacketFoundIff(ids: seq<Byte>, noise: seq<Byte>, p: seq<Byte>, rest: seq<Byte>)
    requires WellFormed(ids, p)
    ensures Search(ids, Fresh(), noise + p + rest) == Found(p, |noise| + |p|)
      <==> Search(ids, Fresh(), noise) == Pending(Fresh())
  {
    var first := Search(ids, Fresh(), noise);
    if first == Pending(Fresh()) {
      PacketFound(ids, noise, p, rest);
    } else {
      assert noise + p + rest == noise + (p + rest);
      SearchConcat(ids, Fresh(), noise, p + rest);
      if first.Pending? && Search(ids, first.parser, p + rest).Found? {
        FoundLength(ids, first.parser, p + rest);
      }
    }
  }

  /**
   * So the resynchronisation is not perfect: one stray 0xAA in front of a packet hides it from the
   * loop, and with no further 0xAA in the packet the loop goes on behind it as after a `Reset`.
   */
  lemma StrayHeaderHides(ids: seq<Byte>, p: seq<Byte>, rest: seq<Byte>)
    requires WellFormed(ids, p)
    ensures Search(ids, Fresh(), [HEADER1] + p + rest) != Found(p, 1 + |p|)
    ensures HEADER1 !in p[1..] ==> Search(ids, Fresh(), [HEADER1] + p) == Pending(Fresh())
  {
    var q := Parser(Header2, [HEADER1]);
    assert Feed(ids, Fresh(), HEADER1) == Fed(q, Continue) by {
      assert [] + [HEADER1] == [HEADER1];
    }
    SearchOne(ids, Fresh(), HEADER1);
    PacketFoundIff(ids, [HEADER1], p, rest);
    if HEADER1 !in p[1..] {
      assert ([HEADER1] + p)[1..] == p;
      NoiseIgnored(ids, p[1..]);
      assert Feed(ids, q, p[0]).status == Error;
      assert Search(ids, q, p) == Search(ids, Fresh(), p[1..]);
    }
  }

  // ---- Receive ------------------------------------------------------------------------------------------------

  datatype Poll = Arrived(bytes: seq<Byte>) | Failed(code: int)

  datatype Result = Success | Warning(status: nat) | NoBufferSpace | TimedOut | Failure(code: int)

  /** What `Receive` makes of a complete packet. */
  function Delivered(p: seq<Byte>, capacity: nat): Result
    requires |p| >= 8
  {
    if |Payload(p)| > capacity then NoBufferSpace
    else if Word(p[5], p[6]) != 0 then Warning(Word(p[5], p[6]))
    else Success
  }

  function Stream(polls: seq<Poll>): seq<Byte> {
    if polls == [] || polls[0].Failed? then [] else polls[0].bytes + Stream(polls[1..])
  }

  /** How `Receive` ends when no packet arrives: with the error of the first failed poll, or timed out. */
  function NoPacket(polls: seq<Poll>): Result {
    if polls == [] then TimedOut
    else if polls[0].Failed? then Failure(polls[0].code)
    else NoPacket(polls[1..])
  }

  /** The loop over one buffer of `Receive`; done if it ended with a complete packet. */
  method ParseBuffer(parser: ExxxPacketParser, buffer: seq<Byte>, ghost past: seq<Byte>) returns (done: bool)
    requires Partial(parser.validIds, parser.Content())
    requires Search(parser.validIds, Fresh(), past) == Pending(parser.Content())
    modifies parser`state, parser`packet
    ensures var o := Search(parser.validIds, Fresh(), past + buffer);
      if done then o.Found? && o.packet == parser.packet else o == Pending(parser.Content())
  {
    ghost var ids := parser.validIds;
    assert Partial(ids, Fresh());
    hide Search;
    hide Feed;
    hide WellFormed;
    hide Partial;
    ghost var seen := past;
    assert buffer[0..] == buffer;
    for i := 0 to |buffer|
      invariant Partial(ids, parser.Content())
      invariant Search(ids, Fresh(), seen) == Pending(parser.Content())
      invariant past + buffer == seen + buffer[i..]
    {
      SearchNext(ids, seen, parser.Content(), buffer[i]);
      FeedShape(ids, parser.Content(), buffer[i]);
      PartialUsable(ids, parser.Content());
      TakeOne(seen, buffer, i);
      var status := parser.TryParse(buffer[i]);
      seen := seen + [buffer[i]];
      if status == Done {
        SearchConcat(ids, Fresh(), seen, buffer[i + 1..]);
        return true;
      } else if status == Error {
        parser.Reset();
      }
    }
    assert past + buffer == seen;
    done := false;
  }

  lemma TakeOne(seen: seq<Byte>, buffer: seq<Byte>, i: nat)
    requires i < |buffer|
    ensures seen + buffer[i..] == seen + [buffer[i]] + buffer[i + 1..]
  {
  }

  /** The payload extraction of `Receive`. */
  method Deliver(ghost ids: seq<Byte>, packet: seq<Byte>, capacity: nat) returns (result: Result, data: seq<Byte>)
    requires WellFormed(ids, packet)
    ensures result == Delivered(packet, capacity)
    ensures data == if result == NoBufferSpace then [] else Payload(packet)
  {
    var parameterSize := Word(packet[3], packet[4]) - 3;
    if parameterSize > capacity {
      return NoBufferSpace, [];
    }
    data := packet[7..7 + parameterSize];
    var errorStatus := Word(packet[5], packet[6]);
    result := if errorStatus != 0 then Warning(errorStatus) else Success;
  }

  /**
   * `ExxxNetwork::Receive`, given the outcomes of the polls that came in time. The caller gets the
   * payload of the first packet the loop finds in the stream, however the stream was cut into reads.
   */
  method Receive(parser: ExxxPacketParser, id: Byte, polls: seq<Poll>, capacity: nat)
    returns (result: Result, data: seq<Byte>)
    modifies parser
    ensures var o := Search([id], Fresh(), Stream(polls));
      if o.Found? then
        o.consumed <= |Stream(polls)| && IsSuffix(o.packet, Stream(polls)[..o.consumed]) &&
        WellFormed([id], o.packet) && |o.packet| >= 8 &&
        result == Delivered(o.packet, capacity) &&
        data == if result == NoBufferSpace then [] else Payload(o.packet)
      else result == NoPacket(polls) && data == []
  {
    hide Search;
    hide Partial;
    hide WellFormed;
    hide IsSuffix;
    hide Delivered;
    hide Payload;
    hide Stream;
    hide NoPacket;
    data := [];
    parser.Reset();
    parser.ClearIDs();
    parser.AddID(id);
    ghost var ids := [id];
    assert parser.validIds == ids;
    ghost var past: seq<Byte> := [];
    Start(ids, Stream(polls));
    assert polls[0..] == polls;
    var n := 0;
    while n < |polls|
      invariant n <= |polls| && parser.validIds == ids && Partial(ids, parser.Content())
      invariant Search(ids, Fresh(), past) == Pending(parser.Content())
      invariant Stream(polls) == past + Stream(polls[n..]) && NoPacket(polls) == NoPacket(polls[n..])
    {
      StreamNext(past, polls, n);
      if polls[n].Failed? {
        return Failure(polls[n].code), [];
      }
      var buffer := polls[n].bytes;
      var done := ParseBuffer(parser, buffer, past);
      past := past + buffer;
      if done {
        SearchConcat(ids, Fresh(), past, Stream(polls[n + 1..]));
        result, data := Deliver(ids, parser.packet, capacity);
        return;
      }
      n := n + 1;
    }
    StreamEnd(past, polls);
    result := TimedOut;
  }

  lemma StreamNext(past: seq<Byte>, polls: seq<Poll>, n: nat)
    requires n < |polls|
    ensures past + Stream(polls[n..])
         == if polls[n].Failed? then past else past + polls[n].bytes + Stream(polls[n + 1..])
    ensures NoPacket(polls[n..]) == if polls[n].Failed? then Failure(polls[n].code) else NoPacket(polls[n + 1..])
  {
    assert polls[n..][1..] == polls[n + 1..];
  }

  lemma StreamEnd(past: seq<Byte>, polls: seq<Poll>)
    ensures past + Stream(polls[|polls|..]) == past && NoPacket(polls[|polls|..]) == TimedOut
  {
  }

  lemma Start(ids: seq<Byte>, bytes: seq<Byte>)
    ensures Partial(ids, Fresh()) && Search(ids, Fresh(), []) == Pending(Fresh())
    ensures var o := Search(ids, Fresh(), bytes);
      o.Found? ==>
        o.consumed <= |bytes| && WellFormed(ids, o.packet) && |o.packet| >= 8 &&
        IsSuffix(o.packet, bytes[..o.consumed])
  {
    SearchSound(ids, Fresh(), [], bytes);
    var o := Search(ids, Fresh(), bytes);
    if o.Found? {
      assert [] + bytes[..o.consumed] == bytes[..o.consumed];
    }
  }

  lemma SearchNext(ids: seq<Byte>, seen: seq<Byte>, q: Parser, b: Byte)
    requires Partial(ids, q) && Search(ids, Fresh(), seen) == Pending(q)
    ensures Partial(ids, Fresh())
    ensures var r := Feed(ids, q, b);
      Search(ids, Fresh(), seen + [b]) ==
        if r.status == Done then Found(r.parser.packet, |seen| + 1)
        else Pending(Resumed(ids, q, b))
  {
    hide Feed;
    SearchConcat(ids, Fresh(), seen, [b]);
    assert [b][1..] == [];
  }
}
