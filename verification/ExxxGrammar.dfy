/**
 * The servo motor link from the outside (exxx_packet_parser.hpp:97-204 and exxx_network.cpp): the byte
 * runs its receive loop skips, the packets it finds, and what it hands out.
 */
module ExxxGrammar {
  import opened Bytes
  import opened ExxxPacket

  // ---- packets ------------------------------------------------------------------------------------------------

  /** A status packet as a motor sends it: length and status are little-endian, and the length counts 3 bytes more. */
  function StatusPacket(id: Byte, status: nat, payload: seq<Byte>): seq<Byte>
    requires status < 0x1_0000 && |payload| <= 0xFFFF - 3
  {
    var length := |payload| + 3;
    var body := [id, length % 256, length / 256, status % 256, status / 256] + payload;
    [0xAA, 0x55] + body + [255 - Sum(body) % 256]
  }

  /** The packets of the link are exactly these. */
  lemma WellFormedIff(ids: seq<Byte>, p: seq<Byte>)
    ensures WellFormed(ids, p) <==>
      exists id: Byte, status: nat, payload: seq<Byte> ::
        id in ids && status < 0x1_0000 && |payload| <= 0xFFFF - 3 && p == StatusPacket(id, status, payload)
  {
    if WellFormed(ids, p) {
      PacketParts(ids, p);
    }
    forall id: Byte, status: nat, payload: seq<Byte> |
      id in ids && status < 0x1_0000 && |payload| <= 0xFFFF - 3 && p == StatusPacket(id, status, payload)
      ensures WellFormed(ids, p)
    {
      PacketFormed(ids, id, status, payload);
    }
  }

  lemma PacketParts(ids: seq<Byte>, p: seq<Byte>)
    requires WellFormed(ids, p)
    ensures Word(p[5], p[6]) < 0x1_0000 && |p| - 8 <= 0xFFFF - 3
    ensures p == StatusPacket(p[2], Word(p[5], p[6]), p[7..|p| - 1])
  {
    hide Sum;
    LowHigh(p[3], p[4]);
    LowHigh(p[5], p[6]);
    hide Word;
    BytesApart(p);
  }

  lemma LowHigh(low: Byte, high: Byte)
    ensures Word(low, high) < 0x1_0000 && Word(low, high) % 256 == low && Word(low, high) / 256 == high
  {
  }

  lemma BytesApart(p: seq<Byte>)
    requires |p| >= 8
    ensures p[2..|p| - 1] == [p[2], p[3], p[4], p[5], p[6]] + p[7..|p| - 1]
    ensures p == [p[0], p[1]] + p[2..|p| - 1] + [p[|p| - 1]]
  {
  }

  lemma PacketFormed(ids: seq<Byte>, id: Byte, status: nat, payload: seq<Byte>)
    requires id in ids && status < 0x1_0000 && |payload| <= 0xFFFF - 3
    ensures var p := StatusPacket(id, status, payload);
      WellFormed(ids, p) && Payload(p) == payload && Word(p[5], p[6]) == status
  {
    hide Sum;
    var p := StatusPacket(id, status, payload);
    var length := |payload| + 3;
    assert p[2..|p| - 1] == [id, length % 256, length / 256, status % 256, status / 256] + payload;
  }

  /** What the caller gets of such a packet: its payload, and its status as a warning unless it is zero. */
  lemma PacketDelivered(id: Byte, status: nat, payload: seq<Byte>, capacity: nat)
    requires status < 0x1_0000 && |payload| <= 0xFFFF - 3
    ensures var p := StatusPacket(id, status, payload);
      |p| == |payload| + 8 && Payload(p) == payload &&
      Delivered(p, capacity) == if |payload| > capacity then NoBufferSpace
                                else if status != 0 then Warning(status) else Success
  {
    PacketFormed([id], id, status, payload);
  }

  // ---- what the loop skips ------------------------------------------------------------------------------------

  /** A packet given up at its first wrong byte, that byte included. */
  predicate Rejected(ids: seq<Byte>, u: seq<Byte>) {
    u != [] && u[0] == 0xAA &&
    ((|u| == 2 && u[1] != 0x55) ||
     (|u| == 3 && u[1] == 0x55 && u[2] !in ids) ||
     (|u| == 5 && u[1] == 0x55 && u[2] in ids && 256 * (u[4] as int) + u[3] < 3) ||
     (|u| >= 8 && u[1] == 0x55 && u[2] in ids && |u| == 256 * (u[4] as int) + u[3] + 5 &&
      (Sum(u[2..|u| - 1]) + u[|u| - 1]) % 256 != 255))
  }

  /** A byte that starts nothing, or a packet given up. */
  predicate Piece(ids: seq<Byte>, u: seq<Byte>) {
    (|u| == 1 && u[0] != 0xAA) || Rejected(ids, u)
  }

  predicate AllPieces(ids: seq<Byte>, pieces: seq<seq<Byte>>) {
    forall i :: 0 <= i < |pieces| ==> Piece(ids, pieces[i])
  }

  /** A byte the parser refuses ends a piece. */
  lemma RefusedIsPiece(ids: seq<Byte>, p: Parser, b: Byte)
    requires Partial(ids, p) && Feed(ids, p, b).status == Error
    ensures Piece(ids, p.packet + [b])
  {
    hide Sum;
    var u := p.packet + [b];
    if p.state.CheckSum? {
      assert u[2..|u| - 1] == p.packet[2..];
      ChecksumComplements(p.packet[2..], b);
    }
  }

  /** The bytes are pieces, one after the other, and then the tail. */
  predicate InPieces(ids: seq<Byte>, bytes: seq<Byte>, pieces: seq<seq<Byte>>, tail: seq<Byte>) {
    AllPieces(ids, pieces) && bytes == Join(pieces) + tail
  }

  lemma NoPieces(ids: seq<Byte>, tail: seq<Byte>)
    ensures InPieces(ids, tail, [], tail)
  {
  }

  lemma OneMorePiece(ids: seq<Byte>, u: seq<Byte>, bytes: seq<Byte>, pieces: seq<seq<Byte>>, tail: seq<Byte>)
    requires Piece(ids, u) && InPieces(ids, bytes, pieces, tail)
    ensures InPieces(ids, u + bytes, [u] + pieces, tail)
  {
    hide Piece;
    assert ([u] + pieces)[1..] == pieces;
    assert u + (Join(pieces) + tail) == u + Join(pieces) + tail;
  }

  /** What a search has gone through: the packet being collected, and the bytes up to its end. */
  function Consumed(ids: seq<Byte>, p: Parser, bytes: seq<Byte>): seq<Byte>
    requires Partial(ids, p)
  {
    var o := Search(ids, p, bytes);
    p.packet + if o.Found? then bytes[..o.consumed] else bytes
  }

  function Held(o: Outcome): seq<Byte> {
    if o.Found? then o.packet else o.parser.packet
  }

  /** One byte of a search: the end of the packet, the end of a piece, or one more byte of either. */
  lemma ConsumedNext(ids: seq<Byte>, p: Parser, bytes: seq<Byte>)
    requires Partial(ids, p) && bytes != []
    ensures var o := Search(ids, p, bytes);
      var u := p.packet + [bytes[0]];
      if Feed(ids, p, bytes[0]).status == Done then Consumed(ids, p, bytes) == u == Held(o) && WellFormed(ids, u)
      else
        var q := Resumed(ids, p, bytes[0]);
        Partial(ids, q) && Held(o) == Held(Search(ids, q, bytes[1..])) &&
        if Feed(ids, p, bytes[0]).status == Error then Consumed(ids, p, bytes) == u + Consumed(ids, q, bytes[1..])
        else Consumed(ids, p, bytes) == Consumed(ids, q, bytes[1..])
  {
    hide Feed;
    hide Partial;
    hide WellFormed;
    hide Search;
    hide Resumed;
    var b := bytes[0];
    SearchStep(ids, p, bytes);
    FeedShape(ids, p, b);
    if Feed(ids, p, b).status == Done {
      assert bytes[..1] == [b];
    } else {
      var q := Resumed(ids, p, b);
      ResumedIs(ids, p, b);
      var o := Search(ids, q, bytes[1..]);
      if o.Found? {
        Glue(p.packet, b, bytes, o.consumed);
      } else {
        GlueAll(p.packet, b, bytes);
      }
    }
  }

  lemma ConsumedNone(ids: seq<Byte>, p: Parser)
    requires Partial(ids, p)
    ensures Consumed(ids, p, []) == p.packet == Held(Search(ids, p, []))
  {
    hide Partial;
    SearchNone(ids, p);
  }

  /**
   * Whatever the loop is fed, it has skipped pieces, one after the other, up to the packet it found or up
   * to the one it is collecting.
   */
  lemma {:induction false} SearchPieces(ids: seq<Byte>, p: Parser, bytes: seq<Byte>) returns (pieces: seq<seq<Byte>>)
    requires Partial(ids, p)
    ensures InPieces(ids, Consumed(ids, p, bytes), pieces, Held(Search(ids, p, bytes)))
    decreases |bytes|
  {
    hide *;
    if bytes == [] {
      pieces := [];
      ConsumedNone(ids, p);
      NoPieces(ids, p.packet);
    } else {
      var u := p.packet + [bytes[0]];
      ConsumedNext(ids, p, bytes);
      if Feed(ids, p, bytes[0]).status == Done {
        pieces := [];
        NoPieces(ids, u);
      } else {
        var q := Resumed(ids, p, bytes[0]);
        pieces := SearchPieces(ids, q, bytes[1..]);
        if Feed(ids, p, bytes[0]).status == Error {
          RefusedIsPiece(ids, p, bytes[0]);
          OneMorePiece(ids, u, Consumed(ids, q, bytes[1..]), pieces, Held(Search(ids, q, bytes[1..])));
          pieces := [u] + pieces;
        }
      }
    }
  }

  lemma Glue(past: seq<Byte>, b: Byte, bytes: seq<Byte>, k: nat)
    requires bytes != [] && b == bytes[0] && k < |bytes|
    ensures past + bytes[..k + 1] == past + [b] + bytes[1..][..k]
    ensures [] + bytes[1..][..k] == bytes[1..][..k]
  {
    assert bytes[..k + 1] == [b] + bytes[1..][..k];
  }

  lemma GlueAll(past: seq<Byte>, b: Byte, bytes: seq<Byte>)
    requires bytes != [] && b == bytes[0]
    ensures past + bytes == past + [b] + bytes[1..]
    ensures [] + bytes[1..] == bytes[1..]
  {
    assert bytes == [b] + bytes[1..];
  }

  lemma ResumedIs(ids: seq<Byte>, p: Parser, b: Byte)
    requires Partial(ids, p) && Feed(ids, p, b).status != Done
    ensures var q := Resumed(ids, p, b);
      if Feed(ids, p, b).status == Error then q == Fresh() && q.packet == [] else q.packet == p.packet + [b]
  {
  }

  /** A piece keeps a reset parser going until its last byte. */
  lemma {:induction false} PieceCollected(ids: seq<Byte>, u: seq<Byte>, n: nat)
    requires Piece(ids, u) && n < |u|
    ensures var o := Search(ids, Fresh(), u[..n]); o.Pending? && o.parser.packet == u[..n]
    decreases n
  {
    hide Piece;
    if n == 0 {
      assert u[..0] == [];
    } else {
      hide Feed;
      hide Partial;
      hide Search;
      PieceCollected(ids, u, n - 1);
      var q := Search(ids, Fresh(), u[..n - 1]).parser;
      assert u[..n] == u[..n - 1] + [u[n - 1]];
      FreshPartial(ids);
      SearchConcat(ids, Fresh(), u[..n - 1], [u[n - 1]]);
      PieceStep(ids, u, q, n - 1);
      SearchOne(ids, q, u[n - 1]);
    }
  }

  lemma FreshPartial(ids: seq<Byte>)
    ensures Partial(ids, Fresh()) && Fresh().packet == []
  {
  }

  lemma PieceStep(ids: seq<Byte>, u: seq<Byte>, q: Parser, n: nat)
    requires Piece(ids, u) && n < |u| && Partial(ids, q) && q.packet == u[..n]
    ensures n < |u| - 1 ==> Feed(ids, q, u[n]).status == Continue
    ensures n == |u| - 1 ==> Feed(ids, q, u[n]).status == Error
  {
    hide Sum;
    if |u| >= 8 && n == |u| - 1 {
      assert q.packet[2..] == u[2..|u| - 1];
      ChecksumComplements(q.packet[2..], u[n]);
    }
    hide Checksum;
  }

  lemma PieceSkipped(ids: seq<Byte>, u: seq<Byte>)
    requires Piece(ids, u)
    ensures Search(ids, Fresh(), u) == Pending(Fresh())
  {
    hide Piece;
    hide Feed;
    hide Partial;
    hide Search;
    var n := |u| - 1;
    NotEmpty(ids, u);
    PieceCollected(ids, u, n);
    FreshPartial(ids);
    var q := Search(ids, Fresh(), u[..n]).parser;
    assert u == u[..n] + [u[n]];
    PieceStep(ids, u, q, n);
    SearchConcat(ids, Fresh(), u[..n], [u[n]]);
    SearchStep(ids, q, [u[n]]);
    ResumedIs(ids, q, u[n]);
    assert [u[n]][1..] == [];
    SearchNone(ids, Fresh());
  }

  lemma NotEmpty(ids: seq<Byte>, u: seq<Byte>)
    requires Piece(ids, u)
    ensures |u| >= 1
  {
  }

  lemma {:induction false} PiecesSkipped(ids: seq<Byte>, pieces: seq<seq<Byte>>)
    requires AllPieces(ids, pieces)
    ensures Search(ids, Fresh(), Join(pieces)) == Pending(Fresh())
    decreases |pieces|
  {
    hide Piece;
    hide Search;
    hide Partial;
    FreshPartial(ids);
    if pieces == [] {
      SearchNone(ids, Fresh());
    } else {
      PieceSkipped(ids, pieces[0]);
      PiecesSkipped(ids, pieces[1..]);
      SearchConcat(ids, Fresh(), pieces[0], Join(pieces[1..]));
    }
  }

  lemma FoundFormed(ids: seq<Byte>, bytes: seq<Byte>)
    requires Partial(ids, Fresh()) && Search(ids, Fresh(), bytes).Found?
    ensures WellFormed(ids, Search(ids, Fresh(), bytes).packet)
  {
    hide Search;
    hide WellFormed;
    Start(ids, bytes);
  }

  /**
   * Exactly which packet the loop finds in any stream: p, ending after n bytes, if and only if p is a
   * packet of the link and the n bytes are skipped pieces followed by p.
   */
  lemma FoundExact(ids: seq<Byte>, bytes: seq<Byte>, p: seq<Byte>, n: nat)
    requires n <= |bytes|
    ensures Search(ids, Fresh(), bytes) == Found(p, n) <==>
      WellFormed(ids, p) && exists pieces :: AllPieces(ids, pieces) && bytes[..n] == Join(pieces) + p
  {
    hide Search;
    hide WellFormed;
    hide AllPieces;
    hide Partial;
    FreshPartial(ids);
    if Search(ids, Fresh(), bytes) == Found(p, n) {
      var pieces := SearchPieces(ids, Fresh(), bytes);
      FoundFormed(ids, bytes);
      assert [] + bytes[..n] == bytes[..n];
    }
    if WellFormed(ids, p) {
      forall pieces | AllPieces(ids, pieces) && bytes[..n] == Join(pieces) + p
        ensures Search(ids, Fresh(), bytes) == Found(p, n)
      {
        PiecesSkipped(ids, pieces);
        PacketFound(ids, Join(pieces), p, bytes[n..]);
        assert bytes == Join(pieces) + p + bytes[n..];
      }
    }
  }

  /** And the noise in front of which a packet is found is exactly that made of pieces. */
  lemma NoiseExact(ids: seq<Byte>, noise: seq<Byte>)
    ensures Search(ids, Fresh(), noise) == Pending(Fresh())
      <==> exists pieces :: AllPieces(ids, pieces) && noise == Join(pieces)
  {
    hide Search;
    hide AllPieces;
    hide Partial;
    FreshPartial(ids);
    if Search(ids, Fresh(), noise) == Pending(Fresh()) {
      var pieces := SearchPieces(ids, Fresh(), noise);
      assert [] + noise == noise && Join(pieces) + [] == Join(pieces);
    }
    forall pieces | AllPieces(ids, pieces) && noise == Join(pieces)
      ensures Search(ids, Fresh(), noise) == Pending(Fresh())
    {
      PiecesSkipped(ids, pieces);
    }
  }

  /**
   * A parser that is not reset after an error: a failed checksum or a byte that is no header leaves it as
   * it was, so that a later byte can still complete its packet; after any other error it refuses all.
   */
  lemma WithoutReset(ids: seq<Byte>, p: Parser, input: Byte)
    requires Partial(ids, p) && Feed(ids, p, input).status == Error
    ensures var q := Feed(ids, p, input).parser;
      if p.state.Header1? || p.state.CheckSum? then q == p
      else forall b :: FeedAny(ids, q, b) == Fed(q, Error)
  {
    hide Checksum;
  }

  // ---- the polls ----------------------------------------------------------------------------------------------

  /** The stream is what arrived before the first failed poll, and without a packet that failure is the result. */
  lemma {:induction false} PollsDecide(arrived: seq<seq<Byte>>, code: int, later: seq<Poll>)
    ensures var polls := seq(|arrived|, i requires 0 <= i < |arrived| => Arrived(arrived[i]));
      Stream(polls) == Join(arrived) && NoPacket(polls) == TimedOut &&
      Stream(polls + [Failed(code)] + later) == Join(arrived) &&
      NoPacket(polls + [Failed(code)] + later) == Failure(code)
    decreases |arrived|
  {
    var polls := seq(|arrived|, i requires 0 <= i < |arrived| => Arrived(arrived[i]));
    if arrived == [] {
      assert polls + [Failed(code)] + later == [Failed(code)] + later;
    } else {
      var rest := seq(|arrived| - 1, i requires 0 <= i < |arrived| - 1 => Arrived(arrived[1..][i]));
      PollsDecide(arrived[1..], code, later);
      assert polls[1..] == rest;
      assert (polls + [Failed(code)] + later)[1..] == rest + [Failed(code)] + later;
    }
  }
}
