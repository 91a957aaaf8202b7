/**
 * The inertial sensor link from the outside (mpu9150_packet_parser.cpp and mpu9150_network.cpp): the byte
 * runs the parser skips and those it accumulates, the command on the wire, and the order of timestamps.
 */
module MpuGrammar {
  import opened Bytes
  import opened Mpu9150

  // ---- blocks and what lies between them ----------------------------------------------------------------------

  /** A block: two header bytes, a length that counts what follows it, and all bytes adding up to 255 modulo 256. */
  predicate Good(u: seq<Byte>) {
    |u| >= 4 && u[0] == 0x40 && u[1] == 0x47 && |u| == u[2] as int + 3 && Sum(u) % 256 == 255
  }

  /** A byte that starts nothing, or a block given up at its first wrong byte, that byte included. */
  predicate Skipped(u: seq<Byte>) {
    (|u| == 1 && u[0] != 0x40) ||
    (|u| == 2 && u[0] == 0x40 && u[1] != 0x47) ||
    (|u| == 3 && u[0] == 0x40 && u[1] == 0x47 && u[2] == 0) ||
    (|u| >= 4 && u[0] == 0x40 && u[1] == 0x47 && |u| == u[2] as int + 3 && Sum(u) % 256 != 255)
  }

  /** A reply to a command, which ends the exchange, is a block without data. */
  predicate Reply(u: seq<Byte>) {
    Good(u) && |u| == 4
  }

  predicate AllPieces(pieces: seq<seq<Byte>>) {
    forall i :: 0 <= i < |pieces| ==> Skipped(pieces[i]) || Good(pieces[i])
  }

  predicate NoReply(pieces: seq<seq<Byte>>) {
    forall i :: 0 <= i < |pieces| ==> !Reply(pieces[i])
  }

  /** The blocks among the pieces, one after the other. */
  function GoodOf(pieces: seq<seq<Byte>>): seq<Byte> {
    if pieces == [] then [] else (if Good(pieces[0]) then pieces[0] else []) + GoodOf(pieces[1..])
  }

  lemma GoodIff(u: seq<Byte>)
    ensures WellFormed(u) <==> Good(u)
    ensures IsData(u) <==> Good(u) && !Reply(u)
  {
    hide Sum;
    if u != [] {
      LastAdds(u);
    }
  }

  lemma LastAdds(u: seq<Byte>)
    requires u != []
    ensures var n := |u| - 1; Sum(u) % 256 == 255 <==> u[n] == Checksum(u[..n])
  {
    var n := |u| - 1;
    ChecksumComplements(u[..n], u[n]);
  }

  /** One byte: collected, or the end of a piece. */
  lemma StepPiece(p: Parser, b: Byte)
    requires Partial(p)
    ensures var r := Feed(p, b);
      var u := p.packet + [b];
      (r.parser.packet == u && r.parser.packets == p.packets && r.status == Continue) ||
      (r.parser.packet == [] && r.parser.packets == p.packets && r.status == Continue && Skipped(u) && !Good(u)) ||
      (r.parser.packet == [] && r.parser.packets == p.packets + u && Good(u) && (r.status == Done <==> Reply(u)))
  {
    hide Sum;
    var u := p.packet + [b];
    if p.state.CheckSum? {
      LastAdds(u);
      assert u[..|u| - 1] == p.packet;
    }
    hide Checksum;
  }

  /**
   * Whatever the parser is fed, it has skipped pieces and accumulated the blocks among them, in order and
   * no others; it stops behind the first reply.
   */
  lemma {:induction false} RunPieces(p: Parser, bytes: seq<Byte>) returns (pieces: seq<seq<Byte>>)
    requires Partial(p)
    ensures AllPieces(pieces)
    ensures var f := FeedAll(p, bytes);
      p.packet + bytes[..f.used] == Join(pieces) + f.parser.packet &&
      f.parser.packets == p.packets + GoodOf(pieces) &&
      if f.done then f.parser.packet == [] && pieces != [] && Reply(pieces[|pieces| - 1]) &&
                     NoReply(pieces[..|pieces| - 1])
      else NoReply(pieces)
    decreases |bytes|
  {
    hide Good;
    hide Skipped;
    hide Feed;
    hide Partial;
    if bytes == [] {
      pieces := [];
      assert bytes[..0] == [];
    } else {
      var b := bytes[0];
      var u := p.packet + [b];
      var r := Feed(p, b);
      StepPiece(p, b);
      if r.status == Done {
        pieces := [u];
        OnePiece(u);
        assert bytes[..1] == [b];
      } else {
        var rest := RunPieces(r.parser, bytes[1..]);
        var f := FeedAll(r.parser, bytes[1..]);
        FeedNext(p, bytes);
        Glue(p.packet, b, bytes, f.used);
        if r.parser.packet == u {
          pieces := rest;
        } else {
          pieces := [u] + rest;
          PiecesNext(u, rest, f.parser.packet, p.packets);
        }
      }
    }
  }

  lemma FeedNext(p: Parser, bytes: seq<Byte>)
    requires Partial(p) && bytes != [] && Feed(p, bytes[0]).status != Done
    ensures Partial(Feed(p, bytes[0]).parser)
    ensures var f, g := FeedAll(p, bytes), FeedAll(Feed(p, bytes[0]).parser, bytes[1..]);
      f.parser == g.parser && f.done == g.done && f.used == g.used + 1
  {
    hide Feed;
    hide Partial;
  }

  lemma OnePiece(u: seq<Byte>)
    ensures Join([u]) == u && GoodOf([u]) == if Good(u) then u else []
  {
    hide Good;
    assert [u][1..] == [];
  }

  lemma Glue(past: seq<Byte>, b: Byte, bytes: seq<Byte>, k: nat)
    requires bytes != [] && b == bytes[0] && k < |bytes|
    ensures past + bytes[..k + 1] == past + [b] + bytes[1..][..k]
    ensures [] + bytes[1..][..k] == bytes[1..][..k]
  {
    assert bytes[..k + 1] == [b] + bytes[1..][..k];
  }

  lemma PiecesNext(u: seq<Byte>, rest: seq<seq<Byte>>, x: seq<Byte>, before: seq<Byte>)
    ensures Join([u] + rest) + x == u + (Join(rest) + x)
    ensures before + GoodOf([u] + rest) == (if Good(u) then before + u else before) + GoodOf(rest)
    ensures rest != [] ==> ([u] + rest)[..|rest|] == [u] + rest[..|rest| - 1]
  {
    hide *;
    JoinGood(u, rest);
    AllButLast(u, rest);
    Assoc(u, Join(rest), x);
    Assoc(before, u, GoodOf(rest));
  }

  lemma AllButLast(u: seq<Byte>, rest: seq<seq<Byte>>)
    ensures rest != [] ==> ([u] + rest)[..|rest|] == [u] + rest[..|rest| - 1]
  {
  }

  lemma JoinGood(u: seq<Byte>, rest: seq<seq<Byte>>)
    ensures Join([u] + rest) == u + Join(rest)
    ensures GoodOf([u] + rest) == if Good(u) then u + GoodOf(rest) else GoodOf(rest)
  {
    hide Good;
    assert ([u] + rest)[1..] == rest;
  }

  lemma Assoc(a: seq<Byte>, b: seq<Byte>, c: seq<Byte>)
    ensures a + b + c == a + (b + c)
  {
  }

  /** Any skipped piece leaves the parser ready for the next one. */
  lemma {:induction false} PieceCollected(p: Parser, u: seq<Byte>, n: nat)
    requires Partial(p) && p.state.Header1? && Skipped(u) && n < |u|
    ensures var f := FeedAll(p, u[..n]);
      !f.done && f.parser.packet == u[..n] && f.parser.packets == p.packets
    decreases n
  {
    hide Skipped;
    if n == 0 {
      assert u[..0] == [];
    } else {
      hide Feed;
      hide Partial;
      hide FeedAll;
      PieceCollected(p, u, n - 1);
      var q := FeedAll(p, u[..n - 1]).parser;
      assert u[..n] == u[..n - 1] + [u[n - 1]];
      FeedConcat(p, u[..n - 1], [u[n - 1]]);
      FeedOne(q, u[n - 1]);
      SkippedStep(q, u, n - 1);
    }
  }

  lemma SkippedStep(q: Parser, u: seq<Byte>, n: nat)
    requires Skipped(u) && n < |u| && Partial(q) && q.packet == u[..n]
    ensures var r := Feed(q, u[n]);
      r.status == Continue && r.parser.packets == q.packets &&
      (n < |u| - 1 ==> r.parser.packet == u[..n] + [u[n]]) &&
      (n == |u| - 1 ==> r.parser.packet == [] && r.parser.state.Header1?)
  {
    hide Sum;
    if n == |u| - 1 {
      LastAdds(u);
    }
    hide Checksum;
  }

  lemma PieceSkipped(p: Parser, u: seq<Byte>)
    requires Partial(p) && p.state.Header1? && Skipped(u)
    ensures var f := FeedAll(p, u); !f.done && f.parser.state.Header1? && f.parser.packets == p.packets
  {
    hide Feed;
    hide Partial;
    hide FeedAll;
    var n := |u| - 1;
    PieceCollected(p, u, n);
    hide Skipped;
    assert u == u[..n] + [u[n]];
    FeedConcat(p, u[..n], [u[n]]);
    var q := FeedAll(p, u[..n]).parser;
    FeedOne(q, u[n]);
    SkippedStep(q, u, n);
  }

  lemma NoPieces()
    ensures Join([]) == [] && GoodOf([]) == []
  {
  }

  /** Conversely, of any pieces without a reply the parser accumulates exactly the blocks. */
  lemma {:induction false} PiecesAccumulated(p: Parser, pieces: seq<seq<Byte>>)
    requires Partial(p) && p.state.Header1? && AllPieces(pieces) && NoReply(pieces)
    ensures var f := FeedAll(p, Join(pieces));
      !f.done && f.parser.state.Header1? && f.parser.packets == p.packets + GoodOf(pieces)
    decreases |pieces|
  {
    hide Good;
    hide Reply;
    hide Skipped;
    hide Partial;
    hide Feed;
    hide GoodOf;
    hide Join;
    hide IsData;
    hide WellFormed;
    NoPieces();
    if pieces != [] {
      var u := pieces[0];
      GoodIff(u);
      if Good(u) {
        BlockTaken(p, u);
      } else {
        PieceSkipped(p, u);
      }
      FeedConcat(p, u, Join(pieces[1..]));
      PiecesAccumulated(FeedAll(p, u).parser, pieces[1..]);
      assert pieces == [u] + pieces[1..];
      PiecesNext(u, pieces[1..], [], p.packets);
      JoinGood(u, pieces[1..]);
    } else {
      assert p.packets + [] == p.packets;
    }
  }

  /** Behind them, a reply is accumulated too and ends the run, whatever follows it. */
  lemma ReplyEnds(p: Parser, pieces: seq<seq<Byte>>, reply: seq<Byte>, rest: seq<Byte>)
    requires Partial(p) && p.state.Header1? && AllPieces(pieces) && NoReply(pieces) && Reply(reply)
    ensures var f := FeedAll(p, Join(pieces) + reply + rest);
      f.done && f.used == |Join(pieces)| + 4 && f.parser.packets == p.packets + GoodOf(pieces) + reply
  {
    hide Good;
    hide Skipped;
    hide Partial;
    hide FeedAll;
    PiecesAccumulated(p, pieces);
    GoodIff(reply);
    FeedConcat(p, Join(pieces), reply);
    BlockTaken(FeedAll(p, Join(pieces)).parser, reply);
    FeedConcat(p, Join(pieces) + reply, rest);
  }

  // ---- commands -----------------------------------------------------------------------------------------------

  /** A command byte by byte; all of it adds up to 255 modulo 256. */
  lemma CommandBytes(instruction: Byte, data: seq<Byte>)
    requires |data| <= 253
    ensures var b := Command(instruction, data);
      |b| == |data| + 5 && b[..4] == [0x40, 0x47, |data| + 2, instruction] && b[4..|data| + 4] == data &&
      Sum(b) % 256 == 255
  {
    hide Sum;
    var b := Command(instruction, data);
    LastAdds(b);
    assert b[..|b| - 1] == [0x40, 0x47, |data| + 2, instruction] + data;
    hide Checksum;
  }

  // ---- timestamps ---------------------------------------------------------------------------------------------

  /** Byte order: the first byte that differs decides. */
  predicate Before(a: seq<Byte>, b: seq<Byte>)
    requires |a| == |b|
  {
    a != [] && (a[0] < b[0] || (a[0] == b[0] && Before(a[1..], b[1..])))
  }

  /** Timestamps compare like the bytes 43 to 46 of their 48-byte packets, first byte first. */
  lemma TimestampsCompareBytewise(packets: seq<Byte>, i: nat, j: nat)
    requires 48 * (i + 1) <= |packets| && 48 * (j + 1) <= |packets|
    ensures var a, b := packets[48 * i + 43..48 * i + 47], packets[48 * j + 43..48 * j + 47];
      Timestamp(packets, i) < Timestamp(packets, j) <==> Before(a, b)
    ensures Timestamp(packets, i) < 0x1_0000_0000
  {
    var a, b := packets[48 * i + 43..48 * i + 47], packets[48 * j + 43..48 * j + 47];
    BytewiseOrder(a, b);
  }

  lemma BytewiseOrder(a: seq<Byte>, b: seq<Byte>)
    requires |a| == |b| == 4
    ensures UInt32(a[0], a[1], a[2], a[3]) < UInt32(b[0], b[1], b[2], b[3]) <==> Before(a, b)
  {
    BeforeAt(a, b, 0);
    BeforeAt(a, b, 1);
    BeforeAt(a, b, 2);
    BeforeAt(a, b, 3);
    assert a[0..] == a && b[0..] == b && a[4..] == [];
  }

  lemma BeforeAt(a: seq<Byte>, b: seq<Byte>, k: nat)
    requires k < |a| == |b|
    ensures Before(a[k..], b[k..]) <==> a[k] < b[k] || (a[k] == b[k] && Before(a[k + 1..], b[k + 1..]))
    ensures |a| == 4 ==> !Before(a[4..], b[4..])
  {
    assert a[k..][1..] == a[k + 1..] && b[k..][1..] == b[k + 1..];
  }

  /** Of several packets with the largest timestamp the first one counts, and there is no other such packet. */
  lemma FirstOfTheLatest(packets: seq<Byte>, n: nat, i: nat, j: nat)
    requires IsFirstLatest(packets, n, i) && j < n
    ensures Timestamp(packets, j) <= Timestamp(packets, i)
    ensures Timestamp(packets, j) == Timestamp(packets, i) ==> i <= j
    ensures IsFirstLatest(packets, n, j) ==> i == j
  {
    hide Timestamp;
  }

  /** A batch is newer exactly when not all of its timestamps are at most the last one taken. */
  lemma NewerIff(packets: seq<Byte>, n: nat, last: nat)
    requires 48 * n <= |packets|
    ensures !HasNewer(packets, n, last) <==> forall j :: 0 <= j < n ==> Timestamp(packets, j) <= last
  {
    hide Timestamp;
    if !HasNewer(packets, n, last) {
      forall j | 0 <= j < n
        ensures Timestamp(packets, j) <= last
      {
      }
    }
  }
}
