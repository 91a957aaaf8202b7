/**
 * The frame decoder from the outside: the byte runs that one call takes off a buffer, told by their own
 * bytes (power_ecu_com_frame_decoder.cpp:108-180), and the noise that is made of such runs.
 */
module NoiseGrammar {
  import opened Octets
  import opened Numerals
  import opened Frames
  import opened FrameStream
  import opened Resync

  // ---- what one call takes off --------------------------------------------------------------------------------

  /** The size a header announces, for the three characters of its size field. */
  function Announced(u: Packet): nat
    requires |u| >= 11
  {
    PacketSize(u[8..11])
  }

  /**
   * A header given up at the first character that is wrong: a character other than a comma after the
   * 'E', after the name or after the size, or a size that cannot even hold the footer.
   */
  predicate BrokenHeader(u: Packet) {
    u != [] && u[0] == 'E' &&
    ((|u| == 2 && u[1] != ',') ||
     (|u| == 8 && u[1] == ',' && u[7] != ',') ||
     (|u| == 11 && u[1] == ',' && u[7] == ',' && Announced(u) < 11) ||
     (|u| == 12 && u[1] == ',' && u[7] == ',' && Announced(u) >= 11 && u[11] != ','))
  }

  /** A header in order with as many bytes behind it as it announces, the last 11 of them the footer. */
  predicate WholeFrame(u: Packet) {
    |u| >= 23 && u[0] == 'E' && u[1] == ',' && u[7] == ',' && u[11] == ',' && |u| == 12 + Announced(u)
  }

  /** The hexadecimal number in the footer is the checksum of all that comes before it. */
  predicate ChecksumAgrees(u: Packet)
    requires |u| >= 23
  {
    Crc32.Checksum(u[..|u| - 11]) == Strtol(u[|u| - 10..|u| - 2], 16) % 0x1_0000_0000
  }

  predicate Unit(u: Packet) {
    BrokenHeader(u) || WholeFrame(u)
  }

  function UnitReport(u: Packet): Report {
    if WholeFrame(u) && ChecksumAgrees(u) then Accepted(u[2..7], |u| - 12, u[12..|u| - 11]) else Rejected
  }

  /** From its start character on, the decoder takes exactly the units off, given 12 bytes to look at. */
  lemma ParseTakesUnit(s: Packet, n: nat)
    requires n <= |s| && s != [] && s[0] == 'E'
    ensures !Parse(s).Incomplete? && Parse(s).next == n <==> |s| >= 12 && Unit(s[..n])
    ensures |s| >= 12 && Unit(s[..n]) ==> ReportOf(Parse(s)) == UnitReport(s[..n])
  {
    if |s| >= 12 {
      if s[1] == ',' && s[7] == ',' && Announced(s) >= 11 && s[11] == ',' {
        ParseTakesFrame(s, n);
      } else {
        ParseGivesUp(s, n);
      }
    }
  }

  lemma ParseGivesUp(s: Packet, n: nat)
    requires |s| >= 12 && n <= |s| && s[0] == 'E'
    requires !(s[1] == ',' && s[7] == ',' && Announced(s) >= 11 && s[11] == ',')
    ensures Parse(s).Malformed? && (Parse(s).next == n <==> Unit(s[..n]))
    ensures Unit(s[..n]) ==> UnitReport(s[..n]) == Rejected
  {
    hide Crc32.Checksum;
    hide Strtol;
    hide PacketSize;
    hide ChecksumAgrees;
    var u := s[..n];
    if n >= 11 {
      assert u[8..11] == s[8..11];
    }
  }

  lemma ParseTakesFrame(s: Packet, n: nat)
    requires |s| >= 12 && n <= |s| && s[0] == 'E'
    requires s[1] == ',' && s[7] == ',' && Announced(s) >= 11 && s[11] == ','
    ensures !Parse(s).Incomplete? && Parse(s).next == n <==> Unit(s[..n])
    ensures Unit(s[..n]) ==> ReportOf(Parse(s)) == UnitReport(s[..n])
  {
    hide Crc32.Checksum;
    hide Strtol;
    hide PacketSize;
    var u := s[..n];
    if n >= 11 {
      assert u[8..11] == s[8..11];
    }
    if n >= 23 {
      assert u[..n - 11] == s[..n - 11];
      assert u[n - 10..n - 2] == s[n - 10..n - 2];
      assert u[2..7] == s[2..7];
      assert u[12..n - 11] == s[12..n - 11];
    }
  }

  /** At position k, before which there is no 'E', n bytes are a unit, and 12 or more follow from k on. */
  predicate UnitAt(s: Packet, k: nat, n: nat) {
    n > 0 && k + n <= |s| && 'E' !in s[..k] && |s| - k >= 12 && Unit(s[k..k + n])
  }

  /** The decoder goes from the first 'E' at k to k + n exactly when a unit stands there; and it reports that unit. */
  lemma ScanTakesUnit(s: Packet, k: nat, n: nat)
    requires k + n <= |s|
    ensures !Scan(s).Incomplete? && Find(s, 'E') == k && Scan(s).next == k + n <==> UnitAt(s, k, n)
    ensures UnitAt(s, k, n) ==> ReportOf(Scan(s)) == UnitReport(s[k..k + n])
  {
    hide Parse;
    hide Find;
    hide Unit;
    hide UnitReport;
    if n > 0 && s[k] == 'E' && 'E' !in s[..k] {
      FindUnique(s, 'E', k);
      assert s[k..k + n] == s[k..][..n];
      ParseTakesUnit(s[k..], n);
    } else if UnitAt(s, k, n) {
      UnitStarts(s[k..k + n]);
    }
  }

  lemma UnitStarts(u: Packet)
    requires Unit(u)
    ensures |u| >= 2 && u[0] == 'E'
  {
    hide PacketSize;
  }

  /** It asks for more input exactly when no such unit is there, and then drops what stands before the first 'E'. */
  lemma ScanWaits(s: Packet)
    ensures Scan(s).Incomplete? <==> (forall k, n :: !UnitAt(s, k, n))
    ensures Scan(s).Incomplete? ==> 'E' !in s[..Scan(s).skip] && (Scan(s).skip < |s| ==> s[Scan(s).skip] == 'E')
  {
    hide Parse;
    hide UnitAt;
    if Scan(s).Incomplete? {
      forall k, n | UnitAt(s, k, n)
        ensures false
      {
        WithinBounds(s, k, n);
        ScanTakesUnit(s, k, n);
      }
    } else {
      var e := Find(s, 'E');
      ScanTakesUnit(s, e, Scan(s).next - e);
    }
  }

  lemma WithinBounds(s: Packet, k: nat, n: nat)
    requires UnitAt(s, k, n)
    ensures k + n <= |s|
  {
    hide Unit;
  }

  // ---- noise that clears --------------------------------------------------------------------------------------

  /** A byte that starts nothing, or a unit. */
  predicate Piece(p: Packet) {
    (|p| == 1 && p[0] != 'E') || Unit(p)
  }

  predicate InPieces(noise: Packet, pieces: seq<Packet>) {
    Concat(pieces) == noise && forall i :: 0 <= i < |pieces| ==> Piece(pieces[i])
  }

  function PieceReports(pieces: seq<Packet>): seq<Report> {
    if pieces == [] then []
    else (if Unit(pieces[0]) then [UnitReport(pieces[0])] else []) + PieceReports(pieces[1..])
  }

  /** The noise after its first verdict. */
  lemma NoiseNext(noise: Packet)
    requires Find(noise, 'E') < |noise| && !FirstVerdict(noise).Incomplete?
    requires Find(noise, 'E') + FirstVerdict(noise).next <= |noise|
    ensures var rest := noise[Find(noise, 'E') + FirstVerdict(noise).next..];
      (Clears(noise) <==> Clears(rest)) &&
      (Clears(rest) ==> NoiseReports(noise) == [ReportOf(FirstVerdict(noise))] + NoiseReports(rest))
  {
    hide FirstVerdict;
    hide Find;
  }

  lemma SilentNoise(noise: Packet)
    requires Find(noise, 'E') == |noise|
    ensures Clears(noise) && NoiseReports(noise) == []
  {
    hide Find;
    hide FirstVerdict;
  }

  lemma SameVerdict(c: Octet, rest: Packet)
    requires c != 'E'
    ensures var noise, e := [c] + rest, Find(rest, 'E');
      Find(noise, 'E') == 1 + e &&
      (e < |rest| ==> FirstVerdict(noise) == FirstVerdict(rest))
  {
    hide *;
    var noise, e := [c] + rest, Find(rest, 'E');
    FindBehind(c, rest);
    OneFurther(c, rest, e);
    if e < |rest| {
      VerdictOf(rest);
      VerdictOf(noise);
    }
  }

  lemma FindBehind(c: Octet, rest: Packet)
    requires c != 'E'
    ensures Find([c] + rest, 'E') == 1 + Find(rest, 'E')
  {
    hide Find;
    var e := Find(rest, 'E');
    OneFurther(c, rest, e);
    FindUnique([c] + rest, 'E', 1 + e);
  }

  lemma OneFurther(c: Octet, rest: Packet, e: nat)
    requires e <= |rest|
    ensures ([c] + rest)[..1 + e] == [c] + rest[..e] && ([c] + rest)[1 + e..] == rest[e..]
  {
  }

  lemma ByteSkipped(c: Octet, rest: Packet)
    requires c != 'E' && Clears(rest)
    ensures Clears([c] + rest) && NoiseReports([c] + rest) == NoiseReports(rest)
  {
    hide Find;
    hide Clears;
    hide NoiseReports;
    hide FirstVerdict;
    var noise, e := [c] + rest, Find(rest, 'E');
    SameVerdict(c, rest);
    if e < |rest| {
      ClearsNext(rest);
      var n := FirstVerdict(rest).next;
      assert noise[1 + e + n..] == rest[e + n..];
      NoiseNext(noise);
      NoiseNext(rest);
    } else {
      SilentNoise(noise);
      SilentNoise(rest);
    }
  }

  lemma UnitCleared(u: Packet, rest: Packet)
    requires Unit(u) && Clears(rest)
    ensures Clears(u + rest) && NoiseReports(u + rest) == [UnitReport(u)] + NoiseReports(rest)
  {
    hide Find;
    hide Clears;
    hide NoiseReports;
    hide Parse;
    var noise := u + rest;
    UnitStarts(u);
    hide Unit;
    hide UnitReport;
    assert noise[..0] == [] && noise[0..] == noise;
    FindUnique(noise, 'E', 0);
    assert (noise + PAD)[..|u|] == u;
    ParseTakesUnit(noise + PAD, |u|);
    assert noise[|u|..] == rest;
    NoiseNext(noise);
  }

  lemma {:induction false} PiecesClear(pieces: seq<Packet>)
    requires forall i :: 0 <= i < |pieces| ==> Piece(pieces[i])
    ensures Clears(Concat(pieces)) && NoiseReports(Concat(pieces)) == PieceReports(pieces)
    decreases |pieces|
  {
    hide Clears;
    hide NoiseReports;
    hide Unit;
    hide UnitReport;
    if pieces == [] {
      SilentNoise([]);
    } else {
      var p, rest := pieces[0], Concat(pieces[1..]);
      PiecesClear(pieces[1..]);
      if Unit(p) {
        UnitCleared(p, rest);
      } else {
        assert p == [p[0]];
        ByteSkipped(p[0], rest);
      }
    }
  }

  function Singles(s: Packet): (pieces: seq<Packet>)
    ensures |pieces| == |s| && forall i :: 0 <= i < |s| ==> pieces[i] == [s[i]]
  {
    if s == [] then [] else [[s[0]]] + Singles(s[1..])
  }

  lemma {:induction false} SinglesConcat(s: Packet)
    ensures Concat(Singles(s)) == s
    decreases |s|
  {
    if s != [] {
      SinglesConcat(s[1..]);
      assert Singles(s)[1..] == Singles(s[1..]);
    }
  }

  lemma {:induction false} ConcatAppend(a: seq<Packet>, b: seq<Packet>)
    ensures Concat(a + b) == Concat(a) + Concat(b)
    decreases |a|
  {
    if a == [] {
      assert a + b == b;
    } else {
      assert (a + b)[1..] == a[1..] + b;
      ConcatAppend(a[1..], b);
    }
  }

  lemma {:induction false} PiecesOf(noise: Packet) returns (pieces: seq<Packet>)
    requires Clears(noise)
    ensures InPieces(noise, pieces)
    decreases |noise|
  {
    hide Find;
    hide FirstVerdict;
    hide Unit;
    hide Clears;
    ClearsNext(noise);
    var e := Find(noise, 'E');
    SinglesConcat(noise[..e]);
    if e == |noise| {
      assert noise[..e] == noise;
      pieces := Singles(noise);
      PlainPieces(noise);
    } else {
      FirstIsUnit(noise);
      PlainPieces(noise[..e]);
      var n := FirstVerdict(noise).next;
      var rest := PiecesOf(noise[e + n..]);
      var u := noise[e..e + n];
      pieces := Singles(noise[..e]) + ([u] + rest);
      ConcatAppend(Singles(noise[..e]), [u] + rest);
      assert ([u] + rest)[1..] == rest;
      assert noise == noise[..e] + (u + noise[e + n..]);
    }
  }

  lemma PlainPieces(s: Packet)
    requires 'E' !in s
    ensures forall i :: 0 <= i < |s| ==> Piece(Singles(s)[i])
  {
    hide Unit;
  }

  lemma FirstIsUnit(noise: Packet)
    requires Find(noise, 'E') < |noise| && !FirstVerdict(noise).Incomplete?
    requires Find(noise, 'E') + FirstVerdict(noise).next <= |noise|
    ensures var e, n := Find(noise, 'E'), FirstVerdict(noise).next; n >= 2 && Unit(noise[e..e + n])
  {
    hide *;
    var e, n := Find(noise, 'E'), FirstVerdict(noise).next;
    VerdictOf(noise);
    VerdictIsUnit(noise[e..], PAD, n);
    assert noise[e..][..n] == noise[e..e + n];
  }

  lemma VerdictOf(noise: Packet)
    requires Find(noise, 'E') < |noise|
    ensures FirstVerdict(noise) == Parse(noise[Find(noise, 'E')..] + PAD)
    ensures noise[Find(noise, 'E')] == 'E'
  {
    hide Parse;
    hide Find;
  }

  lemma VerdictIsUnit(t: Packet, more: Packet, n: nat)
    requires t != [] && t[0] == 'E' && n <= |t|
    requires !Parse(t + more).Incomplete? && Parse(t + more).next == n
    ensures n >= 2 && Unit(t[..n])
  {
    hide Parse;
    hide Unit;
    hide UnitReport;
    ParseTakesUnit(t + more, n);
    assert (t + more)[..n] == t[..n];
    UnitStarts(t[..n]);
  }

  /**
   * Noise clears exactly when it is a run of bytes other than 'E' and of units, however it is cut; and
   * what is reported for it is one report for each unit.
   */
  lemma ClearsIff(noise: Packet)
    ensures Clears(noise) <==> exists pieces :: InPieces(noise, pieces)
    ensures forall pieces :: InPieces(noise, pieces) ==> Clears(noise) && NoiseReports(noise) == PieceReports(pieces)
  {
    hide Clears;
    hide NoiseReports;
    hide Piece;
    if Clears(noise) {
      var pieces := PiecesOf(noise);
    }
    forall pieces | InPieces(noise, pieces)
      ensures Clears(noise) && NoiseReports(noise) == PieceReports(pieces)
    {
      PiecesClear(pieces);
    }
  }

  lemma UnitClears(u: Packet)
    requires BrokenHeader(u)
    ensures Clears(u) && NoiseReports(u) == [Rejected]
  {
    hide Clears;
    hide NoiseReports;
    hide BrokenHeader;
    hide WholeFrame;
    NotWhole(u);
    PiecesClear([u]);
    assert [u][1..] == [] && u + [] == u;
    assert Concat([u]) == u;
    assert PieceReports([u]) == [Rejected];
  }

  lemma NotWhole(u: Packet)
    requires BrokenHeader(u)
    ensures !WholeFrame(u)
  {
    hide PacketSize;
  }

  /** Each kind of broken header, on its own, does no harm to what follows it: one rejection, and no more. */
  lemma BrokenHeadersClear(x: Packet, d: Packet, c: Octet)
    requires |x| == 5 && |d| == 3 && c != ','
    ensures Clears("E" + [c]) && NoiseReports("E" + [c]) == [Rejected]
    ensures Clears("E," + x + [c]) && NoiseReports("E," + x + [c]) == [Rejected]
    ensures PacketSize(d) < 11 ==> Clears("E," + x + "," + d) && NoiseReports("E," + x + "," + d) == [Rejected]
    ensures PacketSize(d) >= 11 ==>
      Clears("E," + x + "," + d + [c]) && NoiseReports("E," + x + "," + d + [c]) == [Rejected]
  {
    hide Clears;
    hide NoiseReports;
    hide PacketSize;
    UnitClears("E" + [c]);
    UnitClears("E," + x + [c]);
    var header: Packet := "E," + x + "," + d;
    assert header[8..11] == d && (header + [c])[8..11] == d;
    if PacketSize(d) < 11 {
      UnitClears(header);
    } else {
      UnitClears(header + [c]);
    }
  }
}
