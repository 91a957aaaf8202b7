/**
 * What each reply of the receiver does to the upload (exxx_reprograming.cpp:508-666), for every image and
 * every run: what ends it and with which error, what is sent again, and how often.
 */
module XmodemReplies {
  import opened Bytes
  import opened XmodemSender

  // ---- the bytes of a block -----------------------------------------------------------------------------------

  /** Block k on the wire: header, number and its complement, 128 bytes of the image or 0xFF, and their sum. */
  lemma BlockBytes(image: seq<Byte>, k: nat, i: nat)
    requires 128 * k < |image| && i < 128
    ensures k < Blocks(image)
    ensures var b := Block(image, k);
      |b| == 132 && b[0] == 0x01 && b[1] == (k + 1) % 256 && b[1] + b[2] == 255 &&
      b[3 + i] == (if 128 * k + i < |image| then image[128 * k + i] else 0xFF) &&
      b[131] == Sum(b[3..131]) % 256
  {
    hide Sum;
    hide Slice;
    Positions(image, k);
    SliceAt(image, k, i);
    var b := Block(image, k);
    assert b[3..131] == Slice(image, k);
  }

  lemma SliceAt(image: seq<Byte>, k: nat, i: nat)
    requires 128 * k < |image| && i < 128 && k < Blocks(image)
    ensures Slice(image, k)[i] == if 128 * k + i < |image| then image[128 * k + i] else 0xFF
  {
    hide Blocks;
    hide Sum;
    var n := 128 * k + i;
    assert Slice(image, k)[i] == Padded(image)[n];
  }

  // ---- cancellation -------------------------------------------------------------------------------------------

  /** Round n is one in which the main loop reads. */
  predicate MainLoop(image: seq<Byte>, rounds: seq<Round>, n: nat)
    requires image != [] && n < |rounds|
  {
    Run(image, rounds[..n]).sender.phase.Sending?
  }

  predicate Reads(r: Round, b: Byte) {
    r.read == Success && r.data == b
  }

  /** The result of round n, whatever round it is. */
  lemma RoundAt(image: seq<Byte>, rounds: seq<Round>, n: nat)
    requires image != [] && n < |rounds|
    ensures var before := Run(image, rounds[..n]);
      var last := Step(image, before.sender, rounds[n]);
      Run(image, rounds[..n + 1]) == Stepped(last.sender, before.writes + last.writes)
  {
    hide Step;
    assert rounds[..n + 1][..n] == rounds[..n];
  }

  /** A finished upload stays as it is. */
  lemma EndsThere(image: seq<Byte>, rounds: seq<Round>, n: nat)
    requires image != [] && n < |rounds| && Run(image, rounds[..n + 1]).sender.phase.Finished?
    ensures Run(image, rounds) == Run(image, rounds[..n + 1])
  {
    hide Run;
    OnceFinished(image, rounds, n + 1, |rounds|);
    assert rounds[..|rounds|] == rounds;
  }

  /** A CAN read by the main loop ends the upload at once as timed out: nothing more is written. */
  lemma CancelEndsUpload(image: seq<Byte>, rounds: seq<Round>, n: nat)
    requires image != [] && n < |rounds| && MainLoop(image, rounds, n) && Reads(rounds[n], 0x18)
    ensures Run(image, rounds).sender.phase == Finished(TimedOut)
    ensures Run(image, rounds).writes == Run(image, rounds[..n]).writes
  {
    hide Run;
    RoundAt(image, rounds, n);
    var before := Run(image, rounds[..n]);
    assert before.writes + [] == before.writes;
    EndsThere(image, rounds, n);
  }

  /** Hence a successful upload is one that the receiver never cancelled. */
  lemma SuccessIsUncancelled(image: seq<Byte>, rounds: seq<Round>, n: nat)
    requires image != [] && n < |rounds| && Run(image, rounds).sender.phase == Finished(Success)
    ensures MainLoop(image, rounds, n) ==> !Reads(rounds[n], 0x18)
  {
    hide Run;
    if MainLoop(image, rounds, n) && Reads(rounds[n], 0x18) {
      CancelEndsUpload(image, rounds, n);
    }
  }

  // ---- the wait for the first NAK -----------------------------------------------------------------------------

  /** Nothing was read, or a byte that does not ask for the upload. */
  predicate Quiet(r: Round) {
    r.read == TimedOut || (r.read == Success && r.data != 0x15)
  }

  /** Without a NAK the sender waits for exactly 100 rounds, sends nothing, and gives up. */
  lemma {:induction false} StartGivesUp(image: seq<Byte>, rounds: seq<Round>)
    requires image != [] && forall i :: 0 <= i < |rounds| ==> Quiet(rounds[i])
    ensures var t := Run(image, rounds);
      t.writes == [] && t.sender.acked == 0 &&
      (t.sender.phase == Finished(TimedOut) <==> |rounds| >= 100) &&
      (|rounds| < 100 ==> t.sender.phase.AwaitingStart? && t.sender.retry == |rounds|)
    decreases |rounds|
  {
    hide SendBlock;
    if rounds != [] {
      StartGivesUp(image, rounds[..|rounds| - 1]);
    }
  }

  /** The first NAK before that has block 0 sent; any read error before it ends the upload with that error. */
  lemma StartAnswered(image: seq<Byte>, rounds: seq<Round>, n: nat)
    requires image != [] && n < |rounds| && n < 100
    requires forall i :: 0 <= i < n ==> Quiet(rounds[i])
    requires !Quiet(rounds[n])
    ensures 0 < Blocks(image)
    ensures var r := rounds[n];
      var t := Run(image, rounds[..n + 1]);
      if Reads(r, 0x15) then
        t.writes == [Block(image, 0)] && t.sender.acked == 0 &&
        t.sender.phase == (if r.written != Success then Finished(r.written)
                           else if r.waited != Success then Finished(r.waited) else Sending) &&
        (t.sender.phase.Sending? ==> t.sender.retry == 0)
      else t.writes == [] && t.sender.phase == Finished(r.read)
  {
    hide Run;
    hide Block;
    hide Blocks;
    Positions(image, 0);
    RoundAt(image, rounds, n);
    StartGivesUp(image, rounds[..n]);
  }

  // ---- the main loop ------------------------------------------------------------------------------------------

  /** How many reads of the main loop in a row have brought no ACK. */
  function Fruitless(image: seq<Byte>, rounds: seq<Round>): nat
    requires image != []
    decreases |rounds|
  {
    if rounds == [] then 0
    else
      var n := |rounds| - 1;
      if MainLoop(image, rounds, n) && !Reads(rounds[n], 0x06) then Fruitless(image, rounds[..n]) + 1 else 0
  }

  lemma {:induction false} RetriesAreFruitless(image: seq<Byte>, rounds: seq<Round>)
    requires image != []
    ensures var s := Run(image, rounds).sender; s.phase.Sending? ==> s.retry == Fruitless(image, rounds)
    decreases |rounds|
  {
    hide Step;
    if rounds != [] {
      var n := |rounds| - 1;
      RetriesAreFruitless(image, rounds[..n]);
      RetryStep(image, Run(image, rounds[..n]).sender, rounds[n]);
    }
  }

  lemma RetryStep(image: seq<Byte>, s: Sender, r: Round)
    requires image != [] && SenderInv(image, s)
    ensures var t := Step(image, s, r).sender;
      t.phase.Sending? ==> t.retry == if s.phase.Sending? && !Reads(r, 0x06) then s.retry + 1 else 0
  {
    hide Block;
  }

  /** What a main-loop round writes after k acknowledgements: the next block on an ACK, block k again on a NAK. */
  function Reply(image: seq<Byte>, k: nat, fruitless: nat, r: Round): seq<seq<Byte>>
    requires image != []
  {
    if Reads(r, 0x06) && 128 * (k + 1) < |image| then [Sent(image, k + 1)]
    else if Reads(r, 0x15) && fruitless < 99 && 128 * k < |image| then [Sent(image, k)]
    else []
  }

  function Sent(image: seq<Byte>, k: nat): seq<Byte>
    requires 128 * k < |image|
  {
    Positions(image, k);
    Block(image, k)
  }

  /**
   * Every round of the main loop, in any run. It writes a block on an ACK that leaves one to send and on a
   * NAK, and nothing otherwise; a timeout never sends anything again. The upload ends in this round
   * exactly on a read error, a CAN, the 100th fruitless read in a row, or an error of the write or of
   * the wait, and with that error; and the last ACK turns to the end of transmission.
   */
  lemma MainLoopRound(image: seq<Byte>, rounds: seq<Round>, n: nat)
    requires image != [] && n < |rounds| && MainLoop(image, rounds, n)
    ensures var before, after := Run(image, rounds[..n]), Run(image, rounds[..n + 1]);
      var r := rounds[n];
      var k := CountAcks(image, rounds[..n]);
      var idle := Fruitless(image, rounds[..n]);
      var wrote := Reply(image, k, idle, r);
      128 * k < |image| &&
      after.writes == before.writes + wrote &&
      after.sender.phase ==
        if r.read != Success && r.read != TimedOut then Finished(r.read)
        else if Reads(r, 0x18) then Finished(TimedOut)
        else if Reads(r, 0x06) && 128 * (k + 1) >= |image| then Ending
        else if wrote != [] && r.written != Success then Finished(r.written)
        else if !Reads(r, 0x06) && idle + 1 >= 100 then Finished(TimedOut)
        else if r.waited != Success then Finished(r.waited)
        else Sending
  {
    hide Run;
    hide Block;
    hide Blocks;
    hide Fruitless;
    RoundAt(image, rounds, n);
    RetriesAreFruitless(image, rounds[..n]);
    WritesFollowAcks(image, rounds[..n]);
    var s := Run(image, rounds[..n]).sender;
    Positions(image, s.acked);
    RoundOf(image, s, rounds[n]);
  }

  lemma RoundOf(image: seq<Byte>, s: Sender, r: Round)
    requires image != [] && SenderInv(image, s) && s.phase.Sending? && 128 * s.acked < |image|
    ensures var t := Step(image, s, r);
      var wrote := Reply(image, s.acked, s.retry, r);
      t.writes == wrote &&
      t.sender.phase ==
        if r.read != Success && r.read != TimedOut then Finished(r.read)
        else if Reads(r, 0x18) then Finished(TimedOut)
        else if Reads(r, 0x06) && 128 * (s.acked + 1) >= |image| then Ending
        else if wrote != [] && r.written != Success then Finished(r.written)
        else if !Reads(r, 0x06) && s.retry + 1 >= 100 then Finished(TimedOut)
        else if r.waited != Success then Finished(r.waited)
        else Sending
  {
    hide Block;
    hide Blocks;
    Positions(image, s.acked);
    if Reads(r, 0x06) {
      if 128 * (s.acked + 1) < |image| {
        Positions(image, s.acked + 1);
      }
    }
  }

  // ---- the end of transmission --------------------------------------------------------------------------------

  /** The receiver takes an EOT and answers with another line or none. */
  predicate Unconfirmed(r: Round) {
    r.written == Success && (r.check == TimedOut || r.check == IllegalByteSequence) && r.waited == Success
  }

  /** Every attempt writes one EOT; without a confirmation there are exactly 10 of them. */
  lemma {:induction false} EotGivesUp(image: seq<Byte>, rounds: seq<Round>, start: nat, j: nat)
    requires image != [] && start + j <= |rounds| && j <= 10
    requires var s := Run(image, rounds[..start]).sender; s.phase.Ending? && s.retry == 0
    requires forall i :: start <= i < start + j ==> Unconfirmed(rounds[i])
    ensures var t := Run(image, rounds[..start + j]);
      t.writes == Run(image, rounds[..start]).writes + seq(j, _ => [0x04]) &&
      if j < 10 then t.sender.phase.Ending? && t.sender.retry == j else t.sender.phase == Finished(TimedOut)
    decreases j
  {
    hide Run;
    if j > 0 {
      EotGivesUp(image, rounds, start, j - 1);
      RoundAt(image, rounds, start + j - 1);
      assert seq(j, _ => [0x04 as Byte]) == seq(j - 1, _ => [0x04]) + [[0x04]];
    }
  }

  /** An attempt that is not unconfirmed ends the upload with the error of the write, the check or the wait. */
  lemma EotAnswered(image: seq<Byte>, rounds: seq<Round>, start: nat, j: nat)
    requires image != [] && start + j < |rounds| && j < 10
    requires var s := Run(image, rounds[..start]).sender; s.phase.Ending? && s.retry == 0
    requires forall i :: start <= i < start + j ==> Unconfirmed(rounds[i])
    requires !Unconfirmed(rounds[start + j])
    ensures var t := Run(image, rounds);
      var r := rounds[start + j];
      t.writes == Run(image, rounds[..start]).writes + seq(j + 1, _ => [0x04]) &&
      t.sender.phase == Finished(
        if r.written != Success then r.written
        else if r.check == Success then Success
        else if r.check != TimedOut && r.check != IllegalByteSequence then r.check
        else if j == 9 then TimedOut else r.waited)
  {
    hide Run;
    EotGivesUp(image, rounds, start, j);
    RoundAt(image, rounds, start + j);
    EndsThere(image, rounds, start + j);
    assert seq(j + 1, _ => [0x04 as Byte]) == seq(j, _ => [0x04]) + [[0x04]];
  }

  /** The main loop hands over to it with no attempt made. */
  lemma EotStartsAfresh(image: seq<Byte>, rounds: seq<Round>)
    requires image != [] && rounds != [] && Run(image, rounds).sender.phase.Ending?
    requires MainLoop(image, rounds, |rounds| - 1)
    ensures Run(image, rounds).sender.retry == 0
  {
    hide Block;
  }
}
