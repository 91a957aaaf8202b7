/**
 * The firmware upload of `ExxxReprograming` (exxx_reprograming.cpp): an XMODEM sender with arithmetic
 * checksum and 0xFF padding. The results of every read, write and wait are inputs.
 */
module XmodemSender {
  import opened Bytes

  const SOH: Byte := 0x01
  const EOT: Byte := 0x04
  const ACK: Byte := 0x06
  const NAK: Byte := 0x15
  const CAN: Byte := 0x18
  const EOF: Byte := 0xFF
  const DATA_SIZE := 128
  const SEND_SIZE := 132
  const FLUSH_MAX_RETRY := 100
  const COMMAND_MAX_RETRY := 10
  const UINT32 := 0x1_0000_0000

  // ---- the image in blocks ------------------------------------------------------------------------------------

  function Blocks(image: seq<Byte>): nat {
    (|image| + DATA_SIZE - 1) / DATA_SIZE
  }

  function Padding(n: nat): (p: seq<Byte>)
    ensures |p| == n
  {
    seq(n, _ => EOF)
  }

  function Padded(image: seq<Byte>): (p: seq<Byte>)
    ensures |p| == DATA_SIZE * Blocks(image)
  {
    image + Padding(DATA_SIZE * Blocks(image) - |image|)
  }

  function Slice(image: seq<Byte>, k: nat): (s: seq<Byte>)
    requires k < Blocks(image)
    ensures |s| == DATA_SIZE
  {
    Padded(image)[DATA_SIZE * k..DATA_SIZE * k + DATA_SIZE]
  }

  /** Block k on the wire: its number is k + 1 modulo 256. */
  function Block(image: seq<Byte>, k: nat): (b: seq<Byte>)
    requires k < Blocks(image)
    ensures |b| == SEND_SIZE
  {
    var n := (k + 1) % 256;
    [SOH, n, 255 - n] + Slice(image, k) + [Sum(Slice(image, k)) % 256]
  }

  /** The data section of the send buffer: what is left of the image, then padding. */
  method FillData(image: seq<Byte>, sendPos: nat, sendBuffer: array<Byte>, ghost k: nat)
    requires sendPos == DATA_SIZE * k < |image| && sendBuffer.Length == SEND_SIZE
    modifies sendBuffer
    ensures k < Blocks(image) && sendBuffer[3..131] == Slice(image, k)
    ensures sendBuffer[..3] == old(sendBuffer[..3])
  {
    ghost var slice := Slice(image, k);
    var dataSize := if |image| - sendPos < DATA_SIZE then |image| - sendPos else DATA_SIZE;
    for i := 0 to dataSize
      invariant sendBuffer[..3] == old(sendBuffer[..3])
      invariant forall m :: 3 <= m < 3 + i ==> sendBuffer[m] == slice[m - 3]
    {
      sendBuffer[3 + i] := image[sendPos + i];
    }
    for i := dataSize to DATA_SIZE
      invariant sendBuffer[..3] == old(sendBuffer[..3])
      invariant forall m :: 3 <= m < 3 + i ==> sendBuffer[m] == slice[m - 3]
    {
      sendBuffer[3 + i] := EOF;
    }
  }

  /** The arithmetic checksum, a `uint8_t` accumulator. */
  method AddUp(data: seq<Byte>) returns (checkSum: Byte)
    ensures checkSum == Sum(data) % 256
  {
    checkSum := 0;
    for i := 0 to |data|
      invariant checkSum == Sum(data[..i]) % 256
    {
      assert data[..i + 1][..i] == data[..i];
      checkSum := (checkSum + data[i]) % 256;
    }
    assert data[..|data|] == data;
  }

  /** `SendFlushBlockData` up to the write: fills the send buffer in place. */
  method FillBlock(image: seq<Byte>, sendPos: nat, blockNumber: Byte, ghost k: nat) returns (sent: seq<Byte>)
    requires sendPos == DATA_SIZE * k < |image| && blockNumber == (k + 1) % 256
    ensures k < Blocks(image) && sent == Block(image, k)
  {
    hide Slice;
    var sendBuffer := new Byte[SEND_SIZE](_ => 0);
    sendBuffer[0] := SOH;
    sendBuffer[1] := blockNumber;
    sendBuffer[2] := 255 - blockNumber;
    assert sendBuffer[..3] == [SOH, blockNumber, 255 - blockNumber];
    FillData(image, sendPos, sendBuffer, k);
    ghost var filled := sendBuffer[..131];
    assert filled == sendBuffer[..3] + sendBuffer[3..131];
    var checkSum := AddUp(sendBuffer[3..131]);
    sendBuffer[131] := checkSum;
    sent := sendBuffer[..];
    assert sent == filled + [checkSum];
  }

  // ---- the sender as a state machine --------------------------------------------------------------------------

  datatype ErrorCode = Success | TimedOut | IllegalByteSequence | Other(code: int)

  /** What the environment answers in one round: a byte read, a write, a reply line, a wait. */
  datatype Round = Round(read: ErrorCode, data: Byte, written: ErrorCode, check: ErrorCode, waited: ErrorCode)

  datatype Phase = AwaitingStart | Sending | Ending | Finished(result: ErrorCode)

  /** acked counts the blocks acknowledged, retry the rounds since the last progress. */
  datatype Sender = Sender(phase: Phase, acked: nat, retry: nat)

  datatype Stepped = Stepped(sender: Sender, writes: seq<seq<Byte>>)

  function Start(): Sender {
    Sender(AwaitingStart, 0, 0)
  }

  predicate SenderInv(image: seq<Byte>, s: Sender) {
    s.acked <= Blocks(image) &&
    match s.phase
    case AwaitingStart => s.acked == 0 && s.retry < FLUSH_MAX_RETRY
    case Sending => s.acked < Blocks(image) && s.retry < FLUSH_MAX_RETRY
    case Ending => s.acked == Blocks(image) && s.retry < COMMAND_MAX_RETRY
    case Finished(result) => result == Success ==> s.acked == Blocks(image)
  }

  function Step(image: seq<Byte>, s: Sender, r: Round): (t: Stepped)
    requires image != [] && SenderInv(image, s)
    ensures SenderInv(image, t.sender)
  {
    match s.phase
    case AwaitingStart => StartStep(image, s, r)
    case Sending => BlockStep(image, s, r)
    case Ending => EotStep(image, s, r)
    case Finished(_) => Stepped(s, [])
  }

  function Finish(s: Sender, error: ErrorCode, writes: seq<seq<Byte>>): Stepped {
    Stepped(s.(phase := Finished(error)), writes)
  }

  /** Sends block s.acked and waits for the next round. */
  function SendBlock(image: seq<Byte>, s: Sender, r: Round): Stepped
    requires s.acked < Blocks(image)
  {
    var writes := [Block(image, s.acked)];
    if r.written != Success then Finish(s, r.written, writes)
    else if r.waited != Success then Finish(s, r.waited, writes)
    else Stepped(s.(phase := Sending), writes)
  }

  /** The loop that waits for the first NAK, and the first block. */
  function StartStep(image: seq<Byte>, s: Sender, r: Round): Stepped
    requires image != [] && s.acked == 0
  {
    if r.read == Success && r.data == NAK then SendBlock(image, s.(retry := 0), r)
    else if r.read != Success && r.read != TimedOut then Finish(s, r.read, [])
    else if s.retry + 1 >= FLUSH_MAX_RETRY then Finish(s, TimedOut, [])
    else Stepped(s.(retry := s.retry + 1), [])
  }

  /** One more round without progress. */
  function Retry(s: Sender, r: Round): Stepped {
    var t := s.(retry := s.retry + 1);
    if t.retry >= FLUSH_MAX_RETRY then Finish(t, TimedOut, [])
    else if r.waited != Success then Finish(t, r.waited, [])
    else Stepped(t, [])
  }

  /** One iteration of the main loop. A timeout resends nothing; NAK resends; ACK moves on. */
  function BlockStep(image: seq<Byte>, s: Sender, r: Round): Stepped
    requires s.phase.Sending? && s.acked < Blocks(image)
  {
    if r.read == TimedOut then Retry(s, r)
    else if r.read != Success then Finish(s, r.read, [])
    else if r.data == ACK then
      var t := s.(acked := s.acked + 1, retry := 0);
      if DATA_SIZE * t.acked >= |image| then Stepped(t.(phase := Ending), [])
      else SendBlock(image, t, r)
    else if r.data == NAK then
      if s.retry + 1 < FLUSH_MAX_RETRY then SendBlock(image, s.(retry := s.retry + 1), r) else Retry(s, r)
    else if r.data == CAN then Finish(s, TimedOut, [])
    else Retry(s, r)
  }

  /** One attempt of `SendCommand(EOT, "SUCCESS")`; check is the verdict on the reply line. */
  function EotStep(image: seq<Byte>, s: Sender, r: Round): Stepped {
    var writes := [[EOT]];
    if r.written != Success then Finish(s, r.written, writes)
    else if r.check != TimedOut && r.check != IllegalByteSequence then Finish(s, r.check, writes)
    else if s.retry + 1 >= COMMAND_MAX_RETRY then Finish(s, TimedOut, writes)
    else if r.waited != Success then Finish(s, r.waited, writes)
    else Stepped(s.(retry := s.retry + 1), writes)
  }

  function Run(image: seq<Byte>, rounds: seq<Round>): (t: Stepped)
    requires image != []
    ensures SenderInv(image, t.sender)
    decreases |rounds|
  {
    if rounds == [] then Stepped(Start(), [])
    else
      var before := Run(image, rounds[..|rounds| - 1]);
      var last := Step(image, before.sender, rounds[|rounds| - 1]);
      Stepped(last.sender, before.writes + last.writes)
  }

  // ---- what the sender guarantees for any replies -------------------------------------------------------------

  function CountAcks(image: seq<Byte>, rounds: seq<Round>): nat
    requires image != []
    decreases |rounds|
  {
    if rounds == [] then 0
    else
      var n, r := |rounds| - 1, rounds[|rounds| - 1];
      CountAcks(image, rounds[..n]) +
      (if Run(image, rounds[..n]).sender.phase.Sending? && r.read == Success && r.data == ACK then 1 else 0)
  }

  /**
   * Whatever the environment answers: what the last round writes is block k, where k is the number of
   * ACKs read by the main loop so far, or EOT once every block has been acknowledged; and a
   * successful upload means that all of them were.
   */
  lemma {:induction false} WritesFollowAcks(image: seq<Byte>, rounds: seq<Round>)
    requires image != []
    ensures Run(image, rounds).sender.acked == CountAcks(image, rounds) <= Blocks(image)
    ensures rounds != [] ==>
      var n := |rounds| - 1;
      var w := Step(image, Run(image, rounds[..n]).sender, rounds[n]).writes;
      var k := CountAcks(image, rounds);
      w == [] || (k < Blocks(image) && w == [Block(image, k)]) || (k == Blocks(image) && w == [[EOT]])
    ensures Run(image, rounds).sender.phase == Finished(Success) ==> CountAcks(image, rounds) == Blocks(image)
    decreases |rounds|
  {
    hide Step;
    if rounds != [] {
      var n := |rounds| - 1;
      WritesFollowAcks(image, rounds[..n]);
      StepWrites(image, Run(image, rounds[..n]).sender, rounds[n]);
    }
  }

  lemma StepWrites(image: seq<Byte>, s: Sender, r: Round)
    requires image != [] && SenderInv(image, s)
    ensures var t := Step(image, s, r);
      var k := t.sender.acked;
      k == s.acked + (if s.phase.Sending? && r.read == Success && r.data == ACK then 1 else 0) &&
      (t.writes == [] ||
       (k < Blocks(image) && t.writes == [Block(image, k)]) || (k == Blocks(image) && t.writes == [[EOT]]))
  {
    hide Block;
  }

  function LoopReads(image: seq<Byte>, rounds: seq<Round>): nat
    requires image != []
    decreases |rounds|
  {
    if rounds == [] then 0
    else
      var n := |rounds| - 1;
      LoopReads(image, rounds[..n]) + (if Run(image, rounds[..n]).sender.phase.Sending? then 1 else 0)
  }

  /** The main loop reads at most 100 times per block. */
  lemma {:induction false} ReadsBounded(image: seq<Byte>, rounds: seq<Round>)
    requires image != []
    ensures LoopReads(image, rounds) <= 100 * Blocks(image)
    ensures var s := Run(image, rounds).sender;
      LoopReads(image, rounds) <= FLUSH_MAX_RETRY * s.acked + Slack(s)
    decreases |rounds|
  {
    hide Step;
    if rounds != [] {
      var n := |rounds| - 1;
      ReadsBounded(image, rounds[..n]);
      StepReads(image, Run(image, rounds[..n]).sender, rounds[n]);
    }
  }

  /** The reads since the last ACK. */
  function Slack(s: Sender): nat {
    match s.phase
    case Sending => s.retry
    case Finished(_) => FLUSH_MAX_RETRY
    case _ => 0
  }

  lemma StepReads(image: seq<Byte>, s: Sender, r: Round)
    requires image != [] && SenderInv(image, s)
    ensures var t := Step(image, s, r).sender;
      FLUSH_MAX_RETRY * s.acked + Slack(s) + (if s.phase.Sending? then 1 else 0)
        <= FLUSH_MAX_RETRY * t.acked + Slack(t)
    ensures s.phase.Sending? ==> FLUSH_MAX_RETRY * s.acked + Slack(s) + 1 <= FLUSH_MAX_RETRY * Blocks(image)
  {
    hide Block;
  }

  // ---- termination --------------------------------------------------------------------------------------------

  /** An upper bound on the rounds still to come. */
  function Remaining(image: seq<Byte>, s: Sender): int {
    match s.phase
    case AwaitingStart => FLUSH_MAX_RETRY - s.retry + FLUSH_MAX_RETRY * Blocks(image) + COMMAND_MAX_RETRY
    case Sending => FLUSH_MAX_RETRY * (Blocks(image) - s.acked) - s.retry + COMMAND_MAX_RETRY
    case Ending => COMMAND_MAX_RETRY - s.retry
    case Finished(_) => 0
  }

  lemma StepProgresses(image: seq<Byte>, s: Sender, r: Round)
    requires image != [] && SenderInv(image, s) && !s.phase.Finished?
    ensures Remaining(image, Step(image, s, r).sender) < Remaining(image, s)
  {
    hide Block;
  }

  /** The upload ends after at most 110 + 100 * Blocks rounds, whatever the environment does. */
  lemma {:induction false} UploadTerminates(image: seq<Byte>, rounds: seq<Round>)
    requires image != []
    ensures var s := Run(image, rounds).sender;
      s.phase.Finished? ||
      Remaining(image, s) + |rounds| <= FLUSH_MAX_RETRY + FLUSH_MAX_RETRY * Blocks(image) + COMMAND_MAX_RETRY
    ensures |rounds| >= 110 + 100 * Blocks(image) ==> Run(image, rounds).sender.phase.Finished?
    decreases |rounds|
  {
    hide Step;
    if rounds != [] {
      var n := |rounds| - 1;
      UploadTerminates(image, rounds[..n]);
      if !Run(image, rounds[..n]).sender.phase.Finished? {
        StepProgresses(image, Run(image, rounds[..n]).sender, rounds[n]);
      } else {
        FinishedStays(image, Run(image, rounds[..n]).sender, rounds[n]);
      }
    }
  }

  lemma FinishedStays(image: seq<Byte>, s: Sender, r: Round)
    requires image != [] && SenderInv(image, s) && s.phase.Finished?
    ensures Step(image, s, r) == Stepped(s, [])
  {
  }

  // ---- the upload loop ----------------------------------------------------------------------------------------

  predicate LongEnough(image: seq<Byte>, rounds: seq<Round>) {
    |rounds| >= FLUSH_MAX_RETRY + FLUSH_MAX_RETRY * Blocks(image) + COMMAND_MAX_RETRY
  }

  lemma NextRound(image: seq<Byte>, rounds: seq<Round>, i: nat)
    requires image != [] && LongEnough(image, rounds) && i <= |rounds|
    requires !Run(image, rounds[..i]).sender.phase.Finished?
    ensures i < |rounds|
    ensures var before := Run(image, rounds[..i]);
      var last := Step(image, before.sender, rounds[i]);
      Run(image, rounds[..i + 1]) == Stepped(last.sender, before.writes + last.writes)
  {
    hide Step;
    UploadTerminates(image, rounds[..i]);
    assert rounds[..i + 1][..i] == rounds[..i];
  }

  /** The wait for the request to send, and the first block. */
  method AwaitStart(image: seq<Byte>, rounds: seq<Round>) returns (error: ErrorCode, i: nat, writes: seq<seq<Byte>>)
    requires image != [] && LongEnough(image, rounds)
    ensures i <= |rounds|
    ensures Run(image, rounds[..i]).writes == writes
    ensures var s := Run(image, rounds[..i]).sender;
      if error == Success then s == Sender(Sending, 0, 0) else s.phase == Finished(error)
  {
    hide Block;
    hide BlockStep;
    hide EotStep;
    hide LongEnough;
    var retryCount := 0;
    i, writes := 0, [];
    while true
      invariant i <= |rounds| && retryCount < FLUSH_MAX_RETRY
      invariant Run(image, rounds[..i]) == Stepped(Sender(AwaitingStart, 0, retryCount), writes) && writes == []
      decreases |rounds| - i
    {
      NextRound(image, rounds, i);
      var r := rounds[i];
      i := i + 1;
      error := r.read;
      if error == Success && r.data == NAK {
        var block := FillBlock(image, 0, 1, 0);
        writes := writes + [block];
        error := if r.written == Success then r.waited else r.written;
        return;
      } else if error != Success && error != TimedOut {
        return;
      }
      retryCount := retryCount + 1;
      if retryCount >= FLUSH_MAX_RETRY {
        error := TimedOut;
        return;
      }
    }
  }

  /** Where a block starts, and when it is the last one. */
  lemma Positions(image: seq<Byte>, k: nat)
    requires image != []
    ensures k < Blocks(image) <==> DATA_SIZE * k < |image|
    ensures k + 1 < Blocks(image) <==> DATA_SIZE * (k + 1) < |image|
    ensures k < Blocks(image) ==> DATA_SIZE * (k + 1) < |image| + DATA_SIZE
  {
  }

  /** The main loop, with send_pos a `uint32_t` and block_number a `uint8_t`. */
  method SendBlocks(image: seq<Byte>, rounds: seq<Round>, start: nat, sent: seq<seq<Byte>>)
    returns (error: ErrorCode, i: nat, writes: seq<seq<Byte>>)
    requires 0 < |image| <= UINT32 - DATA_SIZE && LongEnough(image, rounds) && start <= |rounds|
    requires Run(image, rounds[..start]) == Stepped(Sender(Sending, 0, 0), sent)
    ensures start <= i <= |rounds|
    ensures Run(image, rounds[..i]).writes == writes
    ensures var s := Run(image, rounds[..i]).sender;
      if error == Success then s.phase == Ending && s.retry == 0 else s.phase == Finished(error)
  {
    hide Block;
    hide Blocks;
    hide StartStep;
    hide EotStep;
    hide Run;
    hide LongEnough;
    Positions(image, 0);
    var retryCount, sendPos, blockNumber: Byte := 0, 0, 1;
    ghost var k := 0;
    i, writes := start, sent;
    while true
      invariant start <= i <= |rounds|
      invariant k < Blocks(image) && sendPos == DATA_SIZE * k && blockNumber == (k + 1) % 256
      invariant retryCount < FLUSH_MAX_RETRY
      invariant Run(image, rounds[..i]) == Stepped(Sender(Sending, k, retryCount), writes)
      decreases |rounds| - i
    {
      Positions(image, k);
      NextRound(image, rounds, i);
      var r := rounds[i];
      i := i + 1;
      error := r.read;
      if error == TimedOut {
        retryCount := retryCount + 1;
      } else if error != Success {
        return;
      } else if r.data == ACK {
        retryCount := 0;
        sendPos := (sendPos + DATA_SIZE) % UINT32;
        blockNumber := (blockNumber + 1) % 256;
        k := k + 1;
        if sendPos >= |image| {
          return;
        }
        var block := FillBlock(image, sendPos, blockNumber, k);
        writes := writes + [block];
        error := r.written;
        if error != Success {
          return;
        }
      } else if r.data == NAK {
        retryCount := retryCount + 1;
        if retryCount < FLUSH_MAX_RETRY {
          var block := FillBlock(image, sendPos, blockNumber, k);
          writes := writes + [block];
          error := r.written;
          if error != Success {
            return;
          }
        }
      } else if r.data == CAN {
        error := TimedOut;
        return;
      } else {
        retryCount := retryCount + 1;
      }
      if retryCount >= FLUSH_MAX_RETRY {
        error := TimedOut;
        return;
      }
      error := r.waited;
      if error != Success {
        return;
      }
    }
  }

  /** `SendCommand` for the end of transmission. */
  method SendEot(image: seq<Byte>, rounds: seq<Round>, start: nat, sent: seq<seq<Byte>>)
    returns (error: ErrorCode, i: nat, writes: seq<seq<Byte>>)
    requires image != [] && LongEnough(image, rounds) && start <= |rounds|
    requires var t := Run(image, rounds[..start]);
      t.sender.phase == Ending && t.sender.retry == 0 && t.writes == sent
    ensures start <= i <= |rounds|
    ensures Run(image, rounds[..i]).writes == writes && Run(image, rounds[..i]).sender.phase == Finished(error)
  {
    hide StartStep;
    hide BlockStep;
    hide Run;
    hide LongEnough;
    var retryCount := 0;
    i, writes := start, sent;
    while true
      invariant start <= i <= |rounds| && retryCount < COMMAND_MAX_RETRY
      invariant var t := Run(image, rounds[..i]);
        t.sender.phase == Ending && t.sender.retry == retryCount && t.writes == writes
      decreases |rounds| - i
    {
      NextRound(image, rounds, i);
      var r := rounds[i];
      i := i + 1;
      writes := writes + [[EOT]];
      error := r.written;
      if error != Success {
        return;
      }
      error := r.check;
      if error == Success {
        return;
      } else if error != TimedOut && error != IllegalByteSequence {
        return;
      }
      retryCount := retryCount + 1;
      if retryCount >= COMMAND_MAX_RETRY {
        error := TimedOut;
        return;
      }
      error := r.waited;
      if error != Success {
        return;
      }
    }
  }

  /** Rounds beyond the end of the upload change nothing. */
  lemma {:induction false} OnceFinished(image: seq<Byte>, rounds: seq<Round>, i: nat, n: nat)
    requires image != [] && i <= n <= |rounds| && Run(image, rounds[..i]).sender.phase.Finished?
    ensures Run(image, rounds[..n]) == Run(image, rounds[..i])
    decreases n
  {
    hide Step;
    if i < n {
      OnceFinished(image, rounds, i, n - 1);
      assert rounds[..n][..n - 1] == rounds[..n - 1];
      FinishedStays(image, Run(image, rounds[..i]).sender, rounds[n - 1]);
    }
  }

  /** `FlushXmodem`: runs the state machine to its end and reports its result and everything it wrote. */
  method FlushXmodem(image: seq<Byte>, rounds: seq<Round>) returns (error: ErrorCode, writes: seq<seq<Byte>>)
    requires 0 < |image| <= UINT32 - DATA_SIZE && LongEnough(image, rounds)
    ensures Run(image, rounds).sender.phase == Finished(error)
    ensures Run(image, rounds).writes == writes
    ensures error == Success ==> CountAcks(image, rounds) == Blocks(image)
  {
    hide Step;
    hide Run;
    hide LongEnough;
    var i;
    error, i, writes := AwaitStart(image, rounds);
    if error == Success {
      error, i, writes := SendBlocks(image, rounds, i, writes);
      if error == Success {
        error, i, writes := SendEot(image, rounds, i, writes);
      }
    }
    OnceFinished(image, rounds, i, |rounds|);
    assert rounds[..|rounds|] == rounds;
    WritesFollowAcks(image, rounds);
  }
}
