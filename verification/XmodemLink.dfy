/**
 * The XMODEM sender against an explicit environment: a receiver that stores only the block it expects,
 * and a serial line that delivers in order but may lose, repeat on request, corrupt and add bytes.
 */
module XmodemLink {
  import opened Bytes
  import opened XmodemSender

  // ---- the receiver -------------------------------------------------------------------------------------------

  /** The receiver's check of a block: start byte, complement and checksum. */
  predicate WellFormed(b: seq<Byte>) {
    |b| == SEND_SIZE && b[0] == SOH && b[2] == 255 - b[1] && b[131] == Sum(b[3..131]) % 256
  }

  /** count blocks have been stored; the next number expected is count + 1 modulo 256. */
  datatype Receiver = Receiver(count: nat, stored: seq<Byte>)

  datatype Taken = Taken(receiver: Receiver, reply: Byte)

  function Take(r: Receiver, b: seq<Byte>): Taken {
    if !WellFormed(b) then Taken(r, NAK)
    else if b[1] == (r.count + 1) % 256 then Taken(Receiver(r.count + 1, r.stored + b[3..131]), ACK)
    else if b[1] == r.count % 256 then Taken(r, ACK)
    else Taken(r, CAN)
  }

  // ---- sender, receiver and line ------------------------------------------------------------------------------

  /** The blocks on their way to the receiver and the replies on their way back, oldest first. */
  datatype World = World(sender: Sender, receiver: Receiver, blocks: seq<seq<Byte>>, replies: seq<Byte>)

  datatype Action =
    | SenderReads(round: Round)        // the sender runs one round on a noise byte, or on nothing
    | SenderGetsReply(round: Round)    // ... on the oldest reply
    | Arrive(block: seq<Byte>)         // the receiver takes what has become of the oldest block
    | LoseBlock(i: nat)
    | LoseReply(i: nat)
    | ReceiverNags                     // the receiver times out and asks again

  predicate IsSender(a: Action) {
    a.SenderReads? || a.SenderGetsReply?
  }

  /** Blocks go out in order. A failed write may still leave a block, possibly corrupted, on the line. */
  function Departed(writes: seq<seq<Byte>>): seq<seq<Byte>> {
    if writes != [] && |writes[0]| == SEND_SIZE then [writes[0]] else []
  }

  function Sent(image: seq<Byte>, w: World, r: Round): World
    requires image != [] && SenderInv(image, w.sender)
  {
    var t := Step(image, w.sender, r);
    w.(sender := t.sender, blocks := w.blocks + Departed(t.writes))
  }

  function Without<T>(s: seq<T>, i: nat): seq<T> {
    if i < |s| then s[..i] + s[i + 1..] else s
  }

  function Next(image: seq<Byte>, w: World, a: Action): (n: World)
    requires image != [] && SenderInv(image, w.sender)
    ensures SenderInv(image, n.sender)
  {
    match a
    case SenderReads(r) => Sent(image, w, r)
    case SenderGetsReply(r) => Sent(image, w, r).(replies := Without(w.replies, 0))
    case Arrive(b) =>
      var taken := Take(w.receiver, b);
      w.(receiver := taken.receiver, blocks := Without(w.blocks, 0), replies := w.replies + [taken.reply])
    case LoseBlock(i) => w.(blocks := Without(w.blocks, i))
    case LoseReply(i) => w.(replies := Without(w.replies, i))
    case ReceiverNags => w.(replies := w.replies + [NAK])
  }

  function Begin(): World {
    World(Start(), Receiver(0, []), [], [])
  }

  // ---- runs and what may be said of their steps ---------------------------------------------------------------

  datatype Rule = Physical | Intact | Calm | Honest | NoNoise | NoNoiseAck | OneReply | StaysInStep

  /** The sender reads an ACK in its main loop. */
  predicate ReadsAck(w: World, a: Action) {
    IsSender(a) && w.sender.phase.Sending? && a.round.read == Success && a.round.data == ACK
  }

  predicate Quiet(w: World) {
    w.blocks == [] && w.replies == []
  }

  /** The receiver holds the first `count` padded blocks, and is at most one block ahead of the ACKs. */
  predicate InStep(image: seq<Byte>, w: World) {
    w.receiver.count <= Blocks(image) &&
    w.receiver.stored == Padded(image)[..DATA_SIZE * w.receiver.count] &&
    w.sender.acked <= w.receiver.count <= w.sender.acked + 1
  }

  predicate Keeps(image: seq<Byte>, w: World, a: Action, rule: Rule)
    requires image != [] && SenderInv(image, w.sender)
  {
    match rule
    // The line delivers in order, and corruption never produces a well-formed block.
    case Physical =>
      (match a
       case SenderGetsReply(r) => w.replies != [] && r.read == Success && r.data == w.replies[0]
       case Arrive(b) => w.blocks != [] && (b == w.blocks[0] || !WellFormed(b))
       case _ => true)
    // No block is corrupted.
    case Intact => a.Arrive? ==> w.blocks != [] && a.block == w.blocks[0]
    // The receiver asks again, or noise does, only when nothing is under way; noise is never an ACK.
    case Calm =>
      (match a
       case SenderReads(r) => r.read == Success ==> r.data != ACK && (r.data == NAK ==> Quiet(w))
       case ReceiverNags => Quiet(w)
       case _ => true)
    // An ACK is read only once the current block is stored.
    case Honest => ReadsAck(w, a) ==> w.sender.acked < w.receiver.count
    case NoNoise => a.SenderReads? ==> a.round.read != Success
    case NoNoiseAck => a.SenderReads? && a.round.read == Success ==> a.round.data != ACK
    case OneReply => |Next(image, w, a).replies| <= 1
    case StaysInStep => InStep(image, Next(image, w, a))
  }

  predicate Throughout(image: seq<Byte>, w: World, actions: seq<Action>, rule: Rule)
    requires image != [] && SenderInv(image, w.sender)
    decreases |actions|
  {
    actions == [] ||
    (Keeps(image, w, actions[0], rule) && Throughout(image, Next(image, w, actions[0]), actions[1..], rule))
  }

  function After(image: seq<Byte>, w: World, actions: seq<Action>): (n: World)
    requires image != [] && SenderInv(image, w.sender)
    ensures SenderInv(image, n.sender)
    decreases |actions|
  {
    if actions == [] then w else After(image, Next(image, w, actions[0]), actions[1..])
  }

  // ---- the invariant ------------------------------------------------------------------------------------------

  predicate IsBlock(image: seq<Byte>, b: seq<Byte>, k: int) {
    0 <= k < Blocks(image) && b == Block(image, k)
  }

  /**
   * The blocks under way are spare copies of the last block stored, followed by copies of the one after
   * it, which the sender has reached.
   */
  predicate Queued(image: seq<Byte>, w: World) {
    var c := w.receiver.count;
    (forall i :: 0 <= i < |w.blocks| ==>
      IsBlock(image, w.blocks[i], c - 1) || (IsBlock(image, w.blocks[i], c) && c <= w.sender.acked)) &&
    (forall i, j :: 0 <= i < j < |w.blocks| && IsBlock(image, w.blocks[i], c) ==> IsBlock(image, w.blocks[j], c))
  }

  predicate Inv(image: seq<Byte>, w: World) {
    image != [] && SenderInv(image, w.sender) && InStep(image, w) && Queued(image, w) &&
    (w.sender.phase.AwaitingStart? ==> w.blocks == [] && w.receiver.count == 0)
  }

  lemma BeginInv(image: seq<Byte>)
    requires image != []
    ensures Inv(image, Begin()) && CalmInv(image, Begin())
  {
    assert Padded(image)[..0] == [];
  }

  lemma BlockWellFormed(image: seq<Byte>, k: nat)
    requires k < Blocks(image)
    ensures WellFormed(Block(image, k)) && Block(image, k)[1] == (k + 1) % 256
    ensures Block(image, k)[3..131] == Slice(image, k)
  {
    assert Block(image, k)[3..131] == Slice(image, k);
  }

  /** Neighbouring blocks differ in their numbers. */
  lemma NeighboursDiffer(image: seq<Byte>, b: seq<Byte>, k: int)
    ensures !(IsBlock(image, b, k) && IsBlock(image, b, k - 1))
  {
    hide Slice;
    if 0 < k < Blocks(image) {
      assert Block(image, k)[1] != Block(image, k - 1)[1];
    }
  }

  lemma StoreSlice(image: seq<Byte>, k: nat)
    requires k < Blocks(image)
    ensures Padded(image)[..DATA_SIZE * k] + Slice(image, k) == Padded(image)[..DATA_SIZE * (k + 1)]
  {
  }

  /** How the receiver takes the blocks the invariant allows. */
  lemma TakeBlock(image: seq<Byte>, r: Receiver, b: seq<Byte>)
    requires r.count <= Blocks(image) && r.stored == Padded(image)[..DATA_SIZE * r.count]
    ensures IsBlock(image, b, r.count) ==>
      Take(r, b) == Taken(Receiver(r.count + 1, Padded(image)[..DATA_SIZE * (r.count + 1)]), ACK)
    ensures IsBlock(image, b, r.count - 1) ==> Take(r, b) == Taken(r, ACK)
    ensures !WellFormed(b) ==> Take(r, b) == Taken(r, NAK)
  {
    hide Block;
    hide Slice;
    hide WellFormed;
    if IsBlock(image, b, r.count) {
      BlockWellFormed(image, r.count);
      StoreSlice(image, r.count);
    }
    if IsBlock(image, b, r.count - 1) {
      BlockWellFormed(image, r.count - 1);
    }
  }

  lemma ArriveKeeps(image: seq<Byte>, w: World, b: seq<Byte>)
    requires Inv(image, w) && Keeps(image, w, Arrive(b), Physical)
    ensures Inv(image, Next(image, w, Arrive(b)))
  {
    hide IsBlock;
    hide WellFormed;
    hide Take;
    var c: int := w.receiver.count;
    TakeBlock(image, w.receiver, b);
    var rest := Without(w.blocks, 0);
    assert forall i :: 0 <= i < |rest| ==> rest[i] == w.blocks[i + 1];
    StoredInRange(image, b, c);
    forall i | 0 <= i < |rest|
      ensures !(IsBlock(image, rest[i], c) && IsBlock(image, rest[i], c - 1))
      ensures IsBlock(image, rest[i], c + 1) ==> !IsBlock(image, rest[i], c)
    {
      NeighboursDiffer(image, rest[i], c);
      NeighboursDiffer(image, rest[i], c + 1);
    }
  }

  lemma StoredInRange(image: seq<Byte>, b: seq<Byte>, k: int)
    ensures IsBlock(image, b, k) ==> 0 <= k < Blocks(image)
  {
  }

  /** What one round of the sender does, as far as the line is concerned. */
  lemma SenderStep(image: seq<Byte>, s: Sender, r: Round)
    requires image != [] && SenderInv(image, s)
    ensures var t := Step(image, s, r);
      var d := Departed(t.writes);
      t.sender.acked == s.acked + (if s.phase.Sending? && r.read == Success && r.data == ACK then 1 else 0) &&
      |d| <= 1 && (d != [] ==> IsBlock(image, d[0], t.sender.acked) && r.read == Success && !s.phase.Ending?) &&
      (t.sender.phase.AwaitingStart? ==> s.phase.AwaitingStart? && d == []) &&
      (t.sender.phase.Sending? ==>
        s.phase.Sending? || (s.phase.AwaitingStart? && r.read == Success && r.data == NAK)) &&
      (s.phase.AwaitingStart? && d != [] ==> r.data == NAK) &&
      (d != [] ==> r.data == NAK || r.data == ACK) &&
      (s.phase.Finished? ==> d == [])
  {
    hide Block;
  }

  lemma SenderKeeps(image: seq<Byte>, w: World, r: Round)
    requires Inv(image, w) && (ReadsAck(w, SenderReads(r)) ==> w.sender.acked < w.receiver.count)
    ensures Inv(image, Sent(image, w, r))
  {
    hide IsBlock;
    hide Departed;
    hide Step;
    SenderStep(image, w.sender, r);
    var d := Departed(Step(image, w.sender, r).writes);
    var c: int := w.receiver.count;
    if d != [] {
      NeighboursDiffer(image, d[0], c);
      StoredInRange(image, d[0], c);
    }
    forall i | 0 <= i < |w.blocks|
      ensures !(IsBlock(image, w.blocks[i], c) && IsBlock(image, w.blocks[i], c - 1))
    {
      NeighboursDiffer(image, w.blocks[i], c);
    }
  }

  lemma LossKeeps(image: seq<Byte>, w: World, i: nat)
    requires Inv(image, w)
    ensures Inv(image, w.(blocks := Without(w.blocks, i)))
  {
    hide IsBlock;
    var rest := Without(w.blocks, i);
    if i < |w.blocks| {
      assert forall j :: 0 <= j < |rest| ==> rest[j] == w.blocks[if j < i then j else j + 1];
    }
  }

  /** The invariant survives any physical action, provided no ACK is read too early. */
  lemma StepKeeps(image: seq<Byte>, w: World, a: Action)
    requires Inv(image, w) && Keeps(image, w, a, Physical) && Keeps(image, w, a, Honest)
    ensures Inv(image, Next(image, w, a))
  {
    hide Take;
    hide IsBlock;
    hide Step;
    match a
    case SenderReads(r) => SenderKeeps(image, w, r);
    case SenderGetsReply(r) => SenderKeeps(image, w, r);
    case Arrive(b) => ArriveKeeps(image, w, b);
    case LoseBlock(i) => LossKeeps(image, w, i);
    case _ =>
  }

  // ---- exactly when the upload stays in step ------------------------------------------------------------------

  /** An ACK, from the receiver or from noise, leaves the two in step if and only if the current block is stored. */
  lemma AckKeepsIff(image: seq<Byte>, w: World, a: Action)
    requires Inv(image, w) && ReadsAck(w, a)
    ensures Keeps(image, w, a, StaysInStep) <==> w.receiver.count == w.sender.acked + 1
  {
    hide Step;
    hide Departed;
    SenderStep(image, w.sender, a.round);
  }

  /**
   * Exactly when a run stays in step: whatever is lost, corrupted, repeated or made up on the line, it
   * does so at every moment if and only if the sender never reads an ACK before its block is stored.
   */
  lemma {:induction false} InStepIffHonest(image: seq<Byte>, w: World, actions: seq<Action>)
    requires Inv(image, w) && Throughout(image, w, actions, Physical)
    ensures Throughout(image, w, actions, StaysInStep) <==> Throughout(image, w, actions, Honest)
    ensures Throughout(image, w, actions, Honest) ==> Inv(image, After(image, w, actions))
    decreases |actions|
  {
    hide Next;
    hide InStep;
    hide Queued;
    if actions != [] {
      var a := actions[0];
      if Keeps(image, w, a, Honest) {
        StepKeeps(image, w, a);
        InStepIffHonest(image, Next(image, w, a), actions[1..]);
        InvInStep(image, Next(image, w, a));
      } else {
        AckBounds(image, w);
        AckKeepsIff(image, w, a);
      }
    }
  }

  lemma InvInStep(image: seq<Byte>, w: World)
    requires Inv(image, w)
    ensures InStep(image, w)
  {
  }

  lemma AckBounds(image: seq<Byte>, w: World)
    requires Inv(image, w)
    ensures w.sender.acked <= w.receiver.count <= w.sender.acked + 1
  {
  }

  // ---- calm runs ----------------------------------------------------------------------------------------------

  /** With nothing asked for twice, at most one block or reply is under way, and an ACK answers the current block. */
  predicate CalmInv(image: seq<Byte>, w: World) {
    Inv(image, w) && |w.blocks| + |w.replies| <= 1 &&
    (forall i :: 0 <= i < |w.blocks| ==> IsBlock(image, w.blocks[i], w.sender.acked)) &&
    (w.sender.phase.AwaitingStart? ==> w.replies != [ACK]) &&
    (w.sender.phase.Sending? && w.replies == [ACK] ==> w.receiver.count == w.sender.acked + 1)
  }

  lemma CalmStep(image: seq<Byte>, w: World, a: Action)
    requires CalmInv(image, w) && Keeps(image, w, a, Physical) && Keeps(image, w, a, Calm)
    ensures Keeps(image, w, a, Honest) && CalmInv(image, Next(image, w, a))
  {
    hide Take;
    hide IsBlock;
    hide Step;
    hide Departed;
    hide WellFormed;
    hide InStep;
    hide Queued;
    AckBounds(image, w);
    StepKeeps(image, w, a);
    match a
    case SenderReads(r) => SenderStep(image, w.sender, r);
    case SenderGetsReply(r) => SenderStep(image, w.sender, r);
    case Arrive(b) => CalmArrival(image, w, b);
    case LoseBlock(i) => LossOfOne(w.blocks, i);
    case LoseReply(i) => LossOfOne(w.replies, i);
    case ReceiverNags => assert Next(image, w, a).replies == [NAK];
  }

  lemma LossOfOne<T>(s: seq<T>, i: nat)
    requires |s| <= 1
    ensures Without(s, i) == s || Without(s, i) == []
  {
  }

  lemma CalmArrival(image: seq<Byte>, w: World, b: seq<Byte>)
    requires CalmInv(image, w) && Keeps(image, w, Arrive(b), Physical)
    ensures var n := Next(image, w, Arrive(b));
      n.blocks == [] && |n.replies| == 1 && n.sender == w.sender &&
      (n.replies == [ACK] ==> n.receiver.count == w.sender.acked + 1)
  {
    hide IsBlock;
    hide Take;
    hide WellFormed;
    TakeBlock(image, w.receiver, b);
    var n := Next(image, w, Arrive(b));
    assert w.replies == [] && n.replies == [Take(w.receiver, b).reply];
    assert IsBlock(image, w.blocks[0], w.sender.acked);
  }

  lemma {:induction false} CalmRuns(image: seq<Byte>, w: World, actions: seq<Action>)
    requires CalmInv(image, w) && Throughout(image, w, actions, Physical) && Throughout(image, w, actions, Calm)
    ensures Throughout(image, w, actions, Honest) && CalmInv(image, After(image, w, actions))
    ensures Throughout(image, w, actions, OneReply)
    decreases |actions|
  {
    hide Next;
    hide InStep;
    hide Queued;
    hide IsBlock;
    if actions != [] {
      CalmStep(image, w, actions[0]);
      CalmRuns(image, Next(image, w, actions[0]), actions[1..]);
    }
  }

  /**
   * End to end: at the end of any run, hence at every moment of one, in which the receiver and noise ask
   * again only when nothing is under way and noise is no ACK, the receiver has stored a prefix of the
   * padded image, in whole blocks and at most one block ahead of what the sender knows; and when the
   * sender reports success the receiver has stored the whole padded image.
   */
  lemma UploadIsFaithful(image: seq<Byte>, actions: seq<Action>)
    requires image != []
    requires Throughout(image, Begin(), actions, Physical) && Throughout(image, Begin(), actions, Calm)
    ensures Faithful(image, After(image, Begin(), actions))
  {
    BeginInv(image);
    CalmRuns(image, Begin(), actions);
  }

  predicate Faithful(image: seq<Byte>, w: World) {
    w.receiver.stored <= Padded(image) && |w.receiver.stored| == DATA_SIZE * w.receiver.count &&
    w.sender.acked <= w.receiver.count <= w.sender.acked + 1 &&
    (w.sender.phase == Finished(Success) ==> w.receiver.stored == Padded(image) && image <= w.receiver.stored)
  }

  /** The same of any run that stays honest, however often blocks are asked for again. */
  lemma HonestUploadIsFaithful(image: seq<Byte>, actions: seq<Action>)
    requires image != []
    requires Throughout(image, Begin(), actions, Physical) && Throughout(image, Begin(), actions, Honest)
    ensures Faithful(image, After(image, Begin(), actions))
  {
    BeginInv(image);
    InStepIffHonest(image, Begin(), actions);
  }
}
