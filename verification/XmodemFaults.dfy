/**
 * What can go wrong with an upload: runs of XmodemLink that end in a reported success although the last
 * block never arrived, and exactly for which images there are such runs.
 */
module XmodemFaults {
  import opened Bytes
  import opened XmodemSender
  import opened XmodemLink

  // ---- pieces of runs -----------------------------------------------------------------------------------------

  /** The actions lead from w to target without noise or corruption and with at most one reply under way. */
  predicate Leads(image: seq<Byte>, w: World, actions: seq<Action>, target: World)
    requires image != [] && SenderInv(image, w.sender)
  {
    Throughout(image, w, actions, Physical) && Throughout(image, w, actions, Intact) &&
    Throughout(image, w, actions, NoNoise) && Throughout(image, w, actions, OneReply) &&
    After(image, w, actions) == target
  }

  lemma {:induction false} ThroughoutConcat(image: seq<Byte>, w: World, a: seq<Action>, b: seq<Action>, rule: Rule)
    requires image != [] && SenderInv(image, w.sender)
    ensures After(image, w, a + b) == After(image, After(image, w, a), b)
    ensures Throughout(image, w, a + b, rule)
      <==> Throughout(image, w, a, rule) && Throughout(image, After(image, w, a), b, rule)
    decreases |a|
  {
    hide Next;
    hide Keeps;
    if a == [] {
      assert a + b == b;
    } else {
      assert (a + b)[1..] == a[1..] + b;
      NextInv(image, w, a[0]);
      ThroughoutConcat(image, Next(image, w, a[0]), a[1..], b, rule);
    }
  }

  lemma NextInv(image: seq<Byte>, w: World, a: Action)
    requires image != [] && SenderInv(image, w.sender)
    ensures SenderInv(image, Next(image, w, a).sender)
  {
  }

  lemma LeadsConcat(image: seq<Byte>, w: World, a: seq<Action>, v: World, b: seq<Action>, target: World)
    requires image != [] && SenderInv(image, w.sender)
    requires Leads(image, w, a, v) && SenderInv(image, v.sender) && Leads(image, v, b, target)
    ensures Leads(image, w, a + b, target)
  {
    hide Throughout;
    hide After;
    ThroughoutConcat(image, w, a, b, Physical);
    ThroughoutConcat(image, w, a, b, Intact);
    ThroughoutConcat(image, w, a, b, NoNoise);
    ThroughoutConcat(image, w, a, b, OneReply);
  }

  predicate Clean(image: seq<Byte>, w: World, a: Action)
    requires image != [] && SenderInv(image, w.sender)
  {
    Keeps(image, w, a, Physical) && Keeps(image, w, a, Intact) && Keeps(image, w, a, NoNoise) &&
    Keeps(image, w, a, OneReply)
  }

  lemma LeadsOne(image: seq<Byte>, w: World, a: Action)
    requires image != [] && SenderInv(image, w.sender)
    requires Clean(image, w, a)
    ensures Leads(image, w, [a], Next(image, w, a))
  {
    hide Next;
    hide Keeps;
    ThroughoutOne(image, w, a, Physical);
    ThroughoutOne(image, w, a, Intact);
    ThroughoutOne(image, w, a, NoNoise);
    ThroughoutOne(image, w, a, OneReply);
  }

  lemma ThroughoutOne(image: seq<Byte>, w: World, a: Action, rule: Rule)
    requires image != [] && SenderInv(image, w.sender)
    ensures Throughout(image, w, [a], rule) <==> Keeps(image, w, a, rule)
    ensures After(image, w, [a]) == Next(image, w, a)
  {
    hide Next;
    hide Keeps;
    NextInv(image, w, a);
    assert [a][1..] == [];
    assert Throughout(image, Next(image, w, a), [a][1..], rule);
  }

  lemma LeadsTwo(image: seq<Byte>, w: World, a: Action, b: Action)
    requires image != [] && SenderInv(image, w.sender)
    requires Clean(image, w, a)
    requires Clean(image, Next(image, w, a), b)
    ensures Leads(image, w, [a, b], Next(image, Next(image, w, a), b))
  {
    hide Leads;
    hide Next;
    hide Keeps;
    NextInv(image, w, a);
    NextInv(image, Next(image, w, a), b);
    LeadsOne(image, w, a);
    LeadsOne(image, Next(image, w, a), b);
    LeadsConcat(image, w, [a], Next(image, w, a), [b], Next(image, Next(image, w, a), b));
    assert [a] + [b] == [a, b];
  }

  // ---- rounds of the sender -----------------------------------------------------------------------------------

  /** A round that reads a byte, or nothing, and in which everything else succeeds. */
  function Reading(b: Byte): Round {
    Round(Success, b, Success, Success, Success)
  }

  function ReadingNothing(): Round {
    Round(TimedOut, 0, Success, Success, Success)
  }

  function Holding(image: seq<Byte>, count: nat): Receiver
    requires count <= Blocks(image)
  {
    Receiver(count, Padded(image)[..DATA_SIZE * count])
  }

  function AfterAck(image: seq<Byte>, k: nat): Stepped
    requires k < Blocks(image)
  {
    if k + 1 == Blocks(image) then Stepped(Sender(Ending, k + 1, 0), [])
    else Stepped(Sender(Sending, k + 1, 0), [Block(image, k + 1)])
  }

  lemma Rounds(image: seq<Byte>, k: nat, retry: nat)
    requires image != [] && k < Blocks(image) && retry + 1 < FLUSH_MAX_RETRY
    ensures Step(image, Start(), Reading(NAK)) == Stepped(Sender(Sending, 0, 0), [Block(image, 0)])
    ensures Step(image, Sender(Sending, k, retry), Reading(NAK))
         == Stepped(Sender(Sending, k, retry + 1), [Block(image, k)])
    ensures Step(image, Sender(Sending, k, retry), Reading(ACK)) == AfterAck(image, k)
    ensures Step(image, Sender(Ending, Blocks(image), 0), ReadingNothing())
         == Stepped(Sender(Finished(Success), Blocks(image), 0), [[EOT]])
  {
    hide Block;
  }

  lemma Departures(image: seq<Byte>, k: nat)
    requires k < Blocks(image)
    ensures Departed([Block(image, k)]) == [Block(image, k)] && Departed([]) == [] && Departed([[EOT]]) == []
  {
    hide Slice;
  }

  // ---- the end of a failed upload -----------------------------------------------------------------------------

  /** The sender has counted all blocks as acknowledged, the receiver has not stored the last one. */
  function Misled(image: seq<Byte>): World
    requires image != []
  {
    var n := Blocks(image) - 1;
    World(Sender(Ending, n + 1, 0), Holding(image, n), [Block(image, n)], [])
  }

  function Lost(image: seq<Byte>): World
    requires image != []
  {
    var n := Blocks(image) - 1;
    World(Sender(Finished(Success), n + 1, 0), Holding(image, n), [], [])
  }

  lemma LostIsIncomplete(image: seq<Byte>)
    requires image != []
    ensures Lost(image).receiver.stored != Padded(image) && !Faithful(image, Lost(image))
  {
  }

  lemma MisledEnds(image: seq<Byte>) returns (actions: seq<Action>)
    requires image != []
    ensures SenderInv(image, Misled(image).sender) && Leads(image, Misled(image), actions, Lost(image))
  {
    hide Block;
    hide Step;
    hide Leads;
    hide Departed;
    var n := Blocks(image) - 1;
    Rounds(image, n, 0);
    Departures(image, n);
    var w := Misled(image);
    var a, b := LoseBlock(0), SenderReads(ReadingNothing());
    var v := Next(image, w, a);
    assert v == w.(blocks := []);
    assert Next(image, v, b) == Lost(image);
    LeadsTwo(image, w, a, b);
    actions := [a, b];
  }

  // ---- stale duplicates ---------------------------------------------------------------------------------------

  /** Both ends up to date, and block k on its way. */
  function Delivering(image: seq<Byte>, k: nat): World
    requires k < Blocks(image)
  {
    World(Sender(Sending, k, 0), Holding(image, k), [Block(image, k)], [])
  }

  /** The sender one block ahead of the receiver, with that block and the next on their way. */
  function Ahead(image: seq<Byte>, k: nat): World
    requires k + 1 < Blocks(image)
  {
    World(Sender(Sending, k + 1, 0), Holding(image, k), [Block(image, k), Block(image, k + 1)], [])
  }

  /** Where reading an ACK leads from a sender at block k, with a block still on its way. */
  function Onward(image: seq<Byte>, k: nat): World
    requires 0 < k < Blocks(image)
  {
    if k + 1 == Blocks(image) then Misled(image) else Ahead(image, k)
  }

  /** The receiver takes the block at the head of the line, and the sender takes its ACK for the current block. */
  lemma ArriveAndAck(image: seq<Byte>, w: World, k: nat)
    requires image != [] && k < Blocks(image) && w.receiver.count <= Blocks(image)
    requires w.sender.phase == Sending && w.sender.acked == k && w.sender.retry + 1 < FLUSH_MAX_RETRY
    requires w.receiver == Holding(image, w.receiver.count) && w.blocks != [] && w.replies == []
    requires IsBlock(image, w.blocks[0], w.receiver.count) || IsBlock(image, w.blocks[0], w.receiver.count - 1)
    ensures var t := AfterAck(image, k);
      var count := if IsBlock(image, w.blocks[0], w.receiver.count) then w.receiver.count + 1 else w.receiver.count;
      count <= Blocks(image) &&
      Leads(image, w, [Arrive(w.blocks[0]), SenderGetsReply(Reading(ACK))],
            World(t.sender, Holding(image, count), w.blocks[1..] + t.writes, []))
  {
    hide Block;
    hide Step;
    hide Leads;
    hide Take;
    hide IsBlock;
    hide WellFormed;
    hide Departed;
    StoredInRange(image, w.blocks[0], w.receiver.count);
    TakeBlock(image, w.receiver, w.blocks[0]);
    Rounds(image, k, w.sender.retry);
    Departures(image, if k + 1 < Blocks(image) then k + 1 else k);
    var a, b := Arrive(w.blocks[0]), SenderGetsReply(Reading(ACK));
    var v := Next(image, w, a);
    assert v.blocks == w.blocks[1..] && v.replies == [ACK] && v.sender == w.sender;
    assert w.sender == Sender(Sending, k, w.sender.retry);
    assert Next(image, v, b).replies == [];
    LeadsTwo(image, w, a, b);
  }

  lemma {:induction false} AheadEnds(image: seq<Byte>, k: nat) returns (actions: seq<Action>)
    requires image != [] && 0 < k && k + 1 < Blocks(image)
    ensures Leads(image, Ahead(image, k), actions, Lost(image))
    decreases Blocks(image) - k, 0
  {
    hide Block;
    hide Leads;
    var w := Ahead(image, k);
    ArriveAndAck(image, w, k + 1);
    actions := [Arrive(w.blocks[0]), SenderGetsReply(Reading(ACK))];
    var rest := OnwardEnds(image, k + 1);
    assert w.blocks[1..] == [Block(image, k + 1)];
    var b := Block(image, k + 1);
    assert [b] + [] == [b];
    if k + 2 < Blocks(image) {
      assert [b] + [Block(image, k + 2)] == [b, Block(image, k + 2)];
    }
    LeadsConcat(image, w, actions, Onward(image, k + 1), rest, Lost(image));
    actions := actions + rest;
  }

  lemma {:induction false} OnwardEnds(image: seq<Byte>, k: nat) returns (actions: seq<Action>)
    requires image != [] && 0 < k < Blocks(image)
    ensures SenderInv(image, Onward(image, k).sender) && Leads(image, Onward(image, k), actions, Lost(image))
    decreases Blocks(image) - k, 1
  {
    hide Leads;
    if k + 1 == Blocks(image) {
      actions := MisledEnds(image);
    } else {
      actions := AheadEnds(image, k);
    }
  }

  lemma StartsDelivering(image: seq<Byte>) returns (actions: seq<Action>)
    requires image != []
    ensures Leads(image, Begin(), actions, Delivering(image, 0))
  {
    hide Block;
    hide Step;
    hide Leads;
    hide Departed;
    Rounds(image, 0, 0);
    Departures(image, 0);
    var a, b := ReceiverNags, SenderGetsReply(Reading(NAK));
    var v := Next(image, Begin(), a);
    assert v == Begin().(replies := [NAK]);
    assert Padded(image)[..0] == [];
    assert Next(image, v, b) == Delivering(image, 0);
    LeadsTwo(image, Begin(), a, b);
    actions := [a, b];
  }

  /** The receiver asks again while block 0 is on its way, and the sender sends it again. */
  lemma Duplicated(image: seq<Byte>) returns (actions: seq<Action>)
    requires image != []
    ensures var d := Delivering(image, 0);
      Leads(image, d, actions, d.(sender := Sender(Sending, 0, 1), blocks := [Block(image, 0), Block(image, 0)]))
  {
    hide Block;
    hide Step;
    hide Leads;
    hide Departed;
    Rounds(image, 0, 0);
    Departures(image, 0);
    var w := Delivering(image, 0);
    var a, b := ReceiverNags, SenderGetsReply(Reading(NAK));
    var v := Next(image, w, a);
    assert v == w.(replies := [NAK]);
    var u := Next(image, v, b);
    assert u.blocks == [Block(image, 0), Block(image, 0)] && u.replies == [];
    LeadsTwo(image, w, a, b);
    actions := [a, b];
  }

  /**
   * A stale duplicate defeats the upload of any image of two blocks or more: no noise, no corruption, never
   * more than one reply under way, only a receiver that asks again for a block that is on its way. Its ACK
   * for the copy is taken for the next block, and the last block can be lost without anyone noticing.
   */
  lemma StaleDuplicateDefeats(image: seq<Byte>) returns (actions: seq<Action>)
    requires Blocks(image) >= 2
    ensures Leads(image, Begin(), actions, Lost(image))
    ensures Lost(image).sender.phase == Finished(Success) && Lost(image).receiver.stored != Padded(image)
  {
    hide Block;
    hide Leads;
    LostIsIncomplete(image);
    var d := Delivering(image, 0);
    var b0, b1 := Block(image, 0), Block(image, 1);
    var first := StartsDelivering(image);
    var second := Duplicated(image);
    var w := d.(sender := Sender(Sending, 0, 1), blocks := [b0, b0]);
    LeadsConcat(image, Begin(), first, d, second, w);
    ArriveAndAck(image, w, 0);
    var third := [Arrive(b0), SenderGetsReply(Reading(ACK))];
    var v := World(Sender(Sending, 1, 0), Holding(image, 1), [b0, b1], []);
    assert w.blocks[1..] + [b1] == [b0, b1];
    LeadsConcat(image, Begin(), first + second, w, third, v);
    NeighboursDiffer(image, b0, 1);
    ArriveAndAck(image, v, 1);
    assert v.blocks[1..] == [b1] && [b1] + [] == [b1];
    assert Leads(image, v, third, Onward(image, 1)) by {
      if Blocks(image) > 2 {
        assert [b1] + [Block(image, 2)] == [b1, Block(image, 2)];
      }
    }
    LeadsConcat(image, Begin(), first + second + third, v, third, Onward(image, 1));
    var rest := OnwardEnds(image, 1);
    LeadsConcat(image, Begin(), first + second + third + third, Onward(image, 1), rest, Lost(image));
    actions := first + second + third + third + rest;
  }

  // ---- forged acknowledgements --------------------------------------------------------------------------------

  lemma {:induction false} ReachesLast(image: seq<Byte>, k: nat) returns (actions: seq<Action>)
    requires image != [] && k < Blocks(image)
    ensures Leads(image, Begin(), actions, Delivering(image, k))
  {
    hide Block;
    hide Leads;
    if k == 0 {
      actions := StartsDelivering(image);
    } else {
      actions := ReachesLast(image, k - 1);
      var w := Delivering(image, k - 1);
      ArriveAndAck(image, w, k - 1);
      var more := [Arrive(w.blocks[0]), SenderGetsReply(Reading(ACK))];
      assert w.blocks[1..] + [Block(image, k)] == [Block(image, k)];
      LeadsConcat(image, Begin(), actions, w, more, Delivering(image, k));
      actions := actions + more;
    }
  }

  /**
   * One noise byte that looks like an ACK defeats the upload of any image: read while the last block is on
   * its way, it completes an upload whose last block is lost. Otherwise the run is physical and free of
   * noise.
   */
  lemma ForgedAckDefeats(image: seq<Byte>) returns (before: seq<Action>, forged: Action, after: seq<Action>)
    requires image != []
    ensures forged == SenderReads(Reading(ACK))
    ensures var n := Blocks(image) - 1;
      Leads(image, Begin(), before, Delivering(image, n)) &&
      Next(image, Delivering(image, n), forged) == Misled(image) && SenderInv(image, Misled(image).sender) &&
      Leads(image, Misled(image), after, Lost(image))
    ensures Throughout(image, Begin(), before + [forged] + after, Physical)
    ensures After(image, Begin(), before + [forged] + after) == Lost(image)
    ensures Lost(image).sender.phase == Finished(Success) && Lost(image).receiver.stored != Padded(image)
  {
    hide Block;
    hide Step;
    hide Departed;
    var n := Blocks(image) - 1;
    before := ReachesLast(image, n);
    forged := SenderReads(Reading(ACK));
    after := MisledEnds(image);
    Rounds(image, n, 0);
    Departures(image, n);
    LostIsIncomplete(image);
    var d := Delivering(image, n);
    assert Sender(Sending, n, 0) == d.sender && d.blocks + [] == d.blocks;
    assert Next(image, d, forged) == Misled(image);
    assert Keeps(image, d, forged, Physical);
    assert before + [forged] + after == before + ([forged] + after) && ([forged] + after)[1..] == after;
    ThroughoutConcat(image, Begin(), before, [forged] + after, Physical);
  }

  // ---- for which images the line alone cannot do harm ---------------------------------------------------------

  /** With a single block, an ACK can only mean that it is stored. */
  lemma {:induction false} OneBlockHonest(image: seq<Byte>, w: World, actions: seq<Action>)
    requires Inv(image, w) && Blocks(image) == 1 && (ACK in w.replies ==> w.receiver.count > 0)
    requires Throughout(image, w, actions, Physical) && Throughout(image, w, actions, NoNoiseAck)
    ensures Throughout(image, w, actions, Honest)
    decreases |actions|
  {
    hide Next;
    hide InStep;
    hide Queued;
    if actions != [] {
      AcksMeanStored(image, w, actions[0]);
      StepKeeps(image, w, actions[0]);
      OneBlockHonest(image, Next(image, w, actions[0]), actions[1..]);
    }
  }

  lemma AcksMeanStored(image: seq<Byte>, w: World, a: Action)
    requires Inv(image, w) && Blocks(image) == 1 && (ACK in w.replies ==> w.receiver.count > 0)
    requires Keeps(image, w, a, Physical) && Keeps(image, w, a, NoNoiseAck)
    ensures Keeps(image, w, a, Honest)
    ensures var n := Next(image, w, a); ACK in n.replies ==> n.receiver.count > 0
  {
    hide Step;
    hide Take;
    hide WellFormed;
    hide IsBlock;
    if a.Arrive? {
      TakeBlock(image, w.receiver, a.block);
      StoredInRange(image, a.block, w.receiver.count - 1);
    }
  }

  /**
   * Exactly for the images of a single block is every run faithful in which noise is no ACK, whatever else
   * is lost, corrupted, made up or asked for again.
   */
  lemma FaithfulIffOneBlock(image: seq<Byte>)
    requires image != []
    ensures Blocks(image) == 1 <==>
      forall actions :: Throughout(image, Begin(), actions, Physical) && Throughout(image, Begin(), actions, NoNoiseAck)
        ==> Faithful(image, After(image, Begin(), actions))
  {
    hide Throughout;
    hide After;
    hide Faithful;
    if Blocks(image) == 1 {
      forall actions | Throughout(image, Begin(), actions, Physical) && Throughout(image, Begin(), actions, NoNoiseAck)
        ensures Faithful(image, After(image, Begin(), actions))
      {
        BeginInv(image);
        OneBlockHonest(image, Begin(), actions);
        HonestUploadIsFaithful(image, actions);
      }
    } else {
      var actions := StaleDuplicateDefeats(image);
      LostIsIncomplete(image);
      SilenceForgesNothing(image, Begin(), actions);
    }
  }

  lemma {:induction false} SilenceForgesNothing(image: seq<Byte>, w: World, actions: seq<Action>)
    requires image != [] && SenderInv(image, w.sender) && Throughout(image, w, actions, NoNoise)
    ensures Throughout(image, w, actions, NoNoiseAck)
    decreases |actions|
  {
    hide Next;
    if actions != [] {
      NextInv(image, w, actions[0]);
      SilenceForgesNothing(image, Next(image, w, actions[0]), actions[1..]);
    }
  }
}
