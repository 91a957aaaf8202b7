/** `PowerEcuProtocol` itself (power_ecu_protocol.cpp): every public call refines a step of EcuLink. */
module PowerEcuProtocol {
  import opened Options
  import opened Octets
  import opened Numerals
  import opened Elements
  import opened DataPackets
  import opened Schemas
  import opened Frames
  import opened FrameStream
  import opened FrameCodec
  import opened ErrorWindows
  import opened LinkCodec
  import opened EcuLink

  const HEART: Packet := "heart"
  const GETV: Packet := "getv_"
  const VER: Packet := "ver__"
  const ERROR_COUNTER_SIZE := 1000

  /** The command whose frame `SendAll` transmits, if it transmits one. */
  function Due(s: Link): Packet {
    if s.queue != [] && !s.waiting then s.queue[0] else HEART
  }

  /** Something is to be transmitted: a command while none is in flight, otherwise an overdue heartbeat. */
  predicate Sends(s: Link, now: int) {
    (s.queue != [] && !s.waiting) || now - s.lastHeartbeat > HEARTBEAT_PERIOD
  }

  /** The frame of a command of the protocol, as far as its size digits are right. */
  predicate CommandFrame(sent: Packet, c: Command, values: seq<Value>) {
    |values| == |c.elements| &&
    sent == Frame('H', c.name, c.size, EncodeFields(c.elements, values).text) &&
    (Announces(c) ==> ReadsBack(sent, c, values))
  }

  lemma EncodedIsCommand(c: Command, values: seq<Value>)
    requires |values| == |c.elements|
    ensures CommandFrame(EncodedFrame([], c, values), c, values)
  {
    hide EncodedFrame;
    hide Frame;
    hide EncodeFields;
    hide ReadsBack;
    hide Announces;
    CommandIsFrame([], c, values);
    if Announces(c) {
      FrameCompleteIffEncoded(c, values);
    }
  }

  /** What goes out is what the log says: the transmitted command, or the heartbeat. */
  lemma SentIsLogged(s: Link, now: int, n: Packet)
    requires Inv(s)
    ensures var r := Step(s, Send(now, true));
      (Transmitted(n) in r.outputs ==> Sends(s, now) && Due(s) == n) &&
      (Heartbeat(true) in r.outputs ==> Sends(s, now) && Due(s) == "heart") &&
      (Sends(s, now) <==> r.outputs != []) &&
      (Sends(s, now) <==> Step(s, Send(now, false)).result != Success)
  {
    hide Known;
    hide DropFlag;
  }

  /** The state the constructor leaves behind. */
  function Initial(now: int): Link {
    Link({HEART, GETV},
         map[RXACK := RxackFormat(), VER := VerFormat()],
         map[RXACK := State([Num(0)], [Num(0)], false), VER := State([Str([]), Str([])], [Str([]), Str([])], false)],
         [], [], false, 0, now, 0)
  }

  lemma InitialInv(now: int)
    ensures Inv(Initial(now))
    ensures Initial(now) == Link({HEART, GETV}, Initial(0).formats, Initial(0).states, [], [], false, 0, now, 0)
  {
  }

  class Protocol {
    const frameDecoder: FrameDecoder
    const frameEncoder: FrameEncoder
    const rxack: DataDecoder
    const readErrorCounter: ErrorCounter
    const writeErrorCounter: ErrorCounter
    var receiveBuffer: Packet
    var commandQueue: seq<Packet>
    var isWaitingAck: bool
    var lastSendCommandTime: int
    var lastHeartbeatTime: int

    /** The decoders that every protocol version needs. */
    static method RegisterDecoders() returns (decoders: FrameDecoder, ack: DataDecoder)
      ensures fresh(decoders) && fresh(decoders.dataDecoders.Values) && decoders.Valid()
      ensures RXACK in decoders.dataDecoders && decoders.dataDecoders[RXACK] == ack && ack.format == RxackFormat()
      ensures decoders.formats == Initial(0).formats && decoders.states == Initial(0).states
    {
      hide Layout;
      decoders := new FrameDecoder();
      ack := new DataDecoder(RxackFormat(), [Num(0)], [Num(0)]);
      var version := new DataDecoder(VerFormat(), [Str([]), Str([])], [Str([]), Str([])]);
      var ok := decoders.RegisterDataDecoder(ack);
      ok := decoders.RegisterDataDecoder(version);
    }

    /** The encoders that every protocol version needs. */
    static method RegisterEncoders() returns (encoders: FrameEncoder)
      ensures fresh(encoders) && encoders.Valid() && HasHeart(encoders.commands, encoders.values)
      ensures encoders.commands.Keys == {HEART, GETV} && encoders.values[HEART][1].n == 0
    {
      encoders := new FrameEncoder();
      var ok := encoders.RegisterDataEncoder(HeartCommand(), [Num(0), Num(0)]);
      ok := encoders.RegisterDataEncoder(GetvCommand(), [Num(0)]);
    }

    /** A fresh protocol object. */
    constructor (now: int)
      ensures Valid() && Abstract() == Initial(now)
      ensures fresh(frameDecoder) && fresh(frameDecoder.dataDecoders.Values) && fresh(frameEncoder)
      ensures fresh(readErrorCounter) && fresh(writeErrorCounter)
      ensures readErrorCounter.history == [] && writeErrorCounter.history == []
      ensures readErrorCounter.bufferSize == 1000 && writeErrorCounter.bufferSize == 1000
    {
      hide Encodable;
      hide Known;
      var decoders, ack := RegisterDecoders();
      var encoders := RegisterEncoders();
      frameDecoder, frameEncoder, rxack := decoders, encoders, ack;
      readErrorCounter := new ErrorCounter(ERROR_COUNTER_SIZE);
      writeErrorCounter := new ErrorCounter(ERROR_COUNTER_SIZE);
      receiveBuffer, commandQueue, isWaitingAck := [], [], false;
      lastSendCommandTime, lastHeartbeatTime := 0, now;
      new;
      InitialInv(now);
      hide Initial;
      hide FrameDecoder.Valid;
      hide FrameEncoder.Valid;
      hide ErrorCounter.Valid;
      hide HasHeart;
      hide Inv;
    }

    static predicate HasHeart(commands: map<Packet, Command>, values: map<Packet, seq<Value>>) {
      HEART in commands && HEART in values &&
      commands[HEART].elements == [HexUint(4, U16), HexUint(8, U32)] &&
      |values[HEART]| == 2 && values[HEART][1].Num? && 0 <= values[HEART][1].n < WORD
    }

    ghost predicate Counting()
      reads readErrorCounter, writeErrorCounter
    {
      readErrorCounter != writeErrorCounter && readErrorCounter.Valid() && writeErrorCounter.Valid()
    }

    ghost predicate Wired()
      reads this, frameDecoder, frameDecoder.dataDecoders.Values, frameEncoder
    {
      frameDecoder.Valid() && frameEncoder.Valid() &&
      RXACK in frameDecoder.dataDecoders && frameDecoder.dataDecoders[RXACK] == rxack &&
      rxack.format == RxackFormat() &&
      HasHeart(frameEncoder.commands, frameEncoder.values) &&
      (forall n :: n in commandQueue ==> n in frameEncoder.commands)
    }

    ghost function Abstract(): Link
      requires HasHeart(frameEncoder.commands, frameEncoder.values)
      reads this, frameDecoder, frameEncoder
    {
      Link(frameEncoder.commands.Keys, frameDecoder.formats, frameDecoder.states,
           receiveBuffer, commandQueue, isWaitingAck, lastSendCommandTime, lastHeartbeatTime,
           frameEncoder.values[HEART][1].n)
    }

    ghost predicate Valid()
      reads this, frameDecoder, frameDecoder.dataDecoders.Values, frameEncoder, readErrorCounter, writeErrorCounter
    {
      Counting() && Wired() && Inv(Abstract())
    }

    /** `RegisterDataDecoder`: a decoder joins the ones that are there; a name already taken is refused. */
    method RegisterDataDecoder(decoder: DataDecoder)
      requires Valid() && decoder.Valid()
      modifies frameDecoder`dataDecoders, frameDecoder`formats, frameDecoder`states
      ensures Valid()
      ensures var old' := old(Abstract());
        var name := decoder.format.name;
        Abstract() == if name in old'.formats then old'
                      else old'.(formats := old'.formats[name := decoder.format],
                                 states := old'.states[name := decoder.Content()])
    {
      hide Matches;
      hide Known;
      hide HasHeart;
      hide FrameEncoder.Valid;
      hide ErrorCounter.Valid;
      hide DataDecoder.Valid;
      var ok := frameDecoder.RegisterDataDecoder(decoder);
    }

    /** `RegisterDataEncoder`: likewise for the commands. */
    method RegisterDataEncoder(c: Command, initial: seq<Value>)
      requires Valid() && Encodable(c.elements, initial)
      modifies frameEncoder`commands, frameEncoder`values
      ensures Valid()
      ensures Abstract() == old(Abstract()).(known := old(Abstract()).known + {c.name})
    {
      hide FrameDecoder.Valid;
      var ok := frameEncoder.RegisterDataEncoder(c, initial);
    }

    /** `AddCommandQueue`, on a circular buffer that overwrites its front when full. */
    method AddCommandQueue(name: Packet) returns (ok: bool)
      requires Valid()
      modifies this`commandQueue
      ensures Valid()
      ensures Abstract() == Step(old(Abstract()), Add(name)).link
      ensures ok == (Step(old(Abstract()), Add(name)).result == Success)
    {
      hide FrameDecoder.Valid;
      hide FrameEncoder.Valid;
      hide ErrorCounter.Valid;
      hide HasHeart;
      hide Known;
      ok := name in frameEncoder.commands;
      if ok {
        if |commandQueue| == COMMAND_QUEUE_SIZE {
          commandQueue := commandQueue[1..];
        }
        commandQueue := commandQueue + [name];
      }
    }

    /** Encodes and transmits a command; a successful transmission drops the ACK flag. */
    method SendCommand(name: Packet, delivered: bool) returns (ok: bool, sendBuffer: Packet)
      requires Wired() && name in frameEncoder.commands
      modifies frameEncoder`checkSum, rxack`received, frameDecoder`states
      ensures frameDecoder.Valid() && frameEncoder.Valid()
      ensures ok == delivered
      ensures sendBuffer == EncodedFrame([], frameEncoder.commands[name], frameEncoder.values[name])
      ensures frameDecoder.formats == old(frameDecoder.formats)
      ensures frameDecoder.states == if delivered then DropFlag(old(frameDecoder.states)) else old(frameDecoder.states)
    {
      hide HasHeart;
      hide Matches;
      hide EncodedFrame;
      hide DecodeState;
      var encoded;
      encoded, sendBuffer := frameEncoder.Encode([], name);
      ok := delivered;
      if delivered {
        frameDecoder.ClearReceived(rxack);
      }
    }

    /** The branch of `SendAll` that transmits the next command. */
    method SendQueued(now: int, delivered: bool) returns (ok: bool, frame: Packet)
      requires Wired() && Inv(Abstract()) && commandQueue != [] && !isWaitingAck
      modifies this`isWaitingAck, this`lastSendCommandTime, frameEncoder`checkSum, rxack`received, frameDecoder`states
      ensures Wired() && ok == delivered
      ensures Abstract() == SendStep(old(Abstract()), now, delivered).link
      ensures frame == EncodedFrame([], frameEncoder.commands[commandQueue[0]], frameEncoder.values[commandQueue[0]])
    {
      hide FrameDecoder.Valid;
      hide FrameEncoder.Valid;
      hide EncodedFrame;
      hide DropFlag;
      hide HasHeart;
      ok, frame := SendCommand(commandQueue[0], delivered);
      if ok {
        lastSendCommandTime := now;
        isWaitingAck := true;
      }
    }

    /** `++(*counts)` */
    method CountHeartbeat()
      requires frameEncoder.Valid() && HasHeart(frameEncoder.commands, frameEncoder.values)
      modifies frameEncoder`values
      ensures frameEncoder.Valid() && HasHeart(frameEncoder.commands, frameEncoder.values)
      ensures frameEncoder.values[HEART][1].n == (old(frameEncoder.values)[HEART][1].n + 1) % WORD
    {
      var counts := (frameEncoder.values[HEART][1].n + 1) % WORD;
      frameEncoder.SetValue(HEART, 1, Num(counts));
    }

    /** The branch of `SendAll` that transmits an overdue heartbeat. */
    method SendHeartbeat(now: int, delivered: bool) returns (ok: bool, frame: Packet)
      requires Wired() && Inv(Abstract()) && (commandQueue == [] || isWaitingAck)
      requires now - lastHeartbeatTime > HEARTBEAT_PERIOD
      modifies this`lastHeartbeatTime, frameEncoder`checkSum, frameEncoder`values, rxack`received, frameDecoder`states
      ensures Wired() && ok == delivered
      ensures Abstract() == SendStep(old(Abstract()), now, delivered).link
      ensures frame == EncodedFrame([], frameEncoder.commands[HEART], frameEncoder.values[HEART])
    {
      hide FrameDecoder.Valid;
      hide FrameEncoder.Valid;
      hide EncodedFrame;
      hide DropFlag;
      CountHeartbeat();
      ok, frame := SendCommand(HEART, delivered);
      if ok {
        lastHeartbeatTime := lastHeartbeatTime + HEARTBEAT_PERIOD;
      }
    }

    /** The choice `SendAll` makes: the next command if none is in flight, otherwise a heartbeat if one is due. */
    method Transmit(now: int, delivered: bool) returns (ok: bool, sent: Option<Packet>)
      requires Wired() && Inv(Abstract())
      modifies this`isWaitingAck, this`lastSendCommandTime, this`lastHeartbeatTime
      modifies frameEncoder`checkSum, frameEncoder`values, rxack`received, frameDecoder`states
      ensures Wired()
      ensures Abstract() == SendStep(old(Abstract()), now, delivered).link
      ensures ok == (SendStep(old(Abstract()), now, delivered).result == Success)
      ensures !ok ==> SendStep(old(Abstract()), now, delivered).result == NetworkDown
      ensures sent.Some? <==> Sends(old(Abstract()), now)
      ensures var n := Due(old(Abstract()));
        n in frameEncoder.commands && n in frameEncoder.values &&
        |frameEncoder.values[n]| == |frameEncoder.commands[n].elements| &&
        (sent.Some? ==> sent.value == EncodedFrame([], frameEncoder.commands[n], frameEncoder.values[n]))
    {
      hide FrameDecoder.Valid;
      hide FrameEncoder.Valid;
      hide EncodedFrame;
      hide DropFlag;
      ghost var n := Due(Abstract());
      var frame;
      if |commandQueue| != 0 && !isWaitingAck {
        ok, frame := SendQueued(now, delivered);
        sent := Some(frame);
      } else if now - lastHeartbeatTime > HEARTBEAT_PERIOD {
        ok, frame := SendHeartbeat(now, delivered);
        sent := Some(frame);
      } else {
        ok, sent := true, None;
      }
      frameEncoder.CommandKnown(n);
    }

    /** `SendAll` */
    method SendAll(now: int, delivered: bool) returns (result: Result, sent: Option<Packet>)
      requires Valid()
      modifies this`isWaitingAck, this`lastSendCommandTime, this`lastHeartbeatTime
      modifies frameEncoder`checkSum, frameEncoder`values, rxack`received, frameDecoder`states, writeErrorCounter
      ensures Valid()
      ensures Abstract() == Step(old(Abstract()), Send(now, delivered)).link
      ensures result == Step(old(Abstract()), Send(now, delivered)).result
      ensures writeErrorCounter.history == old(writeErrorCounter.history) + [result == Success]
      ensures sent.Some? <==> Sends(old(Abstract()), now)
      ensures var n := Due(old(Abstract()));
        n in frameEncoder.commands && n in frameEncoder.values &&
        (sent.Some? ==> CommandFrame(sent.value, frameEncoder.commands[n], frameEncoder.values[n]))
    {
      hide FrameDecoder.Valid;
      hide FrameEncoder.Valid;
      hide ErrorCounter.Valid;
      hide EncodedFrame;
      hide CommandFrame;
      hide HasHeart;
      hide SendStep;
      hide Inv;
      var ok;
      ghost var n := Due(Abstract());
      ok, sent := Transmit(now, delivered);
      EncodedIsCommand(frameEncoder.commands[n], frameEncoder.values[n]);
      writeErrorCounter.Register(ok);
      result := if ok then Success else NetworkDown;
    }

    /** The decode loop of `ReceiveAll`. */
    method DecodeAll() returns (clean: bool)
      requires frameDecoder.Valid()
      modifies this`receiveBuffer
      modifies frameDecoder`packetName, frameDecoder`packetSize, frameDecoder`packetCheckSum, frameDecoder`states
      modifies frameDecoder.dataDecoders.Values
      ensures frameDecoder.Valid() && Known(old(frameDecoder.formats), old(frameDecoder.states))
      ensures frameDecoder.formats == old(frameDecoder.formats)
      ensures receiveBuffer == Drain(old(receiveBuffer)).residue
      ensures DispatchAll(old(frameDecoder.formats), old(frameDecoder.states), Drain(old(receiveBuffer)).reports)
           == Dispatched(frameDecoder.states, clean)
    {
      hide Scan;
      hide FrameDecoder.Valid;
      hide FrameEncoder.Valid;
      hide DispatchAll;
      hide Dispatch;
      hide Drain;
      hide Known;
      ghost var formats, states := frameDecoder.formats, frameDecoder.states;
      ghost var all := Drain(receiveBuffer);
      ghost var reports: seq<Report> := [];
      clean := true;
      var current, encoded := 0, 0;
      var ret := DecodeSuccess;
      DispatchNone(formats, states);
      DrainNext([]);
      assert receiveBuffer[0..] == receiveBuffer && [] + all.reports == all.reports;
      while |receiveBuffer| > 0 && ret != DecodeOutOfRange
        invariant frameDecoder.Valid() && frameDecoder.formats == formats
        invariant receiveBuffer == old(receiveBuffer)
        invariant current == encoded <= |receiveBuffer|
        invariant DispatchAll(formats, states, reports) == Dispatched(frameDecoder.states, clean)
        invariant ret != DecodeOutOfRange ==>
          all == Drained(reports + Drain(receiveBuffer[current..]).reports, Drain(receiveBuffer[current..]).residue)
        invariant ret == DecodeOutOfRange ==> all == Drained(reports, receiveBuffer[current..])
        decreases ret != DecodeOutOfRange, |receiveBuffer| - current
      {
        ghost var rest := receiveBuffer[current..];
        assert receiveBuffer[current..|receiveBuffer|] == rest;
        ghost var before := frameDecoder.states;
        ret, encoded := frameDecoder.Decode(receiveBuffer, current, |receiveBuffer|);
        if ret != DecodeSuccess && ret != DecodeOutOfRange {
          clean := false;
        }
        DrainNext(rest);
        assert rest[Scan(rest).Cursor()..] == receiveBuffer[encoded..];
        if ret != DecodeOutOfRange {
          ghost var r := ReportOf(Scan(rest));
          DispatchNext(formats, states, reports, r);
          assert reports + ([r] + Drain(receiveBuffer[encoded..]).reports)
              == (reports + [r]) + Drain(receiveBuffer[encoded..]).reports;
          reports := reports + [r];
        } else {
          assert reports + [] == reports;
        }
        current := encoded;
      }
      receiveBuffer := receiveBuffer[encoded..];
    }

    /** The acknowledgement check at the end of `ReceiveAll`. */
    method ConfirmAck(now: int, clean: bool) returns (result: Result)
      requires |rxack.raw| > 0 && (isWaitingAck ==> commandQueue != [])
      modifies this`isWaitingAck, this`commandQueue
      ensures var acked := old(isWaitingAck) && rxack.received;
        var expired := old(isWaitingAck) && !rxack.received && now - lastSendCommandTime > COMMAND_TIMEOUT;
        isWaitingAck == (old(isWaitingAck) && !acked && !expired) &&
        commandQueue == (if acked || expired then old(commandQueue)[1..] else old(commandQueue)) &&
        result == if acked && rxack.raw[0] != Num(0) then OperationCanceled
                  else if expired then TimedOut
                  else if clean then Success else Result.ProtocolError
    {
      result := if clean then Success else Result.ProtocolError;
      if isWaitingAck {
        if rxack.received {
          isWaitingAck := false;
          if rxack.raw[0] != Num(0) {
            result := OperationCanceled;
          }
          commandQueue := commandQueue[1..];
        } else if now - lastSendCommandTime > COMMAND_TIMEOUT {
          isWaitingAck := false;
          commandQueue := commandQueue[1..];
          result := TimedOut;
        }
      }
    }

    /** What `ReceiveAll` does with a successful read, before it registers the result. */
    method Absorb(now: int, received: Packet) returns (result: Result)
      requires Wired() && Inv(Abstract()) && |receiveBuffer| + |received| <= BUFFER_SIZE
      modifies this`receiveBuffer, this`isWaitingAck, this`commandQueue
      modifies frameDecoder`packetName, frameDecoder`packetSize, frameDecoder`packetCheckSum, frameDecoder`states
      modifies frameDecoder.dataDecoders.Values
      ensures Wired()
      ensures Abstract() == ReceiveStep(old(Abstract()), now, Some(received)).link
      ensures result == ReceiveStep(old(Abstract()), now, Some(received)).result
    {
      hide FrameDecoder.Valid;
      hide FrameEncoder.Valid;
      hide HasHeart;
      hide Drain;
      hide DispatchAll;
      hide Known;
      receiveBuffer := receiveBuffer + received;
      var clean := DecodeAll();
      frameDecoder.DecoderState(RXACK);
      KnownMatches(frameDecoder.formats, frameDecoder.states, RXACK);
      result := ConfirmAck(now, clean);
    }

    /** `ReceiveAll`; `received` is what the network appended to the buffer, None if it failed. */
    method ReceiveAll(now: int, received: Option<Packet>) returns (result: Result)
      requires Valid()
      requires received.Some? ==> |receiveBuffer| + |received.value| <= BUFFER_SIZE
      modifies this`receiveBuffer, this`isWaitingAck, this`commandQueue
      modifies frameDecoder`packetName, frameDecoder`packetSize, frameDecoder`packetCheckSum, frameDecoder`states
      modifies frameDecoder.dataDecoders.Values, readErrorCounter
      ensures Valid()
      ensures Abstract() == Step(old(Abstract()), Receive(now, received)).link
      ensures result == Step(old(Abstract()), Receive(now, received)).result
      ensures readErrorCounter.history == old(readErrorCounter.history) + [result == Success]
    {
      hide FrameDecoder.Valid;
      hide FrameEncoder.Valid;
      hide ErrorCounter.Valid;
      hide HasHeart;
      hide Inv;
      if received.None? {
        readErrorCounter.Register(false);
        result := NetworkDown;
      } else {
        result := Absorb(now, received.value);
        readErrorCounter.Register(result == Success);
      }
    }
  }
}
