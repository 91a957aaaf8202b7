/** The frame encoder and decoder objects, with the data encoders and decoders registered in them. */
module FrameCodec {
  import opened Octets
  import opened Numerals
  import opened Elements
  import opened DataPackets
  import opened Frames
  import opened FrameStream
  import opened Schemas
  import Crc32

  datatype Outcome = DecodeSuccess | DecodeOutOfRange | DecodeProtocolError

  // ---- dispatch -----------------------------------------------------------------------------------------------

  datatype Dispatched = Dispatched(states: map<Packet, State>, ok: bool)

  predicate Known(formats: map<Packet, Format>, states: map<Packet, State>) {
    formats.Keys == states.Keys && forall n :: n in formats ==> Matches(formats[n], states[n])
  }

  lemma KnownMatches(formats: map<Packet, Format>, states: map<Packet, State>, n: Packet)
    requires Known(formats, states) && n in formats
    ensures n in states && Matches(formats[n], states[n])
  {
  }

  /** A frame reaches a data decoder only if one is registered for its name and size. */
  predicate Reaches(formats: map<Packet, Format>, r: Report) {
    r.Accepted? && r.name in formats && formats[r.name].size == r.size
  }

  function Dispatch(formats: map<Packet, Format>, states: map<Packet, State>, r: Report): (d: Dispatched)
    requires Known(formats, states)
    ensures Known(formats, d.states)
  {
    if Reaches(formats, r) then
      Dispatched(states[r.name := DecodeState(formats[r.name], states[r.name], r.data)],
                 Decodes(formats[r.name].elements, r.data))
    else Dispatched(states, false)
  }

  /** The effect of one run of the decode loop on the data decoders; ok if no packet was refused. */
  function DispatchAll(formats: map<Packet, Format>, states: map<Packet, State>, reports: seq<Report>): (d: Dispatched)
    requires Known(formats, states)
    ensures Known(formats, d.states)
    decreases |reports|
  {
    if reports == [] then Dispatched(states, true)
    else
      var first := Dispatch(formats, states, reports[0]);
      var rest := DispatchAll(formats, first.states, reports[1..]);
      Dispatched(rest.states, first.ok && rest.ok)
  }

  lemma {:induction false} DispatchConcat(formats: map<Packet, Format>, states: map<Packet, State>,
                                          a: seq<Report>, b: seq<Report>)
    requires Known(formats, states)
    ensures var first := DispatchAll(formats, states, a);
      var second := DispatchAll(formats, first.states, b);
      DispatchAll(formats, states, a + b) == Dispatched(second.states, first.ok && second.ok)
    decreases |a|
  {
    hide Dispatch;
    if a == [] {
      assert a + b == b;
    } else {
      assert (a + b)[1..] == a[1..] + b;
      DispatchConcat(formats, Dispatch(formats, states, a[0]).states, a[1..], b);
    }
  }

  lemma DispatchNone(formats: map<Packet, Format>, states: map<Packet, State>)
    requires Known(formats, states)
    ensures DispatchAll(formats, states, []) == Dispatched(states, true)
  {
  }

  lemma DispatchNext(formats: map<Packet, Format>, states: map<Packet, State>, reports: seq<Report>, r: Report)
    requires Known(formats, states)
    ensures var d := DispatchAll(formats, states, reports);
      var next := Dispatch(formats, d.states, r);
      DispatchAll(formats, states, reports + [r]) == Dispatched(next.states, d.ok && next.ok)
  {
    hide Dispatch;
    DispatchConcat(formats, states, reports, [r]);
    var middle := DispatchAll(formats, states, reports).states;
    assert DispatchAll(formats, middle, [r]) == Dispatch(formats, middle, r);
  }

  // ---- the frame decoder --------------------------------------------------------------------------------------

  class FrameDecoder {
    var dataDecoders: map<Packet, DataDecoder>
    var packetName: Packet
    var packetSize: Packet
    var packetCheckSum: Packet
    ghost var formats: map<Packet, Format>
    ghost var states: map<Packet, State>

    constructor ()
      ensures Valid() && dataDecoders == map[]
    {
      dataDecoders := map[];
      packetName, packetSize, packetCheckSum := [], [], [];
      formats, states := map[], map[];
    }

    /** Decoders are registered under their own names, hence no two names share an object. */
    ghost predicate Valid()
      reads this, dataDecoders.Values
      ensures Valid() ==> Known(formats, states)
    {
      dataDecoders.Keys == formats.Keys == states.Keys &&
      forall n :: n in dataDecoders ==>
        formats[n].name == n && dataDecoders[n].Valid() &&
        dataDecoders[n].format == formats[n] && dataDecoders[n].Content() == states[n]
    }

    lemma DecoderState(name: Packet)
      requires Valid() && name in dataDecoders
      ensures name in formats && dataDecoders[name].format == formats[name]
      ensures name in states && dataDecoders[name].Content() == states[name]
    {
    }

    method RegisterDataDecoder(decoder: DataDecoder) returns (ok: bool)
      requires Valid() && decoder.Valid()
      modifies this`dataDecoders, this`formats, this`states
      ensures Valid()
      ensures var name := decoder.format.name;
        ok == (name !in old(dataDecoders)) &&
        dataDecoders == (if ok then old(dataDecoders)[name := decoder] else old(dataDecoders)) &&
        formats == (if ok then old(formats)[name := decoder.format] else old(formats)) &&
        states == (if ok then old(states)[name := decoder.Content()] else old(states))
    {
      ok := decoder.format.name !in dataDecoders;
      if ok {
        dataDecoders := dataDecoders[decoder.format.name := decoder];
        formats := formats[decoder.format.name := decoder.format];
        states := states[decoder.format.name := decoder.Content()];
      }
    }

    /** Drops a decoder's flag through the pointer handed out for it. */
    method ClearReceived(decoder: DataDecoder)
      requires Valid() && decoder in dataDecoders.Values
      modifies this`states, decoder`received
      ensures Valid() && decoder.format.name in old(states)
      ensures var name := decoder.format.name; states == old(states)[name := old(states)[name].(received := false)]
    {
      ghost var name := decoder.format.name;
      assert name in dataDecoders && dataDecoders[name] == decoder;
      assert forall n :: n in dataDecoders && n != name ==> dataDecoders[n] != decoder;
      decoder.received := false;
      states := states[name := decoder.Content()];
    }

    /** `SkipString`: advances past the characters whether or not they match. */
    static method SkipString(text: Packet, buffer: Packet, it: nat) returns (isEqual: bool, next: nat)
      requires it + |text| <= |buffer|
      ensures isEqual == (buffer[it..it + |text|] == text)
      ensures next == it + |text|
    {
      isEqual := true;
      next := it;
      for i := 0 to |text|
        invariant next == it + i
        invariant isEqual == (buffer[it..it + i] == text[..i])
      {
        assert buffer[it..it + i + 1] == buffer[it..it + i] + [buffer[it + i]];
        assert text[..i + 1] == text[..i] + [text[i]];
        isEqual := isEqual && buffer[next] == text[i];
        next := next + 1;
      }
      assert text[..|text|] == text;
    }

    /** Hands a data section to the decoder registered under a name. */
    method DecodeData(name: Packet, data: Packet) returns (ok: bool)
      requires Valid() && name in dataDecoders
      modifies this`states, dataDecoders.Values
      ensures Valid()
      ensures ok == Decodes(formats[name].elements, data)
      ensures states == old(states)[name := DecodeState(formats[name], old(states)[name], data)]
    {
      hide DecodeState;
      hide Decodes;
      hide Matches;
      hide DataDecoder.Valid;
      assert data[0..|data|] == data;
      var decoder := dataDecoders[name];
      assert forall n :: n in dataDecoders && n != name ==> dataDecoders[n] != decoder;
      ok := decoder.Decode(data, 0, |data|);
      states := states[name := decoder.Content()];
    }

    /** Searches, checks and dispatches the first packet of buffer[start..end]. */
    method Decode(buffer: Packet, start: nat, end: nat) returns (outcome: Outcome, encoded: nat)
      requires Valid() && start <= end <= |buffer|
      modifies this`packetName, this`packetSize, this`packetCheckSum, this`states, dataDecoders.Values
      ensures Valid()
      ensures var f := Scan(buffer[start..end]);
        encoded == start + f.Cursor() &&
        if f.Incomplete? then outcome == DecodeOutOfRange && states == old(states)
        else
          var d := Dispatch(formats, old(states), ReportOf(f));
          outcome == (if d.ok then DecodeSuccess else DecodeProtocolError) && states == d.states
    {
      hide Scan;
      hide DecodeState;
      hide Decodes;
      hide DataDecoder.Valid;
      var finding := Frame(buffer, start, end);
      encoded := start + finding.Cursor();
      match finding
      case Incomplete(_) =>
        outcome := DecodeOutOfRange;
      case Malformed(_) =>
        outcome := DecodeProtocolError;
      case Framed(name, size, data, next) =>
        if name !in dataDecoders || dataDecoders[name].format.size != size {
          outcome := DecodeProtocolError;
        } else {
          var ok := DecodeData(name, data);
          outcome := if ok then DecodeSuccess else DecodeProtocolError;
        }
    }

    /** The search for the start character in `Decode`. */
    method Frame(buffer: Packet, start: nat, end: nat) returns (f: Finding)
      requires start <= end <= |buffer|
      modifies this`packetName, this`packetSize, this`packetCheckSum
      ensures f == Scan(buffer[start..end])
    {
      hide Parse;
      var last := start + Find(buffer[start..end], 'E');
      if last == end {
        return Incomplete(end - start);
      }
      assert buffer[start..end][last - start..] == buffer[last..end];
      var parsed := Analyse(buffer, last, end);
      f := parsed.Shifted(last - start);
    }

    /** The header and footer analysis in `Decode`, from the start character on. */
    method Analyse(buffer: Packet, last: nat, end: nat) returns (f: Finding)
      requires last < end <= |buffer| && buffer[last] == 'E'
      modifies this`packetName, this`packetSize, this`packetCheckSum
      ensures f == Parse(buffer[last..end])
    {
      hide Strtol;
      hide PacketSize;
      hide Crc32.Checksum;
      ghost var s := buffer[last..end];
      if end - last < HEADER_LENGTH {
        return Incomplete(0);
      }
      var same, current := SkipString("E,", buffer, last);
      assert buffer[last..last + 2] == [s[0], s[1]];
      if !same {
        return Malformed(2);
      }
      SliceOfSlice(buffer, last, end, 2, 7);
      packetName := buffer[current..current + 5];
      same, current := SkipString(",", buffer, last + 7);
      assert buffer[last + 7..last + 8] == [s[7]];
      if !same {
        return Malformed(8);
      }
      SliceOfSlice(buffer, last, end, 8, 11);
      packetSize := buffer[current..current + 3];
      var size := PacketSize(packetSize);
      if size < FOOTER_LENGTH {
        return Malformed(11);
      }
      same, current := SkipString(",", buffer, last + 11);
      assert buffer[last + 11..last + 12] == [s[11]];
      if !same {
        return Malformed(12);
      }
      f := Verify(buffer, last, current, end, size);
    }

    /** The completeness and checksum tests in `Decode`, with the header already taken apart. */
    method Verify(buffer: Packet, last: nat, current: nat, end: nat, size: nat) returns (f: Finding)
      requires last + HEADER_LENGTH == current <= end <= |buffer| && size >= FOOTER_LENGTH
      modifies this`packetCheckSum
      ensures var s := buffer[last..end];
        var stop := HEADER_LENGTH + size - FOOTER_LENGTH;
        f == if end - current < size then Incomplete(0)
             else if Crc32.Checksum(s[..stop]) != Strtol(s[stop + 1..stop + 9], 16) % WORD
             then Malformed(HEADER_LENGTH + size)
             else Framed(packetName, size, s[HEADER_LENGTH..stop], HEADER_LENGTH + size)
    {
      hide Strtol;
      hide Crc32.Checksum;
      ghost var s := buffer[last..end];
      if end - current < size {
        return Incomplete(0);
      }
      var stop := current + size - FOOTER_LENGTH;
      var checkSumCalc := Crc32.CalculateCrc32(buffer, last, stop);
      SliceOfSlice(buffer, last, end, 0, stop - last);
      SliceOfSlice(buffer, last, end, stop + 1 - last, stop + 9 - last);
      packetCheckSum := buffer[stop + 1..stop + 9];
      if checkSumCalc != Strtol(packetCheckSum, 16) % WORD {
        return Malformed(HEADER_LENGTH + size);
      }
      SliceOfSlice(buffer, last, end, HEADER_LENGTH, stop - last);
      f := Framed(packetName, size, buffer[current..stop], HEADER_LENGTH + size);
    }
  }

  // ---- the frame encoder --------------------------------------------------------------------------------------

  /** The frame of a command after whatever the buffer holds; the checksum covers both. */
  function EncodedFrame(buffer: Packet, c: Command, values: seq<Value>): Packet
    requires |c.elements| == |values|
  {
    var body := buffer + Body('H', c.name, c.size, EncodeFields(c.elements, values).text);
    body + Footer(body)
  }

  class FrameEncoder {
    var commands: map<Packet, Command>
    var values: map<Packet, seq<Value>>
    var checkSum: nat

    constructor ()
      ensures Valid() && commands == map[]
    {
      commands, values, checkSum := map[], map[], 0;
    }

    ghost predicate Valid()
      reads this
    {
      commands.Keys == values.Keys &&
      forall n :: n in commands ==> commands[n].name == n && Encodable(commands[n].elements, values[n])
    }

    lemma CommandKnown(name: Packet)
      requires Valid() && name in commands
      ensures name in values && |values[name]| == |commands[name].elements|
    {
    }

    method RegisterDataEncoder(c: Command, initial: seq<Value>) returns (ok: bool)
      requires Valid() && Encodable(c.elements, initial)
      modifies this`commands, this`values
      ensures Valid()
      ensures ok == (c.name !in old(commands))
      ensures commands == if ok then old(commands)[c.name := c] else old(commands)
      ensures values == if ok then old(values)[c.name := initial] else old(values)
    {
      ok := c.name !in commands;
      if ok {
        commands := commands[c.name := c];
        values := values[c.name := initial];
      }
    }

    /** Writes a parameter of a command through the pointer handed out for it. */
    method SetValue(name: Packet, k: nat, v: Value)
      requires Valid() && name in commands && k < |values[name]|
      requires Encodable(commands[name].elements, values[name][k := v])
      modifies this`values
      ensures Valid() && values == old(values)[name := old(values)[name][k := v]]
    {
      values := values[name := values[name][k := v]];
    }

    /** Appends the frame of a registered command; a data section that fails to encode is sent as it is. */
    method Encode(buffer: Packet, name: Packet) returns (ok: bool, newBuffer: Packet)
      requires Valid()
      modifies this`checkSum
      ensures ok == (name in commands)
      ensures newBuffer == if ok then EncodedFrame(buffer, commands[name], values[name]) else buffer
    {
      hide Footer;
      hide EncodeFields;
      hide EncodeElement;
      hide Crc32.Checksum;
      newBuffer := buffer;
      ok := name in commands;
      if !ok {
        return;
      }
      var c := commands[name];
      newBuffer := newBuffer + "H" + ",";
      newBuffer := newBuffer + name + ",";
      newBuffer := newBuffer + c.size + ",";
      var encoded;
      encoded, newBuffer := EncodeData(c.elements, values[name], newBuffer);
      ghost var body := buffer + Body('H', name, c.size, EncodeFields(c.elements, values[name]).text);
      assert newBuffer == body;
      checkSum := Crc32.CalculateCrc32(newBuffer, 0, |newBuffer|);
      assert newBuffer[0..|newBuffer|] == body;
      encoded, newBuffer := Elements.Encode(HexUint(8, U32), Num(checkSum), newBuffer);
      FooterText(body);
      newBuffer := newBuffer + "," + "\n";
    }
  }

  lemma FooterText(body: Packet)
    ensures EncodeElement(HexUint(8, U32), Num(Crc32.Checksum(body))).Some?
    ensures Footer(body) == EncodeElement(HexUint(8, U32), Num(Crc32.Checksum(body))).value + "," + "\n"
  {
    EightDigits(Crc32.Checksum(body));
  }
}
