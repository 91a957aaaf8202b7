/**
 * The data level of the power ECU link: comma-terminated fields, encoded and decoded element by
 * element (`IPowerEcuComDataEncoder`, `IPowerEcuComDataDecoder`).
 */
module DataPackets {
  import opened Options
  import opened Octets
  import opened Numerals
  import opened Elements

  /** Characters of a data section plus the frame footer, as the size field of a frame counts them. */
  function Layout(elements: seq<Element>): nat {
    if elements == [] then 11 else elements[0].Width() + 1 + Layout(elements[1..])
  }

  predicate AllFit(elements: seq<Element>, values: seq<Value>) {
    |elements| == |values| && forall i :: 0 <= i < |elements| ==> Fits(elements[i], values[i])
  }

  // ---- encoding -----------------------------------------------------------------------------------------------

  datatype Encoded = Encoded(text: Packet, ok: bool)

  /** The fields up to the first one that does not encode. */
  function EncodeFields(elements: seq<Element>, values: seq<Value>): (r: Encoded)
    requires |elements| == |values|
  {
    if elements == [] then Encoded([], true)
    else
      var field := EncodeElement(elements[0], values[0]);
      if field.None? then Encoded([], false)
      else
        var rest := EncodeFields(elements[1..], values[1..]);
        Encoded(field.value + "," + rest.text, rest.ok)
  }

  predicate Encodable(elements: seq<Element>, values: seq<Value>) {
    |elements| == |values| &&
    forall i :: 0 <= i < |elements| ==>
      !elements[i].SignedInt? && (if elements[i].Text? then values[i].Str? else values[i].Num? && values[i].n >= 0)
  }

  /** `IPowerEcuComDataEncoder::Encode`. */
  method EncodeData(elements: seq<Element>, values: seq<Value>, buffer: Packet) returns (ok: bool, newBuffer: Packet)
    requires Encodable(elements, values)
    ensures ok == EncodeFields(elements, values).ok
    ensures newBuffer == buffer + EncodeFields(elements, values).text
  {
    newBuffer := buffer;
    var i := 0;
    while i < |elements|
      invariant i <= |elements|
      invariant EncodeFields(elements, values).ok == EncodeFields(elements[i..], values[i..]).ok
      invariant newBuffer + EncodeFields(elements[i..], values[i..]).text
             == buffer + EncodeFields(elements, values).text
    {
      assert elements[i..][1..] == elements[i + 1..] && values[i..][1..] == values[i + 1..];
      ok, newBuffer := Elements.Encode(elements[i], values[i], newBuffer);
      if !ok {
        return;
      }
      newBuffer := newBuffer + ",";
      i := i + 1;
    }
    ok := true;
  }

  lemma EncodedWidth(e: Element, v: Value)
    requires EncodeElement(e, v).Some?
    ensures |EncodeElement(e, v).value| == e.Width()
  {
  }

  /** The data section has the length its layout declares exactly when every element encoded. */
  lemma {:induction false} EncodedLength(elements: seq<Element>, values: seq<Value>)
    requires |elements| == |values|
    ensures var r := EncodeFields(elements, values);
      if r.ok then |r.text| + 11 == Layout(elements) else |r.text| + 11 < Layout(elements)
    decreases |elements|
  {
    if elements != [] {
      if EncodeElement(elements[0], values[0]).Some? {
        EncodedWidth(elements[0], values[0]);
        EncodedLength(elements[1..], values[1..]);
      } else {
        LayoutPositive(elements[1..]);
      }
    }
  }

  /** Fields with a comma behind each. */
  function Joined(fields: seq<Packet>): Packet {
    if fields == [] then [] else fields[0] + "," + Joined(fields[1..])
  }

  /** What is written are the fields of the leading values that encode; the first one that does not ends it. */
  lemma {:induction false} EncodedExact(elements: seq<Element>, values: seq<Value>) returns (fields: seq<Packet>)
    requires |elements| == |values|
    ensures var n := |fields|;
      n <= |elements| && EncodeFields(elements, values).text == Joined(fields) &&
      (forall i :: 0 <= i < n ==> EncodeElement(elements[i], values[i]) == Some(fields[i])) &&
      (EncodeFields(elements, values).ok <==> n == |elements|) &&
      (n < |elements| ==> EncodeElement(elements[n], values[n]).None?)
    decreases |elements|
  {
    hide EncodeElement;
    fields := [];
    if elements != [] && EncodeElement(elements[0], values[0]).Some? {
      var rest := EncodedExact(elements[1..], values[1..]);
      fields := [EncodeElement(elements[0], values[0]).value] + rest;
      assert fields[1..] == rest;
      assert forall i :: 0 < i < |fields| ==> fields[i] == rest[i - 1] && elements[i] == elements[1..][i - 1];
    }
  }

  lemma {:induction false} LayoutPositive(elements: seq<Element>)
    ensures Layout(elements) >= 11
    decreases |elements|
  {
    if elements != [] {
      LayoutPositive(elements[1..]);
    }
  }

  // ---- decoding -----------------------------------------------------------------------------------------------

  /** The values of the leading fields that decode, up to the first missing comma or refused field. */
  function LeadingFields(elements: seq<Element>, text: Packet): (values: seq<Value>)
    ensures |values| <= |elements|
    decreases |elements|
  {
    if elements == [] then []
    else
      var comma := Find(text, ',');
      if comma == |text| then []
      else
        var v := DecodeElement(elements[0], text[..comma]);
        if v.None? then [] else [v.value] + LeadingFields(elements[1..], text[comma + 1..])
  }

  /** One field either ends the list or contributes its value and leaves the rest to the next field. */
  lemma StopsAt(elements: seq<Element>, text: Packet)
    ensures var all, comma := LeadingFields(elements, text), Find(text, ',');
      if elements == [] || comma == |text| || DecodeElement(elements[0], text[..comma]).None? then
        all == []
      else
        all != [] && Some(all[0]) == DecodeElement(elements[0], text[..comma]) &&
        all[1..] == LeadingFields(elements[1..], text[comma + 1..])
  {
  }

  /** The fields are comma-free and element by element decode to the values. */
  predicate FieldsHold(elements: seq<Element>, fields: seq<Packet>, values: seq<Value>) {
    |fields| == |values| <= |elements| &&
    forall i :: 0 <= i < |fields| ==> ',' !in fields[i] && DecodeElement(elements[i], fields[i]) == Some(values[i])
  }

  /** Behind the fields there is no element left to decode, no comma, or a field that its element refuses. */
  predicate EndsThere(elements: seq<Element>, n: nat, rest: Packet)
    requires n <= |elements|
  {
    n == |elements| || ',' !in rest || DecodeElement(elements[n], rest[..Find(rest, ',')]).None?
  }

  predicate Split(elements: seq<Element>, text: Packet, values: seq<Value>, fields: seq<Packet>, rest: Packet) {
    text == Joined(fields) + rest && FieldsHold(elements, fields, values) && EndsThere(elements, |fields|, rest)
  }

  lemma FindAll(s: Packet, c: Octet)
    ensures c !in s <==> Find(s, c) == |s|
  {
    if Find(s, c) == |s| {
      assert s[..|s|] == s;
    }
  }

  /** The text splits into the fields decoded and the rest; and how it splits decides what is decoded. */
  lemma {:induction false} SplitOf(elements: seq<Element>, text: Packet) returns (fields: seq<Packet>, rest: Packet)
    ensures Split(elements, text, LeadingFields(elements, text), fields, rest)
    decreases |elements|
  {
    hide DecodeElement;
    hide Find;
    hide LeadingFields;
    StopsAt(elements, text);
    FindAll(text, ',');
    var values, comma := LeadingFields(elements, text), Find(text, ',');
    if values == [] {
      fields, rest := [], text;
    } else {
      var field := text[..comma];
      fields, rest := SplitOf(elements[1..], text[comma + 1..]);
      assert text == field + "," + text[comma + 1..];
      var more := fields;
      fields := [field] + fields;
      assert fields[1..] == more && values == [values[0]] + values[1..];
      assert forall i :: 0 < i < |fields| ==> fields[i] == more[i - 1] && elements[i] == elements[1..][i - 1];
    }
  }

  lemma {:induction false} SplitDecides(elements: seq<Element>, text: Packet, values: seq<Value>,
                                        fields: seq<Packet>, rest: Packet)
    requires Split(elements, text, values, fields, rest)
    ensures values == LeadingFields(elements, text)
    decreases |elements|
  {
    hide DecodeElement;
    hide Find;
    hide LeadingFields;
    StopsAt(elements, text);
    FindAll(text, ',');
    if fields == [] {
      assert text == rest;
    } else {
      var field, behind := fields[0], Joined(fields[1..]) + rest;
      assert text == field + "," + behind;
      assert text[..|field|] == field;
      FindUnique(text, ',', |field|);
      assert text[|field| + 1..] == behind;
      SplitDecides(elements[1..], behind, values[1..], fields[1..], rest);
      assert values == [values[0]] + values[1..];
    }
  }

  /**
   * What a data section decodes to, whatever it holds: the values are those of its leading fields if and
   * only if it is these fields, each with its comma, and a rest at which decoding must end.
   */
  lemma FieldsExact(elements: seq<Element>, text: Packet, values: seq<Value>)
    ensures values == LeadingFields(elements, text)
      <==> exists fields, rest :: Split(elements, text, values, fields, rest)
  {
    hide Split;
    if values == LeadingFields(elements, text) {
      var fields, rest := SplitOf(elements, text);
    }
    forall fields, rest | Split(elements, text, values, fields, rest)
      ensures values == LeadingFields(elements, text)
    {
      SplitDecides(elements, text, values, fields, rest);
    }
  }

  predicate Decodes(elements: seq<Element>, text: Packet) {
    |LeadingFields(elements, text)| == |elements|
  }

  /** Data round trip: values in range are written in the declared length and read back exactly. */
  lemma {:induction false} DataRoundTrip(elements: seq<Element>, values: seq<Value>)
    requires AllFit(elements, values)
    ensures EncodeFields(elements, values).ok
    ensures LeadingFields(elements, EncodeFields(elements, values).text) == values
    decreases |elements|
  {
    if elements != [] {
      hide DecodeElement;
      hide EncodeElement;
      hide Find;
      hide LeadingFields;
      ElementRoundTrip(elements[0], values[0]);
      DataRoundTrip(elements[1..], values[1..]);
      var field := EncodeElement(elements[0], values[0]).value;
      var rest := EncodeFields(elements[1..], values[1..]).text;
      var text := field + "," + rest;
      assert text[..|field|] == field;
      FindUnique(text, ',', |field|);
      assert text[|field| + 1..] == rest;
      StopsAt(elements, text);
      assert values == [values[0]] + values[1..];
    } else {
      StopsAt(elements, EncodeFields(elements, values).text);
    }
  }

  // ---- data decoders ------------------------------------------------------------------------------------------

  datatype Kind = Ecu1 | Ecu2 | Rxack | Ver

  datatype Format = Format(name: Packet, size: nat, elements: seq<Element>, kind: Kind)

  /** What a data decoder remembers: the fields its elements write, what `Update` publishes, and its flag. */
  datatype State = State(raw: seq<Value>, out: seq<Value>, received: bool)

  function DropPrefix(v: Value): Value {
    if v.Str? && v.s != [] then Str(v.s[1..]) else v
  }

  /** Two hexadecimal digits of a status string, counted from its end, as an unsigned integer of that many values. */
  function StatusByte(v: Value, fromEnd: nat, values: nat): Value
    requires fromEnd >= 2 && values > 0
  {
    if v.Str? && |v.s| >= fromEnd
    then Num(Strtol(v.s[|v.s| - fromEnd..|v.s| - fromEnd + 2], 16) % values)
    else v
  }

  /** The published ecu1 parameters as a function of the raw fields, before physical scaling. */
  function Ecu1Image(raw: seq<Value>): seq<Value>
    requires |raw| == 27
  {
    [raw[0], raw[1], DropPrefix(raw[2]), DropPrefix(raw[4])] + raw[5..14] +
    [StatusByte(raw[3], 6, WORD), StatusByte(raw[3], 2, 256), raw[14], DropPrefix(raw[15])] +
    raw[17..20] + [raw[16]] + raw[20..]
  }

  predicate Shaped(kind: Kind, elements: seq<Element>) {
    (kind.Ecu1? ==> |elements| == 27) && (kind.Rxack? ==> |elements| == 1)
  }

  /** `Update`: what a decoder publishes once all fields have been decoded. */
  function Update(kind: Kind, s: State): State
    requires kind.Ecu1? ==> |s.raw| == 27
  {
    match kind
    case Ecu1 => s.(out := Ecu1Image(s.raw))
    case Ecu2 => s
    case Rxack => s.(received := true)
    case Ver => s.(out := seq(|s.raw|, i requires 0 <= i < |s.raw| => DropPrefix(s.raw[i])), received := true)
  }

  /** What clients see: ecu2 and rxack hand out pointers to the very fields their elements write. */
  function Published(kind: Kind, s: State): seq<Value> {
    if kind.Ecu1? || kind.Ver? then s.out else s.raw
  }

  /** Leading fields replace the old ones even when a later field fails. */
  function Overwrite(raw: seq<Value>, values: seq<Value>): (r: seq<Value>)
    requires |values| <= |raw|
    ensures |r| == |raw|
  {
    values + raw[|values|..]
  }

  predicate Matches(format: Format, s: State) {
    |s.raw| == |format.elements| && Shaped(format.kind, format.elements)
  }

  /** One call of `IPowerEcuComDataDecoder::Decode`. */
  function DecodeState(format: Format, s: State, text: Packet): (r: State)
    requires Matches(format, s)
    ensures Matches(format, r)
  {
    var raw := Overwrite(s.raw, LeadingFields(format.elements, text));
    if Decodes(format.elements, text) then Update(format.kind, s.(raw := raw)) else s.(raw := raw)
  }

  /** One decoded field moves from the fields to come to the fields done. */
  lemma FieldDone(elements: seq<Element>, rest: Packet, done: seq<Value>, raw: seq<Value>)
    requires var comma := Find(rest, ',');
      elements != [] && comma < |rest| && DecodeElement(elements[0], rest[..comma]).Some?
    requires |done| < |raw|
    ensures var comma := Find(rest, ',');
      var v := DecodeElement(elements[0], rest[..comma]).value;
      done + LeadingFields(elements, rest) == done + [v] + LeadingFields(elements[1..], rest[comma + 1..]) &&
      Overwrite(raw, done)[|done| := v] == Overwrite(raw, done + [v])
  {
    hide DecodeElement;
    hide Find;
    StopsAt(elements, rest);
    hide LeadingFields;
    var todo := LeadingFields(elements, rest);
    assert todo == [todo[0]] + todo[1..];
  }

  lemma NothingDone(raw: seq<Value>, all: seq<Value>)
    ensures Overwrite(raw, []) == raw && [] + all == all && all + [] == all
  {
  }

  class DataDecoder {
    const format: Format
    var raw: seq<Value>
    var out: seq<Value>
    var received: bool

    constructor (format: Format, raw: seq<Value>, out: seq<Value>)
      requires Matches(format, State(raw, out, false))
      ensures this.format == format && Valid()
      ensures Content() == State(raw, out, false)
    {
      this.format := format;
      this.raw, this.out, this.received := raw, out, false;
    }

    ghost function Content(): State
      reads this
    {
      State(raw, out, received)
    }

    ghost predicate Valid()
      reads this
    {
      Matches(format, Content())
    }

    /** The field loop: splits buffer[start..end] at its commas and hands the fields to the element decoders. */
    method DecodeFields(buffer: Packet, start: nat, end: nat) returns (ok: bool)
      requires Valid() && start <= end <= |buffer|
      modifies this`raw
      ensures ok == Decodes(format.elements, buffer[start..end])
      ensures raw == Overwrite(old(raw), LeadingFields(format.elements, buffer[start..end]))
    {
      hide DecodeElement;
      hide Find;
      hide LeadingFields;
      hide Overwrite;
      hide Shaped;
      ghost var rest, elements, done := buffer[start..end], format.elements, [];
      ghost var all := LeadingFields(elements, rest);
      NothingDone(raw, all);
      var current := start;
      var k := 0;
      while k < |format.elements|
        invariant k == |done| <= |format.elements| == |raw| == |old(raw)| && start <= current <= end
        invariant rest == buffer[current..end] && elements == format.elements[k..]
        invariant raw == Overwrite(old(raw), done)
        invariant all == done + LeadingFields(elements, rest)
      {
        StopsAt(elements, rest);
        NothingDone(raw, done);
        var comma := Find(buffer[current..end], ',');
        if current + comma == end {
          return false;
        }
        var elementEnd := current + comma;
        SliceOfSlice(buffer, current, end, 0, comma);
        SliceOfSlice(buffer, current, end, comma + 1, end - current);
        var target;
        ok, target := Elements.Decode(format.elements[k], buffer[current..elementEnd], raw[k]);
        if !ok {
          return;
        }
        FieldDone(elements, rest, done, old(raw));
        raw := raw[k := target];
        done, rest, elements := done + [target], rest[comma + 1..], elements[1..];
        current := elementEnd + 1;
        k := k + 1;
      }
      StopsAt(elements, rest);
      NothingDone(raw, done);
      ok := true;
    }

    /** `IPowerEcuComDataDecoder::Decode`: publishes only what was decoded completely. */
    method Decode(buffer: Packet, start: nat, end: nat) returns (ok: bool)
      requires Valid() && start <= end <= |buffer|
      modifies this
      ensures Valid()
      ensures ok == Decodes(format.elements, buffer[start..end])
      ensures Content() == DecodeState(format, old(Content()), buffer[start..end])
    {
      hide LeadingFields;
      ok := DecodeFields(buffer, start, end);
      if ok {
        match format.kind
        case Ecu1 => out := Ecu1Image(raw);
        case Ecu2 =>
        case Rxack => received := true;
        case Ver =>
          received := true;
          ghost var image := Update(Ver, Content()).out;
          var published: seq<Value> := [];
          for i := 0 to |raw|
            invariant published == image[..i]
          {
            published := published + [DropPrefix(raw[i])];
          }
          out := published;
      }
    }
  }
}
