/**
 * Which raw field of the ecu1 packet each published parameter takes, by name
 * (power_ecu_com_data_decoder.cpp:55-171 and 213-435).
 */
module Ecu1Parameters {
  import opened Octets
  import opened Numerals
  import opened Elements
  import opened DataPackets
  import opened Schemas

  datatype Parameter =
    | TimeStamp | Date | StatusFlag | EcuStatus | DiagStatus
    | TotalCapacity | RemainingCapacity | ElectricCurrent | Voltage | Temperature
    | StateFlag | InitialLearningCapacity | ErrorStatus | RelativeCapacity
    | BumperStatus | GyroStatus
    | QuaternionT | QuaternionX | QuaternionY | QuaternionZ
    | AngularVelocityX | AngularVelocityY | AngularVelocityZ
    | AccelerationX | AccelerationY | AccelerationZ
    | ChargerState
    | InternalState | SwitchBits

  /** The field of the packet, in the order in which the decoders are listed. */
  function Place(p: Parameter): nat
    requires !p.InternalState? && !p.SwitchBits?
  {
    match p
    case TimeStamp => 0
    case Date => 1
    case StatusFlag => 2
    case EcuStatus => 3
    case DiagStatus => 4
    case TotalCapacity => 5
    case RemainingCapacity => 6
    case ElectricCurrent => 7
    case Voltage => 8
    case Temperature => 9
    case StateFlag => 10
    case InitialLearningCapacity => 11
    case ErrorStatus => 12
    case RelativeCapacity => 13
    case BumperStatus => 14
    case GyroStatus => 15
    case QuaternionT => 16
    case QuaternionX => 17
    case QuaternionY => 18
    case QuaternionZ => 19
    case AngularVelocityX => 20
    case AngularVelocityY => 21
    case AngularVelocityZ => 22
    case AccelerationX => 23
    case AccelerationY => 24
    case AccelerationZ => 25
    case ChargerState => 26
  }

  /** The published parameter, in the order of registration; a status word stands for its flags. */
  function Slot(p: Parameter): nat
    requires !p.EcuStatus?
  {
    match p
    case TimeStamp => 0
    case Date => 1
    case StatusFlag => 2
    case DiagStatus => 3
    case TotalCapacity => 4
    case RemainingCapacity => 5
    case ElectricCurrent => 6
    case Voltage => 7
    case Temperature => 8
    case StateFlag => 9
    case InitialLearningCapacity => 10
    case ErrorStatus => 11
    case RelativeCapacity => 12
    case InternalState => 13
    case SwitchBits => 14
    case BumperStatus => 15
    case GyroStatus => 16
    case QuaternionX => 17
    case QuaternionY => 18
    case QuaternionZ => 19
    case QuaternionT => 20
    case AngularVelocityX => 21
    case AngularVelocityY => 22
    case AngularVelocityZ => 23
    case AccelerationX => 24
    case AccelerationY => 25
    case AccelerationZ => 26
    case ChargerState => 27
  }

  /** Sent with a leading 'h' that is not published. */
  predicate Hexadecimal(p: Parameter) {
    p.StatusFlag? || p.DiagStatus? || p.GyroStatus?
  }

  /** How each field of the packet is written, and the type its decoder stores. */
  lemma FieldTypes(p: Parameter)
    requires !p.InternalState? && !p.SwitchBits?
    ensures |Ecu1Format().elements| == 27
    ensures Ecu1Format().elements[Place(p)] ==
      match p
      case TimeStamp => Uint(10, U32)
      case Date => Text(14)
      case StatusFlag => Text(3)
      case EcuStatus => Text(17)
      case DiagStatus => Text(65)
      case TotalCapacity => SignedInt(5, U16)
      case RemainingCapacity => SignedInt(5, U16)
      case ElectricCurrent => SignedInt(5, I16)
      case Voltage => SignedInt(5, U16)
      case Temperature => SignedInt(3, I8)
      case StateFlag => HexUint(4, U16)
      case InitialLearningCapacity => Uint(5, U16)
      case ErrorStatus => HexUint(4, U16)
      case RelativeCapacity => Uint(3, U8)
      case BumperStatus => HexUint(2, U8)
      case GyroStatus => Text(17)
      case ChargerState => HexUint(2, U8)
      case _ => SignedInt(10, I32)
  {
    RepeatAt(SignedInt(10, I32), 10);
  }

  lemma {:induction false} RepeatAt(e: Element, n: nat)
    ensures forall i :: 0 <= i < n ==> Repeat(e, n)[i] == e
  {
    if n > 0 {
      RepeatAt(e, n - 1);
    }
  }

  /** Every published parameter is the received field of its own name, a hexadecimal text without its 'h'. */
  lemma PublishedByName(raw: seq<Value>, p: Parameter)
    requires |raw| == 27 && !p.EcuStatus? && !p.InternalState? && !p.SwitchBits?
    ensures |Ecu1Image(raw)| == 28
    ensures Ecu1Image(raw)[Slot(p)] == if Hexadecimal(p) then DropPrefix(raw[Place(p)]) else raw[Place(p)]
  {
    hide DropPrefix;
    hide StatusByte;
  }

  /** No parameter is published twice. */
  lemma SlotsDistinct(p: Parameter, q: Parameter)
    requires !p.EcuStatus? && !q.EcuStatus? && Slot(p) == Slot(q)
    ensures p == q
  {
  }

  /** The text without its first character. */
  lemma PrefixDropped(s: Packet, c: Octet)
    ensures DropPrefix(Str([c] + s)) == Str(s)
  {
    assert ([c] + s)[1..] == s;
  }

  /**
   * The status word is 64 bits in 16 hexadecimal digits: the internal state is its bits 16 to 23 and
   * the switches are its bits 0 to 7.
   */
  lemma StatusWordSplit(raw: seq<Value>, digits: Packet)
    requires |raw| == 27 && |digits| == 16 && IsNumeral(digits, 16) && raw[3] == Str("h" + digits)
    ensures var word := NumeralValue(digits, 16);
      Ecu1Image(raw)[13] == Num(word / 0x1_0000 % 0x100) && Ecu1Image(raw)[14] == Num(word % 0x100)
  {
    hide Ecu1Image;
    hide StatusByte;
    hide NumeralValue;
    hide DigitValue;
    hide IsNumeral;
    StatusSlots(raw);
    StatusByteIs(digits, 12, WORD);
    StatusByteIs(digits, 16, 256);
    TwoMoreDigits(digits, 12);
    TwoMoreDigits(digits, 14);
    assert digits[..16] == digits;
    Prefixes(digits);
    TwoShifts(NumeralValue(digits, 16));
  }

  lemma Prefixes(digits: Packet)
    requires |digits| == 16 && IsNumeral(digits, 16)
    ensures IsNumeral(digits[..12], 16) && IsNumeral(digits[..14], 16)
  {
  }

  lemma TwoShifts(n: nat)
    ensures n / 0x100 / 0x100 == n / 0x1_0000
  {
  }

  lemma StatusSlots(raw: seq<Value>)
    requires |raw| == 27
    ensures |Ecu1Image(raw)| == 28
    ensures Ecu1Image(raw)[13] == StatusByte(raw[3], 6, WORD) && Ecu1Image(raw)[14] == StatusByte(raw[3], 2, 256)
  {
    hide DropPrefix;
    hide StatusByte;
  }

  /** The two digits before position n are the low byte of the number up to there. */
  lemma StatusByteIs(digits: Packet, n: nat, values: nat)
    requires 2 <= n <= |digits| == 16 && IsNumeral(digits, 16) && values >= 256
    ensures StatusByte(Str("h" + digits), 18 - n, values) == Num(NumeralValue(digits[..n], 16) % 0x100)
  {
    hide Strtol;
    hide NumeralValue;
    hide DigitValue;
    var text, two := "h" + digits, digits[n - 2..n];
    TextSlice(digits, n);
    StrtolNumeral(two, 16);
    TwoMoreDigits(digits, n - 2);
    TwoMoreDigits(two, 0);
    assert two[..2] == two && two[..0] == [] && digits[n - 2..n] == two;
    NoDigits(16);
  }

  lemma TextSlice(digits: Packet, n: nat)
    requires 2 <= n <= |digits| == 16
    ensures ("h" + digits)[n - 1..n + 1] == digits[n - 2..n]
  {
  }
}
