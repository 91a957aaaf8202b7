# HSR-B base software: links to the power ECU, the servo motors and the IMU

This project models, in Dafny, the parts of the HSR-B drivers that exchange bytes with other
processors, and proves what those exchanges guarantee.

* **Power ECU link** (`hsrb_power_ecu`). Values are written as fixed-width text elements (`Numerals`,
  `Elements`), elements are joined by commas into data sections (`DataPackets`, `Schemas`), and data
  sections travel in frames with a CRC-32 over byte-swapped words (`Crc32`, `Frames`). The decoder
  resynchronises on a receive buffer that is fed in arbitrary chunks (`FrameStream`, `Resync`, `FrameCodec`,
  `LinkCodec`). On top of it runs a protocol of queued commands, acknowledgements and heartbeats: a state
  machine in `EcuLink`, its guarantees to clients in `EcuRuns`, the attribution of acknowledgements in
  `EcuAnswers`, and the class whose methods refine the machine in `PowerEcuProtocol`. The CRC is the decoder
  model of Annex A of ITU-T H.222.0 | ISO/IEC 13818-1: its register is proved to be the remainder of a
  schoolbook long division and the textbook shift-and-XOR of 32-bit words (`CrcWords`), and its error
  detection is proved from that register.
  What these levels do is also told without their own definitions: what an element stores (`ElementRanges`),
  which field an ecu1 parameter takes (`Ecu1Parameters`), which byte runs the decoder takes off
  (`NoiseGrammar`), what each call does and returns after any run (`EcuCalls`), and two frames byte for byte
  (`Vectors`).
* **Firmware upload** (`hsrb_servomotor_protocol`). `XmodemSender` is the stop-and-wait sender as written,
  as a state machine and as the loops that refine it; `XmodemLink` puts it together with a receiver and a
  serial line that delivers in order, loses, corrupts and adds bytes (XMODEM with arithmetic checksum,
  chapter 7 of Forsberg's *XMODEM/YMODEM Protocol Reference*, except that padding is 0xFF), and
  `XmodemFaults` holds the runs in which an upload goes wrong unnoticed. `XmodemReplies` says what each reply
  does in any run.
* **Byte-at-a-time parsers**: `ExxxPacket` (servo status packets) and `Mpu9150` (IMU packets, commands, and
  the converter that picks the latest sample); `ExxxGrammar` and `MpuGrammar` say exactly which byte runs
  they skip and which they take.
* **Smaller pieces**: `ErrorWindows` (two sliding error counters with one specification), `DiagBits` (bit
  sets as hexadecimal text), `ControlTable` (address allocation).

Code that changes state is modelled by classes and loops; each method is tied to a function of its inputs or
of the old state, and the lemmas are about those functions. The clock, the network, the serial port and the
replies of the other side are inputs of each step, so every statement about runs holds for all of them.

Where the code and its comments disagree, the model follows the code:

* the sign of a signed element is a space or `-` (power_ecu_com_element_decoder.hpp:186-192), where
  power_ecu_com_frame_decoder.hpp:164 documents `[+-]`;
* the XMODEM loop gives up after 100 rounds without an ACK, not after the 10 a comment mentions
  (exxx_reprograming.cpp:563), and its checksum is the plain sum, not a two's complement (line 746);
* `ReceiveAll` never returns the "retransmission" code that power_ecu_protocol.hpp documents for it, and
  nothing is ever sent a second time.

Findings that the model makes precise:

* a size field such as `-01` stops reception for good (`FrameStream.StalledForever`), and nothing else can
  (`FrameStream.StalledIffNegativeSize`);
* exactly which bytes before a frame lose it can be told from those bytes (`Resync.FrameReportedIff`,
  `NoiseGrammar.ClearsIff`): `EX` does no harm, a lone `E` loses any frame (`Resync.StrayStartLosesFrame`);
* a servo packet gets through exactly when the bytes before it leave the parser reset
  (`ExxxPacket.PacketFoundIff`), so a stray 0xAA in front of it loses it (`ExxxPacket.StrayHeaderHides`);
* a firmware upload of two blocks or more can be reported as successful with its last block missing, without
  any noise or corruption, if the receiver asks again for a block that is still on its way
  (`XmodemFaults.StaleDuplicateDefeats`); with a single block it cannot (`XmodemFaults.FaithfulIffOneBlock`);
* an acknowledgement that arrived before its command was sent, all but the last byte, acknowledges the command
  (`EcuRuns.EarlyAckCounts`);
* a frame whose data failed to encode is sent all the same, and its size field then announces more than was
  written (`LinkCodec.FrameCompleteIffEncoded`);
* a partly decodable ecu2 frame changes published parameters (`LinkCodec.DirectMixes`); an ecu1 frame
  never does (`EcuRuns.SnapshotInEveryState`);
* an overflow of the command queue while a command is in flight makes its acknowledgement remove a command
  that was never sent (`EcuLink.OverflowMisattributes`);
* a refusal is lost if an accepting acknowledgement follows it in the same read (`EcuRuns.RefusalMasked`), and the
  answer to a heartbeat is taken for that of the command behind it (`EcuAnswers.HeartbeatAnswersCommand`;
  exactly when, `EcuAnswers.AckAttribution`);
* as long as reads fail, an overdue command is never given up (`EcuLink.FailedReadsNeverTimeOut`);
* a batch without a newer timestamp makes the IMU converter copy from the index of an earlier batch, in
  bounds only if that index still is (`Mpu9150.MPU9150PacketConverter.ToSensorState`);
* IMU commands with more than 253 data bytes are sent but are not well formed
  (`Mpu9150.CommandWellFormedIffFits`).

## Model

| member | source | states |
|---|---|---|
| Crc32.CalculateCrc32 | hsrb_power_ecu/src/power_ecu_com_common.cpp:61-95 | the word-wise loop computes the bitwise CRC-32 of the zero-padded, word-reversed bytes |
| Crc32.RegisterIsRemainder | hsrb_power_ecu/src/power_ecu_com_common.cpp:64-64 | the shift register's content is the long-division remainder of message * x^32 (start value folded in) by the generator polynomial |
| Crc32.WordSwappedAt | hsrb_power_ecu/src/power_ecu_com_common.cpp:66-93 | byte b of word w in the checksummed stream is byte 3-b of that word of the buffer, or zero beyond its end; the stream is the next multiple of four long |
| Crc32.ShiftInjective | hsrb_power_ecu/src/power_ecu_com_common.cpp:64-64 | the register step loses no information, because the polynomial has a constant term |
| Crc32.BurstDetected | hsrb_power_ecu/src/power_ecu_com_common.cpp:61-95 | changing any stretch of up to 32 consecutive bits changes the register, whatever comes before and after |
| Crc32.ZeroResidue | hsrb_power_ecu/src/power_ecu_com_common.cpp:64-64 | the register ends at zero if and only if the message is followed by its own CRC (decoder model of H.222.0, Annex A) |
| Crc32.WordErrorDetected | hsrb_power_ecu/src/power_ecu_com_common.cpp:61-95 | any change confined to one aligned four-byte word (or the shorter last one) changes the checksum |
| Crc32.NumberInjective | hsrb_power_ecu/src/power_ecu_com_common.cpp:94-94 | different registers give different checksum numbers |
| CrcWords.ShiftRefines | hsrb_power_ecu/src/power_ecu_com_common.cpp:64-64 | for every start value and message the bit register holds what shifting a 32-bit word left and XORing 0x04C11DB7 makes of it, highest bit of each byte first |
| CrcWords.ChecksumShifts | hsrb_power_ecu/src/power_ecu_com_common.cpp:61-95 | the checksum of every buffer is the number of the word so computed from 0xFFFFFFFF over its word-reversed bytes |
| CrcWords.ParametersAre | hsrb_power_ecu/src/power_ecu_com_common.cpp:36-37 | the generator is the number 0x04C11DB7 and the start value 0xFFFFFFFF |
| CrcWords.CheckValue | hsrb_power_ecu/src/power_ecu_com_common.cpp:64-64 | the published check value of these parameters: 123456789 gives 0x0376E6E7 |
| CrcWords.RxackChecksum | hsrb_power_ecu/test/network_mock.cpp:61-61 | `E,rxack,015,h00,` has the checksum 0x83693205 |
| CrcWords.PumpChecksum | hsrb_power_ecu/test/power_ecu_com_common-test.cpp:36-45 | `H,pump_,013,1,`, whose last word is padded, has the checksum 0x4B407CCA |
| Numerals.DigitsDenote | hsrb_power_ecu/src/power_ecu_com_element_encoder.hpp:77-97 | the digits written denote exactly the value when nothing is left over after the declared number of digits |
| Numerals.DigitsOfValue | hsrb_power_ecu/src/power_ecu_com_element_encoder.hpp:205-223 | every numeral of a width is what is written for its own value: fixed-width notation is unique |
| Numerals.AccumulateWraps | hsrb_power_ecu/src/power_ecu_com_element_decoder.hpp:76-84 | one step of the wrapping 32-bit accumulation is the exact step modulo 2^32, signed and unsigned |
| Numerals.StrtolNumeral | hsrb_power_ecu/src/power_ecu_com_frame_decoder.cpp:142-174 | on digit strings the C conversions return the number denoted |
| Numerals.AtoiReads | hsrb_power_ecu/src/power_ecu_com_frame_decoder.cpp:139-146 | `atoi` on spaces, a sign, digits and anything behind them: the signed number, whatever follows |
| Elements.WriteDigits | hsrb_power_ecu/src/power_ecu_com_element_encoder.hpp:201-224 | low-digit-first loop plus reversal yields the fixed-width digits; fails exactly when the value is too large for them |
| Elements.Encode | hsrb_power_ecu/src/power_ecu_com_element_encoder.hpp:73-258 | appends exactly the element's field, or nothing where it returns false |
| Elements.ReadDigits | hsrb_power_ecu/src/power_ecu_com_element_decoder.hpp:69-144 | accepts exactly the digit strings and returns the number modulo 2^32 |
| Elements.ReadSigned | hsrb_power_ecu/src/power_ecu_com_element_decoder.hpp:193-203 | accepts exactly the digit strings; the result is the number wrapped to 32-bit two's complement |
| Elements.Decode | hsrb_power_ecu/src/power_ecu_com_element_decoder.hpp:69-260 | width, prefix, sign, truncation and saturation of every decoder; a refused field leaves the target unchanged |
| Elements.ElementRoundTrip | hsrb_power_ecu/src/power_ecu_com_element_decoder.hpp:69-260 | every in-range value becomes a comma-free field of the declared width that decodes to the same value, signed elements included |
| Elements.ElementCanonical | hsrb_power_ecu/src/power_ecu_com_element_encoder.hpp:73-258 | conversely an accepted unsigned or text field is the very field the encoder writes for its value if and only if the decoder did not truncate the number |
| ElementRanges.TypeRanges | hsrb_power_ecu/src/power_ecu_com_element_decoder.hpp:206-212 | the limits of the six stored types, to which signed values saturate |
| ElementRanges.UnsignedDecoded | hsrb_power_ecu/src/power_ecu_com_element_decoder.hpp:69-144 | an unsigned element accepts exactly its digits (and an `h` if hexadecimal); the value lies in its type and differs from the number by a multiple of the type's size |
| ElementRanges.SignedDecoded | hsrb_power_ecu/src/power_ecu_com_element_decoder.hpp:177-218 | a signed element accepts exactly a space or minus and its digits; of all values of its type, the one stored is nearest to the number denoted, as far as an int32_t holds it |
| ElementRanges.DigitsOnTheLink | hsrb_power_ecu/src/power_ecu_com_element_encoder.hpp:201-224 | the digits are 0-9 and A-F, upper case only, in this order of value |
| ElementRanges.WrittenIffFits | hsrb_power_ecu/src/power_ecu_com_element_encoder.hpp:73-97 | a number is written if and only if it is below base to the power of the digits |
| DataPackets.EncodeData | hsrb_power_ecu/src/power_ecu_com_frame_encoder.hpp:94-103 | appends the fields up to the first that does not encode, each with its comma, and reports whether all did |
| DataPackets.EncodedExact | hsrb_power_ecu/src/power_ecu_com_frame_encoder.hpp:94-103 | the text is the fields of the leading values that encode, each with its comma; the first that does not ends it, and success means there was none |
| DataPackets.EncodedLength | hsrb_power_ecu/src/power_ecu_com_frame_encoder.hpp:94-103 | the text has the length of the layout if every element encoded and is strictly shorter otherwise |
| DataPackets.DataRoundTrip | hsrb_power_ecu/src/power_ecu_com_frame_decoder.cpp:54-79 | in-range values of any schema encode, and decode back to exactly those values |
| DataPackets.DataDecoder.DecodeFields | hsrb_power_ecu/src/power_ecu_com_frame_decoder.cpp:54-73 | the comma-splitting loop overwrites exactly the leading fields that decode, and succeeds exactly if all do |
| DataPackets.FieldsExact | hsrb_power_ecu/src/power_ecu_com_frame_decoder.cpp:54-73 | values are decoded from a text if and only if the text is comma-free fields that decode to them, each with its comma, and a rest where decoding must end: no element left, no comma, or a refused field |
| DataPackets.DataDecoder.Decode | hsrb_power_ecu/src/power_ecu_com_frame_decoder.cpp:54-79 | publishes through `Update` only after a complete decode |
| Ecu1Parameters.PublishedByName | hsrb_power_ecu/src/power_ecu_com_data_decoder.cpp:213-435 | every published ecu1 parameter takes the received field of its own name, a hexadecimal text without its `h` |
| Ecu1Parameters.FieldTypes | hsrb_power_ecu/src/power_ecu_com_data_decoder.cpp:60-171 | notation, width and stored type of every ecu1 field, by name |
| Ecu1Parameters.StatusWordSplit | hsrb_power_ecu/src/power_ecu_com_data_decoder.cpp:357-367 | of the 64-bit status word sent as 16 digits, the internal state is bits 16 to 23 and the switches are bits 0 to 7 |
| Schemas.ReceivedPacketsConsistent | hsrb_power_ecu/src/power_ecu_com_data_decoder.cpp:41-56 | the field widths of ecu1, ecu2, rxack and ver add up to the sizes declared apart from them |
| Schemas.CommandsAnnounceTheirLayout | hsrb_power_ecu/src/power_ecu_com_data_encoder.cpp:38-319 | the three size digits of every command denote the length of its elements plus footer |
| Frames.FooterReadsBack | hsrb_power_ecu/src/power_ecu_com_frame_encoder.cpp:77-81 | the eight checksum digits written are read back by `strtol` as the checksum |
| Frames.SizeReadsBack | hsrb_power_ecu/src/power_ecu_com_frame_decoder.cpp:139-146 | three-digit sizes survive `atoi` |
| Frames.ParseFrame | hsrb_power_ecu/src/power_ecu_com_frame_decoder.cpp:124-198 | with header and size in place, the data section is taken over exactly when the checksum matches, and the whole frame is skipped otherwise |
| Frames.FrameRoundTrip | hsrb_power_ecu/src/power_ecu_com_frame_decoder.cpp:104-198 | a frame in the encoder's layout with tag `E`, after any `E`-free noise and before anything, is found intact and consumed exactly with the noise |
| Frames.FrameReadsBack | hsrb_power_ecu/src/power_ecu_com_frame_decoder.cpp:104-198 | the same for any start character, so also for frames of the host |
| Frames.WordErrorRejected | hsrb_power_ecu/src/power_ecu_com_frame_decoder.cpp:163-180 | a frame altered within one data word is rejected and skipped whole |
| FrameStream.ParseStable | hsrb_power_ecu/src/power_ecu_com_frame_decoder.cpp:104-198 | a verdict on a frame does not change when more input follows |
| FrameStream.ScanStable | hsrb_power_ecu/src/power_ecu_com_frame_decoder.cpp:104-198 | a finished call repeats with more input, and what an unfinished call drops never matters |
| FrameStream.ChunkInvariance | hsrb_power_ecu/src/power_ecu_protocol.cpp:407-423 | decoding a, keeping the residue and decoding residue + b gives the reports and the residue of decoding a + b at once, without any condition on size fields |
| FrameStream.ChunkingIsIrrelevant | hsrb_power_ecu/src/power_ecu_protocol.cpp:407-423 | any number of reads of any sizes amounts to a single read |
| FrameStream.NoiseDropped | hsrb_power_ecu/src/power_ecu_com_frame_decoder.cpp:108-115 | bytes without `E` neither delay nor alter what follows |
| Resync.ReportsAreFrames | hsrb_power_ecu/src/power_ecu_protocol.cpp:407-423 | the reports are those of in-order, non-overlapping runs of the input, and each accepted one is a run with header, size and matching checksum |
| Resync.VerdictLocal | hsrb_power_ecu/src/power_ecu_com_frame_decoder.cpp:117-180 | a verdict depends only on the bytes it consumes |
| Resync.NoiseCleared | hsrb_power_ecu/src/power_ecu_com_frame_decoder.cpp:108-180 | noise in which every call that starts also ends is reported for itself and leaves whatever follows alone |
| Resync.FrameReportedIff | hsrb_power_ecu/src/power_ecu_com_frame_decoder.cpp:108-198 | a frame is reported at its place if and only if the noise before it clears, whatever the frame contains and whatever follows |
| Resync.NoisyRoundTrip | hsrb_power_ecu/src/power_ecu_com_frame_decoder.cpp:104-198 | after any noise that clears, the loop reports the frame and goes on behind it |
| Resync.SmallNoise | hsrb_power_ecu/src/power_ecu_com_frame_decoder.cpp:108-129 | `E`-free noise clears silently, `EX` clears with one rejection, a lone `E` does not clear |
| Resync.StrayStartLosesFrame | hsrb_power_ecu/src/power_ecu_com_frame_decoder.cpp:251-259 | an `E` directly before any frame makes the decoder consume the frame's own `E` and lose the frame; if the frame holds no further `E`, nothing else is lost |
| Resync.PrefixWaits | hsrb_power_ecu/src/power_ecu_com_frame_decoder.cpp:153-157 | a frame that has arrived in part is kept untouched |
| Resync.AcceptedEndsLate | hsrb_power_ecu/src/power_ecu_protocol.cpp:407-423 | a frame accepted after waiting ends within the bytes that came last |
| NoiseGrammar.ScanTakesUnit | hsrb_power_ecu/src/power_ecu_com_frame_decoder.cpp:108-198 | one call goes from the first `E` to k + n if and only if 12 bytes follow from there and the n bytes are a header given up at its first wrong byte (after 2, 8, 11 or 12 bytes) or a whole frame; the report is that of this unit |
| NoiseGrammar.ScanWaits | hsrb_power_ecu/src/power_ecu_com_frame_decoder.cpp:108-157 | it asks for more input if and only if no such unit is there, and then drops exactly what stands before the first `E` |
| NoiseGrammar.ClearsIff | hsrb_power_ecu/src/power_ecu_com_frame_decoder.cpp:108-198 | noise clears if and only if it is made of bytes other than `E` and of such units, and the reports are one for each unit |
| NoiseGrammar.BrokenHeadersClear | hsrb_power_ecu/src/power_ecu_com_frame_decoder.cpp:126-157 | `E` with a wrong second byte, `E,` with any name and a wrong byte behind it, with a size below 11, or with a wrong byte behind a larger size: each clears with exactly one rejection |
| FrameStream.ResidueIsDrained | hsrb_power_ecu/src/power_ecu_protocol.cpp:407-423 | the loop stops only where the decoder can make no further progress |
| FrameStream.ResidueShape | hsrb_power_ecu/src/power_ecu_com_frame_decoder.cpp:153-157 | the retained bytes are empty or start with `E`, and are at most 1010 unless they start with a header of negative size |
| FrameStream.StalledIffNegativeSize | hsrb_power_ecu/src/power_ecu_com_frame_decoder.cpp:142-157 | more than 1010 bytes stay unconsumed if and only if they start with a complete header of negative size |
| FrameStream.StalledForever | hsrb_power_ecu/src/power_ecu_com_frame_decoder.cpp:142-157 | after `E,ecu1_,-01,` nothing is ever decoded |
| FrameCodec.DispatchConcat | hsrb_power_ecu/src/power_ecu_com_frame_decoder.cpp:182-197 | handing over reports in two batches is handing them over in one |
| FrameCodec.FrameDecoder.RegisterDataDecoder | hsrb_power_ecu/src/power_ecu_com_frame_decoder.cpp:207-215 | a decoder is added under its own name, or refused if the name is taken, and no two names share an object |
| FrameCodec.FrameDecoder.SkipString | hsrb_power_ecu/src/power_ecu_com_frame_decoder.cpp:251-259 | reports equality and advances past the characters in either case |
| FrameCodec.FrameDecoder.Decode | hsrb_power_ecu/src/power_ecu_com_frame_decoder.cpp:104-198 | cursor, outcome and all decoder states after one call, for every buffer: refines search, header, size and checksum tests and dispatch |
| FrameCodec.FrameEncoder.Encode | hsrb_power_ecu/src/power_ecu_com_frame_encoder.cpp:52-84 | appends exactly the frame with checksum over everything before it; refuses unknown names without a trace |
| LinkCodec.CommandIsFrame | hsrb_power_ecu/src/power_ecu_com_frame_encoder.cpp:52-84 | what the encoder appends, in order: `H`, name, size, data, and the checksum of everything the buffer then holds; into an empty buffer it is a host frame |
| LinkCodec.SizeRightIffEncoded | hsrb_power_ecu/src/power_ecu_com_frame_encoder.cpp:68-75 | the announced size is the right one if and only if the whole data section encoded |
| LinkCodec.FrameCompleteIffEncoded | hsrb_power_ecu/src/power_ecu_com_frame_encoder.cpp:52-81 | the bytes the encoder writes, read as a host frame, are name, layout length and data of the command if the data encoded, and otherwise leave the reader waiting for bytes that belong to the next frame |
| LinkCodec.LinkRoundTrip | hsrb_power_ecu/src/power_ecu_com_frame_decoder.cpp:54-198 | for any consistent schema and in-range values, noise + frame + rest decodes to exactly those values and updates the decoder with them |
| LinkCodec.StreamRoundTrip | hsrb_power_ecu/src/power_ecu_protocol.cpp:407-423 | after any noise that clears, the receive loop reports the frame of in-range values and goes on behind it as if it had not been there |
| LinkCodec.AlteredFrameHarmless | hsrb_power_ecu/src/power_ecu_com_frame_decoder.cpp:163-180 | an altered frame after noise that clears yields one rejection, and all data decoders end up as if it had not been there |
| LinkCodec.ChunkedDecoding | hsrb_power_ecu/src/power_ecu_protocol.cpp:407-423 | chunk invariance of all decoder states and of the reported verdict |
| LinkCodec.SnapshotConsistent | hsrb_power_ecu/src/power_ecu_com_data_decoder.cpp:213-435 | after any sequence of reports the published ecu1 (and ver) parameters are the image of the last completely decoded frame, or untouched |
| LinkCodec.FlagTracksComplete | hsrb_power_ecu/src/power_ecu_com_data_decoder.cpp:631-680 | the received flag of rxack and ver goes up exactly with a completely decoded packet; no other decoder has one |
| LinkCodec.VersionsPublished | hsrb_power_ecu/src/power_ecu_com_data_decoder.cpp:669-680 | both published versions are the received texts without their first character |
| EcuRuns.RunDispatches | hsrb_power_ecu/src/power_ecu_protocol.cpp:388-522 | over any run of public calls every decoder but rxack has decoded all the frames that arrived, and nothing else |
| EcuRuns.SnapshotInEveryState | hsrb_power_ecu/src/power_ecu_com_data_decoder.cpp:213-435 | in every state a run reaches, the published ecu1 (and ver) parameters are the image of the last completely decoded frame of the run, or the initial ones |
| LinkCodec.FieldsAreNewest | hsrb_power_ecu/src/power_ecu_com_data_decoder.cpp:606-612 | after any reports, each published ecu2 field is what the newest frame that decoded that far gave it |
| LinkCodec.AlwaysWholeIff | hsrb_power_ecu/src/power_ecu_com_data_decoder.cpp:606-612 | after each report the published ecu2 parameters are those of the last complete frame (or the initial ones) if and only if every frame that fails half way repeats, up to its failure, the complete one before it |
| EcuRuns.FieldsInEveryState | hsrb_power_ecu/src/power_ecu_com_data_decoder.cpp:606-612 | the same of each ecu2 field in every state a run reaches |
| LinkCodec.Ecu2Tears | hsrb_power_ecu/src/power_ecu_com_data_decoder.cpp:606-612 | after any noise that clears, a frame with right size and checksum whose second field is not a number is refused, yet publishes its date next to the old readings |
| EcuLink.LogRefinement | hsrb_power_ecu/src/power_ecu_protocol.cpp:437-500 | over every interleaving without overflow: enqueued = removed ++ queued, and transmitted = removed ++ in flight |
| EcuLink.LogExact | hsrb_power_ecu/src/power_ecu_protocol.cpp:437-500 | the queue log is exact if and only if nothing was overwritten; sizes balance and at most one command is in flight even so |
| EcuLink.TransmissionLogExact | hsrb_power_ecu/src/power_ecu_protocol.cpp:437-500 | transmitted = removed ++ in flight holds at every moment of a run if and only if no known command is added to a full queue while its front is in flight and differs from the command behind it |
| EcuLink.StepFlight | hsrb_power_ecu/src/power_ecu_protocol.cpp:437-500 | the same of a single call, as an equivalence |
| EcuLink.OverflowGuard | hsrb_power_ecu/src/power_ecu_protocol.cpp:494-500 | a command is overwritten exactly when a known one is added to a full queue |
| EcuLink.AckTracksLast | hsrb_power_ecu/src/power_ecu_com_data_decoder.cpp:631-634 | flag and value of rxack reflect whether, and which, acknowledgement was decoded last |
| EcuCalls.FlagMeaning | hsrb_power_ecu/src/power_ecu_protocol.cpp:437-492 | over any run the flag is up if and only if a complete rxack frame came in since the last frame the network took |
| EcuLink.RemovalCause | hsrb_power_ecu/src/power_ecu_protocol.cpp:437-459 | a command is removed exactly when one is awaited and this very call decodes a valid rxack, or more than 10 s have passed; otherwise it stays awaited |
| EcuCalls.SendTimeIsLast | hsrb_power_ecu/src/power_ecu_protocol.cpp:466-478 | over any run the send time is that of the last event that transmitted a command, and an awaited command has one |
| EcuCalls.ExpiryExact | hsrb_power_ecu/src/power_ecu_protocol.cpp:437-459 | over any run: a command is removed as expired if and only if a successful read decodes no rxack more than 10 s after the event that transmitted it, and as acknowledged if and only if a read decodes one |
| EcuCalls.SendDecision | hsrb_power_ecu/src/power_ecu_protocol.cpp:466-492 | after any run: the queue's front goes out if and only if there is one, none is unanswered and the network takes it; a heartbeat is tried if and only if there is no command to send and more than 5 s have passed since start + 5k s; network_down if and only if the network refuses either |
| EcuCalls.AddDecision | hsrb_power_ecu/src/power_ecu_protocol.hpp:265-272 | an unknown command changes nothing; a known one goes to the back, at 1000 in place of the front |
| EcuCalls.ReceiveDecision | hsrb_power_ecu/src/power_ecu_protocol.cpp:388-464 | the result of every read: network_down and no change if it failed, else a refusal, else an expiry, else protocol_error if and only if some report is not a readable frame |
| EcuCalls.FittingFills | hsrb_power_ecu/src/power_ecu_protocol.cpp:388-392 | of a read, all bytes reach the 4000-byte buffer, or as many as fill it |
| EcuCalls.RunDecodesStream | hsrb_power_ecu/src/power_ecu_protocol.cpp:388-423 | over any run reports and buffer are those of one decoding of all bytes that came in |
| EcuRuns.AckEndsInThisCall | hsrb_power_ecu/src/power_ecu_protocol.cpp:407-440 | over any run, the rxack frame that acknowledges a command ends within the bytes read by that very call |
| EcuRuns.EarlyAckCounts | hsrb_power_ecu/src/power_ecu_protocol.cpp:437-449 | but its other 26 bytes may have arrived before the command was sent |
| EcuLink.RefusalReported | hsrb_power_ecu/src/power_ecu_protocol.cpp:438-447 | a public call returns operation_canceled if and only if it is a successful read with a command awaited and the last acknowledgement it decodes is not zero |
| EcuLink.RefusalMaskedIff | hsrb_power_ecu/src/power_ecu_protocol.cpp:438-447 | the last refusal a call decodes for an awaited command goes unreported if and only if an accepting acknowledgement follows it in the same call |
| EcuRuns.RefusalMasked | hsrb_power_ecu/src/power_ecu_protocol.cpp:407-449 | one read with a refusing and then an accepting rxack frame removes the command as accepted |
| EcuAnswers.AckAttribution | hsrb_power_ecu/src/power_ecu_protocol.cpp:437-492 | over any run in which the ECU answers each frame once and in order and no command in flight is displaced: the acknowledgement that removes a command answers that command if and only if no earlier frame was unanswered when it went out, and the value taken is its own if and only if the call decodes exactly one acknowledgement more than those frames |
| EcuAnswers.QuietSendsAreAnswered | hsrb_power_ecu/src/power_ecu_protocol.cpp:466-488 | if commands go out only when everything before them is answered, no command in flight ever has an unanswered frame ahead of it |
| EcuAnswers.HeartbeatAnswersCommand | hsrb_power_ecu/src/power_ecu_protocol.cpp:437-488 | a heartbeat, a command, and the answer to the heartbeat removes the command |
| EcuLink.FailedReadsNeverTimeOut | hsrb_power_ecu/src/power_ecu_protocol.cpp:392-405 | over any run in which every read fails, an overdue command stays in flight and no other is transmitted |
| EcuLink.OverflowMisattributes | hsrb_power_ecu/src/power_ecu_protocol.cpp:448-500 | after adding to a full queue while a command is in flight, everything transmitted is what was removed before and that command, but its acknowledgement removes the command behind it, which was not transmitted |
| EcuLink.HeartbeatSchedule | hsrb_power_ecu/src/power_ecu_protocol.cpp:480-488 | after k successful heartbeats the stored time is start + 5k s and lies before the last call; the counter is the number of attempts modulo 2^32 |
| EcuLink.HeartbeatRate | hsrb_power_ecu/src/power_ecu_protocol.cpp:480-488 | fewer heartbeats are sent than five-second periods have gone by |
| EcuLink.BufferStaysRoomy | hsrb_power_ecu/src/power_ecu_protocol.cpp:388-423 | over every run the 4000-byte buffer keeps room for a frame unless a header of negative size sits in it |
| PowerEcuProtocol.Protocol.constructor | hsrb_power_ecu/src/power_ecu_protocol.cpp:65-105 | the initial state, with rxack, ver, heart and getv registered, satisfies the invariant |
| PowerEcuProtocol.Protocol.RegisterDataDecoder | hsrb_power_ecu/src/power_ecu_protocol.hpp:334-338 | further decoders join without disturbing the others |
| PowerEcuProtocol.Protocol.AddCommandQueue | hsrb_power_ecu/src/power_ecu_protocol.hpp:265-272 | refines the Add step, overwriting the front of a full circular buffer |
| PowerEcuProtocol.Protocol.SendAll | hsrb_power_ecu/src/power_ecu_protocol.cpp:466-492 | refines the Send step; a frame goes out exactly when a command can be sent or a heartbeat is due, it is the host frame of the queue's front or of the heartbeat, and it reads back as that command if and only if its data encoded; registers exactly one result |
| PowerEcuProtocol.SentIsLogged | hsrb_power_ecu/src/power_ecu_protocol.cpp:466-492 | the frame that goes out is that of the command logged as transmitted, or of `heart` |
| Vectors.RxackDecoded | hsrb_power_ecu/test/network_mock.cpp:61-61 | the acknowledgement `E,rxack,015,h00,h83693205,\n` decodes as one accepted frame with the value 0 |
| Vectors.PumpFrame | hsrb_power_ecu/test/power_ecu_com_common-test.cpp:36-45 | switching the pump on is sent as `H,pump_,013,1,h4B407CCA,\n` |
| PowerEcuProtocol.Protocol.DecodeAll | hsrb_power_ecu/src/power_ecu_protocol.cpp:407-423 | the cursor loop terminates, leaves the residue of the stream decoder and dispatches exactly its reports |
| PowerEcuProtocol.Protocol.ReceiveAll | hsrb_power_ecu/src/power_ecu_protocol.cpp:388-464 | refines the Receive step, failed reads included, and registers exactly one result |
| ErrorWindows.WindowSlides | hsrb_power_ecu/src/error_counter.hpp:56-69 | registering a result shifts the window by one and changes the count by what leaves and what enters |
| ErrorWindows.WindowMeaning | hsrb_power_ecu/src/error_counter.hpp:56-69 | entry i of the window is the result registered n - i calls ago, or good |
| ErrorWindows.ErrorCounter.Register | hsrb_power_ecu/src/error_counter.hpp:56-69 | after any history the deque is the last N results, padded with good ones, and the counter is its number of failures |
| ErrorWindows.CycleOverRing.Register | hsrb_imu_sensor_protocol/src/hsrb_imu_sensor_protocol/mpu9150_node.cpp:290-305 | the ring refines the same specification with its `uint8_t` counter neither underflowing nor exceeding N |
| XmodemSender.FillBlock | hsrb_servomotor_protocol/src/hsrb_servomotor_protocol/exxx_reprograming.cpp:722-752 | the buffer filled in place is block k of the padded image: number, complement, slice and sum |
| XmodemSender.WritesFollowAcks | hsrb_servomotor_protocol/src/hsrb_servomotor_protocol/exxx_reprograming.cpp:560-635 | for any replies, each write is block k with k the ACKs read so far, or EOT once all blocks were acknowledged; success implies they all were |
| XmodemSender.ReadsBounded | hsrb_servomotor_protocol/src/hsrb_servomotor_protocol/exxx_reprograming.cpp:565-633 | the main loop reads at most 100 times per block |
| XmodemSender.UploadTerminates | hsrb_servomotor_protocol/src/hsrb_servomotor_protocol/exxx_reprograming.cpp:524-681 | the upload ends after at most 110 + 100 * blocks rounds, whatever the other side does |
| XmodemSender.SendBlocks | hsrb_servomotor_protocol/src/hsrb_servomotor_protocol/exxx_reprograming.cpp:560-633 | the loop over wrapping `send_pos` and `block_number` refines the state machine |
| XmodemSender.SendEot | hsrb_servomotor_protocol/src/hsrb_servomotor_protocol/exxx_reprograming.cpp:650-681 | the EOT exchange with its ten attempts refines the state machine |
| XmodemSender.FlushXmodem | hsrb_servomotor_protocol/src/hsrb_servomotor_protocol/exxx_reprograming.cpp:524-636 | for any answers of the other side, result and writes are those of the state machine, and success means as many ACKs as blocks |
| XmodemReplies.BlockBytes | hsrb_servomotor_protocol/src/hsrb_servomotor_protocol/exxx_reprograming.cpp:722-752 | every byte of block k: 0x01, k + 1 modulo 256 and its complement, 128 image bytes or 0xFF, and their sum |
| XmodemReplies.CancelEndsUpload | hsrb_servomotor_protocol/src/hsrb_servomotor_protocol/exxx_reprograming.cpp:611-615 | a CAN read by the main loop in any round ends the upload as timed out with nothing further written |
| XmodemReplies.SuccessIsUncancelled | hsrb_servomotor_protocol/src/hsrb_servomotor_protocol/exxx_reprograming.cpp:611-615 | in a successful upload the main loop read no CAN |
| XmodemReplies.StartGivesUp | hsrb_servomotor_protocol/src/hsrb_servomotor_protocol/exxx_reprograming.cpp:534-552 | without a NAK the sender writes nothing and gives up after exactly 100 rounds |
| XmodemReplies.StartAnswered | hsrb_servomotor_protocol/src/hsrb_servomotor_protocol/exxx_reprograming.cpp:534-559 | the first NAK before that sends block 0; any error before it ends the upload with that error |
| XmodemReplies.MainLoopRound | hsrb_servomotor_protocol/src/hsrb_servomotor_protocol/exxx_reprograming.cpp:565-633 | what every round of the main loop writes (next block on ACK, the same block on NAK, nothing on a timeout) and exactly when, and with which error, it ends the upload, the 100th read without an ACK in a row included |
| XmodemReplies.EotGivesUp | hsrb_servomotor_protocol/src/hsrb_servomotor_protocol/exxx_reprograming.cpp:650-681 | every attempt writes one 0x04, and without a confirmation there are exactly 10 |
| XmodemReplies.EotAnswered | hsrb_servomotor_protocol/src/hsrb_servomotor_protocol/exxx_reprograming.cpp:650-681 | the first attempt that is confirmed, or fails otherwise, ends the upload with that error |
| XmodemLink.TakeBlock | hsrb_servomotor_protocol/src/hsrb_servomotor_protocol/exxx_reprograming.cpp:722-752 | a receiver with k blocks stores block k, acknowledges block k-1 again and refuses malformed ones: neighbouring numbers modulo 256 suffice |
| XmodemLink.AckKeepsIff | hsrb_servomotor_protocol/src/hsrb_servomotor_protocol/exxx_reprograming.cpp:574-600 | an ACK, genuine or noise, leaves sender and receiver in step if and only if the current block is stored |
| XmodemLink.InStepIffHonest | hsrb_servomotor_protocol/src/hsrb_servomotor_protocol/exxx_reprograming.cpp:524-752 | over every run on an in-order line, with any losses, corruption, repeats and noise, the stored bytes are a prefix and the receiver is zero or one block ahead at every moment if and only if no ACK is read before its block is stored |
| XmodemLink.CalmRuns | hsrb_servomotor_protocol/src/hsrb_servomotor_protocol/exxx_reprograming.cpp:524-752 | if the receiver and noise ask again only when nothing is under way and noise is no ACK, then no ACK is read too early and at most one reply is unread |
| XmodemLink.UploadIsFaithful | hsrb_servomotor_protocol/src/hsrb_servomotor_protocol/exxx_reprograming.cpp:524-752 | over every such calm run the stored bytes are a prefix of the padded image, the receiver is at most one block ahead, and success means everything is stored |
| XmodemLink.HonestUploadIsFaithful | hsrb_servomotor_protocol/src/hsrb_servomotor_protocol/exxx_reprograming.cpp:524-752 | the same over every run in which no ACK is read too early, however often blocks are repeated |
| XmodemFaults.StaleDuplicateDefeats | hsrb_servomotor_protocol/src/hsrb_servomotor_protocol/exxx_reprograming.cpp:573-609 | for any image of two blocks or more, a run without noise or corruption and with at most one unread reply ends in success with the last block not stored |
| XmodemFaults.FaithfulIffOneBlock | hsrb_servomotor_protocol/src/hsrb_servomotor_protocol/exxx_reprograming.cpp:524-752 | every run in which noise is no ACK is faithful if and only if the image has a single block |
| XmodemFaults.ForgedAckDefeats | hsrb_servomotor_protocol/src/hsrb_servomotor_protocol/exxx_reprograming.cpp:574-593 | for any image, a run that is physical and has a single noise byte, an ACK, ends in success with the last block not stored |
| ExxxPacket.ExxxPacketParser.TryParse | hsrb_servomotor_protocol/include/hsrb_servomotor_protocol/exxx_packet_parser.hpp:68-166 | new state, packet and status of every byte in every state a parser can be in, also after kError and kDone |
| ExxxPacket.SearchSound | hsrb_servomotor_protocol/src/hsrb_servomotor_protocol/exxx_network.cpp:258-284 | every kDone leaves a well-formed packet that is the contiguous run of bytes ending there |
| ExxxPacket.PrefixAccepted | hsrb_servomotor_protocol/include/hsrb_servomotor_protocol/exxx_packet_parser.hpp:68-166 | every well-formed packet yields kContinue on all bytes but the last |
| ExxxPacket.PacketFound | hsrb_servomotor_protocol/src/hsrb_servomotor_protocol/exxx_network.cpp:258-284 | after bytes that leave the parser reset, every well-formed packet with an allowed id is found at its last byte |
| ExxxPacket.FoundLength | hsrb_servomotor_protocol/src/hsrb_servomotor_protocol/exxx_network.cpp:258-284 | a packet found was either being collected from its first byte on or begins within the bytes still to come |
| ExxxPacket.PacketFoundIff | hsrb_servomotor_protocol/src/hsrb_servomotor_protocol/exxx_network.cpp:258-284 | a packet is found at its place if and only if the bytes before it complete no packet and leave the parser reset |
| ExxxPacket.NoiseIgnored | hsrb_servomotor_protocol/include/hsrb_servomotor_protocol/exxx_packet_parser.hpp:70-79 | bytes without 0xAA leave the parser reset |
| ExxxPacket.StrayHeaderHides | hsrb_servomotor_protocol/include/hsrb_servomotor_protocol/exxx_packet_parser.hpp:80-90 | one stray 0xAA in front of any packet hides it, whatever follows; with no further 0xAA in it the parser is reset behind it |
| ExxxGrammar.WellFormedIff | hsrb_servomotor_protocol/include/hsrb_servomotor_protocol/exxx_packet_parser.hpp:68-166 | the packets accepted are exactly 0xAA 0x55, id, little-endian length and status, payload and complemented sum |
| ExxxGrammar.PacketDelivered | hsrb_servomotor_protocol/src/hsrb_servomotor_protocol/exxx_network.cpp:258-284 | of such a packet the caller gets the payload, and the status as a warning unless it is zero |
| ExxxGrammar.FoundExact | hsrb_servomotor_protocol/src/hsrb_servomotor_protocol/exxx_network.cpp:258-284 | a packet is found ending after n bytes if and only if it is well formed and these are bytes other than 0xAA and packets given up at their first wrong byte, followed by it |
| ExxxGrammar.NoiseExact | hsrb_servomotor_protocol/src/hsrb_servomotor_protocol/exxx_network.cpp:258-284 | noise leaves the parser reset if and only if it is made of such pieces |
| ExxxGrammar.WithoutReset | hsrb_servomotor_protocol/include/hsrb_servomotor_protocol/exxx_packet_parser.hpp:68-166 | a parser that is not reset after an error: a failed checksum leaves it as it was, most other errors make it refuse everything |
| ExxxGrammar.PollsDecide | hsrb_servomotor_protocol/src/hsrb_servomotor_protocol/exxx_network.cpp:235-295 | the stream is what arrived before the first failed poll, and without a packet that failure, or a time-out, is the result |
| ExxxPacket.Receive | hsrb_servomotor_protocol/src/hsrb_servomotor_protocol/exxx_network.cpp:225-295 | result and payload are those of the first packet in the stream, however it was cut into reads; without one, the error of the first failed poll or a time-out, and no data |
| Mpu9150.MPU9150PacketParser.TryParse | hsrb_imu_sensor_protocol/src/hsrb_imu_sensor_protocol/mpu9150_packet_parser.cpp:36-105 | new state, block, accumulated packets and result of every byte in every state, also after kDone |
| Mpu9150.AccumulatedAreBlocks | hsrb_imu_sensor_protocol/src/hsrb_imu_sensor_protocol/mpu9150_packet_parser.cpp:36-113 | from `Reset` to the first kDone the accumulated bytes are well-formed, non-overlapping, ordered blocks of the input |
| Mpu9150.BlockTaken | hsrb_imu_sensor_protocol/src/hsrb_imu_sensor_protocol/mpu9150_packet_parser.cpp:36-105 | a well-formed block is taken over whole, and kDone is reported exactly for one without data |
| Mpu9150.DataAccumulated | hsrb_imu_sensor_protocol/src/hsrb_imu_sensor_protocol/mpu9150_packet_parser.cpp:36-105 | a noise-free concatenation of data packets is accumulated exactly |
| MpuGrammar.RunPieces | hsrb_imu_sensor_protocol/src/hsrb_imu_sensor_protocol/mpu9150_packet_parser.cpp:36-113 | on any bytes the parser has skipped pieces (a byte other than 0x40, or a block given up at its first wrong byte) and accumulated the blocks among them, in order and no others, and stops behind the first reply |
| MpuGrammar.PiecesAccumulated | hsrb_imu_sensor_protocol/src/hsrb_imu_sensor_protocol/mpu9150_packet_parser.cpp:36-113 | conversely, of any pieces without a reply it accumulates exactly the blocks |
| MpuGrammar.ReplyEnds | hsrb_imu_sensor_protocol/src/hsrb_imu_sensor_protocol/mpu9150_packet_parser.cpp:36-113 | a reply behind them is accumulated and ends the run, whatever follows |
| Mpu9150.Receive | hsrb_imu_sensor_protocol/src/hsrb_imu_sensor_protocol/mpu9150_network.cpp:198-210 | what one read leaves in the parser; kError never occurs |
| Mpu9150.CommandWellFormedIffFits | hsrb_imu_sensor_protocol/src/hsrb_imu_sensor_protocol/mpu9150_network.cpp:123-137 | a command the size check lets through is well formed if and only if it has at most 253 data bytes |
| Mpu9150.CommandReadsBack | hsrb_imu_sensor_protocol/src/hsrb_imu_sensor_protocol/mpu9150_network.cpp:123-137 | a command that fits is accumulated whole by the parser |
| MpuGrammar.CommandBytes | hsrb_imu_sensor_protocol/src/hsrb_imu_sensor_protocol/mpu9150_network.cpp:123-137 | every byte of a command that fits; all of them add up to 255 modulo 256 |
| Mpu9150.BuildCommand | hsrb_imu_sensor_protocol/src/hsrb_imu_sensor_protocol/mpu9150_network.cpp:128-137 | the send buffer starts with exactly the command |
| Mpu9150.Send | hsrb_imu_sensor_protocol/src/hsrb_imu_sensor_protocol/mpu9150_network.cpp:123-173 | what has gone out is a prefix of the command, and success means all of it |
| Mpu9150.MPU9150PacketConverter.ToSensorState | hsrb_imu_sensor_protocol/src/hsrb_imu_sensor_protocol/mpu9150_network.cpp:248-274 | takes the first packet with the largest timestamp if one is newer than remembered; otherwise the packet at the remembered index, or reads out of range exactly when the batch is too short for it; timestamps never decrease |
| MpuGrammar.TimestampsCompareBytewise | hsrb_imu_sensor_protocol/src/hsrb_imu_sensor_protocol/mpu9150_network.cpp:248-274 | timestamps compare like bytes 43 to 46 of their 48-byte packets, first byte first |
| MpuGrammar.NewerIff | hsrb_imu_sensor_protocol/src/hsrb_imu_sensor_protocol/mpu9150_network.cpp:248-274 | a batch counts as newer unless all of its timestamps are at most the last one taken |
| MpuGrammar.FirstOfTheLatest | hsrb_imu_sensor_protocol/src/hsrb_imu_sensor_protocol/mpu9150_network.cpp:248-274 | of several packets with the largest timestamp the first one is meant, and no other |
| DiagBits.PositionsAreBits | hsrb_power_ecu/src/info_command.cpp:175-187 | an ascending list of positions whose powers of two add up to a set's value lists exactly that set |
| DiagBits.ParseDiagStatus | hsrb_power_ecu/src/info_command.cpp:175-187 | succeeds exactly on hexadecimal strings; the positions ascend and their powers of two add up to the string's value |
| DiagBits.DigitOfEitherCase | hsrb_power_ecu/src/info_command.cpp:175-187 | which characters are hexadecimal digits, of either case, and their values |
| DiagBits.ElementHexUintBitsEncoder.RegisterBit | hsrb_power_ecu/src/power_ecu_com_element_encoder.hpp:154-163 | registers a bit exactly if it is free and in range, for encoders of any length; every bit is in range for one without digits |
| DiagBits.ElementHexUintBitsEncoder.Value | hsrb_power_ecu/src/power_ecu_com_element_encoder.hpp:136-142 | the sum is the value of the set of raised flags, whatever the iteration order |
| DiagBits.ElementHexUintBitsEncoder.Encode | hsrb_power_ecu/src/power_ecu_com_element_encoder.hpp:136-144 | always succeeds and writes the digits of that value |
| DiagBits.FlagsReadBack | hsrb_power_ecu/src/info_command.cpp:175-187 | parsing the digits written for any registered flags lists exactly the raised ones |
| DiagBits.WriteThenParse | hsrb_power_ecu/src/info_command.cpp:175-187 | the two methods run one after the other are inverse |
| ControlTable.ControlTable.ProcessLine | hsrb_servomotor_protocol/src/hsrb_servomotor_protocol/control_table.cpp:154-225 | verdict, table and next address for every row |
| ControlTable.TypeNames | hsrb_servomotor_protocol/src/hsrb_servomotor_protocol/control_table.cpp:154-225 | the ten type names with their types and widths, and no others |
| ControlTable.TakenIff | hsrb_servomotor_protocol/src/hsrb_servomotor_protocol/control_table.cpp:105-225 | a name is taken if and only if the table had it or an earlier row has it |
| ControlTable.ControlTable.Load | hsrb_servomotor_protocol/src/hsrb_servomotor_protocol/control_table.cpp:105-136 | stops at the first unacceptable row, and every accepted row has its item at its offset modulo 2^16 next to what was there |
| ControlTable.TilesIffFits | hsrb_servomotor_protocol/src/hsrb_servomotor_protocol/control_table_item_descriptor.cpp:95-121 | the items follow each other from 0 without gap or overlap if and only if the accepted rows total at most 65535 bytes |
| ControlTable.EveryAddressOnce | hsrb_servomotor_protocol/src/hsrb_servomotor_protocol/control_table.cpp:105-136 | then every address below the last one belongs to exactly one item of the loaded rows and none of these reaches beyond, also after a rejected row |
| ControlTable.EveryAddressOneName | hsrb_servomotor_protocol/src/hsrb_servomotor_protocol/control_table.cpp:105-136 | for a table that was empty before, the same of all names in it |

## Left out

- Serial I/O (open, termios, poll, sleeping) and the clocks: chunks of bytes, results of reads and writes and times are inputs of each step. The network honours the free space of the receive buffer.
- ROS nodes, publishers, parameters, logging, launch files and command-line tools.
- The typed parameter pointers (`GetParamPtr`): parameters are indexed fields, written through `SetValue` and read through `Published`. Commands are identified by their names; the per-command processing flag and retry count are never read and are not modelled.
- Physical scaling of ecu1 and IMU values (IEEE doubles): raw integers are kept. The bit flags that `Update` takes out of an ecu1 status word are kept as that word, and its capacity tests, which never fail for the declared lengths, are not modelled.
- `GetPowerEcuVersions`, `ProcessCommandQueue`, `Init`, and the boot and erase handshakes: polling loops around the modelled calls.
- The `rprod` encoder: its size digits depend on the image block, and above 988 bytes they outgrow three digits.
- Frame sizes beyond 2^32 in `std::distance` casts: the receive buffer holds at most 4000 bytes. The capacity of the send buffer, which no modelled command reaches, is not modelled.
- Elements.ReadSigned: signed overflow, which is undefined in C++, is modelled as two's-complement wrap-around; the declared widths of at most ten digits can reach it.
- Elements.Encode: there is no encoder for signed elements; the notation its decoder reads serves as the partner in the round trip.
- EcuAnswers.AckAttribution: the ECU is assumed to answer every transmitted frame once and in order; lost answers and commands that it answers with another packet are not counted.
- EcuLink.HeartbeatSchedule: times are integers of nanoseconds; the ACK time-out, which the code compares in double seconds, is compared in nanoseconds.
- FrameStream.NegativeSizeStalls: buffers of 2^63 bytes and more are excluded, as they are by any real buffer.
- The boost CRC template is modelled as the bitwise register it documents; its table look-up is not part of this model.
- XmodemSender.FlushXmodem: an empty image, for which the code's progress output divides by zero, and images of more than 2^32 - 128 bytes, for which `send_pos` wraps, are excluded; progress dots are not modelled; a read that returns 0 bytes counts as a time-out or failure input. The number of rounds handed over must suffice for the longest upload.
- XmodemLink.UploadIsFaithful: a corrupted block is one that fails the receiver's own test, and corruption never merges or splits blocks; without the calm hypothesis the guarantee is false (`XmodemFaults.StaleDuplicateDefeats`, `XmodemFaults.ForgedAckDefeats`). The receiver's answer to EOT is an arbitrary input.
- The servo motors' instruction side (`SyncWriteData`, `WriteBlock`, the fixed 260-byte buffer): memory layout rather than protocol.
- ExxxPacket.Receive: the contents that the output vector keeps from before the call on a failure are not modelled; capacity is that of the vector handed in.
- Mpu9150.Receive: one successful read; time-outs and reading errors before it are not modelled.
- The IMU reset state machine, unit conversion and the main loop apart from its cycle-over ring.
- The error rate as a quotient of doubles: the counts are modelled.
- ControlTable.ControlTable.Load: rows come as column count, type and name; file access, CSV tokenising, MD5 and the MKS coefficient are not modelled.
