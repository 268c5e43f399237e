# Hamilton ventilator serial client: a Dafny model

`test_connection.py` talks to a Hamilton ventilator over a serial line. It
subscribes to two data groups with an *Activate Mixed Mode* command and
keeps a receive buffer. Each pass of its main loop does the following:

- it cuts one frame `STX … CR` off the buffer;
- it checks the frame's ETX position and its CRC-8 (polynomial 0xD5, sent
  as two hex digits);
- it splits the parameter section of a mixed-mode data frame on VT into
  chunks `group id | parameter id | ASCII value`;
- it stores every known parameter in a long-lived dictionary;
- when the "Breath Number" changes, it turns the dictionary into an
  HL7-style ORU^R01 text message.

This project models that core and proves its properties. It is split into
these modules:

| module | models |
|---|---|
| `Protocol` | framing constants, `bytes.find` |
| `ByteArith`, `Checksum` | `crc8`: a reference CRC with an 8-bit register; the source's loop on an unbounded register that is masked once |
| `Text` | hex, decimal and ASCII conversions; `str.strip` |
| `Tables` | group and parameter ids; the HL7 projection and identifier tables |
| `Command` | the activation command and the frame layout |
| `Framing` | the receive buffer (`FrameReader`), frame extraction, validation, the opcode/VT dispatch |
| `Decoder` | `parse_packet_and_trigger_hl7` and the `ventilator_data` store (`VentilatorStore`) |
| `Hl7` | `generate_and_save_hl7_message` up to the joined text |
| `Client` | one pass of the main loop (`Poll`), proved against a step function (`Step`) |

Every method is proved against a pure specification:

- `ComputeCrc8` is proved against `Crc8`.
- `BuildActivateMixedModeCommand` is proved against `Frame`.
- `FrameReader.NextPacket` is proved against `SplitFrame`.
- `VentilatorStore.ApplyChunk` is proved against `Effect` of `Classify`.
- `VentilatorStore.Merge` is proved against `ParsePacket`.
- `FindValueIn` is proved against `FindValue`.
- `AppendObservations` is proved against `ObxSegments` of `Observed`.
- `BuildMessage` is proved against `Message`.
- `Poll` is proved against `Step`.

The properties are then proved about those specifications.

## Model

| member | source | states |
|---|---|---|
| Protocol.Find | test_connection.py:256-258 | `bytes.find`: a result is a position at or after `start` holding the byte, with no earlier one; None exactly when no such position exists |
| Checksum.LowByteOfXor | test_connection.py:107 | xoring a byte into the unbounded register xors it into the low byte and leaves the higher bits alone |
| Checksum.Bit7IsLowByteBit7 | test_connection.py:109 | the `crc & 0x80` test on the unbounded register reads bit 7 of its low byte |
| Checksum.RawShiftsMasked | test_connection.py:108-112 | n shifts of the unbounded register, masked afterwards, equal n shifts of the 8-bit register |
| Checksum.MaskOnceAtEnd | test_connection.py:103-113 | masking the Python register only at the end (`crc & 0xFF`) gives the CRC that is masked after every shift |
| Checksum.ComputeCrc8 | test_connection.py:103-113 | the source's loop returns the CRC-8 (polynomial 0xD5, initial value 0) of the data |
| Checksum.ShiftsInjective | test_connection.py:108-112 | the eight shifts map distinct registers to distinct registers |
| Checksum.ByteStepInjective | test_connection.py:106-112 | one byte step keeps results apart when exactly one of register or byte differs |
| Checksum.Crc8DetectsOneByteChange | test_connection.py:103-113 | two equal-length inputs that differ in exactly one byte have different CRCs |
| Text.HexPairValue | test_connection.py:272 | `int(text, 16)` on two hex digits of either case gives 16 times the first digit's value plus the second's |
| Text.Hex2 | test_connection.py:132 | `f"{checksum:02X}"` is two uppercase hex digit bytes |
| Text.Hex2RoundTrip | test_connection.py:132 | parsing the two rendered digits gives the checksum back |
| Text.HexDigitsAreNotFraming | test_connection.py:132 | no hex digit byte is STX, ETX, CR or VT |
| Text.DecimalString | test_connection.py:170 | `str(obx_index)` writes the decimal digits of the number, most significant first and without leading zeros, each as its digit character |
| Text.DecimalRoundTrip | test_connection.py:170 | the digits `DecimalString` writes read back as the number |
| Text.DecimalStringInjective | test_connection.py:170 | distinct numbers are written differently, so distinct OBX set ids never share a text |
| Text.ZeroPaddedDecimal | test_connection.py:127 | `f"{repeat_timer:03d}"` has at least `width` bytes, all of them decimal digit bytes |
| Text.ZeroPaddedDigits | test_connection.py:127 | `f"{repeat_timer:03d}"` is the decimal digits of the number, most significant first, padded on the left with '0' bytes to at least `width` bytes |
| Text.AsciiDecode | test_connection.py:209 | `decode('ascii', errors='ignore')` yields at most one character per byte, all below 128 |
| Text.AsciiDecodeByte | test_connection.py:209 | with `errors='ignore'` a byte below 128 decodes to the character with that code and any other byte is dropped |
| Text.AsciiDecodeAppend | test_connection.py:209 | decoding distributes over concatenation |
| Text.Strip | test_connection.py:209 | the stripped text is no longer than the input and neither begins nor ends with whitespace |
| Text.StripIsSlice | test_connection.py:209 | `strip` keeps one slice of the input and removes only whitespace around it |
| Text.StripKeepsCharacters | test_connection.py:209 | every character left by `strip` occurs in the input |
| Text.StripEmpty | test_connection.py:168 | `value.strip() != ''` fails exactly for an all-whitespace value |
| Text.StripUnpadded | test_connection.py:209 | a text without whitespace at either end strips to itself |
| Tables.IdentifierInTable | test_connection.py:169 | `HL7_IDENTIFIER_MAP.get(key, f'^^^^^{key}')`: a listed key gets the identifier paired with it, any other key gets the placeholder |
| Tables.ParameterNamesUnique | test_connection.py:48-68 | no parameter name appears under two groups of `PARAMETER_MAP` |
| Tables.BreathNumberIsKnown | test_connection.py:48-50 | "Breath Number" is a parameter of "Monitored Parameters" |
| Tables.BreathNumberIds | test_connection.py:40-50 | group id 0x50 resolves to "Monitored Parameters" and its parameter id 0x20 to "Breath Number" |
| Tables.BreathNumberNotProjected | test_connection.py:71-84 | "Breath Number" has no entry in the HL7 projection |
| Tables.EveryKeyHasIdentifier | test_connection.py:71-100 | every HL7 key of the projection has an identifier, so the placeholder is never used for it |
| Tables.ProjectionNamesDistinct | test_connection.py:71-84 | the projection names each ventilator parameter once |
| Framing.SplitFrame | test_connection.py:256-261 | a frame is cut exactly when an STX has a CR after it; the cut is STX first, CR last, no CR inside, no STX in the dropped noise, and buffer = noise + frame + rest |
| Framing.FrameReader.constructor | test_connection.py:241 | the receive buffer starts empty |
| Framing.FrameReader.Feed | test_connection.py:253-254 | received bytes are appended to the buffer |
| Framing.FrameReader.NextPacket | test_connection.py:256-261 | without a complete frame the buffer is unchanged; otherwise the frame is returned and the buffer becomes the bytes after its CR |
| Framing.DrainShape | test_connection.py:256-261 | every frame cut from a buffer has the extractor's shape, and what is left holds no complete frame |
| Framing.SplitFrameAtFront | test_connection.py:256-261 | a well-formed frame at the front of the buffer is cut off exactly, whatever follows |
| Framing.DrainFront | test_connection.py:256-261 | draining a buffer that starts with a frame yields that frame first |
| Framing.DrainConcat | test_connection.py:256-261 | frames sent back to back are cut out one by one, byte for byte and in order |
| Framing.FindExtend | test_connection.py:256-258 | a byte already found is found at the same place after more bytes arrive |
| Framing.SplitFrameCuts | test_connection.py:256-261 | the cut runs from the first STX to the first CR after it |
| Framing.SplitFrameExtend | test_connection.py:253-261 | bytes arriving after a complete frame do not change how that frame is cut |
| Framing.DrainExtend | test_connection.py:253-261 | how the byte stream is split between reads does not change the frames cut from it |
| Framing.NoFirstEtx | test_connection.py:263 | a packet without an ETX has no first ETX |
| Framing.FirstEtxUnique | test_connection.py:263 | the first ETX of a packet is unique |
| Framing.Validate | test_connection.py:263-279 | InvalidEtx exactly when no ETX has three bytes after it. Otherwise, at the first ETX: BadChecksumText exactly when the text is not hex; Valid exactly when the text equals the CRC of STX..ETX, and then the body is `packet[1:etx_pos]`; CrcMismatch carries both values |
| Framing.DecoderInput | test_connection.py:279-283 | parameters reach the decoder exactly when the body starts with 0x31 and holds a VT, and they are the bytes after its first VT |
| Framing.ValidChecksum | test_connection.py:268-277 | a valid packet has at least three bytes after its first ETX, and its checksum text reads as the CRC of STX..ETX |
| Framing.CorruptBeforeEtx | test_connection.py:268-277 | changing a byte before the ETX of a valid packet to anything but ETX yields a CRC mismatch |
| Framing.EtxBeforeEtx | test_connection.py:263-272 | an ETX written before the ETX of a valid packet makes its checksum text unreadable |
| Framing.CorruptEtx | test_connection.py:263-266 | overwriting the first ETX of a valid packet with another byte yields an invalid-ETX verdict |
| Framing.ValidatorRejectsCorruption | test_connection.py:263-277 | a valid packet changed in any one byte from STX through ETX is rejected |
| Decoder.SplitOn | test_connection.py:198 | `split(VT)`: at least one piece, no piece holds VT, and joining the pieces with VT gives the input back |
| Decoder.SplitJoin | test_connection.py:198 | splitting undoes joining pieces free of VT |
| Decoder.ChunkValue | test_connection.py:209 | a stored value is ASCII with no whitespace at either end |
| Decoder.Classify | test_connection.py:203-217 | a chunk aborts the pass exactly when it is one byte long; a chunk that stores names a known parameter and carries a clean value. Which chunks are skipped (empty, group end 0xFF, unknown group or parameter id) is proved in `Decoder.SkippedChunk`. That a known id stores `ChunkValue` under the resolved names is proved in `Decoder.StoredChunk` |
| Decoder.Put | test_connection.py:220 | `setdefault(group, {})[name] = value` sets that entry, changes no other entry, and adds only the group |
| Decoder.PutPreservesWellFormed | test_connection.py:211-220 | storing a known parameter with a clean value keeps the state well formed |
| Decoder.ApplyChunksCompletes | test_connection.py:203-220 | a pass completes exactly when no chunk is a single byte |
| Decoder.ApplyChunksWellFormed | test_connection.py:203-220 | a pass keeps the state well formed, whether it completes or not |
| Decoder.VentilatorStore.constructor | test_connection.py:243 | the state starts empty |
| Decoder.VentilatorStore.ApplyChunk | test_connection.py:204-220 | one chunk aborts exactly when it is one byte long, and otherwise applies its effect to the state; the state stays well formed |
| Decoder.VentilatorStore.Merge | test_connection.py:198-225 | the loop leaves the state and the breath report that `ParsePacket` specifies, and keeps the state well formed |
| Decoder.PassValue | test_connection.py:203-220 | after a pass each entry holds the value the last applied chunk stored for it; other entries keep their values |
| Decoder.ApplyChunksAppend | test_connection.py:203-220 | a pass over `a + b` is a pass over `a`, then, if it completed, over `b` |
| Decoder.SkippedChunkChangesNothing | test_connection.py:204-217 | removing a skipped chunk from the packet changes nothing |
| Decoder.OneByteChunkAbortsPass | test_connection.py:204-208 | a one-byte chunk ends the pass: earlier chunks stay stored, later ones are not applied, the breath check does not run |
| Decoder.PassIdempotent | test_connection.py:203-220 | applying the same chunks again leaves every entry as the first pass left it |
| Decoder.RepeatedPacketNoNewBreath | test_connection.py:200-225 | a packet received twice in a row does not announce a second breath |
| Command.BuildActivateMixedModeCommand | test_connection.py:115-133 | the builder's loop returns STX, opcode 0x31, waveforms-off, each requested group with send state and "000", ETX, the CRC in hex, CR |
| Command.ChecksummedPartBytes | test_connection.py:129-130 | with an opcode and payload free of ETX and CR, the checksummed part ends in its only ETX and holds no CR |
| Command.FrameIsCandidate | test_connection.py:129-133 | such a frame has the shape the extractor cuts |
| Command.FrameIsExtracted | test_connection.py:129-133 | such a frame is cut whole from the front of the buffer |
| Command.FrameValidates | test_connection.py:129-133 | such a frame passes validation with its opcode and payload as body, the round trip between builder and validator |
| Command.ActivationChecksum | test_connection.py:130-131 | the CRC-8 of the activation command's checksummed part is 0x1B |
| Command.ZeroTimer | test_connection.py:127 | the repeat timer 0 is written "000" |
| Command.ActivationPayload | test_connection.py:117-127 | the payload is 0x30, then 0x50 0x32 "000", then 0x70 0x33 "000" |
| Command.ActivationPart | test_connection.py:129-130 | the checksummed part is STX 0x31, the payload, ETX |
| Command.ActivationChecksumText | test_connection.py:132 | 0x1B goes on the wire as "1B" |
| Command.ActivationCommandBytes | test_connection.py:115-133 | the command is exactly the 17 bytes 02 31 30 50 32 30 30 30 70 33 30 30 30 03 31 42 0D |
| Command.ActivationBodyBytes | test_connection.py:117-129 | the command's body holds no ETX, CR or VT |
| Command.ActivationCommandAccepted | test_connection.py:256-283 | echoed back, the command is cut and validated with its body intact but yields no decoder input |
| Hl7.FindValueFound | test_connection.py:162-166 | a value is found exactly when some group holds the name, and it is that group's value |
| Hl7.WellFormedNamesUnique | test_connection.py:48-68 | a state the decoder can produce never holds a name under two groups |
| Hl7.FindValueOwner | test_connection.py:162-166 | with unique names, the value found is the one of the group holding the name, whatever the group order |
| Hl7.FindValueIn | test_connection.py:162-166 | the inner loop finds the value `FindValue` specifies |
| Hl7.Observed | test_connection.py:160-172 | at most one reported pair per projection entry |
| Hl7.ObservedStep | test_connection.py:160-172 | each table entry adds its (key, value) pair exactly when its value is reportable |
| Hl7.ObxSegmentsNumbered | test_connection.py:157-172 | OBX set ids run 1..k without gaps, one segment per reported pair, in order |
| Hl7.ObservedAppend | test_connection.py:160-172 | the pairs of two tables in sequence are the pairs of each, in that order |
| Hl7.ObservedSound | test_connection.py:160-172 | every reported pair comes from a table entry whose parameter holds that non-blank value |
| Hl7.ObservedComplete | test_connection.py:160-172 | every entry with a non-blank value is reported, right after the pairs of the entries before it |
| Hl7.ObservedDependsOnValues | test_connection.py:160-168 | the reported pairs depend only on the values of the projected names |
| Hl7.FindValueSameEntries | test_connection.py:162-166 | with unique names, states that agree on a name's entries find the same value |
| Hl7.AppendObservations | test_connection.py:156-172 | the OBX loop appends exactly the numbered segments of the reported pairs to the headers |
| Hl7.BuildMessage | test_connection.py:137-174 | the builder returns nothing for an empty state and otherwise the joined message that `Message` specifies |
| Hl7.JoinLinesBreaks | test_connection.py:174 | `'\n'.join` puts exactly one line break between lines that hold none |
| Hl7.BreathNumberNeverObserved | test_connection.py:160-172 | a new breath number alone never changes the message text |
| Hl7.MessageShape | test_connection.py:137-174 | no message exactly for an empty state; otherwise at most 12 OBX segments, numbered 1..k, each with its key's identifier from the table |
| Client.Poll | test_connection.py:256-283 | one pass changes the buffer, the state and the outputs exactly as `Step` specifies, and keeps the state well formed |
| Client.StepConsumesOneFrame | test_connection.py:256-261 | without a complete frame nothing changes; otherwise exactly the frame and the noise before it leave the buffer |
| Client.StepOnFrame | test_connection.py:256-261 | a buffer that starts with a frame has that frame handled and keeps what follows |
| Client.DispatchRejected | test_connection.py:263-283 | a frame is discarded exactly when validation rejects it, and ignored exactly when it fails the opcode/VT test; then the state is unchanged and no message is made |
| Client.DeliverOnNewBreath | test_connection.py:222-228 | after a decoder pass a message is made exactly when the pass completed with a new non-empty breath number, and it is built from the merged state |
| Client.RejectedFrameChangesNothing | test_connection.py:263-283 | a discarded or ignored frame leaves the state unchanged and produces no message |
| Client.MessageOnNewBreath | test_connection.py:222-228 | a pass produces a message exactly when its frame began a new breath, and the message holds the merged state |
| Client.CorruptedFrameDropped | test_connection.py:263-277 | a valid frame corrupted in one byte up to its ETX, and still cut as one frame, is discarded, leaving the state unchanged |
| Client.DispatchTwice | test_connection.py:200-228 | handling the same frame a second time produces no message |
| Client.RepeatedFrameOneMessage | test_connection.py:222-228 | the same frame received twice in a row yields at most one message |
| Client.EchoedCommandIgnored | test_connection.py:279-283 | the client's own activation command, echoed back, is consumed and changes nothing |
| Client.FirstBreathValue | test_connection.py:209 | the value bytes "5" decode and strip to "5" |
| Client.FirstBreathChunk | test_connection.py:203-217 | chunk 50 20 35 stores "5" as the Breath Number of Monitored Parameters |
| Client.FirstBreathDecoded | test_connection.py:198-225 | from an empty state that chunk yields the state {Monitored Parameters: {Breath Number: "5"}} and a new breath |
| Client.FirstBreathFrame | test_connection.py:256-283 | a frame with opcode 0x31 and parameters VT 50 20 35 is cut, validated and handed to the decoder |
| Client.FirstBreathTriggersMessage | test_connection.py:222-228 | from an empty state that frame stores breath number 5 and produces a message that holds only the MSH, PID, ORC and OBR header segments, since the breath number is not projected |

## Left out

- The serial port is not modelled: opening and closing it, the baud rate, the reconnect delay, `in_waiting`/`read`/`write`, and the exception handlers around them. Bytes reach the model through `FrameReader.Feed`.
- The 30-second resend of the activation command and the 10 ms sleep between passes are not modelled. Both depend on the wall clock.
- Logging is not modelled, nor is writing the message to a file (creating the directory, naming the file from the clock, reporting write errors). `BuildMessage` returns the text that would be written.
- `datetime.now()` and `PATIENT_ID` are not modelled; the timestamp string and the patient id are parameters.
- Framing.Validate: reads the checksum text strictly, as a non-empty run of hex digits. Python's `int(text, 16)` also accepts surrounding whitespace, a sign, a `0x` prefix and underscores between digits; the model rejects such text as `BadChecksumText` instead of comparing its value.
- Text.ParseHex: reads the checksum text strictly, as a non-empty run of hex digits. Python's `int(text, 16)` also accepts surrounding whitespace, a sign, a `0x` prefix and underscores between digits.
- Hl7.BuildMessage: requires a well-formed state, in which no parameter name sits under two groups. This makes the order in which `data.values()` is walked irrelevant. Every state the decoder produces is well formed (`Decoder.ApplyChunksWellFormed`, `Hl7.WellFormedNamesUnique`); the message for other dictionaries is not modelled.
- `HL7_IDENTIFIER_MAP` is modelled as a sequence of (key, identifier) pairs with distinct keys. `groups_to_request` and `VENTILATOR_TO_HL7_MAP` are modelled as sequences in their insertion order, the order Python iterates them in.
- The `ValueError` and `IndexError` handlers of the main loop are not modelled as exceptions. An unreadable checksum becomes the verdict `BadChecksumText`, and a one-byte chunk becomes the report `Aborted` (earlier chunks stay stored and no breath check runs).
- `ventilator_data.copy()` is modelled as passing the state by value. The message builder only reads it.
- Only one pass of the main loop is modelled (`Client.Poll`), as is the draining of a buffer without new input (`Framing.Drain`). The unbounded loop itself is not modelled.
- Python `str` values are Dafny strings. Decoded values hold only characters below 128, so only the ASCII members of the whitespace set matter for `strip`.
