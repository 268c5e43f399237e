/**
 * The Activate Mixed Mode command the client sends to subscribe to data
 * groups (`build_activate_mixed_mode_command`), and the frame layout it
 * shares with incoming packets:
 *
 *   STX | opcode | payload | ETX | CRC-8 as two uppercase hex digits | CR
 */
module Command {
  import opened Protocol
  import opened Checksum
  import opened Text
  import opened Framing

  /** First payload byte of the activation command: waveforms off. */
  const WaveformsOff: byte := 0x30

  /**
   * The groups the client requests, in the order the dictionary lists them:
   * (group id, send state, repeat timer).
   */
  const GroupsToRequest: seq<(byte, byte, nat)> :=
    [(0x50, SendBreathByBreath, 0), (0x70, SendOnChange, 0)]

  /** One group's request: its id, its send state and the repeat timer as three decimal digits. */
  function GroupRequest(g: (byte, byte, nat)): seq<byte>
  {
    [g.0, g.1] + ZeroPaddedDecimal(g.2, 3)
  }

  /** The payload for the requested groups, after the waveforms-off byte. */
  function Payload(groups: seq<(byte, byte, nat)>): seq<byte>
  {
    if groups == [] then [WaveformsOff]
    else Payload(groups[..|groups| - 1]) + GroupRequest(groups[|groups| - 1])
  }

  /** The bytes a frame's checksum covers: STX through ETX. */
  function ChecksummedPart(opcode: byte, payload: seq<byte>): seq<byte>
  {
    [STX, opcode] + payload + [ETX]
  }

  /** A complete frame: the checksummed part, its CRC-8 in hex, and CR. */
  function Frame(opcode: byte, payload: seq<byte>): seq<byte>
  {
    var part := ChecksummedPart(opcode, payload);
    part + Hex2(Crc8(part)) + [CR]
  }

  /** `build_activate_mixed_mode_command()`. */
  method BuildActivateMixedModeCommand() returns (cmd: seq<byte>)
    ensures cmd == Frame(CmdActivateMixedMode, Payload(GroupsToRequest))
  {
    var payload: seq<byte> := [WaveformsOff];
    var i := 0;
    while i < |GroupsToRequest|
      invariant 0 <= i <= |GroupsToRequest|
      invariant payload == Payload(GroupsToRequest[..i])
    {
      var (groupId, sendState, repeatTimer) := GroupsToRequest[i];
      assert GroupsToRequest[..i + 1][..i] == GroupsToRequest[..i];
      payload := payload + [groupId, sendState] + ZeroPaddedDecimal(repeatTimer, 3);
      i := i + 1;
    }
    assert GroupsToRequest[..i] == GroupsToRequest;
    var commandBody := [CmdActivateMixedMode] + payload;
    var fullPacketForCrc := [STX] + commandBody + [ETX];
    assert fullPacketForCrc == ChecksummedPart(CmdActivateMixedMode, payload);
    var checksum := ComputeCrc8(fullPacketForCrc);
    cmd := fullPacketForCrc + Hex2(checksum) + [CR];
  }

  // ---------------------------------------------------------------------
  // Frames the client builds are frames it accepts

  /** No byte of `s` is ETX or CR. */
  predicate FreeOfDelimiters(s: seq<byte>)
  {
    forall k :: 0 <= k < |s| ==> s[k] != ETX && s[k] != CR
  }

  /** Inside the checksummed part only the closing byte is ETX, and no byte is CR. */
  lemma ChecksummedPartBytes(opcode: byte, payload: seq<byte>)
    requires FreeOfDelimiters([opcode] + payload)
    ensures var part := ChecksummedPart(opcode, payload);
            && |part| == |payload| + 3 && part[|part| - 1] == ETX
            && (forall k :: 0 <= k < |part| ==> part[k] != CR)
            && (forall k :: 0 <= k < |part| - 1 ==> part[k] != ETX)
  {
    var body := [opcode] + payload;
    var part := ChecksummedPart(opcode, payload);
    assert part == [STX] + body + [ETX];
    forall k | 1 <= k < |part| - 1 ensures part[k] == body[k - 1] {
    }
  }

  /** A frame whose opcode and payload hold no ETX or CR is what the extractor cuts. */
  lemma FrameIsCandidate(opcode: byte, payload: seq<byte>)
    requires FreeOfDelimiters([opcode] + payload)
    ensures IsCandidateFrame(Frame(opcode, payload))
  {
    var part := ChecksummedPart(opcode, payload);
    var hex := Hex2(Crc8(part));
    var f := Frame(opcode, payload);
    ChecksummedPartBytes(opcode, payload);
    HexDigitsAreNotFraming(hex[0]);
    HexDigitsAreNotFraming(hex[1]);
    forall k | 0 <= k < |f| - 1 ensures f[k] != CR {
      if k < |part| {
        assert f[k] == part[k];
      } else {
        assert f[k] == hex[k - |part|];
      }
    }
  }

  /** Such a frame is cut whole from the front of the receive buffer, whatever follows it. */
  lemma FrameIsExtracted(opcode: byte, payload: seq<byte>, rest: seq<byte>)
    requires FreeOfDelimiters([opcode] + payload)
    ensures SplitFrame(Frame(opcode, payload) + rest) == Some(Extracted(Frame(opcode, payload), rest))
  {
    FrameIsCandidate(opcode, payload);
    SplitFrameAtFront(Frame(opcode, payload), rest);
  }

  /** Such a frame passes validation, with the opcode and payload as its body. */
  lemma FrameValidates(opcode: byte, payload: seq<byte>)
    requires FreeOfDelimiters([opcode] + payload)
    ensures Validate(Frame(opcode, payload)) == Valid([opcode] + payload)
  {
    var part := ChecksummedPart(opcode, payload);
    var crc := Crc8(part);
    var f := Frame(opcode, payload);
    var e := |payload| + 2;
    ChecksummedPartBytes(opcode, payload);
    assert f[..e + 1] == part;
    assert FirstEtxAt(f, e) by {
      forall k | 0 <= k < e ensures f[k] != ETX {
        assert f[k] == part[k];
      }
    }
    assert ChecksumText(f, e) == Hex2(crc);
    Hex2RoundTrip(crc);
    assert Body(f, e) == part[1..e];
    assert part[1..e] == [opcode] + payload;
  }

  // ---------------------------------------------------------------------
  // The activation command itself

  /** The CRC-8 of the activation command's checksummed part, byte by byte. */
  lemma ActivationChecksum()
    ensures Crc8([0x02, 0x31, 0x30, 0x50, 0x32, 0x30, 0x30, 0x30, 0x70, 0x33, 0x30, 0x30, 0x30, 0x03]) == 0x1B
  {
    var p: seq<byte> := [];
    assert ByteStep(0x00, 0x02) == 0x7F; Crc8Append(p, 0x02); p := p + [0x02];
    assert ByteStep(0x7F, 0x31) == 0x35; Crc8Append(p, 0x31); p := p + [0x31];
    assert ByteStep(0x35, 0x30) == 0x2B; Crc8Append(p, 0x30); p := p + [0x30];
    assert ByteStep(0x2B, 0x50) == 0xE8; Crc8Append(p, 0x50); p := p + [0x50];
    assert ByteStep(0xE8, 0x32) == 0x76; Crc8Append(p, 0x32); p := p + [0x32];
    assert ByteStep(0x76, 0x30) == 0x1C; Crc8Append(p, 0x30); p := p + [0x30];
    assert ByteStep(0x1C, 0x30) == 0x73; Crc8Append(p, 0x30); p := p + [0x30];
    assert ByteStep(0x73, 0x30) == 0x37; Crc8Append(p, 0x30); p := p + [0x30];
    assert ByteStep(0x37, 0x70) == 0xC9; Crc8Append(p, 0x70); p := p + [0x70];
    assert ByteStep(0xC9, 0x33) == 0xD2; Crc8Append(p, 0x33); p := p + [0x33];
    assert ByteStep(0xD2, 0x30) == 0xA9; Crc8Append(p, 0x30); p := p + [0x30];
    assert ByteStep(0xA9, 0x30) == 0x41; Crc8Append(p, 0x30); p := p + [0x30];
    assert ByteStep(0x41, 0x30) == 0xBE; Crc8Append(p, 0x30); p := p + [0x30];
    assert ByteStep(0xBE, 0x03) == 0x1B; Crc8Append(p, 0x03); p := p + [0x03];
    assert p == [0x02, 0x31, 0x30, 0x50, 0x32, 0x30, 0x30, 0x30, 0x70, 0x33, 0x30, 0x30, 0x30, 0x03];
  }

  /** The timer 0 is written as "000". */
  lemma ZeroTimer()
    ensures ZeroPaddedDecimal(0, 3) == [0x30, 0x30, 0x30]
  {
    assert DecimalDigits(0) == [0];
  }

  /** The activation payload: waveforms off, then each group with its send state and timer "000". */
  lemma ActivationPayload()
    ensures Payload(GroupsToRequest) == [0x30, 0x50, 0x32, 0x30, 0x30, 0x30, 0x70, 0x33, 0x30, 0x30, 0x30]
  {
    ZeroTimer();
    assert GroupsToRequest[..1][..0] == [];
    assert GroupsToRequest[..1] == [(0x50, SendBreathByBreath, 0)];
    assert Payload(GroupsToRequest[..1]) == [0x30, 0x50, 0x32, 0x30, 0x30, 0x30];
  }

  /** The command on the wire: 17 bytes, ending in the checksum "1B" and CR. */
  lemma ActivationCommandBytes()
    ensures Frame(CmdActivateMixedMode, Payload(GroupsToRequest))
         == [0x02, 0x31, 0x30, 0x50, 0x32, 0x30, 0x30, 0x30, 0x70, 0x33, 0x30, 0x30, 0x30, 0x03, 0x31, 0x42, 0x0D]
  {
    ActivationPart();
    ActivationChecksum();
    FrameOfParts(CmdActivateMixedMode, Payload(GroupsToRequest),
      [0x02, 0x31, 0x30, 0x50, 0x32, 0x30, 0x30, 0x30, 0x70, 0x33, 0x30, 0x30, 0x30, 0x03], 0x1B);
  }

  /** The checksummed part of the activation command. */
  lemma ActivationPart()
    ensures ChecksummedPart(CmdActivateMixedMode, Payload(GroupsToRequest))
         == [0x02, 0x31, 0x30, 0x50, 0x32, 0x30, 0x30, 0x30, 0x70, 0x33, 0x30, 0x30, 0x30, 0x03]
  {
    ActivationPayload();
  }

  /** A frame assembled from its checksummed part and that part's CRC, rendered as "1B". */
  lemma FrameOfParts(opcode: byte, payload: seq<byte>, part: seq<byte>, crc: byte)
    requires ChecksummedPart(opcode, payload) == part && Crc8(part) == crc && crc == 0x1B
    ensures Frame(opcode, payload) == part + [0x31, 0x42, CR]
  {
    ActivationChecksumText();
  }

  /** The checksum 0x1B goes on the wire as "1B". */
  lemma ActivationChecksumText()
    ensures Hex2(0x1B) == [0x31, 0x42]
  {
    assert HexDigits[1] == 0x31 && HexDigits[11] == 0x42;
  }

  /** The activation command's body holds no ETX, CR or VT. */
  lemma ActivationBodyBytes()
    ensures FreeOfDelimiters([CmdActivateMixedMode] + Payload(GroupsToRequest))
    ensures forall k :: 0 <= k < |[CmdActivateMixedMode] + Payload(GroupsToRequest)| ==>
              ([CmdActivateMixedMode] + Payload(GroupsToRequest))[k] != VT
  {
    ActivationPayload();
    var body: seq<byte> := [0x31, 0x30, 0x50, 0x32, 0x30, 0x30, 0x30, 0x70, 0x33, 0x30, 0x30, 0x30];
    assert [CmdActivateMixedMode] + Payload(GroupsToRequest) == body;
    forall k | 0 <= k < |body| ensures body[k] != ETX && body[k] != CR && body[k] != VT {
      assert body[k] >= 0x30;
    }
  }

  /**
   * The client would accept its own command as a frame, with the opcode and
   * payload as the body, but finds no parameters in it: the body has no VT.
   */
  lemma ActivationCommandAccepted(rest: seq<byte>)
    ensures var cmd := Frame(CmdActivateMixedMode, Payload(GroupsToRequest));
            && SplitFrame(cmd + rest) == Some(Extracted(cmd, rest))
            && Validate(cmd) == Valid([CmdActivateMixedMode] + Payload(GroupsToRequest))
            && DecoderInput([CmdActivateMixedMode] + Payload(GroupsToRequest)).None?
  {
    ActivationBodyBytes();
    FrameIsExtracted(CmdActivateMixedMode, Payload(GroupsToRequest), rest);
    FrameValidates(CmdActivateMixedMode, Payload(GroupsToRequest));
  }
}
