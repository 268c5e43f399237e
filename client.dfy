/**
 * One pass of the client's main loop after the serial read: cut the next
 * frame from the receive buffer, validate it, hand its parameters to the
 * decoder, and build an observation message when a new breath begins.
 *
 * The serial port, the 30-second resend of the activation command, the
 * sleep between passes and the file the message is written to are not
 * modelled; the clock reading and the patient id are parameters.
 */
module Client {
  import opened Protocol
  import opened Framing
  import opened Decoder
  import opened Hl7
  import opened Tables
  import opened Text
  import opened Command

  /** What one pass did with the buffer. */
  datatype Outcome =
    | Waiting                      // no complete frame in the buffer yet
    | Discarded(verdict: Verdict)  // invalid ETX, unreadable checksum text or CRC mismatch
    | Ignored                      // a valid frame that carries no parameters
    | Decoded(report: Report)      // the frame's parameters went through the decoder

  datatype StepResult = StepResult(buffer: seq<byte>, data: Snapshot, outcome: Outcome, message: Option<string>)

  /** What handling one extracted frame does to the state, and the message it produces, if any. */
  datatype Reaction = Reaction(data: Snapshot, outcome: Outcome, message: Option<string>)

  /** The decoder pass on a frame's parameters, then the breath check that triggers a message. */
  ghost function Deliver(data: Snapshot, params: seq<byte>, timestamp: string, patientId: string): Reaction
  {
    var (data', report) := ParsePacket(data, params);
    Reaction(data', Decoded(report), if report == Completed(true) then Message(data', timestamp, patientId) else None)
  }

  /** Handling one extracted frame: validation, the opcode and VT test, then the decoder. */
  ghost function Dispatch(data: Snapshot, packet: seq<byte>, timestamp: string, patientId: string): Reaction
  {
    var verdict := Validate(packet);
    if !verdict.Valid? then Reaction(data, Discarded(verdict), None)
    else
      match DecoderInput(verdict.body)
      case None => Reaction(data, Ignored, None)
      case Some(params) => Deliver(data, params, timestamp, patientId)
  }

  /** The effect of one pass on the buffer and the state, and the message it produces, if any. */
  ghost function Step(buffer: seq<byte>, data: Snapshot, timestamp: string, patientId: string): StepResult
  {
    match SplitFrame(buffer)
    case None => StepResult(buffer, data, Waiting, None)
    case Some(x) =>
      var r := Dispatch(data, x.packet, timestamp, patientId);
      StepResult(x.rest, r.data, r.outcome, r.message)
  }

  /**
   * The body of the main loop from `buffer.find(STX)` on: at most one frame
   * per pass; a rejected frame is dropped, and a new breath triggers the
   * message builder on the merged state.
   */
  method Poll(reader: FrameReader, store: VentilatorStore, timestamp: string, patientId: string)
    returns (outcome: Outcome, message: Option<string>)
    requires store.Valid()
    modifies reader, store
    ensures store.Valid()
    ensures StepResult(reader.buffer, store.data, outcome, message)
         == Step(old(reader.buffer), old(store.data), timestamp, patientId)
  {
    message := None;
    var packet := reader.NextPacket();
    if packet.None? {
      return Waiting, None;
    }
    var verdict := Validate(packet.value);
    if !verdict.Valid? {
      return Discarded(verdict), None;
    }
    var params := DecoderInput(verdict.body);
    if params.None? {
      return Ignored, None;
    }
    var report := store.Merge(params.value);
    outcome := Decoded(report);
    if report == Completed(true) {
      message := BuildMessage(store.data, timestamp, patientId);
    }
  }

  // ---------------------------------------------------------------------
  // Properties of one pass

  /** Without a complete frame nothing changes; otherwise the frame and the bytes before it leave the buffer. */
  lemma StepConsumesOneFrame(buffer: seq<byte>, data: Snapshot, timestamp: string, patientId: string)
    ensures var r := Step(buffer, data, timestamp, patientId);
            && (r.outcome == Waiting <==> !HasFrame(buffer))
            && (r.outcome == Waiting ==> r.buffer == buffer && r.data == data && r.message.None?)
            && (r.outcome != Waiting ==> r.buffer == SplitFrame(buffer).value.rest && |r.buffer| < |buffer|)
  {
    match SplitFrame(buffer)
    case None =>
    case Some(x) =>
      assert Dispatch(data, x.packet, timestamp, patientId).outcome != Waiting;
  }

  /**
   * A frame is discarded exactly when validation rejects it, and ignored
   * exactly when it is valid but fails the opcode or VT test; either way
   * the state stays as it was and no message is produced.
   */
  lemma DispatchRejected(data: Snapshot, packet: seq<byte>, timestamp: string, patientId: string)
    ensures var r := Dispatch(data, packet, timestamp, patientId);
            && (r.outcome.Discarded? <==> !Validate(packet).Valid?)
            && (r.outcome == Ignored <==> Validate(packet).Valid? && DecoderInput(Validate(packet).body).None?)
            && ((r.outcome.Discarded? || r.outcome == Ignored) ==> r.data == data && r.message.None?)
  {
    var verdict := Validate(packet);
    if verdict.Valid? && DecoderInput(verdict.body).Some? {
      assert Dispatch(data, packet, timestamp, patientId).outcome.Decoded?;
    }
  }

  /**
   * After a decoder pass a message is produced exactly when the pass
   * completed and the breath number is now non-empty and differs from
   * before; the message is built from the merged state.
   */
  lemma DeliverOnNewBreath(data: Snapshot, params: seq<byte>, timestamp: string, patientId: string)
    ensures var r := Deliver(data, params, timestamp, patientId);
            && r.outcome.Decoded?
            && (r.message.Some? <==> r.outcome == Decoded(Completed(true)))
            && (r.outcome == Decoded(Completed(true)) <==>
                  ApplyChunks(data, SplitOn(params, VT)).completed
                  && IsNewBreath(BreathNumberOf(data), BreathNumberOf(r.data)))
            && (r.message.Some? ==> r.message == Message(r.data, timestamp, patientId))
  {
    var pass := ApplyChunks(data, SplitOn(params, VT));
    if pass.completed && IsNewBreath(BreathNumberOf(data), BreathNumberOf(pass.data)) {
      assert MonitoredParameters in pass.data;
    }
  }

  /**
   * A pass that cuts a frame but discards or ignores it leaves the state as
   * it was and produces no message.
   */
  lemma RejectedFrameChangesNothing(buffer: seq<byte>, data: Snapshot, timestamp: string, patientId: string)
    ensures var r := Step(buffer, data, timestamp, patientId);
            (r.outcome.Discarded? || r.outcome == Ignored) ==> r.data == data && r.message.None?
  {
    if HasFrame(buffer) {
      DispatchRejected(data, SplitFrame(buffer).value.packet, timestamp, patientId);
    }
  }

  /** A pass produces a message exactly when its frame began a new breath, and the message holds the merged state. */
  lemma MessageOnNewBreath(buffer: seq<byte>, data: Snapshot, timestamp: string, patientId: string)
    ensures var r := Step(buffer, data, timestamp, patientId);
            && (r.message.Some? <==> r.outcome == Decoded(Completed(true)))
            && (r.outcome == Decoded(Completed(true)) ==> IsNewBreath(BreathNumberOf(data), BreathNumberOf(r.data)))
            && (r.message.Some? ==> r.message == Message(r.data, timestamp, patientId))
  {
    if HasFrame(buffer) {
      var packet := SplitFrame(buffer).value.packet;
      DispatchRejected(data, packet, timestamp, patientId);
      var verdict := Validate(packet);
      if verdict.Valid? && DecoderInput(verdict.body).Some? {
        DeliverOnNewBreath(data, DecoderInput(verdict.body).value, timestamp, patientId);
      }
    }
  }

  /**
   * A frame whose bytes are corrupted in one place before its ETX is
   * dropped and leaves the state unchanged.
   */
  lemma CorruptedFrameDropped(packet: seq<byte>, e: nat, i: nat, b: byte, rest: seq<byte>,
                              data: Snapshot, timestamp: string, patientId: string)
    requires Validate(packet).Valid? && FirstEtxAt(packet, e) && i <= e && b != packet[i]
    requires IsCandidateFrame(packet[i := b])
    ensures var r := Step(packet[i := b] + rest, data, timestamp, patientId);
            r.outcome.Discarded? && r.buffer == rest && r.data == data && r.message.None?
  {
    ValidatorRejectsCorruption(packet, e, i, b);
    SplitFrameAtFront(packet[i := b], rest);
    DispatchRejected(data, packet[i := b], timestamp, patientId);
  }

  /** A buffer that starts with a frame: the pass handles that frame and keeps what follows it. */
  lemma StepOnFrame(frame: seq<byte>, rest: seq<byte>, data: Snapshot, timestamp: string, patientId: string)
    requires IsCandidateFrame(frame)
    ensures var r := Dispatch(data, frame, timestamp, patientId);
            Step(frame + rest, data, timestamp, patientId) == StepResult(rest, r.data, r.outcome, r.message)
  {
    SplitFrameAtFront(frame, rest);
  }

  /** Handling the same frame a second time produces no message. */
  lemma DispatchTwice(data: Snapshot, frame: seq<byte>, timestamp: string, patientId: string)
    ensures var first := Dispatch(data, frame, timestamp, patientId);
            Dispatch(first.data, frame, timestamp, patientId).message.None?
  {
    DispatchRejected(data, frame, timestamp, patientId);
    var first := Dispatch(data, frame, timestamp, patientId);
    DispatchRejected(first.data, frame, timestamp, patientId);
    var verdict := Validate(frame);
    if verdict.Valid? && DecoderInput(verdict.body).Some? {
      var params := DecoderInput(verdict.body).value;
      RepeatedPacketNoNewBreath(data, params);
      DeliverOnNewBreath(first.data, params, timestamp, patientId);
    }
  }

  /** The same frame received twice in a row yields at most one message. */
  lemma RepeatedFrameOneMessage(frame: seq<byte>, rest: seq<byte>, data: Snapshot, timestamp: string, patientId: string)
    requires IsCandidateFrame(frame)
    ensures var first := Step(frame + frame + rest, data, timestamp, patientId);
            var second := Step(first.buffer, first.data, timestamp, patientId);
            first.buffer == frame + rest && second.buffer == rest && second.message.None?
  {
    assert frame + frame + rest == frame + (frame + rest);
    StepOnFrame(frame, frame + rest, data, timestamp, patientId);
    var first := Dispatch(data, frame, timestamp, patientId);
    StepOnFrame(frame, rest, first.data, timestamp, patientId);
    DispatchTwice(data, frame, timestamp, patientId);
  }

  // ---------------------------------------------------------------------
  // Scenarios

  /** The client's own activation command, echoed back, is valid but carries no parameters. */
  lemma EchoedCommandIgnored(rest: seq<byte>, data: Snapshot, timestamp: string, patientId: string)
    ensures var cmd := Frame(CmdActivateMixedMode, Payload(GroupsToRequest));
            Step(cmd + rest, data, timestamp, patientId) == StepResult(rest, data, Ignored, None)
  {
    ActivationCommandAccepted(rest);
  }

  /** The parameters of the one-chunk report "Monitored Parameters / Breath Number = 5". */
  const FirstBreathParams: seq<byte> := [0x50, 0x20, 0x35]

  /** A mixed-mode data frame whose parameter section is that one chunk. */
  const FirstBreathPayload: seq<byte> := [VT] + FirstBreathParams

  /** The state after that report, starting from an empty state. */
  const FirstBreathState: Snapshot := map[MonitoredParameters := map[BreathNumber := "5"]]

  lemma FirstBreathDecoded()
    ensures ParsePacket(map[], FirstBreathParams) == (FirstBreathState, Completed(true))
  {
    var chunk := FirstBreathParams;
    assert ApplyChunks(map[], SplitOn(chunk, VT)) == Pass(FirstBreathState, true) by {
      SplitOnSingle(chunk);
      FirstBreathChunk();
      ApplyOneChunk(map[], chunk);
      FirstBreathStored();
    }
    assert BreathNumberOf(FirstBreathState) == Some("5") by {
      FirstBreathStored();
    }
  }

  lemma FirstBreathStored()
    ensures Put(map[], MonitoredParameters, BreathNumber, "5") == FirstBreathState
    ensures BreathNumberOf(FirstBreathState) == Some("5")
  {
  }

  /** A parameter section without VT is a single chunk. */
  lemma SplitOnSingle(chunk: seq<byte>)
    requires chunk == FirstBreathParams
    ensures SplitOn(chunk, VT) == [chunk]
  {
    assert Find(chunk, VT, 0).None? by {
      forall k | 0 <= k < |chunk| ensures chunk[k] != VT {
        assert chunk[k] >= 0x20;
      }
    }
  }

  /** The chunk names Breath Number in Monitored Parameters and carries the text "5". */
  lemma FirstBreathChunk()
    ensures Classify(FirstBreathParams) == Store(MonitoredParameters, BreathNumber, "5")
  {
    var chunk := FirstBreathParams;
    BreathNumberIds();
    StoredChunk(chunk);
    FirstBreathValue(chunk);
  }

  lemma FirstBreathValue(chunk: seq<byte>)
    requires chunk == FirstBreathParams
    ensures ChunkValue(chunk) == "5"
  {
    assert chunk[2..] == [0x35];
    AsciiDecodeByte(0x35);
    DigitIsNotSpace('5');
    StripUnpadded("5");
  }

  /** A pass over one storing chunk stores its value and completes. */
  lemma ApplyOneChunk(st: Snapshot, chunk: seq<byte>)
    requires Classify(chunk).Store?
    ensures var e := Classify(chunk);
            ApplyChunks(st, [chunk]) == Pass(Put(st, e.group, e.name, e.value), true)
  {
    assert [chunk][1..] == [];
  }

  /**
   * From an empty state, a valid frame reporting breath number 5 is a new
   * breath: it is stored and a message is built from it, which holds only
   * the header segments since the breath number is not an observation.
   */
  lemma FirstBreathTriggersMessage(rest: seq<byte>, timestamp: string, patientId: string)
    ensures var frame := Frame(CmdActivateMixedMode, FirstBreathPayload);
            && Step(frame + rest, map[], timestamp, patientId)
               == StepResult(rest, FirstBreathState, Decoded(Completed(true)), Message(FirstBreathState, timestamp, patientId))
            && Message(FirstBreathState, timestamp, patientId) == Some(JoinLines(Headers(timestamp, patientId)))
  {
    var frame := Frame(CmdActivateMixedMode, FirstBreathPayload);
    FirstBreathFrame();
    StepOnFrame(frame, rest, map[], timestamp, patientId);
    FirstBreathDecoded();
    assert MonitoredParameters in FirstBreathState;
    NothingObservedOnFirstBreath();
    assert Headers(timestamp, patientId) + [] == Headers(timestamp, patientId);
  }

  /**
   * The breath number is not one of the projected parameters, so a state
   * holding only it yields no observation segments.
   */
  lemma NothingObservedOnFirstBreath()
    ensures Observed(FirstBreathState, VentilatorToHl7) == []
  {
    var obs := Observed(FirstBreathState, VentilatorToHl7);
    ObservedSound(FirstBreathState, VentilatorToHl7);
    if obs != [] {
      var i :| 0 <= i < |VentilatorToHl7| && Reports(FirstBreathState, VentilatorToHl7[i], obs[0]);
      BreathNumberNotProjected(i);
      FindValueFound(FirstBreathState, VentilatorToHl7[i].0);
      assert false;
    }
  }

  /** The frame is cut whole, passes validation, and hands the chunk to the decoder. */
  lemma FirstBreathFrame()
    ensures var frame := Frame(CmdActivateMixedMode, FirstBreathPayload);
            && IsCandidateFrame(frame)
            && Validate(frame).Valid?
            && DecoderInput(Validate(frame).body) == Some(FirstBreathParams)
  {
    var body := [CmdActivateMixedMode] + FirstBreathPayload;
    assert FreeOfDelimiters(body) by {
      assert body == [0x31, 0x0B, 0x50, 0x20, 0x35];
    }
    FrameIsCandidate(CmdActivateMixedMode, FirstBreathPayload);
    FrameValidates(CmdActivateMixedMode, FirstBreathPayload);
    FirstBreathBody();
  }

  /** The body's vertical tab comes right after the command byte, and the parameters follow it. */
  lemma FirstBreathBody()
    ensures DecoderInput([CmdActivateMixedMode] + FirstBreathPayload) == Some(FirstBreathParams)
  {
    var body := [CmdActivateMixedMode] + FirstBreathPayload;
    assert body[1] == VT && body[2..] == FirstBreathParams;
    assert Find(body, VT, 0) == Some(1);
  }
}
