/**
 * Frame extraction from the receive buffer and validation of one extracted
 * frame, as the main loop of the client does them:
 *
 *   STX | opcode | payload | ETX | checksum as hex text | CR
 *
 * The checksum is the CRC-8 of everything from STX through ETX.
 */
module Framing {
  import opened Protocol
  import opened Checksum
  import opened Text

  // ---------------------------------------------------------------------
  // Extraction

  /** A packet as the extractor cuts it: STX first, CR last, and no CR before the last byte. */
  predicate IsCandidateFrame(p: seq<byte>)
  {
    |p| >= 2 && p[0] == STX && p[|p| - 1] == CR && forall k :: 0 <= k < |p| - 1 ==> p[k] != CR
  }

  datatype Extracted = Extracted(packet: seq<byte>, rest: seq<byte>)

  /** The buffer holds an STX with a CR somewhere after it. */
  predicate HasFrame(buffer: seq<byte>)
  {
    exists s, c :: 0 <= s < c < |buffer| && buffer[s] == STX && buffer[c] == CR
  }

  /**
   * Cut the first frame out of the receive buffer: from the first STX
   * through the first CR after it. Bytes before that STX are noise and are
   * dropped; the bytes after the CR stay for the next frame. Without an
   * STX, or without a CR after it, nothing is cut.
   */
  function SplitFrame(buffer: seq<byte>): (r: Option<Extracted>)
    ensures r.None? <==> !HasFrame(buffer)
    ensures r.Some? ==> IsCandidateFrame(r.value.packet) && |r.value.packet| + |r.value.rest| <= |buffer|
    ensures r.Some? ==>
      var noise := |buffer| - |r.value.packet| - |r.value.rest|;
      buffer == buffer[..noise] + r.value.packet + r.value.rest
      && forall k :: 0 <= k < noise ==> buffer[k] != STX
  {
    match Find(buffer, STX, 0)
    case None =>
      NoFrameWithoutStx(buffer);
      None
    case Some(s) =>
      match Find(buffer, CR, s)
      case None =>
        NoFrameWithoutCrAfterStx(buffer, s);
        None
      case Some(c) =>
        assert HasFrame(buffer) by {
          assert buffer[s] == STX && buffer[c] == CR && s != c;
        }
        CutAt(buffer, s, c);
        Some(Extracted(buffer[s..c + 1], buffer[c + 1..]))
  }

  lemma NoFrameWithoutStx(buffer: seq<byte>)
    requires forall k :: 0 <= k < |buffer| ==> buffer[k] != STX
    ensures !HasFrame(buffer)
  {
  }

  lemma NoFrameWithoutCrAfterStx(buffer: seq<byte>, s: nat)
    requires s < |buffer| && forall k :: 0 <= k < s ==> buffer[k] != STX
    requires forall k :: s <= k < |buffer| ==> buffer[k] != CR
    ensures !HasFrame(buffer)
  {
  }

  lemma CutAt(buffer: seq<byte>, s: nat, c: nat)
    requires s < c < |buffer| && buffer[s] == STX && buffer[c] == CR
    requires forall k :: 0 <= k < s ==> buffer[k] != STX
    requires forall k :: s <= k < c ==> buffer[k] != CR
    ensures IsCandidateFrame(buffer[s..c + 1])
    ensures buffer == buffer[..s] + buffer[s..c + 1] + buffer[c + 1..]
  {
    assert buffer == buffer[..s] + buffer[s..c + 1] + buffer[c + 1..];
  }

  /**
   * The receive buffer of the main loop. Incoming bytes are appended to it,
   * and each pass of the loop cuts at most one frame off its front.
   */
  class FrameReader {
    var buffer: seq<byte>

    constructor ()
      ensures buffer == []
    {
      buffer := [];
    }

    /** Append the bytes the serial port has made available. */
    method Feed(bytes: seq<byte>)
      modifies this
      ensures buffer == old(buffer) + bytes
    {
      buffer := buffer + bytes;
    }

    /**
     * Take the next frame off the buffer, or leave the buffer as it is when
     * it holds no complete frame yet.
     */
    method NextPacket() returns (packet: Option<seq<byte>>)
      modifies this
      ensures SplitFrame(old(buffer)).None? ==> packet.None? && buffer == old(buffer)
      ensures SplitFrame(old(buffer)).Some? ==>
        packet == Some(SplitFrame(old(buffer)).value.packet) && buffer == SplitFrame(old(buffer)).value.rest
    {
      packet := None;
      var stx := Find(buffer, STX, 0);
      if stx.Some? {
        var cr := Find(buffer, CR, stx.value);
        if cr.Some? {
          packet := Some(buffer[stx.value..cr.value + 1]);
          buffer := buffer[cr.value + 1..];
        }
      }
    }
  }

  /** The frames that successive passes cut from `buffer` when no new bytes arrive. */
  function Drain(buffer: seq<byte>): seq<seq<byte>>
    decreases |buffer|
  {
    match SplitFrame(buffer)
    case None => []
    case Some(x) => [x.packet] + Drain(x.rest)
  }

  /** What is left in the buffer once `Drain(buffer)` has been cut off. */
  function Leftover(buffer: seq<byte>): seq<byte>
    decreases |buffer|
  {
    match SplitFrame(buffer)
    case None => buffer
    case Some(x) => Leftover(x.rest)
  }

  /** Every frame drained from a buffer has the shape the extractor promises, and what is left holds no frame. */
  lemma {:induction false} DrainShape(buffer: seq<byte>)
    ensures forall k :: 0 <= k < |Drain(buffer)| ==> IsCandidateFrame(Drain(buffer)[k])
    ensures !HasFrame(Leftover(buffer))
    decreases |buffer|
  {
    match SplitFrame(buffer)
    case None =>
    case Some(x) =>
      DrainShape(x.rest);
      var d := Drain(buffer);
      assert d == [x.packet] + Drain(x.rest);
      forall k | 0 <= k < |d| ensures IsCandidateFrame(d[k]) {
        if k > 0 {
          assert d[k] == Drain(x.rest)[k - 1];
        }
      }
  }

  function Concat(frames: seq<seq<byte>>): seq<byte>
  {
    if frames == [] then [] else frames[0] + Concat(frames[1..])
  }

  /** A well-formed frame at the front of the buffer is cut off exactly. */
  lemma SplitFrameAtFront(f: seq<byte>, rest: seq<byte>)
    requires IsCandidateFrame(f)
    ensures SplitFrame(f + rest) == Some(Extracted(f, rest))
  {
    var b := f + rest;
    assert b[0] == STX;
    assert Find(b, STX, 0) == Some(0);
    assert b[|f| - 1] == CR;
    assert forall k :: 0 <= k < |f| - 1 ==> b[k] != CR;
    assert b[..|f|] == f;
  }

  /** Draining a buffer that starts with a well-formed frame yields that frame first. */
  lemma DrainFront(f: seq<byte>, rest: seq<byte>)
    requires IsCandidateFrame(f)
    ensures Drain(f + rest) == [f] + Drain(rest)
  {
    SplitFrameAtFront(f, rest);
  }

  /**
   * Concatenated well-formed frames come out of the buffer one by one,
   * byte for byte and in order.
   */
  lemma {:induction false} DrainConcat(frames: seq<seq<byte>>)
    requires forall k :: 0 <= k < |frames| ==> IsCandidateFrame(frames[k])
    ensures Drain(Concat(frames)) == frames
  {
    if frames != [] {
      var tail := Concat(frames[1..]);
      assert Concat(frames) == frames[0] + tail;
      DrainFront(frames[0], tail);
      assert forall k :: 0 <= k < |frames[1..]| ==> IsCandidateFrame(frames[1..][k]) by {
        forall k | 0 <= k < |frames[1..]| ensures IsCandidateFrame(frames[1..][k]) {
          assert frames[1..][k] == frames[k + 1];
        }
      }
      DrainConcat(frames[1..]);
      HeadTail(frames);
    }
  }

  /**
   * Stated as a lemma rather than asserted inline: the assertion in the
   * body of `DrainConcat` costs the solver several times more.
   */
  lemma HeadTail(frames: seq<seq<byte>>)
    requires frames != []
    ensures [frames[0]] + frames[1..] == frames
  {
  }

  /** A byte found in `s` is found at the same place once more bytes are appended. */
  lemma {:induction false} FindExtend(s: seq<byte>, more: seq<byte>, b: byte, start: nat)
    requires Find(s, b, start).Some?
    ensures Find(s + more, b, start) == Find(s, b, start)
    decreases |s| - start
  {
    assert (s + more)[start] == s[start];
    if s[start] != b {
      FindExtend(s, more, b, start + 1);
    }
  }

  /** How `SplitFrame` cuts a buffer that holds a frame, in terms of the two searches. */
  lemma SplitFrameCuts(buffer: seq<byte>) returns (s: nat, c: nat)
    requires HasFrame(buffer)
    ensures Find(buffer, STX, 0) == Some(s) && Find(buffer, CR, s) == Some(c)
    ensures SplitFrame(buffer) == Some(Extracted(buffer[s..c + 1], buffer[c + 1..]))
  {
    var s0, c0 :| 0 <= s0 < c0 < |buffer| && buffer[s0] == STX && buffer[c0] == CR;
    s := Find(buffer, STX, 0).value;
    assert s <= s0;
    c := Find(buffer, CR, s).value;
  }

  lemma SlicesOfAppend(buffer: seq<byte>, more: seq<byte>, s: nat, c: nat)
    requires s <= c < |buffer|
    ensures (buffer + more)[s..c + 1] == buffer[s..c + 1]
    ensures (buffer + more)[c + 1..] == buffer[c + 1..] + more
  {
  }

  /** Bytes arriving after a complete frame do not change how that frame is cut. */
  lemma SplitFrameExtend(buffer: seq<byte>, more: seq<byte>)
    requires HasFrame(buffer)
    ensures SplitFrame(buffer + more) == Some(Extracted(SplitFrame(buffer).value.packet, SplitFrame(buffer).value.rest + more))
  {
    var s, c := SplitFrameCuts(buffer);
    var b := buffer + more;
    FindExtend(buffer, more, STX, 0);
    FindExtend(buffer, more, CR, s);
    SlicesOfAppend(buffer, more, s, c);
    assert HasFrame(b) by {
      assert b[s] == STX && b[c] == CR;
    }
    var s', c' := SplitFrameCuts(b);
  }

  /**
   * Where the stream is split between reads does not matter: draining, then
   * appending more bytes and draining again, cuts the same frames as
   * draining everything at once.
   */
  lemma {:induction false} DrainExtend(buffer: seq<byte>, more: seq<byte>)
    ensures Drain(buffer + more) == Drain(buffer) + Drain(Leftover(buffer) + more)
    decreases |buffer|
  {
    match SplitFrame(buffer)
    case None =>
      assert Drain(buffer) == [] && Leftover(buffer) == buffer;
    case Some(x) =>
      SplitFrameExtend(buffer, more);
      DrainStep(buffer + more);
      DrainStep(buffer);
      DrainExtend(x.rest, more);
      ConsAppend(x.packet, Drain(x.rest), Drain(Leftover(x.rest) + more));
  }

  /**
   * Stated as a lemma rather than asserted inline: the assertion in the
   * body of `DrainExtend` costs the solver several times more.
   */
  lemma ConsAppend(f: seq<byte>, a: seq<seq<byte>>, b: seq<seq<byte>>)
    ensures [f] + (a + b) == ([f] + a) + b
  {
  }

  /** One pass of `Drain` and `Leftover` on a buffer that holds a frame. */
  lemma DrainStep(buffer: seq<byte>)
    requires SplitFrame(buffer).Some?
    ensures Drain(buffer) == [SplitFrame(buffer).value.packet] + Drain(SplitFrame(buffer).value.rest)
    ensures Leftover(buffer) == Leftover(SplitFrame(buffer).value.rest)
  {
  }

  // ---------------------------------------------------------------------
  // Validation

  datatype Verdict =
    | InvalidEtx                                  // no ETX, or fewer than three bytes after it
    | BadChecksumText                             // the checksum text is not a hex number
    | CrcMismatch(received: nat, calculated: byte)
    | Valid(body: seq<byte>)                      // the bytes between STX and ETX

  /** `e` is the position of the first ETX of `p`. */
  predicate FirstEtxAt(p: seq<byte>, e: nat)
  {
    e < |p| && p[e] == ETX && forall k :: 0 <= k < e ==> p[k] != ETX
  }

  lemma NoFirstEtx(p: seq<byte>)
    requires forall k :: 0 <= k < |p| ==> p[k] != ETX
    ensures forall e: nat :: !FirstEtxAt(p, e)
  {
  }

  lemma FirstEtxUnique(p: seq<byte>, e: nat)
    requires FirstEtxAt(p, e)
    ensures forall e': nat :: FirstEtxAt(p, e') ==> e' == e
  {
  }

  /** `packet[etx_pos + 1 : -1]`: the checksum text between ETX and the closing byte. */
  function ChecksumText(p: seq<byte>, e: nat): seq<byte>
    requires e + 2 <= |p|
  {
    p[e + 1..|p| - 1]
  }

  /** `packet[1:etx_pos]`. */
  function Body(p: seq<byte>, e: nat): seq<byte>
    requires e <= |p|
  {
    if e >= 1 then p[1..e] else []
  }

  /**
   * Check one extracted packet: locate the first ETX, require at least three
   * bytes after it, read the bytes between it and the last byte as a hex
   * number and compare that with the CRC-8 of everything through the ETX.
   */
  function Validate(packet: seq<byte>): (v: Verdict)
    ensures v.InvalidEtx? <==> forall k :: 0 <= k < |packet| - 3 ==> packet[k] != ETX
    ensures !v.InvalidEtx? ==> exists e: nat :: FirstEtxAt(packet, e) && e + 4 <= |packet|
    ensures forall e: nat :: FirstEtxAt(packet, e) && e + 4 <= |packet| ==>
      var text := ChecksumText(packet, e);
      var crc := Crc8(packet[..e + 1]);
      && (v.BadChecksumText? <==> ParseHex(text).None?)
      && (v.Valid? <==> ParseHex(text) == Some(crc as int))
      && (v.Valid? ==> v.body == Body(packet, e))
      && (v.CrcMismatch? ==> ParseHex(text) == Some(v.received) && v.calculated == crc && v.received != crc as int)
  {
    match Find(packet, ETX, 0)
    case None =>
      NoFirstEtx(packet);
      InvalidEtx
    case Some(e) =>
      assert FirstEtxAt(packet, e);
      FirstEtxUnique(packet, e);
      if e + 4 > |packet| then InvalidEtx
      else
        match ParseHex(packet[e + 1..|packet| - 1])
        case None => BadChecksumText
        case Some(received) =>
          var calculated := Crc8(packet[..e + 1]);
          if received != calculated as int then CrcMismatch(received, calculated)
          else Valid(Body(packet, e))
  }

  /**
   * The bytes handed to the parameter decoder: only for a body that starts
   * with the activation opcode and contains a VT, and then everything after
   * its first VT.
   */
  function DecoderInput(body: seq<byte>): (r: Option<seq<byte>>)
    ensures r.Some? <==> |body| > 0 && body[0] == CmdActivateMixedMode && exists k :: 0 <= k < |body| && body[k] == VT
    ensures r.Some? ==> exists v :: 0 <= v < |body| && body[v] == VT && (forall k :: 0 <= k < v ==> body[k] != VT) && r.value == body[v + 1..]
  {
    if |body| > 0 && body[0] == CmdActivateMixedMode then
      match Find(body, VT, 0)
      case None => None
      case Some(v) => Some(body[v + 1..])
    else None
  }

  /** The accepted checksum of a valid packet, read from its text. */
  lemma ValidChecksum(packet: seq<byte>, e: nat)
    requires Validate(packet).Valid? && FirstEtxAt(packet, e)
    ensures e + 4 <= |packet|
    ensures ParseHex(ChecksumText(packet, e)) == Some(Crc8(packet[..e + 1]) as int)
  {
    var e': nat :| FirstEtxAt(packet, e') && e' + 4 <= |packet|;
    FirstEtxUnique(packet, e);
  }

  lemma CorruptBeforeEtx(packet: seq<byte>, e: nat, i: nat, b: byte)
    requires Validate(packet).Valid? && FirstEtxAt(packet, e)
    requires i < e && b != packet[i] && b != ETX
    ensures Validate(packet[i := b]).CrcMismatch?
  {
    var q := packet[i := b];
    ValidChecksum(packet, e);
    assert FirstEtxAt(q, e);
    assert ChecksumText(q, e) == ChecksumText(packet, e);
    assert Crc8(packet[..e + 1]) != Crc8(q[..e + 1]) by {
      Crc8DetectsOneByteChange(packet[..e + 1], q[..e + 1], i);
    }
  }

  lemma EtxBeforeEtx(packet: seq<byte>, e: nat, i: nat)
    requires Validate(packet).Valid? && FirstEtxAt(packet, e)
    requires i < e
    ensures Validate(packet[i := ETX]).BadChecksumText?
  {
    var q := packet[i := ETX];
    ValidChecksum(packet, e);
    assert FirstEtxAt(q, i);
    var t := ChecksumText(q, i);
    assert t[e - i - 1] == ETX;
    assert !IsHexDigit(t[e - i - 1]);
  }

  lemma CorruptEtx(packet: seq<byte>, e: nat, b: byte)
    requires Validate(packet).Valid? && FirstEtxAt(packet, e)
    requires b != ETX
    ensures Validate(packet[e := b]).InvalidEtx?
  {
    var q := packet[e := b];
    ValidChecksum(packet, e);
    var text := ChecksumText(packet, e);
    forall k | 0 <= k < |q| - 3 ensures q[k] != ETX {
      if k > e {
        assert text[k - e - 1] == q[k];
        assert IsHexDigit(text[k - e - 1]);
      }
    }
  }

  /**
   * A validated frame corrupted in any one byte from STX through ETX (in
   * particular by one flipped bit) is rejected.
   */
  lemma ValidatorRejectsCorruption(packet: seq<byte>, e: nat, i: nat, b: byte)
    requires Validate(packet).Valid?
    requires FirstEtxAt(packet, e) && i <= e && b != packet[i]
    ensures !Validate(packet[i := b]).Valid?
  {
    if i < e && b != ETX {
      CorruptBeforeEtx(packet, e, i, b);
    } else if i < e {
      EtxBeforeEtx(packet, e, i);
    } else {
      CorruptEtx(packet, e, b);
    }
  }
}
