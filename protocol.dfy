/**
 * Byte-level vocabulary of the Hamilton serial protocol: the byte type, the
 * framing constants and Python's `bytes.find`, shared by every other module.
 */
module Protocol {

  /** One octet on the serial line. */
  type byte = bv8

  datatype Option<T> = None | Some(value: T)

  /** Start of a frame. */
  const STX: byte := 0x02
  /** End of the data part of a frame; the checksum text follows it. */
  const ETX: byte := 0x03
  /** Closing byte of a frame. */
  const CR: byte := 0x0D
  /** Separator between parameter chunks inside a frame's payload. */
  const VT: byte := 0x0B

  /** Opcode of the "activate mixed mode" command and of the replies that carry parameters. */
  const CmdActivateMixedMode: byte := 0x31
  /** Send-state bytes of the activation command. */
  const SendTimedOnly: byte := 0x30
  const SendOnce: byte := 0x31
  const SendBreathByBreath: byte := 0x32
  const SendOnChange: byte := 0x33
  /** Parameter id that marks the end of a group inside the payload. */
  const GroupEnd: byte := 0xFF

  /**
   * `s.find(b, start)`: the first index at or after `start` that holds `b`,
   * `None` where Python answers -1.
   */
  function Find(s: seq<byte>, b: byte, start: nat): (r: Option<nat>)
    ensures r.Some? ==> start <= r.value < |s| && s[r.value] == b
    ensures r.Some? ==> forall k :: start <= k < r.value ==> s[k] != b
    ensures r.None? <==> forall k :: start <= k < |s| ==> s[k] != b
    decreases |s| - start
  {
    if start >= |s| then None
    else if s[start] == b then Some(start)
    else Find(s, b, start + 1)
  }
}
