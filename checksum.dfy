/**
 * The CRC-8 of the Hamilton protocol (polynomial 0xD5, initial value 0, no
 * reflection, no final xor), used to finalise outgoing commands and to check
 * incoming frames.
 *
 * `Crc8` is the reference definition, with the register kept to 8 bits after
 * every shift. `ComputeCrc8` is the source's loop, whose register is an
 * unbounded Python integer that is masked only once, at the end.
 */
module Checksum {
  import opened Protocol
  import opened ByteArith

  const Polynomial: byte := 0xD5

  /** One shift of the 8-bit register: shift left, and xor the polynomial in when bit 7 falls out. */
  function ShiftStep(c: byte): byte
  {
    if c & 0x80 != 0 then (c + c) ^ 0xD5 else c + c
  }

  /** `n` successive shift steps. */
  function Shifts(c: byte, n: nat): byte
  {
    if n == 0 then c else ShiftStep(Shifts(c, n - 1))
  }

  /** The register after one input byte has been xored in and shifted eight times. */
  function ByteStep(c: byte, b: byte): byte
  {
    Shifts(c ^ b, 8)
  }

  /** CRC-8 with polynomial 0xD5 over `data`, masked to 8 bits at every step. */
  function Crc8(data: seq<byte>): byte
  {
    if data == [] then 0 else ByteStep(Crc8(data[..|data| - 1]), data[|data| - 1])
  }

  /** Appending a byte advances the register by one step. */
  lemma Crc8Append(data: seq<byte>, b: byte)
    ensures Crc8(data + [b]) == ByteStep(Crc8(data), b)
  {
    assert (data + [b])[..|data|] == data;
  }

  // ---------------------------------------------------------------------
  // Python's unbounded register

  /** The low eight bits of a Python integer (`x & 0xFF`). */
  function LowByte(x: nat): byte
  {
    ByteOf(x % 256)
  }

  /**
   * Python's `x ^ b` for a byte `b`: the bits of `x` above bit 7 are kept,
   * its low byte is xored with `b`.
   */
  function XorByte(x: nat, b: byte): nat
  {
    x - x % 256 + (LowByte(x) ^ b) as int
  }

  /** Python's `x & 0x80 != 0`: bit 7 of `x` is set. */
  predicate Bit7(x: nat)
  {
    (x / 128) % 2 == 1
  }

  /** `n` iterations of the inner loop of `crc8` on the unbounded register. */
  function RawShifts(x: nat, n: nat): nat
  {
    if n == 0 then x
    else
      var y := RawShifts(x, n - 1);
      if Bit7(y) then XorByte(y * 2, Polynomial) else y * 2
  }

  /** The unbounded register of `crc8` after it has consumed `data`, before the final mask. */
  function RawCrc(data: seq<byte>): nat
  {
    if data == [] then 0
    else RawShifts(XorByte(RawCrc(data[..|data| - 1]), data[|data| - 1]), 8)
  }

  lemma LowByteOfXor(x: nat, b: byte)
    ensures LowByte(XorByte(x, b)) == LowByte(x) ^ b
  {
    var v := LowByte(x) ^ b;
    assert 0 <= v as int < 256;
    assert XorByte(x, b) % 256 == v as int;
    ByteOfByte(v);
  }

  /** Bits above bit 7 never decide the `& 0x80` test. */
  lemma Bit7OfLowBits(x: nat)
    ensures Bit7(x) <==> x % 256 >= 128
  {
  }

  lemma Bit7IsLowByteBit7(x: nat)
    ensures Bit7(x) <==> LowByte(x) & 0x80 != 0
  {
    var v := LowByte(x);
    Bit7OfLowBits(x);
    ByteOfValue(x % 256);
    assert v as int == x % 256;
    Bit7OfByte(v);
  }

  lemma LowByteOfDouble(x: nat)
    ensures LowByte(x * 2) == LowByte(x) + LowByte(x)
  {
    var v := LowByte(x);
    var w := v + v;
    ByteOfValue(x % 256);
    assert v as int == x % 256;
    DoubleOfByte(v);
    ModOfDouble(x);
    assert w as int == (x * 2) % 256;
    ByteOfByte(w);
  }

  /** One unbounded shift step, read through the mask, is one masked shift step. */
  lemma {:induction false} RawShiftsMasked(x: nat, n: nat)
    ensures LowByte(RawShifts(x, n)) == Shifts(LowByte(x), n)
  {
    if n > 0 {
      RawShiftsMasked(x, n - 1);
      var y := RawShifts(x, n - 1);
      Bit7IsLowByteBit7(y);
      LowByteOfDouble(y);
      if Bit7(y) {
        LowByteOfXor(y * 2, Polynomial);
      }
    }
  }

  /**
   * Masking the register only at the end, as `crc8` does, gives the CRC that
   * masks after every shift.
   */
  lemma {:induction false} MaskOnceAtEnd(data: seq<byte>)
    ensures LowByte(RawCrc(data)) == Crc8(data)
  {
    if data != [] {
      var init := data[..|data| - 1];
      var last := data[|data| - 1];
      MaskOnceAtEnd(init);
      LowByteOfXor(RawCrc(init), last);
      RawShiftsMasked(XorByte(RawCrc(init), last), 8);
    }
  }

  /**
   * `crc8(data)`: xor each byte into the register, shift eight times, and
   * mask the unbounded register to 8 bits once at the end.
   */
  method ComputeCrc8(data: seq<byte>) returns (r: byte)
    ensures r == Crc8(data)
  {
    var crc: nat := 0;
    var i := 0;
    while i < |data|
      invariant 0 <= i <= |data|
      invariant crc == RawCrc(data[..i])
    {
      assert data[..i + 1][..i] == data[..i];
      crc := XorByte(crc, data[i]);
      ghost var start := crc;
      var k := 0;
      while k < 8
        invariant 0 <= k <= 8
        invariant crc == RawShifts(start, k)
      {
        if Bit7(crc) {
          crc := XorByte(crc * 2, Polynomial);
        } else {
          crc := crc * 2;
        }
        k := k + 1;
      }
      i := i + 1;
    }
    assert data[..i] == data;
    MaskOnceAtEnd(data);
    r := LowByte(crc);
  }

  // ---------------------------------------------------------------------
  // Error detection

  lemma ShiftStepInjective(a: byte, b: byte)
    requires a != b
    ensures ShiftStep(a) != ShiftStep(b)
  {
  }

  lemma {:induction false} ShiftsInjective(a: byte, b: byte, n: nat)
    requires a != b
    ensures Shifts(a, n) != Shifts(b, n)
  {
    if n > 0 {
      ShiftsInjective(a, b, n - 1);
      ShiftStepInjective(Shifts(a, n - 1), Shifts(b, n - 1));
    }
  }

  /** Feeding a byte keeps registers apart when exactly one of register and byte differs. */
  lemma ByteStepInjective(c1: byte, c2: byte, x: byte, y: byte)
    requires (c1 == c2 && x != y) || (c1 != c2 && x == y)
    ensures ByteStep(c1, x) != ByteStep(c2, y)
  {
    assert c1 ^ x != c2 ^ y;
    ShiftsInjective(c1 ^ x, c2 ^ y, 8);
  }

  /**
   * Two inputs of the same length that differ in exactly one byte (for
   * instance by one flipped bit) have different CRCs.
   */
  lemma {:induction false} Crc8DetectsOneByteChange(a: seq<byte>, b: seq<byte>, i: nat)
    requires |a| == |b| && i < |a| && a[i] != b[i]
    requires forall k :: 0 <= k < |a| && k != i ==> a[k] == b[k]
    ensures Crc8(a) != Crc8(b)
  {
    var n := |a| - 1;
    if n == i {
      assert a[..n] == b[..n];
    } else {
      Crc8DetectsOneByteChange(a[..n], b[..n], i);
    }
    ByteStepInjective(Crc8(a[..n]), Crc8(b[..n]), a[n], b[n]);
  }
}
