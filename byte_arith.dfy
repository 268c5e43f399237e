/**
 * Facts about the conversions between 8-bit values and integers that the
 * checksum proofs rely on, kept apart so that each is proved on its own.
 */
module ByteArith {
  /** A byte read as an integer converts back to itself. */
  lemma ByteRoundTrip(v: bv8)
    ensures (v as int) as bv8 == v
  {
  }

  /**
   * The byte worth `n` modulo 256, counted up from zero with 8-bit
   * wrap-around. It is defined by counting rather than as `(n % 256) as bv8`
   * so that the proofs about it need only integer arithmetic and one
   * successor fact (`SuccOfByte`), not the solver's int-to-bit-vector
   * conversion.
   */
  function ByteOf(n: nat): bv8
  {
    if n == 0 then 0 else ByteOf(n - 1) + 1
  }

  /** Adding one to a byte wraps around modulo 256. */
  lemma SuccOfByte(v: bv8)
    ensures (v + 1) as int == (v as int + 1) % 256
  {
  }

  lemma {:induction false} ByteOfValue(n: nat)
    ensures ByteOf(n) as int == n % 256
  {
    if n > 0 {
      ByteOfValue(n - 1);
      SuccOfByte(ByteOf(n - 1));
      var r := (n - 1) % 256;
      if r == 255 {
        assert n % 256 == 0;
      } else {
        assert n % 256 == r + 1;
      }
    }
  }

  /** Counting up to a byte's value gives the byte back. */
  lemma ByteOfByte(v: bv8)
    ensures ByteOf(v as int) == v
  {
    ByteOfValue(v as int);
    ByteRoundTrip(v);
    ByteRoundTrip(ByteOf(v as int));
  }

  /** Bit 7 of a byte is set exactly when its value is at least 128. */
  lemma Bit7OfByte(v: bv8)
    ensures (v & 0x80 != 0) == (v as int >= 128)
  {
  }

  /** Doubling a byte wraps around modulo 256. */
  lemma DoubleOfByte(v: bv8)
    ensures (v + v) as int == (2 * (v as int)) % 256
  {
  }

  /** Doubling commutes with reduction modulo 256. */
  lemma ModOfDouble(x: nat)
    ensures (x * 2) % 256 == (2 * (x % 256)) % 256
  {
    var q, r := x / 256, x % 256;
    assert x * 2 == 256 * (2 * q) + 2 * r;
  }
}
