/**
 * Text conversions the client performs with Python built-ins: uppercase hex
 * rendering (`f"{x:02X}"`), hex parsing (`int(x, 16)`), decimal rendering
 * (`str(n)`, `f"{n:03d}"`), `bytes.decode('ascii', errors='ignore')` and
 * `str.strip()`.
 */
module Text {
  import opened Protocol

  // ---------------------------------------------------------------------
  // Hexadecimal

  /** ASCII bytes of the uppercase hex digits '0'..'9', 'A'..'F'. */
  const HexDigits: seq<byte> :=
    [0x30, 0x31, 0x32, 0x33, 0x34, 0x35, 0x36, 0x37, 0x38, 0x39, 0x41, 0x42, 0x43, 0x44, 0x45, 0x46]

  /** Value of one hex digit byte of either case; `None` for any other byte. */
  function HexValue(c: byte): (r: Option<nat>)
    ensures r.Some? ==> r.value < 16
  {
    var n := c as int;
    if 0x30 <= n <= 0x39 then Some(n - 0x30)
    else if 0x41 <= n <= 0x46 then Some(n - 0x41 + 10)
    else if 0x61 <= n <= 0x66 then Some(n - 0x61 + 10)
    else None
  }

  predicate IsHexDigit(c: byte)
  {
    HexValue(c).Some?
  }

  /** Value of a sequence of hex digits, most significant first. */
  function HexDigitsValue(s: seq<byte>): nat
    requires forall k :: 0 <= k < |s| ==> IsHexDigit(s[k])
  {
    if s == [] then 0
    else
      assert IsHexDigit(s[|s| - 1]);
      16 * HexDigitsValue(s[..|s| - 1]) + HexValue(s[|s| - 1]).value
  }

  /**
   * The checksum text of a frame read as a hexadecimal number: a non-empty
   * run of hex digits of either case, and nothing else.
   */
  function ParseHex(s: seq<byte>): (r: Option<nat>)
    ensures r.Some? <==> |s| > 0 && forall k :: 0 <= k < |s| ==> IsHexDigit(s[k])
    ensures r.Some? ==> r.value == HexDigitsValue(s)
  {
    if |s| > 0 && forall k :: 0 <= k < |s| ==> IsHexDigit(s[k]) then Some(HexDigitsValue(s)) else None
  }

  /** `f"{v:02X}"` encoded as ASCII: two uppercase hex digits. */
  function Hex2(v: byte): (r: seq<byte>)
    ensures |r| == 2 && r[0] in HexDigits && r[1] in HexDigits
  {
    [HexDigits[v as int / 16], HexDigits[v as int % 16]]
  }

  lemma HexDigitRoundTrip(n: nat)
    requires n < 16
    ensures HexValue(HexDigits[n]) == Some(n)
  {
  }

  /** Two hex digits read as a number. */
  lemma HexPairValue(a: byte, b: byte)
    requires IsHexDigit(a) && IsHexDigit(b)
    ensures ParseHex([a, b]) == Some(16 * HexValue(a).value + HexValue(b).value)
  {
    var s := [a, b];
    assert s[..1] == [a] && s[1] == b;
    assert [a][..0] == [] && [a][0] == a;
    assert HexDigitsValue([a]) == HexValue(a).value;
    assert HexDigitsValue(s) == 16 * HexDigitsValue([a]) + HexValue(b).value;
    assert forall k :: 0 <= k < |s| ==> IsHexDigit(s[k]);
  }

  /** Two uppercase digits read back as the number they render. */
  lemma HexDigitPairValue(hi: nat, lo: nat)
    requires hi < 16 && lo < 16
    ensures ParseHex([HexDigits[hi], HexDigits[lo]]) == Some(16 * hi + lo)
  {
    HexDigitRoundTrip(hi);
    HexDigitRoundTrip(lo);
    HexPairValue(HexDigits[hi], HexDigits[lo]);
  }

  /** Parsing the rendered checksum gives the checksum back. */
  lemma Hex2RoundTrip(v: byte)
    ensures ParseHex(Hex2(v)) == Some(v as int)
  {
    HexDigitPairValue(v as int / 16, v as int % 16);
  }

  /** None of the hex digit bytes is a framing byte. */
  lemma HexDigitsAreNotFraming(c: byte)
    requires c in HexDigits
    ensures c != STX && c != ETX && c != CR && c != VT
  {
  }

  // ---------------------------------------------------------------------
  // Decimal

  /** Decimal digits of `n`, most significant first, as Python's `str(n)` writes them. */
  function DecimalDigits(n: nat): (d: seq<nat>)
    ensures 1 <= |d| && forall k :: 0 <= k < |d| ==> d[k] < 10
    ensures |d| > 1 ==> d[0] != 0
  {
    if n < 10 then [n] else DecimalDigits(n / 10) + [n % 10]
  }

  /** Value of a sequence of decimal digits, most significant first. */
  function DigitsValue(d: seq<nat>): nat
  {
    if d == [] then 0 else 10 * DigitsValue(d[..|d| - 1]) + d[|d| - 1]
  }

  /** Reading the rendered digits gives the number back. */
  lemma {:induction false} DecimalRoundTrip(n: nat)
    ensures DigitsValue(DecimalDigits(n)) == n
  {
    if n >= 10 {
      var d := DecimalDigits(n);
      assert d[..|d| - 1] == DecimalDigits(n / 10);
      DecimalRoundTrip(n / 10);
    }
  }

  /** `str(n)`. */
  function DecimalString(n: nat): (s: string)
    ensures |s| == |DecimalDigits(n)|
    ensures forall k :: 0 <= k < |s| ==> '0' <= s[k] <= '9'
    ensures forall k :: 0 <= k < |s| ==> s[k] as int - '0' as int == DecimalDigits(n)[k]
  {
    var d := DecimalDigits(n);
    seq(|d|, k requires 0 <= k < |d| => "0123456789"[d[k]])
  }

  /** Distinct numbers are written differently, so OBX set ids never collide. */
  lemma DecimalStringInjective(a: nat, b: nat)
    requires DecimalString(a) == DecimalString(b)
    ensures a == b
  {
    var s := DecimalString(a);
    assert DecimalDigits(a) == DecimalDigits(b) by {
      forall k | 0 <= k < |s|
        ensures DecimalDigits(a)[k] == DecimalDigits(b)[k]
      {
      }
    }
    DecimalRoundTrip(a);
    DecimalRoundTrip(b);
  }

  /** ASCII bytes of the decimal digits '0'..'9'. */
  const DigitBytes: seq<byte> := [0x30, 0x31, 0x32, 0x33, 0x34, 0x35, 0x36, 0x37, 0x38, 0x39]

  /** `f"{n:0{width}d}".encode('ascii')`: the decimal digits of `n`, padded on the left with '0' to `width`. */
  function ZeroPaddedDecimal(n: nat, width: nat): (r: seq<byte>)
    ensures |r| == if |DecimalDigits(n)| < width then width else |DecimalDigits(n)|
    ensures forall k :: 0 <= k < |r| ==> r[k] in DigitBytes
  {
    var d := DecimalDigits(n);
    var pad := if |d| < width then width - |d| else 0;
    seq(pad, _ => 0x30) + seq(|d|, k requires 0 <= k < |d| => DigitBytes[d[k]])
  }

  /**
   * The padded text is '0' bytes followed by the digits of `n`, each as its
   * ASCII byte. Kept apart from `ZeroPaddedDecimal` so that callers that
   * only need its length and alphabet do not pay for these quantifiers.
   */
  lemma ZeroPaddedDigits(n: nat, width: nat)
    ensures var r := ZeroPaddedDecimal(n, width);
            var d := DecimalDigits(n);
            && (forall k :: 0 <= k < |r| - |d| ==> r[k] == 0x30)
            && (forall k :: 0 <= k < |d| ==> r[|r| - |d| + k] == DigitBytes[d[k]])
  {
  }

  // ---------------------------------------------------------------------
  // ASCII decoding and whitespace

  /** `bs.decode('ascii', errors='ignore')`: bytes 0x00..0x7F become characters, all others are dropped. */
  function AsciiDecode(bs: seq<byte>): (s: string)
    ensures |s| <= |bs|
    ensures forall k :: 0 <= k < |s| ==> s[k] < 128 as char
  {
    if bs == [] then []
    else
      var last := bs[|bs| - 1];
      AsciiDecode(bs[..|bs| - 1]) + if last < 0x80 then [(last as int) as char] else []
  }

  /** Decoding is done byte by byte: it distributes over concatenation. */
  lemma {:induction false} AsciiDecodeAppend(a: seq<byte>, b: seq<byte>)
    ensures AsciiDecode(a + b) == AsciiDecode(a) + AsciiDecode(b)
  {
    if b == [] {
      assert a + b == a;
    } else {
      var n := |b| - 1;
      assert (a + b)[..|a + b| - 1] == a + b[..n];
      assert (a + b)[|a + b| - 1] == b[n];
      AsciiDecodeAppend(a, b[..n]);
    }
  }

  /** The characters Python's `str.isspace()` accepts, which are the ones `str.strip()` removes. */
  const Whitespace: set<char> := {
    '\t', '\n', '\U{B}', '\U{C}', '\r', '\U{1C}', '\U{1D}', '\U{1E}', '\U{1F}', ' ',
    '\U{85}', '\U{A0}', '\U{1680}', '\U{2000}', '\U{2001}', '\U{2002}', '\U{2003}', '\U{2004}', '\U{2005}',
    '\U{2006}', '\U{2007}', '\U{2008}', '\U{2009}', '\U{200A}', '\U{2028}', '\U{2029}', '\U{202F}', '\U{205F}',
    '\U{3000}'
  }

  predicate IsSpace(c: char)
  {
    c in Whitespace
  }

  predicate AllSpace(s: string)
  {
    forall k :: 0 <= k < |s| ==> IsSpace(s[k])
  }

  /** The number of whitespace characters `s` begins with. */
  function LeadingSpaces(s: string): (n: nat)
    ensures n <= |s|
    ensures forall k :: 0 <= k < n ==> IsSpace(s[k])
    ensures n < |s| ==> !IsSpace(s[n])
    decreases |s|
  {
    if s != [] && IsSpace(s[0]) then 1 + LeadingSpaces(s[1..]) else 0
  }

  /** The number of whitespace characters `s` ends with. */
  function TrailingSpaces(s: string): (n: nat)
    ensures n <= |s|
    ensures forall k :: |s| - n <= k < |s| ==> IsSpace(s[k])
    ensures n < |s| ==> !IsSpace(s[|s| - n - 1])
    decreases |s|
  {
    if s != [] && IsSpace(s[|s| - 1]) then 1 + TrailingSpaces(s[..|s| - 1]) else 0
  }

  /**
   * `s.strip()`: the slice of `s` left after removing the whitespace at its
   * start and then the whitespace at the end of what remains.
   */
  function Strip(s: string): (r: string)
    ensures |r| <= |s|
    ensures r == [] || (!IsSpace(r[0]) && !IsSpace(r[|r| - 1]))
  {
    var i := LeadingSpaces(s);
    var t := s[i..];
    var r := t[..|t| - TrailingSpaces(t)];
    assert r != [] ==> r[0] == s[i];
    r
  }

  /** `r` is the slice of `s` at offset `i`, and everything around it is whitespace. */
  predicate StrippedAt(s: string, r: string, i: nat)
  {
    i + |r| <= |s| && r == s[i..i + |r|]
    && (forall k :: 0 <= k < i ==> IsSpace(s[k]))
    && (forall k :: i + |r| <= k < |s| ==> IsSpace(s[k]))
  }

  /** What `Strip` removes is whitespace at the two ends and nothing else. */
  lemma StripIsSlice(s: string)
    ensures exists i: nat :: StrippedAt(s, Strip(s), i)
  {
    var i := LeadingSpaces(s);
    var t := s[i..];
    var r := Strip(s);
    assert r == s[i..i + |r|];
    forall k | i + |r| <= k < |s| ensures IsSpace(s[k]) {
      assert s[k] == t[k - i];
    }
    assert StrippedAt(s, r, i);
  }

  /** Stripping only removes characters: whatever is left occurs in the input. */
  lemma StripKeepsCharacters(s: string)
    ensures forall k :: 0 <= k < |Strip(s)| ==> Strip(s)[k] in s
  {
    var r := Strip(s);
    StripIsSlice(s);
    var i: nat :| StrippedAt(s, r, i);
    forall k | 0 <= k < |r| ensures r[k] in s {
      assert r[k] == s[i + k];
    }
  }

  /** A string strips to nothing exactly when it is all whitespace. */
  lemma StripEmpty(s: string)
    ensures Strip(s) == [] <==> AllSpace(s)
  {
    var r := Strip(s);
    StripIsSlice(s);
    var i: nat :| StrippedAt(s, r, i);
    if r != [] {
      assert s[i] == r[0];
    }
  }

  /** A string with no whitespace at either end is left as it is. */
  lemma StripUnpadded(s: string)
    requires s == [] || (!IsSpace(s[0]) && !IsSpace(s[|s| - 1]))
    ensures Strip(s) == s
  {
    assert LeadingSpaces(s) == 0;
    assert s[0..] == s;
    assert TrailingSpaces(s) == 0;
  }

  /** Decimal digits are not whitespace. */
  lemma DigitIsNotSpace(c: char)
    requires '0' <= c <= '9'
    ensures !IsSpace(c)
  {
  }

  /**
   * One byte decodes to the character with that code when it is ASCII, and
   * to nothing otherwise (`errors='ignore'`); with `AsciiDecodeAppend` this
   * fixes the decoding of every byte string.
   */
  lemma AsciiDecodeByte(b: byte)
    ensures AsciiDecode([b]) == if b < 0x80 then [(b as int) as char] else []
  {
    assert [b][..0] == [];
  }
}
