/** Lower-case hexadecimal text of raw bytes: Python's `bytes.hex()` (also
    the form of `hexdigest()`) and its inverse `bytes.fromhex`. */
module HexText {
  import opened ByteStrings

  predicate IsHexDigit(c: byte) {
    0x30 <= c <= 0x39 || 0x61 <= c <= 0x66
  }

  predicate IsHex(s: Bytes) {
    forall i :: 0 <= i < |s| ==> IsHexDigit(s[i])
  }

  /** A SHA-1 address as `hexdigest()` prints it: 40 lower-case hex digits. */
  predicate IsSha(s: Bytes) {
    |s| == 40 && IsHex(s)
  }

  /** The ASCII digit `0`-`9`, `a`-`f` of a nibble. */
  function HexDigit(v: int): (c: byte)
    requires 0 <= v < 16
    ensures IsHexDigit(c)
  {
    if v < 10 then (0x30 + v) as byte else (0x61 + v - 10) as byte
  }

  /** The nibble a hex digit stands for. */
  function DigitValue(c: byte): (v: int)
    requires IsHexDigit(c)
    ensures 0 <= v < 16 && HexDigit(v) == c
  {
    if c <= 0x39 then c as int - 0x30 else c as int - 0x61 + 10
  }

  lemma DigitValueOfHexDigit(v: int)
    requires 0 <= v < 16
    ensures DigitValue(HexDigit(v)) == v
  {
  }

  /** `b.hex()`: two digits per byte, high nibble first. */
  function Hex(b: Bytes): (s: Bytes)
    ensures |s| == 2 * |b| && IsHex(s)
  {
    if b == [] then []
    else [HexDigit(b[0] as int / 16), HexDigit(b[0] as int % 16)] + Hex(b[1..])
  }

  /** `bytes.fromhex(s)` on the only texts it is given here: an even number of
      lower-case hex digits. */
  function FromHex(s: Bytes): (b: Bytes)
    requires |s| % 2 == 0 && IsHex(s)
    ensures |b| == |s| / 2
  {
    if s == [] then []
    else [(DigitValue(s[0]) * 16 + DigitValue(s[1])) as byte] + FromHex(s[2..])
  }

  lemma {:induction false} FromHexOfHex(b: Bytes)
    ensures FromHex(Hex(b)) == b
  {
    if b != [] {
      var s := Hex(b);
      DigitValueOfHexDigit(b[0] as int / 16);
      DigitValueOfHexDigit(b[0] as int % 16);
      assert s[2..] == Hex(b[1..]);
      FromHexOfHex(b[1..]);
    }
  }

  lemma {:induction false} HexOfFromHex(s: Bytes)
    requires |s| % 2 == 0 && IsHex(s)
    ensures Hex(FromHex(s)) == s
  {
    if s != [] {
      var b := FromHex(s);
      var v := DigitValue(s[0]) * 16 + DigitValue(s[1]);
      assert b[0] as int == v;
      assert v / 16 == DigitValue(s[0]) && v % 16 == DigitValue(s[1]);
      assert b[1..] == FromHex(s[2..]);
      HexOfFromHex(s[2..]);
      assert s == [s[0], s[1]] + s[2..];
    }
  }

  /** Different bytes never print the same. */
  lemma HexInjective(a: Bytes, b: Bytes)
    requires Hex(a) == Hex(b)
    ensures a == b
  {
    FromHexOfHex(a);
    FromHexOfHex(b);
  }
}
