/** Decimal ASCII numerals: Python's `f"{n}"` for a natural number (no sign,
    no leading zeros), as written into an object header. */
module Numerals {
  import opened ByteStrings

  predicate IsDigit(c: byte) {
    0x30 <= c <= 0x39
  }

  function Decimal(n: nat): (s: Bytes)
    ensures |s| >= 1
    ensures forall i :: 0 <= i < |s| ==> IsDigit(s[i])
    ensures |s| > 1 ==> s[0] != 0x30
  {
    if n < 10 then [(0x30 + n) as byte] else Decimal(n / 10) + [(0x30 + n % 10) as byte]
  }

  /** The value of a string of decimal digits, most significant first. */
  function ParseDecimal(s: Bytes): nat
    requires forall i :: 0 <= i < |s| ==> IsDigit(s[i])
  {
    if s == [] then 0
    else
      var last := s[|s| - 1];
      assert IsDigit(last);
      ParseDecimal(s[..|s| - 1]) * 10 + (last as int - 0x30)
  }

  lemma {:induction false} ParseDecimalOfDecimal(n: nat)
    ensures ParseDecimal(Decimal(n)) == n
  {
    if n >= 10 {
      var s := Decimal(n);
      assert s[..|s| - 1] == Decimal(n / 10);
      ParseDecimalOfDecimal(n / 10);
    }
  }

  /** A numeral holds neither the header's space nor its NUL terminator. */
  lemma DecimalHasNoSeparator(n: nat)
    ensures NUL !in Decimal(n) && SP !in Decimal(n)
  {
  }
}
