/** Byte strings and the handful of Python `bytes` operations the object
    store relies on: `find`, slicing with clamped bounds, `split` on a
    one-byte separator and `b"".join`. */
module ByteStrings {

  newtype byte = x: int | 0 <= x < 256

  type Bytes = seq<byte>

  const NUL: byte := 0x00
  const LF: byte := 0x0A
  const SP: byte := 0x20
  const SLASH: byte := 0x2F

  predicate IsAscii(s: string) {
    forall i :: 0 <= i < |s| ==> s[i] as int < 128
  }

  /** The bytes of an ASCII text (its UTF-8 encoding). */
  function Ascii(s: string): (r: Bytes)
    requires IsAscii(s)
    ensures |r| == |s|
    ensures forall i :: 0 <= i < |s| ==> r[i] as int == s[i] as int
  {
    seq(|s|, i requires 0 <= i < |s| => s[i] as int as byte)
  }

  /** An ASCII text without a given character gives bytes without it. */
  lemma AsciiWithout(s: string, c: char)
    requires IsAscii(s) && c as int < 256
    requires forall i :: 0 <= i < |s| ==> s[i] != c
    ensures (c as int as byte) !in Ascii(s)
  {
  }

  function Min(a: int, b: int): int {
    if a <= b then a else b
  }

  /** `s[:n]`: Python clamps the bound to the length instead of failing. */
  function Take(s: Bytes, n: nat): (r: Bytes)
    ensures |r| == Min(n, |s|) && r == s[..|r|]
  {
    s[..Min(n, |s|)]
  }

  /** `s[n:]`, clamped the same way. */
  function Drop(s: Bytes, n: nat): (r: Bytes)
    ensures |r| == |s| - Min(n, |s|)
    ensures Take(s, n) + r == s
  {
    s[Min(n, |s|)..]
  }

  /** `s.find(bytes([c]))`: the first index of `c`, or -1 when absent. */
  function Find(s: Bytes, c: byte): (r: int)
    ensures -1 <= r < |s|
    ensures r == -1 <==> c !in s
    ensures 0 <= r ==> s[r] == c && c !in s[..r]
  {
    if s == [] then -1
    else if s[0] == c then 0
    else
      var k := Find(s[1..], c);
      if k == -1 then -1 else k + 1
  }

  lemma FindAt(a: Bytes, c: byte, b: Bytes)
    requires c !in a
    ensures Find(a + [c] + b, c) == |a|
  {
    var s := a + [c] + b;
    assert s[|a|] == c;
    assert s[..|a|] == a;
  }

  /** `s.split(bytes([sep]))`: the maximal runs between separators; a string
      with k separators gives k + 1 parts, empty ones included. */
  function Split(s: Bytes, sep: byte): (parts: seq<Bytes>)
    ensures |parts| >= 1
    decreases |s|
  {
    if sep !in s then [s]
    else
      var i := Find(s, sep);
      [s[..i]] + Split(s[i + 1..], sep)
  }

  lemma {:induction false} SplitPartsHaveNoSeparator(s: Bytes, sep: byte)
    ensures forall i :: 0 <= i < |Split(s, sep)| ==> sep !in Split(s, sep)[i]
    decreases |s|
  {
    if sep in s {
      var i := Find(s, sep);
      SplitPartsHaveNoSeparator(s[i + 1..], sep);
    }
  }

  /** `bytes([sep]).join(parts)`, the inverse of `Split`. */
  function JoinWith(parts: seq<Bytes>, sep: byte): Bytes
    requires |parts| >= 1
  {
    if |parts| == 1 then parts[0] else parts[0] + [sep] + JoinWith(parts[1..], sep)
  }

  /** `b"".join(parts)`. */
  function Concat(parts: seq<Bytes>): Bytes {
    if parts == [] then [] else parts[0] + Concat(parts[1..])
  }

  lemma {:induction false} ConcatAppend(parts: seq<Bytes>, p: Bytes)
    ensures Concat(parts + [p]) == Concat(parts) + p
  {
    if parts == [] {
      assert [p][1..] == [];
    } else {
      assert (parts + [p])[1..] == parts[1..] + [p];
      ConcatAppend(parts[1..], p);
    }
  }

  /** Splitting off a separator-free prefix. */
  lemma SplitAt(a: Bytes, sep: byte, b: Bytes)
    requires sep !in a
    ensures Split(a + [sep] + b, sep) == [a] + Split(b, sep)
  {
    var s := a + [sep] + b;
    FindAt(a, sep, b);
    assert s[|a|] == sep;
    assert s[..|a|] == a;
    assert s[|a| + 1..] == b;
  }

  /** Joining the parts back with the separator restores the input, and the
      parts are exactly as many as the separators plus one. */
  lemma {:induction false} SplitJoin(s: Bytes, sep: byte)
    ensures JoinWith(Split(s, sep), sep) == s
    ensures |Split(s, sep)| == multiset(s)[sep] + 1
    decreases |s|
  {
    if sep in s {
      var i := Find(s, sep);
      assert s == s[..i] + [sep] + s[i + 1..];
      SplitAt(s[..i], sep, s[i + 1..]);
      SplitJoin(s[i + 1..], sep);
      assert multiset(s) == multiset(s[..i]) + multiset{sep} + multiset(s[i + 1..]) by {
        calc {
          multiset(s);
          multiset(s[..i] + [sep] + s[i + 1..]);
          multiset(s[..i] + [sep]) + multiset(s[i + 1..]);
        }
      }
      assert multiset(s[..i])[sep] == 0;
    } else {
      assert multiset(s)[sep] == 0;
    }
  }
}
