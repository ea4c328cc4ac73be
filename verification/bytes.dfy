/** Fixed-width text fields: `copy` into a zeroed array and the
    trailing-NUL trim of `ByteArrayToString`. */
module Bytes {
  import opened Types

  /** An all-zero field of width `n` (the result of Go's `clear`). */
  function Zeros(n: nat): (r: seq<byte>)
    ensures |r| == n
    ensures forall i :: 0 <= i < n ==> r[i] == 0
  {
    seq(n, _ => 0)
  }

  /** The field obtained by clearing a `[width]byte` array and copying `s`
      into it: the first `min(|s|, width)` bytes of `s`, then zero padding. */
  function Fixed(s: seq<byte>, width: nat): (r: seq<byte>)
    ensures |r| == width
    ensures forall i :: 0 <= i < width ==> r[i] == (if i < |s| then s[i] else 0)
  {
    if |s| >= width then s[..width] else s + Zeros(width - |s|)
  }

  /** `ByteArrayToString`: strips the trailing zero bytes and nothing else. */
  function TrimZeros(b: seq<byte>): (r: seq<byte>)
    ensures |r| <= |b| && r == b[..|r|]
    ensures |r| == 0 || r[|r| - 1] != 0
    ensures forall i :: |r| <= i < |b| ==> b[i] == 0
  {
    if |b| == 0 || b[|b| - 1] != 0 then b else TrimZeros(b[..|b| - 1])
  }

  /** Text with no zero byte in it. */
  ghost predicate NulFree(s: seq<byte>) {
    forall i :: 0 <= i < |s| ==> s[i] != 0
  }

  /** Text without NUL bytes that fits in the field reads back unchanged. */
  lemma TextRoundTrip(s: seq<byte>, width: nat)
    requires |s| <= width
    requires NulFree(s)
    ensures TrimZeros(Fixed(s, width)) == s
  {
    var b := Fixed(s, width);
    var r := TrimZeros(b);
    assert |s| > 0 ==> b[|s| - 1] != 0;
    assert |r| <= |s|;
  }

  /** Longer text is cut at the field width. */
  lemma TextTruncated(s: seq<byte>, width: nat)
    requires |s| >= width
    requires NulFree(s)
    ensures TrimZeros(Fixed(s, width)) == s[..width]
  {
  }
}
