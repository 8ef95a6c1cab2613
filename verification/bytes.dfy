/** Bytes, ASCII text and the fixed-width integer encodings of Python's `struct` module. */
module Bytes {

  type byte = x: int | 0 <= x < 0x100

  const LF: byte := 0x0A
  const CR: byte := 0x0D

  /** All bytes are 7-bit: UTF-8 decoding is then the identity. */
  predicate IsAscii(s: seq<byte>)
  {
    forall i :: 0 <= i < |s| ==> s[i] < 0x80
  }

  /** The bytes of an ASCII string literal. */
  function Ascii(s: string): (r: seq<byte>)
    requires forall i :: 0 <= i < |s| ==> s[i] as int < 0x80
    ensures |r| == |s|
    ensures forall i :: 0 <= i < |s| ==> r[i] == s[i] as int
    ensures IsAscii(r)
  {
    seq(|s|, i requires 0 <= i < |s| => s[i] as int)
  }

  /** `pat` occurs in `s` starting at `i`. */
  predicate OccursAt(s: seq<byte>, pat: seq<byte>, i: nat)
  {
    i + |pat| <= |s| && s[i..i + |pat|] == pat
  }

  /** Substring search: what `re.search` does for a pattern without metacharacters. */
  predicate Contains(s: seq<byte>, pat: seq<byte>)
  {
    exists i: nat :: i + |pat| <= |s| && OccursAt(s, pat, i)
  }

  /** `x` does not occur in `s` before position `k`. */
  predicate AbsentBefore(s: seq<byte>, x: byte, k: nat)
    requires k <= |s|
  {
    forall j :: 0 <= j < k ==> s[j] != x
  }

  /** A pattern holding a byte that `s` lacks does not occur in `s`. */
  lemma MissingByteExcludes(s: seq<byte>, pat: seq<byte>, k: nat)
    requires k < |pat|
    requires forall i :: 0 <= i < |s| ==> s[i] != pat[k]
    ensures !Contains(s, pat)
  {
    forall i: nat | i + |pat| <= |s|
      ensures !OccursAt(s, pat, i)
    {
      assert s[i..i + |pat|][k] == s[i + k] != pat[k];
    }
  }

  /** Index of the first occurrence of `x` in `s`, or `|s|` when there is none. */
  function FirstIndex(s: seq<byte>, x: byte): (k: nat)
    ensures k <= |s|
    ensures AbsentBefore(s, x, k)
    ensures k < |s| ==> s[k] == x
  {
    if s == [] then 0
    else if s[0] == x then 0
    else 1 + FirstIndex(s[1..], x)
  }

  // ---- little- and big-endian integers (struct codes H, L, h) ----

  /** struct.pack('<H', n). */
  function U16LE(n: nat): (r: seq<byte>)
    requires n < 0x1_0000
    ensures |r| == 2
  {
    [n % 0x100, n / 0x100]
  }

  /** struct.pack('<L', n). */
  function U32LE(n: nat): (r: seq<byte>)
    requires n < 0x1_0000_0000
    ensures |r| == 4
  {
    [n % 0x100, (n / 0x100) % 0x100, (n / 0x1_0000) % 0x100, n / 0x100_0000]
  }

  /** The unsigned integer held by `b`, least significant byte first. */
  function DecodeLE(b: seq<byte>): (n: nat)
  {
    if b == [] then 0 else b[0] + 0x100 * DecodeLE(b[1..])
  }

  /** The unsigned integer held by `b`, most significant byte first. */
  function DecodeBE(b: seq<byte>): (n: nat)
  {
    if b == [] then 0 else b[|b| - 1] + 0x100 * DecodeBE(b[..|b| - 1])
  }

  /** Reinterprets a 16-bit unsigned value as two's complement (struct code h). */
  function Signed16(u: nat): (v: int)
    requires u < 0x1_0000
    ensures -0x8000 <= v < 0x8000
    ensures v % 0x1_0000 == u
  {
    if u >= 0x8000 then u - 0x1_0000 else u
  }

  lemma {:induction false} U16LERoundTrip(n: nat)
    requires n < 0x1_0000
    ensures DecodeLE(U16LE(n)) == n
  {
    var b := U16LE(n);
    assert b[1..][1..] == [];
    assert DecodeLE(b[1..]) == n / 0x100;
  }

  lemma {:induction false} U32LERoundTrip(n: nat)
    requires n < 0x1_0000_0000
    ensures DecodeLE(U32LE(n)) == n
  {
    var m1 := n / 0x100;
    var m2 := m1 / 0x100;
    assert n / 0x1_0000 == m2;
    assert n / 0x100_0000 == m2 / 0x100;
    DecodeQuad(n % 0x100, m1 % 0x100, m2 % 0x100, m2 / 0x100);
  }

  /** Four bytes, least significant first. */
  lemma DecodeQuad(a: byte, b: byte, c: byte, d: byte)
    ensures DecodeLE([a, b, c, d]) == a as int + 0x100 * b as int + 0x1_0000 * c as int + 0x100_0000 * d as int
  {
    assert [d][1..] == [];
    assert DecodeLE([d]) == d as int;
    assert [c, d][1..] == [d];
    assert DecodeLE([c, d]) == c as int + 0x100 * d as int;
    assert [b, c, d][1..] == [c, d];
    assert DecodeLE([b, c, d]) == b as int + 0x100 * c as int + 0x1_0000 * d as int;
    assert [a, b, c, d][1..] == [b, c, d];
  }

  // ---- decimal text ----

  predicate IsDigit(b: byte) { 0x30 <= b <= 0x39 }

  predicate AllDigits(t: seq<byte>)
  {
    forall i :: 0 <= i < |t| ==> IsDigit(t[i])
  }

  /** `str(n)` for a natural number: its decimal digits, most significant first. */
  function NatText(n: nat): (t: seq<byte>)
    ensures |t| >= 1 && AllDigits(t)
    ensures n < 10 <==> |t| == 1
  {
    if n < 10 then [0x30 + n] else NatText(n / 10) + [0x30 + n % 10]
  }

  /** The value of a string of decimal digits (`int(t)`; 0 for the empty string). */
  function DigitsValue(t: seq<byte>): nat
    requires AllDigits(t)
  {
    if t == [] then 0 else 10 * DigitsValue(t[..|t| - 1]) + (t[|t| - 1] - 0x30)
  }

  /** Printing a number in decimal and reading it back gives the number. */
  lemma {:induction false} NatTextRoundTrip(n: nat)
    ensures DigitsValue(NatText(n)) == n
  {
    if n >= 10 {
      NatTextRoundTrip(n / 10);
      var t := NatText(n);
      assert t[..|t| - 1] == NatText(n / 10);
    }
  }
}
