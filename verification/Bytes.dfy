/** Bytes, C strings and the small datatypes every other module uses. */
module Bytes {
  type byte = x: int | 0 <= x < 256

  type Text = seq<byte>

  datatype Option<+T> = None | Some(value: T)

  const DOT: byte := 46
  const BACKSLASH: byte := 92
  const UNDERSCORE: byte := 95
  const DASH: byte := 45

  /** A C string holds no NUL before its terminator. */
  predicate IsCString(s: Text) {
    0 !in s
  }

  /** The part of a buffer a C string function sees. */
  function CString(s: Text): (r: Text)
    ensures IsCString(r)
    ensures r <= s
    ensures IsCString(s) ==> r == s
  {
    if s == [] || s[0] == 0 then [] else [s[0]] + CString(s[1..])
  }

  lemma Assoc<T>(a: seq<T>, b: seq<T>, c: seq<T>)
    ensures a + b + c == a + (b + c)
  {
  }

  function Pow2(n: nat): (r: nat)
    ensures r >= 1
  {
    if n == 0 then 1 else 2 * Pow2(n - 1)
  }

  predicate IsDigit(c: byte) {
    48 <= c <= 57
  }

  /** tolower in the C locale. */
  function ToLower(c: byte): byte {
    if 65 <= c <= 90 then c + 32 else c
  }

  function Lower(s: Text): Text {
    seq(|s|, i requires 0 <= i < |s| => ToLower(s[i]))
  }

  /** Big-endian 16-bit and 32-bit fields. */
  function U16(v: nat): (r: Text)
    requires v < 0x1_0000
    ensures |r| == 2
  {
    [v / 256, v % 256]
  }

  function U32(v: nat): (r: Text)
    requires v < 0x1_0000_0000
    ensures |r| == 4
  {
    U16(v / 0x1_0000) + U16(v % 0x1_0000)
  }

  function ReadU16(d: Text, i: nat): (v: nat)
    requires i + 2 <= |d|
    ensures v < 0x1_0000
  {
    var high: int, low: int := d[i], d[i + 1];
    high * 256 + low
  }

  function ReadU32(d: Text, i: nat): (v: nat)
    requires i + 4 <= |d|
    ensures v < 0x1_0000_0000
  {
    ReadU16(d, i) * 0x1_0000 + ReadU16(d, i + 2)
  }

  /** A 16-bit field as it is on the wire: the high byte first. */
  predicate FieldAt(b: Text, i: nat, v: int) {
    i + 2 <= |b| && var high: int, low: int := b[i], b[i + 1]; v == 256 * high + low
  }

  lemma U16RoundTrip(v: nat, d: Text, i: nat)
    requires v < 0x1_0000
    requires i + 2 <= |d| && d[i..i + 2] == U16(v)
    ensures ReadU16(d, i) == v
  {
    assert d[i] == d[i..i + 2][0] && d[i + 1] == d[i..i + 2][1];
  }

  lemma U32RoundTrip(v: nat, d: Text, i: nat)
    requires v < 0x1_0000_0000
    requires i + 4 <= |d| && d[i..i + 4] == U32(v)
    ensures ReadU32(d, i) == v
  {
    assert d[i..i + 2] == d[i..i + 4][..2];
    assert d[i + 2..i + 4] == d[i..i + 4][2..];
    U16RoundTrip(v / 0x1_0000, d, i);
    U16RoundTrip(v % 0x1_0000, d, i + 2);
  }
}
