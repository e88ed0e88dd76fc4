// Bytes, little- and big-endian integers, and alignment: the arithmetic every layer of the
// native backend stands on.
module Bytes {

  type Byte = b: int | 0 <= b < 256

  type U32 = n: int | 0 <= n < 0x1_0000_0000

  const U32_MAX: int := 0xFFFF_FFFF

  // The bytes of a text of ASCII characters.
  function Ascii(s: string): (b: seq<Byte>)
    ensures |b| == |s|
    ensures forall i | 0 <= i < |s| && s[i] as int < 128 :: b[i] == s[i] as int
  {
    seq(|s|, i requires 0 <= i < |s| => s[i] as int % 256)
  }

  // `n` rounded up to a multiple of `a`; the source writes (n + a - 1) & -a, for a power of two `a`.
  function Align(n: nat, a: nat): (r: nat)
    requires a in {1, 2, 4, 8}
    ensures n <= r < n + a && r % a == 0
  {
    if a == 8 then (n + 7) / 8 * 8
    else if a == 4 then (n + 3) / 4 * 4
    else if a == 2 then (n + 1) / 2 * 2
    else n
  }

  function Le32(s: seq<Byte>, o: nat): (r: U32)
    requires o + 4 <= |s|
  {
    var b0: int, b1: int, b2: int, b3: int := s[o], s[o + 1], s[o + 2], s[o + 3];
    b0 + 256 * b1 + 65536 * b2 + 16777216 * b3
  }

  function Be32(s: seq<Byte>, o: nat): (r: U32)
    requires o + 4 <= |s|
  {
    var b0: int, b1: int, b2: int, b3: int := s[o], s[o + 1], s[o + 2], s[o + 3];
    16777216 * b0 + 65536 * b1 + 256 * b2 + b3
  }

  // The four bytes `v & 0xFF`, `(v >> 8) & 0xFF`, ... of an integer of any sign: the low 32 bits of
  // its two's complement form, least significant first.
  function Le32Bytes(v: int): (s: seq<Byte>)
    ensures |s| == 4
  {
    [v % 256, v / 256 % 256, v / 65536 % 256, v / 16777216 % 256]
  }

  // The base-256 digits of an integer, and what they sum to.
  lemma Digits(v: int)
    ensures v % 256 + 256 * (v / 256 % 256) + 65536 * (v / 65536 % 256) + 16777216 * (v / 16777216 % 256)
         == v % 0x1_0000_0000
  {
    var d1, d2, d3 := v / 256, v / 65536, v / 16777216;
    assert d2 == d1 / 256 && d3 == d2 / 256;
  }

  // What was written as four bytes reads back as the value modulo 2^32.
  lemma Le32RoundTrip(v: int, s: seq<Byte>, o: nat)
    requires o + 4 <= |s|
    requires s[o..o + 4] == Le32Bytes(v)
    ensures Le32(s, o) == v % 0x1_0000_0000
  {
    var q := s[o..o + 4];
    assert s[o] == q[0] && s[o + 1] == q[1] && s[o + 2] == q[2] && s[o + 3] == q[3];
    Digits(v);
  }

  // The same four bytes, most significant first.
  function Be32Bytes(v: int): (s: seq<Byte>)
    ensures |s| == 4
  {
    var l := Le32Bytes(v);
    [l[3], l[2], l[1], l[0]]
  }

  lemma Be32RoundTrip(v: int, s: seq<Byte>, o: nat)
    requires o + 4 <= |s|
    requires s[o..o + 4] == Be32Bytes(v)
    ensures Be32(s, o) == v % 0x1_0000_0000
  {
    var q := s[o..o + 4];
    assert s[o] == q[0] && s[o + 1] == q[1] && s[o + 2] == q[2] && s[o + 3] == q[3];
    Digits(v);
  }

  // Which end is which: a small number fills the first byte of the one and the last of the other.
  lemma ByteOrder(v: Byte)
    ensures Le32Bytes(v) == [v, 0, 0, 0] && Le32([v, 0, 0, 0], 0) == v
    ensures Be32Bytes(v) == [0, 0, 0, v] && Be32([0, 0, 0, v], 0) == v
  {
  }

  // Reading a u32 looks at four bytes and no others.
  lemma Le32Local(s: seq<Byte>, t: seq<Byte>, o: nat, d: nat)
    requires o + 4 <= |s| && o + d + 4 <= |t|
    requires s[o..o + 4] == t[o + d..o + d + 4]
    ensures Le32(s, o) == Le32(t, o + d)
  {
    var a, b := s[o..o + 4], t[o + d..o + d + 4];
    assert s[o] == a[0] == b[0] && s[o + 1] == a[1] == b[1];
    assert s[o + 2] == a[2] == b[2] && s[o + 3] == a[3] == b[3];
  }
}
