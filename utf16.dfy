/** `str::encode_utf16` and `String::from_utf16_lossy`, which the path index
    uses to turn destination paths into UTF-16 units and back. */
module Utf16 {
  import opened Format

  predicate IsHighSurrogate(u: u16) { 0xD800 <= u < 0xDC00 }
  predicate IsLowSurrogate(u: u16) { 0xDC00 <= u < 0xE000 }

  /** The units of one scalar value: itself below 0x10000, else a surrogate pair. */
  function EncodeChar(c: char): (r: seq<u16>)
    ensures |r| == 1 ==> !IsHighSurrogate(r[0]) && !IsLowSurrogate(r[0]) && r[0] == c as int
    ensures |r| == 2 ==> IsHighSurrogate(r[0]) && IsLowSurrogate(r[1])
    ensures 1 <= |r| <= 2
    ensures (0 in r) <==> c == '\0'
  {
    var x := c as int;
    if x < 0x1_0000 then [x]
    else
      var y := x - 0x1_0000;
      [0xD800 + y / 0x400, 0xDC00 + y % 0x400]
  }

  function Encode(s: string): (r: seq<u16>)
    ensures (0 in r) <==> ('\0' in s)
  {
    if s == [] then [] else EncodeChar(s[0]) + Encode(s[1..])
  }

  /** Lossy decoding: a well-formed pair or a lone non-surrogate unit gives its
      scalar value; every unpaired surrogate becomes U+FFFD. */
  function DecodeLossy(u: seq<u16>): string
  {
    if u == [] then []
    else if |u| >= 2 && IsHighSurrogate(u[0]) && IsLowSurrogate(u[1]) then
      [(0x1_0000 + (u[0] as int - 0xD800) * 0x400 + (u[1] as int - 0xDC00)) as char] + DecodeLossy(u[2..])
    else if IsHighSurrogate(u[0]) || IsLowSurrogate(u[0]) then
      ['�'] + DecodeLossy(u[1..])
    else
      [u[0] as char] + DecodeLossy(u[1..])
  }

  lemma DecodeEncodeChar(c: char, rest: seq<u16>)
    ensures DecodeLossy(EncodeChar(c) + rest) == [c] + DecodeLossy(rest)
  {
    var x := c as int;
    var e := EncodeChar(c);
    if x >= 0x1_0000 {
      var y := x - 0x1_0000;
      assert y == (y / 0x400) * 0x400 + y % 0x400;
      assert (e + rest)[2..] == rest;
    } else {
      assert (e + rest)[1..] == rest;
    }
  }

  /** Decoding what was encoded gives the string back. */
  lemma {:induction false} DecodeEncode(s: string)
    ensures DecodeLossy(Encode(s)) == s
  {
    if s != [] {
      DecodeEncodeChar(s[0], Encode(s[1..]));
      DecodeEncode(s[1..]);
    }
  }

  /** Hence two paths with the same units are the same path. */
  lemma EncodeInjective(s: string, t: string)
    requires Encode(s) == Encode(t)
    ensures s == t
  {
    DecodeEncode(s);
    DecodeEncode(t);
  }
}
