/** UTF-8, as `str.encode('utf-8')` produces it, and a decoder for reading it back. */
module Utf8 {
  import opened Wrappers
  import opened ByteStrings

  predicate IsAscii(c: char) {
    c as int < 0x80
  }

  /** The UTF-8 encoding of one Unicode scalar value: one to four bytes. */
  function EncodeChar(c: char): (r: Bytes)
    ensures 1 <= |r| <= 4 && IsByteString(r)
    ensures IsAscii(c) ==> r == [c]
    ensures !IsAscii(c) ==> forall i :: 0 <= i < |r| ==> !IsAscii(r[i])
  {
    var n := c as int;
    if n < 0x80 then [c]
    else if n < 0x800 then
      [(0xC0 + n / 64) as char, (0x80 + n % 64) as char]
    else if n < 0x10000 then
      [(0xE0 + n / 64 / 64) as char, (0x80 + n / 64 % 64) as char, (0x80 + n % 64) as char]
    else
      [(0xF0 + n / 64 / 64 / 64) as char, (0x80 + n / 64 / 64 % 64) as char,
       (0x80 + n / 64 % 64) as char, (0x80 + n % 64) as char]
  }

  /** `s.encode('utf-8')` */
  function Encode(s: string): (r: Bytes)
    ensures IsByteString(r)
    ensures |s| <= |r| <= 4 * |s|
  {
    if s == [] then [] else EncodeChar(s[0]) + Encode(s[1..])
  }

  /** Text made of ASCII characters only encodes to itself. */
  lemma {:induction false} EncodeAscii(s: string)
    requires forall i :: 0 <= i < |s| ==> IsAscii(s[i])
    ensures Encode(s) == s
  {
    if s != [] {
      EncodeAscii(s[1..]);
    }
  }

  /** An ASCII byte occurs in an encoding only where the text holds that very character. */
  lemma {:induction false} EncodeKeepsAsciiAbsent(s: string, c: char)
    requires IsAscii(c) && c !in s
    ensures c !in Encode(s)
  {
    if s != [] {
      EncodeKeepsAsciiAbsent(s[1..], c);
      assert c !in EncodeChar(s[0]);
    }
  }

  predicate IsContinuation(b: char) {
    0x80 <= b as int < 0xC0
  }

  function ScalarAt(n: int, width: nat): Option<(char, nat)>
  {
    if 0 <= n < 0xD800 || 0xE000 <= n < 0x11_0000 then Some((n as char, width)) else None
  }

  /** The first character of a UTF-8 byte string and the number of bytes it takes. */
  function DecodeFirst(b: Bytes): (r: Option<(char, nat)>)
    requires b != []
    ensures r.Some? ==> 1 <= r.value.1 <= |b|
  {
    var b0 := b[0] as int;
    if b0 < 0x80 then Some((b[0], 1))
    else if 0xC0 <= b0 < 0xE0 && |b| >= 2 && IsContinuation(b[1]) then
      ScalarAt((b0 - 0xC0) * 64 + (b[1] as int - 0x80), 2)
    else if 0xE0 <= b0 < 0xF0 && |b| >= 3 && IsContinuation(b[1]) && IsContinuation(b[2]) then
      ScalarAt((b0 - 0xE0) * 4096 + (b[1] as int - 0x80) * 64 + (b[2] as int - 0x80), 3)
    else if 0xF0 <= b0 < 0xF8 && |b| >= 4 && IsContinuation(b[1]) && IsContinuation(b[2]) && IsContinuation(b[3]) then
      ScalarAt((b0 - 0xF0) * 262144 + (b[1] as int - 0x80) * 4096 + (b[2] as int - 0x80) * 64 + (b[3] as int - 0x80), 4)
    else None
  }

  /** `b.decode('utf-8')`; `None` where the bytes are not UTF-8. */
  function Decode(b: Bytes): Option<string>
    decreases |b|
  {
    if b == [] then Some([])
    else match DecodeFirst(b)
      case None => None
      case Some((c, k)) =>
        match Decode(b[k..])
        case None => None
        case Some(rest) => Some([c] + rest)
  }

  /** Splitting off six bits: `n` is recovered from its quotient and remainder by 64. */
  lemma SixBits(n: nat)
    ensures n == 64 * (n / 64) + n % 64 && 0 <= n % 64 < 64
  {
  }

  lemma DecodeFirstEncodeChar(c: char, rest: Bytes)
    ensures DecodeFirst(EncodeChar(c) + rest) == Some((c, |EncodeChar(c)|))
  {
    var n := c as int;
    if n < 0x80 {
    } else if n < 0x800 {
      DecodeTwo(c, rest);
    } else if n < 0x10000 {
      DecodeThree(c, rest);
    } else {
      DecodeFour(c, rest);
    }
  }

  lemma DecodeTwo(c: char, rest: Bytes)
    requires 0x80 <= c as int < 0x800
    ensures DecodeFirst(EncodeChar(c) + rest) == Some((c, 2))
  {
    var n := c as int;
    SixBits(n);
    var e := EncodeChar(c) + rest;
    assert e[0] as int - 0xC0 == n / 64 && e[1] as int - 0x80 == n % 64;
  }

  lemma DecodeThree(c: char, rest: Bytes)
    requires 0x800 <= c as int < 0x10000
    ensures DecodeFirst(EncodeChar(c) + rest) == Some((c, 3))
  {
    var n := c as int;
    var q := n / 64;
    SixBits(n);
    SixBits(q);
    var e := EncodeChar(c) + rest;
    assert e[0] as int - 0xE0 == q / 64;
    assert e[1] as int - 0x80 == q % 64 && e[2] as int - 0x80 == n % 64;
    assert (q / 64) * 4096 + (q % 64) * 64 == 64 * q;
  }

  lemma DecodeFour(c: char, rest: Bytes)
    requires 0x10000 <= c as int
    ensures DecodeFirst(EncodeChar(c) + rest) == Some((c, 4))
  {
    var n := c as int;
    var q := n / 64;
    var q2 := q / 64;
    SixBits(n);
    SixBits(q);
    SixBits(q2);
    var e := EncodeChar(c) + rest;
    assert e[0] as int - 0xF0 == q2 / 64;
    assert e[1] as int - 0x80 == q2 % 64;
    assert e[2] as int - 0x80 == q % 64 && e[3] as int - 0x80 == n % 64;
    assert (q2 / 64) * 64 + q2 % 64 == q2;
    assert (q2 / 64) * 262144 + (q2 % 64) * 4096 == 4096 * q2;
    assert 4096 * q2 + (q % 64) * 64 == 64 * q;
  }

  /** Decoding undoes encoding, so the encoded length measures exactly the text it carries. */
  lemma {:induction false} DecodeEncode(s: string)
    ensures Decode(Encode(s)) == Some(s)
  {
    if s != [] {
      var e := EncodeChar(s[0]);
      DecodeFirstEncodeChar(s[0], Encode(s[1..]));
      assert (e + Encode(s[1..]))[|e|..] == Encode(s[1..]);
      DecodeEncode(s[1..]);
      assert [s[0]] + s[1..] == s;
    }
  }
}
