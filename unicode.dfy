/**
 * Bytes, and the two text encodings the core crosses: UTF-8
 * (`encodeToByteArray`, `decodeToString`) and UTF-16 (the code units that
 * Kotlin's `String.length` and `String.hashCode` are defined over).
 */
module Unicode {

  type byte = b: int | 0 <= b < 256

  /** A Unicode scalar value encoded in UTF-8 (shortest form). */
  function EncodeChar(c: char): (bs: seq<byte>)
    ensures 1 <= |bs| <= 4
    ensures (|bs| == 1) == ((c as int) < 0x80)
    ensures forall i :: 0 <= i < |bs| ==> bs[i] != 0 || c == '\0'
  {
    var v := c as int;
    if v < 0x80 then [v]
    else if v < 0x800 then [0xC0 + v / 64, 0x80 + v % 64]
    else if v < 0x10000 then [0xE0 + v / 4096, 0x80 + (v / 64) % 64, 0x80 + v % 64]
    else [0xF0 + v / 262144, 0x80 + (v / 4096) % 64, 0x80 + (v / 64) % 64, 0x80 + v % 64]
  }

  /** Kotlin `encodeToByteArray()`. */
  function Utf8Encode(s: string): (bs: seq<byte>)
    ensures |bs| >= |s|
  {
    if s == [] then [] else EncodeChar(s[0]) + Utf8Encode(s[1..])
  }

  predicate IsContinuation(b: byte) {
    0x80 <= b < 0xC0
  }

  predicate IsScalar(v: int) {
    (0 <= v < 0xD800) || (0xE000 <= v < 0x110000)
  }

  const ReplacementChar: char := '\U{FFFD}'

  /**
   * The first character of `bs` and the number of bytes it takes: a
   * well-formed shortest-form sequence decodes to its scalar value; any other
   * lead byte is replaced by U+FFFD and skipped alone.
   */
  function DecodeFirst(bs: seq<byte>): (r: (char, nat))
    requires |bs| > 0
    ensures 1 <= r.1 <= |bs|
  {
    var u: seq<int> := bs;
    var b0 := u[0];
    if b0 < 0x80 then ((b0 as char), 1)
    else if 0xC2 <= b0 < 0xE0 && |bs| >= 2 && IsContinuation(bs[1]) then
      (((b0 - 0xC0) * 64 + (u[1] - 0x80)) as char, 2)
    else if 0xE0 <= b0 < 0xF0 && |bs| >= 3 && IsContinuation(bs[1]) && IsContinuation(bs[2]) then
      var v := (b0 - 0xE0) * 4096 + (u[1] - 0x80) * 64 + (u[2] - 0x80);
      if 0x800 <= v && IsScalar(v) then (v as char, 3) else (ReplacementChar, 1)
    else if 0xF0 <= b0 < 0xF5 && |bs| >= 4 && IsContinuation(bs[1]) && IsContinuation(bs[2]) && IsContinuation(bs[3]) then
      var v := (b0 - 0xF0) * 262144 + (u[1] - 0x80) * 4096 + (u[2] - 0x80) * 64 + (u[3] - 0x80);
      if 0x10000 <= v && IsScalar(v) then (v as char, 4) else (ReplacementChar, 1)
    else (ReplacementChar, 1)
  }

  /** Kotlin `decodeToString()`, malformed input replaced byte by byte. */
  function Utf8Decode(bs: seq<byte>): (s: string)
    ensures |s| <= |bs|
    decreases |bs|
  {
    if bs == [] then []
    else
      var (c, n) := DecodeFirst(bs);
      [c] + Utf8Decode(bs[n..])
  }

  lemma Split64(v: nat)
    ensures v == (v / 64) * 64 + v % 64
    ensures v / 64 / 64 == v / 4096 && v / 4096 / 64 == v / 262144
  {
  }

  lemma DecodeFirstOfEncoded2(c: char, rest: seq<byte>)
    requires 0x80 <= c as int < 0x800
    ensures DecodeFirst(EncodeChar(c) + rest) == (c, 2)
  {
    var v := c as int;
    var bs: seq<int> := EncodeChar(c) + rest;
    assert bs[0] == 0xC0 + v / 64 && bs[1] == 0x80 + v % 64;
    Split64(v);
  }

  lemma DecodeFirstOfEncoded3(c: char, rest: seq<byte>)
    requires 0x800 <= c as int < 0x10000
    ensures DecodeFirst(EncodeChar(c) + rest) == (c, 3)
  {
    var v := c as int;
    var bs: seq<int> := EncodeChar(c) + rest;
    assert bs[0] == 0xE0 + v / 4096 && bs[1] == 0x80 + (v / 64) % 64 && bs[2] == 0x80 + v % 64;
    Split64(v);
    Split64(v / 64);
    assert (bs[0] - 0xE0) * 4096 + (bs[1] - 0x80) * 64 + (bs[2] - 0x80) == v;
  }

  lemma DecodeFirstOfEncoded4(c: char, rest: seq<byte>)
    requires 0x10000 <= c as int
    ensures DecodeFirst(EncodeChar(c) + rest) == (c, 4)
  {
    var v := c as int;
    var bs: seq<int> := EncodeChar(c) + rest;
    assert bs[0] == 0xF0 + v / 262144 && bs[1] == 0x80 + (v / 4096) % 64;
    assert bs[2] == 0x80 + (v / 64) % 64 && bs[3] == 0x80 + v % 64;
    Split64(v);
    Split64(v / 64);
    Split64(v / 4096);
    assert (bs[0] - 0xF0) * 262144 + (bs[1] - 0x80) * 4096 + (bs[2] - 0x80) * 64 + (bs[3] - 0x80) == v;
  }

  lemma DecodeFirstOfEncoded(c: char, rest: seq<byte>)
    ensures DecodeFirst(EncodeChar(c) + rest) == (c, |EncodeChar(c)|)
  {
    var v := c as int;
    if v < 0x80 {
    } else if v < 0x800 {
      DecodeFirstOfEncoded2(c, rest);
    } else if v < 0x10000 {
      DecodeFirstOfEncoded3(c, rest);
    } else {
      DecodeFirstOfEncoded4(c, rest);
    }
  }

  /** Decoding what was encoded gives the original string back. */
  lemma {:induction false} DecodeEncode(s: string)
    ensures Utf8Decode(Utf8Encode(s)) == s
    decreases |s|
  {
    if s != [] {
      var head := EncodeChar(s[0]);
      var rest := Utf8Encode(s[1..]);
      DecodeFirstOfEncoded(s[0], rest);
      assert (head + rest)[|head|..] == rest;
      DecodeEncode(s[1..]);
    }
  }

  lemma {:induction false} EncodeAppend(a: string, b: string)
    ensures Utf8Encode(a + b) == Utf8Encode(a) + Utf8Encode(b)
    decreases |a|
  {
    if a == [] {
      assert a + b == b;
    } else {
      assert (a + b)[0] == a[0];
      assert (a + b)[1..] == a[1..] + b;
      EncodeAppend(a[1..], b);
      BytesRegroup(EncodeChar(a[0]), Utf8Encode(a[1..]), Utf8Encode(b));
    }
  }

  lemma BytesRegroup(x: seq<byte>, y: seq<byte>, z: seq<byte>)
    ensures x + (y + z) == (x + y) + z
  {
  }

  // ---- ASCII ----

  predicate IsAscii(s: string) {
    forall i :: 0 <= i < |s| ==> (s[i] as int) < 0x80
  }

  predicate IsAsciiBytes(bs: seq<byte>) {
    forall i :: 0 <= i < |bs| ==> bs[i] < 0x80
  }

  /** ASCII text is encoded one byte per character, each byte the character's code. */
  lemma {:induction false} AsciiEncode(s: string)
    requires IsAscii(s)
    ensures |Utf8Encode(s)| == |s|
    ensures forall i :: 0 <= i < |s| ==> Utf8Encode(s)[i] == s[i] as int
    decreases |s|
  {
    if s != [] {
      assert IsAscii(s[1..]) by { forall i | 0 <= i < |s| - 1 ensures (s[1..][i] as int) < 0x80 { assert s[1..][i] == s[i + 1]; } }
      AsciiEncode(s[1..]);
    }
  }

  /** ASCII bytes decode one character per byte. */
  lemma {:induction false} AsciiDecode(bs: seq<byte>)
    requires IsAsciiBytes(bs)
    ensures |Utf8Decode(bs)| == |bs|
    ensures forall i :: 0 <= i < |bs| ==> Utf8Decode(bs)[i] as int == bs[i]
    decreases |bs|
  {
    if bs != [] {
      assert IsAsciiBytes(bs[1..]) by { forall i | 0 <= i < |bs| - 1 ensures bs[1..][i] < 0x80 { assert bs[1..][i] == bs[i + 1]; } }
      AsciiDecode(bs[1..]);
    }
  }

  // ---- UTF-16 ----

  /** The UTF-16 code units of a string, a surrogate pair for each character above U+FFFF. */
  function Utf16Units(s: string): (us: seq<int>)
    ensures |us| >= |s|
    ensures forall i :: 0 <= i < |us| ==> 0 <= us[i] < 0x10000
  {
    if s == [] then []
    else
      var v := s[0] as int;
      var head := if v < 0x10000 then [v] else [0xD800 + (v - 0x10000) / 1024, 0xDC00 + (v - 0x10000) % 1024];
      head + Utf16Units(s[1..])
  }

  /** For ASCII text, UTF-16 units and UTF-8 bytes are both the character codes. */
  lemma {:induction false} AsciiUtf16(s: string)
    requires IsAscii(s)
    ensures Utf16Units(s) == Utf8Encode(s)
    decreases |s|
  {
    if s != [] {
      assert IsAscii(s[1..]) by { forall i | 0 <= i < |s| - 1 ensures (s[1..][i] as int) < 0x80 { assert s[1..][i] == s[i + 1]; } }
      AsciiUtf16(s[1..]);
    }
  }
}
