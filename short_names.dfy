/**
 * The 16-byte wire identifier of a script ("short name"), as each end of the
 * socket derives it: the daemon from the script's file name
 * (scripting-host DaemonMain.kt) and the C relay from the name it was
 * invoked under (call_kt_cgi_daemon.c). The definitions here are the
 * specifications; the relay's loops over buffers are in module Relay.
 */
module ShortNames {
  import opened Wrappers
  import opened Text
  import opened Unicode
  import opened Int32

  const Base36Alphabet: string := "0123456789abcdefghijklmnopqrstuvwxyz"

  predicate IsDigit36(c: char) {
    '0' <= c <= '9' || 'a' <= c <= 'z'
  }

  /** The base-36 digit of value `d`. */
  function Digit36(d: nat): (c: char)
    requires d < 36
    ensures IsDigit36(c) && IsAscii([c])
  {
    Base36Alphabet[d]
  }

  /** The extension the daemon strips from a file name. */
  const ScriptSuffix: string := ".cgi.kts"

  /** The separator byte between the name prefix and the hash. */
  const Separator: char := '\U{0001}'

  // ---- hashing: Java's String.hashCode and the relay's hash() ----

  /** h = 31 * h + x over `xs`, from 0, wrapping to 32 bits after every step. */
  function PolyHash(xs: seq<int>): (h: int)
    ensures IsInt32(h)
  {
    if xs == [] then 0 else Wrap32(31 * PolyHash(xs[..|xs| - 1]) + xs[|xs| - 1])
  }

  /** Kotlin/Java `String.hashCode()`, over the UTF-16 code units. */
  function JavaHashCode(s: string): int {
    PolyHash(Utf16Units(s))
  }

  /** A `char` read from a byte where `char` is signed (x86-64 Linux). */
  function SignedChar(b: byte): (c: int)
    ensures -128 <= c < 128
    ensures (c - b) % 256 == 0
  {
    if b < 128 then b else b - 256
  }

  /**
   * The relay's `hash(str)`, over the bytes of the C string, assuming that
   * `char` is signed and that signed overflow wraps (C leaves the first to
   * the implementation and the second undefined).
   */
  function CHash(bs: seq<byte>): (h: int)
    ensures IsInt32(h)
  {
    if bs == [] then 0 else Wrap32(31 * CHash(bs[..|bs| - 1]) + SignedChar(bs[|bs| - 1]))
  }

  /** On bytes below 0x80 a signed `char` is the byte itself, so the two hashes coincide. */
  lemma {:induction false} CHashOfAsciiBytes(bs: seq<byte>)
    requires IsAsciiBytes(bs)
    ensures CHash(bs) == PolyHash(bs)
    decreases |bs|
  {
    if bs != [] {
      assert IsAsciiBytes(bs[..|bs| - 1]);
      CHashOfAsciiBytes(bs[..|bs| - 1]);
    }
  }

  /** For ASCII names the relay's hash is Java's `hashCode`. */
  lemma HashesAgreeOnAscii(s: string)
    requires IsAscii(s)
    ensures CHash(Utf8Encode(s)) == JavaHashCode(s)
  {
    AsciiUtf16(s);
    AsciiEncode(s);
    CHashOfAsciiBytes(Utf8Encode(s));
  }

  // ---- base 36 ----

  /** Kotlin `Int.toString(36)` of a non-negative value: no leading zeros. */
  function Radix36(n: nat): (r: string)
    ensures |r| >= 1
    decreases n
  {
    if n < 36 then [Digit36(n)] else Radix36(n / 36) + [Digit36(n % 36)]
  }

  /** Kotlin `Int.toString(36)`: a '-' before the digits of a negative value. */
  function ToString36(n: int): string {
    if n < 0 then "-" + Radix36(-n) else Radix36(n)
  }

  /** The daemon's hash string: `toString(36).padStart(6, '0').takeLast(6)`. */
  function HashString(n: int): (r: string)
    ensures |r| == 6
  {
    TakeLast(PadStart(ToString36(n), 6, '0'), 6)
  }

  /** The lowest `k` base-36 digits of `n`, most significant first, zero-filled. */
  function LowDigits36(n: nat, k: nat): (r: string)
    ensures |r| == k
  {
    if k == 0 then [] else LowDigits36(n / 36, k - 1) + [Digit36(n % 36)]
  }

  lemma {:induction false} LowDigitsOfZero(k: nat)
    ensures LowDigits36(0, k) == Repeat('0', k)
  {
    if k > 0 {
      LowDigitsOfZero(k - 1);
      assert Repeat('0', k) == Repeat('0', k - 1) + ['0'];
    }
  }

  lemma PadTakeSnoc(x: string, d: char, k: nat)
    requires k >= 1
    ensures TakeLast(PadStart(x + [d], k, '0'), k) == TakeLast(PadStart(x, k - 1, '0'), k - 1) + [d]
  {
    var y := PadStart(x, k - 1, '0');
    assert PadStart(x + [d], k, '0') == y + [d] by {
      if |x| + 1 < k {
        assert Repeat('0', k - |x| - 1) == Repeat('0', k - 1 - |x|);
      }
    }
  }

  lemma PaddedSingleDigit(n: nat, k: nat)
    requires n < 36 && k >= 1
    ensures TakeLast(PadStart(Radix36(n), k, '0'), k) == LowDigits36(n, k)
  {
    var d := [Digit36(n)];
    assert Radix36(n) == d;
    var p := PadStart(d, k, '0');
    assert p == Repeat('0', k - 1) + d by {
      if k == 1 {
        assert Repeat('0', 0) == [];
      }
    }
    assert TakeLast(p, k) == p;
    assert n / 36 == 0 && n % 36 == n;
    assert LowDigits36(n, k) == LowDigits36(0, k - 1) + d;
    LowDigitsOfZero(k - 1);
  }

  lemma {:induction false} PaddedRadix(n: nat, k: nat)
    ensures TakeLast(PadStart(Radix36(n), k, '0'), k) == LowDigits36(n, k)
    decreases k
  {
    if k == 0 {
    } else if n < 36 {
      PaddedSingleDigit(n, k);
    } else {
      PaddedRadix(n / 36, k - 1);
      PaddedRadixStep(n, k);
    }
  }

  lemma PaddedRadixStep(n: nat, k: nat)
    requires n >= 36 && k >= 1
    requires TakeLast(PadStart(Radix36(n / 36), k - 1, '0'), k - 1) == LowDigits36(n / 36, k - 1)
    ensures TakeLast(PadStart(Radix36(n), k, '0'), k) == LowDigits36(n, k)
  {
    var d := Digit36(n % 36);
    assert Radix36(n) == Radix36(n / 36) + [d];
    assert LowDigits36(n, k) == LowDigits36(n / 36, k - 1) + [d];
    PadTakeSnoc(Radix36(n / 36), d, k);
  }

  /** For a non-negative hash, the daemon's hash string is the lowest six base-36 digits. */
  lemma HashStringIsLowDigits(n: nat)
    ensures HashString(n) == LowDigits36(n, 6)
  {
    PaddedRadix(n, 6);
  }

  // ---- the daemon's short name ----

  /** Kotlin `take(k)` on a byte array. */
  function Take(bs: seq<byte>, k: nat): (r: seq<byte>)
    ensures |r| == if |bs| < k then |bs| else k
  {
    if |bs| < k then bs else bs[..k]
  }

  /** The script name the daemon indexes: the file name without `.cgi.kts`. */
  function BaseFileName(fileName: string): string {
    RemoveSuffix(fileName, ScriptSuffix)
  }

  /**
   * The daemon's short name of a base name: the name itself when shorter than
   * 16 UTF-16 units; otherwise its first 9 UTF-8 bytes (decoded), U+0001 and
   * the 6-character hash string.
   */
  function DaemonShortName(base: string): (r: string)
    ensures |Utf16Units(base)| < 16 ==> r == base
    ensures |Utf16Units(base)| >= 16 ==> EndsWith(r, [Separator] + HashString(JavaHashCode(base)))
  {
    if |Utf16Units(base)| < 16 then base
    else
      var prefix := Utf8Decode(Take(Utf8Encode(base), 9));
      var tail := [Separator] + HashString(JavaHashCode(base));
      assert (prefix + tail)[|prefix|..] == tail;
      prefix + tail
  }

  /** An ASCII base name of 16 or more characters: 9 characters, U+0001, the 6-digit hash; 16 in all. */
  lemma LongAsciiShortName(base: string)
    requires IsAscii(base) && |base| >= 16
    ensures DaemonShortName(base) == base[..9] + [Separator] + HashString(JavaHashCode(base))
    ensures |DaemonShortName(base)| == 16
  {
    AsciiUtf16(base);
    AsciiEncode(base);
    assert |Utf16Units(base)| >= 16;
    AsciiPrefixDecodes(base, 9);
  }

  /** The first `k` bytes of an ASCII string decode to its first `k` characters. */
  lemma AsciiPrefixDecodes(s: string, k: nat)
    requires IsAscii(s) && k <= |s|
    ensures Utf8Decode(Take(Utf8Encode(s), k)) == s[..k]
  {
    AsciiEncode(s);
    var prefix := Take(Utf8Encode(s), k);
    assert IsAsciiBytes(prefix);
    AsciiDecode(prefix);
    var d := Utf8Decode(prefix);
    assert |d| == k;
    forall i | 0 <= i < k ensures d[i] == s[i] {
      assert d[i] as int == prefix[i] == s[i] as int;
    }
  }

  // ---- the relay's short name (specification of generate_short_name) ----

  function Zeros(n: nat): (r: seq<byte>)
    ensures |r| == n && forall i :: 0 <= i < n ==> r[i] == 0
  {
    if n == 0 then [] else [0] + Zeros(n - 1)
  }

  /** The bytes of an ASCII string. */
  function AsciiBytes(s: string): (bs: seq<byte>)
    requires IsAscii(s)
    ensures |bs| == |s| && forall i :: 0 <= i < |s| ==> bs[i] == s[i] as int
  {
    seq(|s|, i requires 0 <= i < |s| => s[i] as int)
  }

  lemma Base36AlphabetIsAscii()
    ensures IsAscii(Base36Alphabet)
  {
  }

  lemma {:induction false} LowDigitsAscii(n: nat, k: nat)
    ensures IsAscii(LowDigits36(n, k))
    ensures forall i :: 0 <= i < k ==> IsDigit36(LowDigits36(n, k)[i])
  {
    if k > 0 {
      LowDigitsAscii(n / 36, k - 1);
    }
  }

  /**
   * The 17 bytes `generate_short_name` produces for a file name (the C
   * string's bytes): the name zero-padded when it has at most 16 bytes;
   * otherwise 9 name bytes, 0x01, the base-36 hash and a 0. `None` when the
   * hash is negative: base36 then indexes before its alphabet, which C leaves
   * undefined.
   */
  function CShortName(name: seq<byte>): (r: Option<seq<byte>>)
    ensures r.Some? ==> |r.value| == 17
    ensures r.None? <==> |name| > 16 && CHash(name) < 0
  {
    if |name| <= 16 then Some(name + Zeros(17 - |name|))
    else if CHash(name) < 0 then None
    else
      LowDigitsAscii(CHash(name), 6);
      Some(name[..9] + [1] + AsciiBytes(LowDigits36(CHash(name), 6)) + [0])
  }

  /** Kotlin `dropLastWhile { it == 0 }`. */
  function DropTrailingZeros(bs: seq<byte>): (r: seq<byte>)
    ensures |r| <= |bs| && r == bs[..|r|]
    ensures r == [] || r[|r| - 1] != 0
    ensures forall i :: |r| <= i < |bs| ==> bs[i] == 0
  {
    if bs == [] || bs[|bs| - 1] != 0 then bs else DropTrailingZeros(bs[..|bs| - 1])
  }

  lemma {:induction false} DropZerosPadding(bs: seq<byte>, n: nat)
    requires bs == [] || bs[|bs| - 1] != 0
    ensures DropTrailingZeros(bs + Zeros(n)) == bs
    decreases n
  {
    var x := bs + Zeros(n);
    if n == 0 {
      assert x == bs;
    } else {
      assert x[|x| - 1] == 0;
      assert x[..|x| - 1] == bs + Zeros(n - 1);
      DropZerosPadding(bs, n - 1);
    }
  }

  predicate IsFileNameText(s: string) {
    IsAscii(s) && '\0' !in s
  }

  /** What the daemon makes of the 17 bytes the relay sends: trailing zeros dropped, decoded. */
  function ReceivedName(sent: seq<byte>): string {
    Utf8Decode(DropTrailingZeros(sent))
  }

  lemma AsciiNoNul(s: string)
    requires IsFileNameText(s)
    ensures forall i :: 0 <= i < |Utf8Encode(s)| ==> Utf8Encode(s)[i] != 0
  {
    AsciiEncode(s);
    forall i | 0 <= i < |s| ensures Utf8Encode(s)[i] != 0 {
      assert s[i] != '\0';
    }
  }

  /** The relay's 17 bytes for a name of at most 16 bytes, as the daemon reads them: the name itself. */
  lemma ReceivedShortName(bs: seq<byte>)
    requires |bs| <= 16 && (bs == [] || bs[|bs| - 1] != 0)
    ensures CShortName(bs) == Some(bs + Zeros(17 - |bs|))
    ensures DropTrailingZeros(CShortName(bs).value) == bs
  {
    var padded := bs + Zeros(17 - |bs|);
    DropZerosPadding(bs, 17 - |bs|);
    CShortNameOfShort(bs);
  }

  lemma CShortNameOfShort(bs: seq<byte>)
    requires |bs| <= 16
    ensures CShortName(bs) == Some(bs + Zeros(17 - |bs|))
  {
  }

  lemma CShortNameOfLong(bs: seq<byte>)
    requires |bs| > 16 && CHash(bs) >= 0
    ensures IsAscii(LowDigits36(CHash(bs), 6))
    ensures CShortName(bs) == Some(bs[..9] + [1] + AsciiBytes(LowDigits36(CHash(bs), 6)) + [0])
  {
    LowDigitsAscii(CHash(bs), 6);
  }

  lemma ShortNamesAgreeShort(base: string)
    requires IsFileNameText(base) && |base| < 16
    ensures CShortName(Utf8Encode(base)).Some?
    ensures ReceivedName(CShortName(Utf8Encode(base)).value) == DaemonShortName(base)
  {
    var bs := Utf8Encode(base);
    AsciiEncode(base);
    AsciiNoNul(base);
    assert bs == [] || bs[|bs| - 1] != 0;
    ReceivedShortName(bs);
    DecodeEncode(base);
    AsciiUtf16(base);
    assert DaemonShortName(base) == base;
  }

  lemma ShortNamesAgreeLong(base: string)
    requires IsFileNameText(base) && |base| > 16 && JavaHashCode(base) >= 0
    ensures CShortName(Utf8Encode(base)).Some?
    ensures ReceivedName(CShortName(Utf8Encode(base)).value) == DaemonShortName(base)
  {
    var bs := Utf8Encode(base);
    AsciiEncode(base);
    HashesAgreeOnAscii(base);
    var h := JavaHashCode(base);
    LowDigitsAscii(h, 6);
    var digits := LowDigits36(h, 6);
    var body := bs[..9] + [1] + AsciiBytes(digits);
    ReceivedLongName(bs, digits);
    var expected := base[..9] + [Separator] + digits;
    EncodeLongName(base, digits);
    DecodeEncode(expected);
    LongAsciiShortName(base);
    HashStringIsLowDigits(h);
  }

  /** The relay's 17 bytes for a long name, as the daemon reads them: the name without its final 0. */
  lemma ReceivedLongName(bs: seq<byte>, digits: string)
    requires |bs| > 16 && CHash(bs) >= 0 && digits == LowDigits36(CHash(bs), 6)
    requires IsAscii(digits)
    ensures CShortName(bs).Some?
    ensures DropTrailingZeros(CShortName(bs).value) == bs[..9] + [1] + AsciiBytes(digits)
  {
    var body := bs[..9] + [1] + AsciiBytes(digits);
    assert CShortName(bs).value == body + [0];
    LowDigitsAscii(CHash(bs), 6);
    assert body[|body| - 1] == digits[5] as int && IsDigit36(digits[5]);
    DropOneZero(body);
  }

  /** Of a body ending in a nonzero byte, dropping trailing zeros removes only an appended 0. */
  lemma DropOneZero(body: seq<byte>)
    requires |body| >= 1 && body[|body| - 1] != 0
    ensures DropTrailingZeros(body + [0]) == body
  {
    assert Zeros(1) == [0];
    DropZerosPadding(body, 1);
  }

  lemma EncodeLongName(base: string, digits: string)
    requires IsAscii(base) && |base| >= 9 && IsAscii(digits)
    ensures Utf8Encode(base[..9] + [Separator] + digits) == Utf8Encode(base)[..9] + [1] + AsciiBytes(digits)
  {
    var e := base[..9] + [Separator] + digits;
    AsciiExpected(base, digits);
    AsciiEncode(e);
    AsciiEncode(base);
    var body := Utf8Encode(base)[..9] + [1] + AsciiBytes(digits);
    assert |Utf8Encode(e)| == |body|;
    forall i | 0 <= i < |body| ensures Utf8Encode(e)[i] == body[i] {
      if i >= 10 { assert e[i] == digits[i - 10]; }
      else if i < 9 { assert e[i] == base[i]; }
    }
  }

  lemma AsciiExpected(base: string, digits: string)
    requires IsAscii(base) && |base| >= 9 && IsAscii(digits)
    ensures IsAscii(base[..9] + [Separator] + digits)
  {
    var e := base[..9] + [Separator] + digits;
    forall i | 0 <= i < |e| ensures (e[i] as int) < 0x80 {
      if i >= 10 { assert e[i] == digits[i - 10]; }
      else if i < 9 { assert e[i] == base[i]; }
    }
  }

  /**
   * The two ends agree on every ASCII name other than those of exactly 16
   * bytes, provided the hash of a long name is not negative.
   */
  lemma ShortNamesAgree(base: string)
    requires IsFileNameText(base) && |base| != 16
    requires |base| > 16 ==> JavaHashCode(base) >= 0
    ensures CShortName(Utf8Encode(base)).Some?
    ensures ReceivedName(CShortName(Utf8Encode(base)).value) == DaemonShortName(base)
  {
    if |base| < 16 {
      ShortNamesAgreeShort(base);
    } else {
      ShortNamesAgreeLong(base);
    }
  }

  /**
   * A 16-byte name is where the ends part ways: the relay sends it verbatim
   * (`<= 16`), while the daemon files it under its hashed form (`< 16`), so
   * the lookup cannot find it.
   */
  lemma SixteenByteNamesDisagree(base: string)
    requires IsFileNameText(base) && |base| == 16 && base[9] != Separator
    ensures CShortName(Utf8Encode(base)) == Some(Utf8Encode(base) + [0])
    ensures ReceivedName(CShortName(Utf8Encode(base)).value) == base
    ensures DaemonShortName(base) != base
  {
    SixteenBytesKept(base);
    LongAsciiShortName(base);
    assert DaemonShortName(base)[9] == Separator;
  }

  /** The relay passes a 16-byte name through unchanged, and the daemon reads it back as it was. */
  lemma SixteenBytesKept(base: string)
    requires IsFileNameText(base) && |base| == 16
    ensures CShortName(Utf8Encode(base)) == Some(Utf8Encode(base) + [0])
    ensures ReceivedName(CShortName(Utf8Encode(base)).value) == base
  {
    var bs := Utf8Encode(base);
    AsciiEncode(base);
    AsciiNoNul(base);
    assert bs[|bs| - 1] != 0;
    ReceivedShortName(bs);
    assert Zeros(1) == [0];
    DecodeEncode(base);
  }

  // ---- the relay's short name as evidently intended ----

  lemma {:induction false} Radix36Digits(n: nat)
    ensures forall i :: 0 <= i < |Radix36(n)| ==> IsDigit36(Radix36(n)[i])
    decreases n
  {
    if n >= 36 {
      Radix36Digits(n / 36);
      var r := Radix36(n);
      assert r == Radix36(n / 36) + [Digit36(n % 36)];
    }
  }

  predicate IsHashChar(c: char) {
    IsDigit36(c) || c == '-'
  }

  lemma ToString36Characters(n: int)
    ensures forall i :: 0 <= i < |ToString36(n)| ==> IsHashChar(ToString36(n)[i])
  {
    var t := ToString36(n);
    if n < 0 {
      Radix36Digits(-n);
      forall i | 0 <= i < |t| ensures IsHashChar(t[i]) {
        if i > 0 { assert t[i] == Radix36(-n)[i - 1]; }
      }
    } else {
      Radix36Digits(n);
    }
  }

  lemma PaddedCharacters(t: string)
    requires forall i :: 0 <= i < |t| ==> IsHashChar(t[i])
    ensures forall i :: 0 <= i < 6 ==> IsHashChar(TakeLast(PadStart(t, 6, '0'), 6)[i])
  {
    var p := PadStart(t, 6, '0');
    forall i | 0 <= i < |p| ensures IsHashChar(p[i]) {
      if i >= |p| - |t| {
        assert p[i] == t[i - (|p| - |t|)];
      }
    }
    var h := TakeLast(p, 6);
    forall i | 0 <= i < 6 ensures IsHashChar(h[i]) {
      assert h[i] == p[|p| - 6 + i];
    }
  }

  /** Every character of a hash string is a base-36 digit or '-': ASCII, never NUL. */
  lemma HashStringCharacters(n: int)
    ensures forall i :: 0 <= i < 6 ==> IsHashChar(HashString(n)[i])
    ensures IsAscii(HashString(n)) && '\0' !in HashString(n)
  {
    ToString36Characters(n);
    PaddedCharacters(ToString36(n));
    HashCharsAreText(HashString(n));
  }

  lemma HashCharsAreText(h: string)
    requires forall i :: 0 <= i < |h| ==> IsHashChar(h[i])
    ensures IsAscii(h) && '\0' !in h
  {
  }

  /**
   * `generate_short_name` as evidently intended: the daemon's rule (names
   * under 16 bytes verbatim) and the daemon's hash string, whose sign the
   * relay's base36 cannot render.
   */
  function CShortNameCorrected(name: seq<byte>): (r: seq<byte>)
    ensures |r| == 17
  {
    if |name| < 16 then name + Zeros(17 - |name|)
    else
      HashStringCharacters(CHash(name));
      name[..9] + [1] + AsciiBytes(HashString(CHash(name))) + [0]
  }

  /** On a non-negative hash the correction changes nothing for names of 17 bytes or more. */
  lemma CorrectionKeepsLongNames(name: seq<byte>)
    requires |name| > 16 && CHash(name) >= 0
    ensures CShortName(name) == Some(CShortNameCorrected(name))
  {
    HashStringIsLowDigits(CHash(name));
  }

  /** The corrected 17 bytes for a long name, as the daemon reads them. */
  lemma ReceivedCorrectedName(bs: seq<byte>)
    requires |bs| >= 16
    ensures IsAscii(HashString(CHash(bs)))
    ensures DropTrailingZeros(CShortNameCorrected(bs)) == bs[..9] + [1] + AsciiBytes(HashString(CHash(bs)))
  {
    var n := CHash(bs);
    var digits := HashString(n);
    HashStringCharacters(n);
    var body := bs[..9] + [1] + AsciiBytes(digits);
    CorrectedOfLong(bs);
    AsciiTailNonzero(bs[..9] + [1], digits);
    DropOneZero(body);
  }

  lemma CorrectedOfLong(bs: seq<byte>)
    requires |bs| >= 16
    ensures IsAscii(HashString(CHash(bs)))
    ensures CShortNameCorrected(bs) == bs[..9] + [1] + AsciiBytes(HashString(CHash(bs))) + [0]
  {
    HashStringCharacters(CHash(bs));
  }

  /** Bytes ending in the code of a character other than NUL end in a nonzero byte. */
  lemma AsciiTailNonzero(prefix: seq<byte>, s: string)
    requires IsAscii(s) && |s| >= 1 && s[|s| - 1] != '\0'
    ensures var bs := prefix + AsciiBytes(s); bs[|bs| - 1] != 0
  {
    var bs := prefix + AsciiBytes(s);
    assert bs[|bs| - 1] == AsciiBytes(s)[|s| - 1] == s[|s| - 1] as int;
  }

  /** With the correction the two ends agree on every ASCII file name. */
  lemma CorrectedShortNamesAgree(base: string)
    requires IsFileNameText(base)
    ensures ReceivedName(CShortNameCorrected(Utf8Encode(base))) == DaemonShortName(base)
  {
    var bs := Utf8Encode(base);
    AsciiEncode(base);
    if |base| < 16 {
      ShortNamesAgreeShort(base);
    } else {
      HashesAgreeOnAscii(base);
      var digits := HashString(JavaHashCode(base));
      ReceivedCorrectedName(bs);
      EncodeLongName(base, digits);
      DecodeEncode(base[..9] + [Separator] + digits);
      LongAsciiShortName(base);
    }
  }

  /**
   * A long name whose hash is negative has a short name at the daemon but
   * none at the relay: base36 indexes before its alphabet.
   */
  lemma NegativeHashUnnamed(base: string)
    requires IsFileNameText(base) && |base| > 16 && JavaHashCode(base) < 0
    ensures CShortName(Utf8Encode(base)).None?
    ensures |DaemonShortName(base)| == 16
  {
    AsciiEncode(base);
    HashesAgreeOnAscii(base);
    LongAsciiShortName(base);
  }
}
