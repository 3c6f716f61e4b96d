/**
 * The Kotlin standard-library string operations the core relies on
 * (`removeSuffix`, `padStart`, `takeLast`, `split`, `joinToString`,
 * `substringAfterLast`, `isBlank`, `Int.toString()`), stated over
 * Dafny strings, each with the property that pins it down.
 */
module Text {
  import opened Wrappers

  predicate StartsWith(s: string, prefix: string) {
    |prefix| <= |s| && s[..|prefix|] == prefix
  }

  predicate EndsWith(s: string, suffix: string) {
    |suffix| <= |s| && s[|s| - |suffix|..] == suffix
  }

  /** Kotlin `removeSuffix`: drops the suffix only when it is there. */
  function RemoveSuffix(s: string, suffix: string): (r: string)
    ensures EndsWith(s, suffix) ==> r + suffix == s
    ensures !EndsWith(s, suffix) ==> r == s
  {
    if EndsWith(s, suffix) then s[..|s| - |suffix|] else s
  }

  function Repeat(c: char, n: nat): (r: string)
    ensures |r| == n
    ensures forall i :: 0 <= i < n ==> r[i] == c
  {
    if n == 0 then [] else [c] + Repeat(c, n - 1)
  }

  /** Kotlin `padStart(n, c)`: prepends `c` until the length is at least `n`. */
  function PadStart(s: string, n: nat, c: char): (r: string)
    ensures |r| == if |s| < n then n else |s|
    ensures EndsWith(r, s)
    ensures forall i :: 0 <= i < |r| - |s| ==> r[i] == c
  {
    if |s| < n then Repeat(c, n - |s|) + s else s
  }

  /** Kotlin `takeLast(n)`: the last `n` characters, or all of them. */
  function TakeLast(s: string, n: nat): (r: string)
    ensures |r| == if |s| < n then |s| else n
    ensures EndsWith(s, r)
  {
    if |s| < n then s else s[|s| - n..]
  }

  /** Kotlin `replace(a, b)` on characters. */
  function ReplaceChar(s: string, a: char, b: char): (r: string)
    ensures |r| == |s|
    ensures forall i :: 0 <= i < |s| ==> r[i] == (if s[i] == a then b else s[i])
  {
    if s == [] then [] else [if s[0] == a then b else s[0]] + ReplaceChar(s[1..], a, b)
  }

  /** Index of the first occurrence of `d`. */
  function IndexOf<T(==)>(s: seq<T>, d: T): (i: nat)
    requires d in s
    ensures i < |s| && s[i] == d && d !in s[..i]
  {
    if s[0] == d then 0
    else
      var j := IndexOf(s[1..], d);
      assert s[..j + 1] == [s[0]] + s[1..][..j];
      j + 1
  }

  /** Index of the last occurrence of `d`. */
  function LastIndexOf<T(==)>(s: seq<T>, d: T): (i: nat)
    requires d in s
    ensures i < |s| && s[i] == d && d !in s[i + 1..]
  {
    if s[|s| - 1] == d then |s| - 1
    else
      var prefix := s[..|s| - 1];
      assert d in prefix by {
        var k :| 0 <= k < |s| && s[k] == d;
        assert k < |s| - 1 && prefix[k] == d;
      }
      var j := LastIndexOf(prefix, d);
      assert s[j + 1..] == prefix[j + 1..] + [s[|s| - 1]];
      j
  }

  /** The first occurrence is the one with none before it. */
  lemma IndexOfIsFirst<T>(s: seq<T>, d: T, k: nat)
    requires k < |s| && s[k] == d && d !in s[..k]
    ensures IndexOf(s, d) == k
  {
  }

  /** Number of occurrences of `d`. */
  function Count(s: string, d: char): nat {
    if s == [] then 0 else (if s[0] == d then 1 else 0) + Count(s[1..], d)
  }

  /**
   * Kotlin `split(d)` with a one-character delimiter: every piece,
   * including empty ones at either end.
   */
  function Split(s: string, d: char): (parts: seq<string>)
    ensures |parts| >= 1
    ensures forall i :: 0 <= i < |parts| ==> d !in parts[i]
    decreases |s|
  {
    if d !in s then [s]
    else
      var i := IndexOf(s, d);
      [s[..i]] + Split(s[i + 1..], d)
  }

  /** Kotlin `joinToString(sep)`. */
  function Join(parts: seq<string>, sep: string): string {
    if |parts| == 0 then []
    else if |parts| == 1 then parts[0]
    else parts[0] + sep + Join(parts[1..], sep)
  }

  /** Splitting `a`, the delimiter, then `b`, where `a` holds no delimiter: `a` comes off first. */
  lemma SplitOfPrefix(a: string, d: char, b: string)
    requires d !in a
    ensures Split(a + [d] + b, d) == [a] + Split(b, d)
  {
    var s := a + [d] + b;
    assert s[|a|] == d && s[..|a|] == a;
    IndexOfIsFirst(s, d, |a|);
    assert s[|a| + 1..] == b;
  }

  /** `joinToString` then `split` with a delimiter no piece holds gives the pieces back. */
  lemma {:induction false} SplitOfJoin(parts: seq<string>, d: char)
    requires |parts| >= 1
    requires forall i | 0 <= i < |parts| :: d !in parts[i]
    ensures Split(Join(parts, [d]), d) == parts
    decreases |parts|
  {
    var first := parts[0];
    assert d !in first;
    if |parts| == 1 {
      assert Join(parts, [d]) == first;
      assert Split(first, d) == [first];
    } else {
      var rest := parts[1..];
      forall i | 0 <= i < |rest|
        ensures d !in rest[i]
      {
        assert rest[i] == parts[i + 1];
      }
      SplitOfJoin(rest, d);
      assert Join(parts, [d]) == first + [d] + Join(rest, [d]);
      SplitOfPrefix(first, d, Join(rest, [d]));
      assert parts == [first] + rest;
    }
  }

  lemma {:induction false} CountSplit(s: string, d: char, i: nat)
    requires i <= |s| && d !in s[..i]
    ensures Count(s, d) == Count(s[i..], d)
    decreases i
  {
    if i > 0 {
      assert s[0] != d by { assert s[0] == s[..i][0]; }
      assert s[1..][..i - 1] == s[..i][1..];
      assert d !in s[1..][..i - 1];
      CountSplit(s[1..], d, i - 1);
      assert s[1..][i - 1..] == s[i..];
    }
  }

  /** `split` undone by `joinToString` with the same delimiter. */
  lemma {:induction false} SplitJoin(s: string, d: char)
    ensures Join(Split(s, d), [d]) == s
    decreases |s|
  {
    if d in s {
      var i := IndexOf(s, d);
      var head, tail := s[..i], s[i + 1..];
      var rest := Split(tail, d);
      assert Split(s, d) == [head] + rest;
      SplitJoin(tail, d);
      assert ([head] + rest)[1..] == rest;
      assert s == head + [d] + tail;
    }
  }

  /** `split` yields one piece more than there are delimiters. */
  lemma {:induction false} SplitCount(s: string, d: char)
    ensures |Split(s, d)| == Count(s, d) + 1
    decreases |s|
  {
    if d !in s {
      CountAbsent(s, d);
    } else {
      var i := IndexOf(s, d);
      var tail := s[i + 1..];
      SplitCount(tail, d);
      CountSplit(s, d, i);
      assert s[i..][1..] == tail;
    }
  }

  lemma {:induction false} CountAbsent(s: string, d: char)
    requires d !in s
    ensures Count(s, d) == 0
    decreases |s|
  {
    if s != [] {
      assert d !in s[1..] by { forall k | 0 <= k < |s| - 1 ensures s[1..][k] != d { assert s[1..][k] == s[k + 1]; } }
      CountAbsent(s[1..], d);
    }
  }

  /** Kotlin `substringAfterLast(d)`; the whole string when `d` does not occur. */
  function SubstringAfterLast(s: string, d: char): (r: string)
    ensures d !in r
    ensures EndsWith(s, r)
    ensures d in s ==> |r| < |s| && s[|s| - |r| - 1] == d
  {
    if d in s then s[LastIndexOf(s, d) + 1..] else s
  }

  /** Kotlin `Char.isWhitespace()` on the JVM: `Character.isWhitespace` or `Character.isSpaceChar`. */
  predicate IsWhitespace(c: char) {
    c == '\t' || c == '\n' || c == '\U{000B}' || c == '\U{000C}' || c == '\r'
    || ('\U{001C}' <= c <= '\U{001F}') || c == ' ' || c == '\U{00A0}' || c == '\U{1680}'
    || ('\U{2000}' <= c <= '\U{200A}') || c == '\U{2028}' || c == '\U{2029}'
    || c == '\U{202F}' || c == '\U{205F}' || c == '\U{3000}'
  }

  /** Kotlin `isBlank()`: empty or whitespace only. */
  predicate IsBlank(s: string) {
    forall i :: 0 <= i < |s| ==> IsWhitespace(s[i])
  }

  // ---- decimal rendering, as `Int.toString()` / string templates do ----

  predicate IsDigit(c: char) {
    '0' <= c <= '9'
  }

  predicate IsDigits(s: string) {
    forall i :: 0 <= i < |s| ==> IsDigit(s[i])
  }

  function DigitChar(d: nat): (c: char)
    requires d < 10
    ensures IsDigit(c) && (c as int) - ('0' as int) == d
  {
    (('0' as int) + d) as char
  }

  /** The decimal digits of `n`, without leading zeros. */
  function NatToDecimal(n: nat): (r: string)
    ensures |r| >= 1 && IsDigits(r)
    ensures r[0] == '0' ==> n == 0
    decreases n
  {
    if n < 10 then [DigitChar(n)] else NatToDecimal(n / 10) + [DigitChar(n % 10)]
  }

  /** Kotlin's decimal rendering of an integer, with a leading '-' when negative. */
  function IntToDecimal(n: int): string {
    if n < 0 then "-" + NatToDecimal(-n) else NatToDecimal(n)
  }

  /** Decimal text is made of digits and, at most in front, a minus sign. */
  lemma IntToDecimalChars(n: int)
    ensures forall i | 0 <= i < |IntToDecimal(n)| :: IsDigit(IntToDecimal(n)[i]) || IntToDecimal(n)[i] == '-'
  {
    var d := IntToDecimal(n);
    forall i | 0 <= i < |d| ensures IsDigit(d[i]) || d[i] == '-' {
      if n < 0 && i > 0 {
        assert d[i] == NatToDecimal(-n)[i - 1];
      }
    }
  }

  /** The text after the last `d` of `p + [d] + q`, when `q` holds no `d`, is `q`. */
  lemma SubstringAfterLastOf(p: string, d: char, q: string)
    requires d !in q
    ensures SubstringAfterLast(p + [d] + q, d) == q
  {
    var s := p + [d] + q;
    assert s[|p|] == d;
    var i := LastIndexOf(s, d);
    assert forall k | |p| < k < |s| :: s[k] == q[k - |p| - 1];
    assert i >= |p| by {
      assert forall k | i < k < |s| :: s[k] != d by {
        forall k | i < k < |s| ensures s[k] != d { assert s[i + 1..][k - i - 1] == s[k]; }
      }
    }
    assert s[|p| + 1..] == q;
  }

  /** The value a string of decimal digits denotes. */
  function DigitsValue(s: string): nat
    requires IsDigits(s)
  {
    if s == [] then 0
    else DigitsValue(s[..|s| - 1]) * 10 + ((s[|s| - 1] as int) - ('0' as int))
  }

  /** Reads back an optionally signed decimal integer. */
  function ParseDecimal(s: string): Option<int> {
    if |s| >= 2 && s[0] == '-' && IsDigits(s[1..]) then
      var v: int := DigitsValue(s[1..]);
      Some(-v)
    else if |s| >= 1 && IsDigits(s) then Some(DigitsValue(s))
    else None
  }

  lemma {:induction false} NatToDecimalValue(n: nat)
    ensures DigitsValue(NatToDecimal(n)) == n
    decreases n
  {
    if n >= 10 {
      NatToDecimalValue(n / 10);
      var r := NatToDecimal(n);
      assert r[..|r| - 1] == NatToDecimal(n / 10);
    }
  }

  /** Every integer's decimal text reads back as that integer. */
  lemma DecimalRoundTrip(n: int)
    ensures ParseDecimal(IntToDecimal(n)) == Some(n)
  {
    if n < 0 {
      NatToDecimalValue(-n);
      assert IntToDecimal(n)[1..] == NatToDecimal(-n);
    } else {
      NatToDecimalValue(n);
      assert NatToDecimal(n)[0] != '-';
    }
  }
}
