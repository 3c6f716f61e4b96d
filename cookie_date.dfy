/**
 * The Expires date of a Set-Cookie value (ResponseBuilding.kt,
 * `cookieDateTimeFormat`) and how a user agent reads such a date back: the
 * cookie-date algorithm of section 5.1.1 of RFC 6265. The format as written
 * puts no separator around the month name; the IMF-fixdate of section 5.6.7
 * of RFC 9110 is the layout it evidently means.
 */
module CookieDates {
  import opened Wrappers
  import opened Text

  datatype Weekday = Mon | Tue | Wed | Thu | Fri | Sat | Sun

  datatype Month = Jan | Feb | Mar | Apr | May | Jun | Jul | Aug | Sep | Oct | Nov | Dec

  /** The UTC calendar fields of an `Instant`; its weekday is taken as given. */
  datatype DateTime = DateTime(weekday: Weekday, day: int, month: Month, year: int, hour: int, minute: int, second: int)

  predicate IsLeapYear(y: int) {
    y % 4 == 0 && (y % 100 != 0 || y % 400 == 0)
  }

  function DaysIn(m: Month, y: int): nat {
    match m
    case Feb => if IsLeapYear(y) then 29 else 28
    case Apr | Jun | Sep | Nov => 30
    case _ => 31
  }

  /** The fields of an instant between the years 0 and 9999: a calendar day that exists and a time of day. */
  predicate Valid(d: DateTime) {
    0 <= d.year <= 9999 && 1 <= d.day <= DaysIn(d.month, d.year)
    && 0 <= d.hour < 24 && 0 <= d.minute < 60 && 0 <= d.second < 60
  }

  /** `DayOfWeekNames.ENGLISH_ABBREVIATED` */
  function DayName(w: Weekday): string {
    match w
    case Mon => "Mon"
    case Tue => "Tue"
    case Wed => "Wed"
    case Thu => "Thu"
    case Fri => "Fri"
    case Sat => "Sat"
    case Sun => "Sun"
  }

  /** `MonthNames.ENGLISH_ABBREVIATED` */
  function MonthName(m: Month): string {
    match m
    case Jan => "Jan"
    case Feb => "Feb"
    case Mar => "Mar"
    case Apr => "Apr"
    case May => "May"
    case Jun => "Jun"
    case Jul => "Jul"
    case Aug => "Aug"
    case Sep => "Sep"
    case Oct => "Oct"
    case Nov => "Nov"
    case Dec => "Dec"
  }

  /** A field zero-padded to two digits (`Padding.ZERO`, the default of `dayOfMonth`, `hour`, `minute`, `second`). */
  function Pad2(n: int): string {
    if 0 <= n < 100 then [DigitChar(n / 10), DigitChar(n % 10)] else IntToDecimal(n)
  }

  /** The year zero-padded to four digits (`year()`). */
  function Pad4(n: int): string {
    if 0 <= n < 10000 then [DigitChar(n / 1000), DigitChar(n / 100 % 10), DigitChar(n / 10 % 10), DigitChar(n % 10)]
    else IntToDecimal(n)
  }

  function TimeText(d: DateTime): string {
    Pad2(d.hour) + ":" + (Pad2(d.minute) + ":" + Pad2(d.second))
  }

  /**
   * `expires.format(cookieDateTimeFormat)` as written: the weekday, ", ",
   * then day, month name and year with nothing between them, then the time
   * and " GMT".
   */
  function CookieDateText(d: DateTime): string {
    DayName(d.weekday) + ", " + (Pad2(d.day) + MonthName(d.month) + Pad4(d.year) + " " + (TimeText(d) + " " + "GMT"))
  }

  /** The IMF-fixdate `Sun, 06 Nov 1994 08:49:37 GMT`: the same fields with a space around the month name. */
  function ImfFixdate(d: DateTime): string {
    DayName(d.weekday) + ", "
      + (Pad2(d.day) + " " + (MonthName(d.month) + " " + (Pad4(d.year) + " " + (TimeText(d) + " " + "GMT"))))
  }

  // ---- the cookie-date algorithm of section 5.1.1 of RFC 6265 ----

  /** `delimiter = %x09 / %x20-2F / %x3B-40 / %x5B-60 / %x7B-7E` */
  predicate IsDelimiter(c: char) {
    c == '\t' || (' ' <= c <= '/') || (';' <= c <= '@') || ('[' <= c <= '`') || ('{' <= c <= '~')
  }

  predicate NoDelimiter(s: string) {
    forall i | 0 <= i < |s| :: !IsDelimiter(s[i])
  }

  predicate AllDelimiters(s: string) {
    forall i | 0 <= i < |s| :: IsDelimiter(s[i])
  }

  /** The length of the run of non-delimiters `s` starts with. */
  function NonDelimiterRun(s: string): (k: nat)
    ensures k <= |s|
    decreases |s|
  {
    if s == [] || IsDelimiter(s[0]) then 0 else 1 + NonDelimiterRun(s[1..])
  }

  /** Step 1: the date-tokens, the maximal runs of non-delimiters, in order. */
  function Tokens(s: string): seq<string>
    decreases |s|
  {
    if s == [] then []
    else if IsDelimiter(s[0]) then Tokens(s[1..])
    else
      var k := NonDelimiterRun(s);
      [s[..k]] + Tokens(s[k..])
  }

  /** The length of the run of digits `s` starts with. */
  function LeadingDigits(s: string): (k: nat)
    ensures k <= |s|
    ensures IsDigits(s[..k])
    decreases |s|
  {
    if s == [] || !IsDigit(s[0]) then 0
    else
      var k := 1 + LeadingDigits(s[1..]);
      assert forall i | 1 <= i < k :: s[..k][i] == s[1..][..k - 1][i - 1];
      k
  }

  /** `time = hms-time [ non-digit *OCTET ]`, `hms-time = time-field ":" time-field ":" time-field`, `time-field = 1*2DIGIT` */
  function MatchTime(t: string): Option<(nat, nat, nat)> {
    var a := LeadingDigits(t);
    if !(1 <= a <= 2 && a < |t| && t[a] == ':') then None
    else
      var t2 := t[a + 1..];
      var b := LeadingDigits(t2);
      if !(1 <= b <= 2 && b < |t2| && t2[b] == ':') then None
      else
        var t3 := t2[b + 1..];
        var c := LeadingDigits(t3);
        if !(1 <= c <= 2) then None
        else Some((DigitsValue(t[..a]), DigitsValue(t2[..b]), DigitsValue(t3[..c])))
  }

  /** `day-of-month = 1*2DIGIT [ non-digit *OCTET ]` */
  function MatchDay(t: string): Option<nat> {
    var k := LeadingDigits(t);
    if 1 <= k <= 2 then Some(DigitsValue(t[..k])) else None
  }

  /** `year = 2*4DIGIT [ non-digit *OCTET ]` */
  function MatchYear(t: string): Option<nat> {
    var k := LeadingDigits(t);
    if 2 <= k <= 4 then Some(DigitsValue(t[..k])) else None
  }

  function LowerAscii(c: char): char {
    if 'A' <= c <= 'Z' then ((c as int) + 32) as char else c
  }

  function MonthOfLowerName(s: string): Option<Month> {
    if s == "jan" then Some(Jan) else if s == "feb" then Some(Feb) else if s == "mar" then Some(Mar)
    else if s == "apr" then Some(Apr) else if s == "may" then Some(May) else if s == "jun" then Some(Jun)
    else if s == "jul" then Some(Jul) else if s == "aug" then Some(Aug) else if s == "sep" then Some(Sep)
    else if s == "oct" then Some(Oct) else if s == "nov" then Some(Nov) else if s == "dec" then Some(Dec)
    else None
  }

  /** `month = ( "jan" / "feb" / ... / "dec" ) *OCTET`, letters compared without case. */
  function MatchMonth(t: string): Option<Month> {
    if |t| < 3 then None else MonthOfLowerName([LowerAscii(t[0]), LowerAscii(t[1]), LowerAscii(t[2])])
  }

  /** The four flags of step 2 with the values found so far. */
  datatype Found = Found(time: Option<(nat, nat, nat)>, day: Option<nat>, month: Option<Month>, year: Option<nat>)

  const NothingFound := Found(None, None, None, None)

  /** Step 2 for one token: the first production, among those not yet found, that the token matches. */
  function Step(f: Found, t: string): Found {
    if f.time.None? && MatchTime(t).Some? then f.(time := MatchTime(t))
    else if f.day.None? && MatchDay(t).Some? then f.(day := MatchDay(t))
    else if f.month.None? && MatchMonth(t).Some? then f.(month := MatchMonth(t))
    else if f.year.None? && MatchYear(t).Some? then f.(year := MatchYear(t))
    else f
  }

  function Process(f: Found, tokens: seq<string>): Found
    decreases |tokens|
  {
    if tokens == [] then f else Process(Step(f, tokens[0]), tokens[1..])
  }

  /** The date a cookie-date denotes; the weekday is not part of it. */
  datatype CalendarTime = CalendarTime(day: int, month: Month, year: int, hour: int, minute: int, second: int)

  /** Steps 1 to 7: the tokens, the four productions, the two-digit years, the range checks and the calendar check. */
  function ParseCookieDate(s: string): Option<CalendarTime> {
    var f := Process(NothingFound, Tokens(s));
    if f.time.None? || f.day.None? || f.month.None? || f.year.None? then None
    else
      var y := if 70 <= f.year.value <= 99 then f.year.value + 1900
        else if f.year.value <= 69 then f.year.value + 2000
        else f.year.value;
      var (h, m, sec) := f.time.value;
      if f.day.value < 1 || f.day.value > 31 || y < 1601 || h > 23 || m > 59 || sec > 59 then None
      else if f.day.value > DaysIn(f.month.value, y) then None
      else Some(CalendarTime(f.day.value, f.month.value, y, h, m, sec))
  }

  function CalendarOf(d: DateTime): CalendarTime {
    CalendarTime(d.day, d.month, d.year, d.hour, d.minute, d.second)
  }

  // ---- the two layouts, read by the algorithm ----

  /** The fields of 6 November 1994, 08:49:37, as each layout writes them. */
  lemma ExampleFields()
    ensures TimeText(DateTime(Sun, 6, Nov, 1994, 8, 49, 37)) == "08:49:37"
    ensures Pad2(6) == "06" && Pad4(1994) == "1994"
  {
    assert Pad2(8) == "08" && Pad2(49) == "49" && Pad2(37) == "37";
  }

  /** 6 November 1994, 08:49:37 as written: "Sun, 06Nov1994 08:49:37 GMT". */
  lemma CookieDateExample()
    ensures CookieDateText(DateTime(Sun, 6, Nov, 1994, 8, 49, 37)) == "Sun, 06Nov1994 08:49:37 GMT"
  {
    ExampleFields();
  }

  /** The same instant as an IMF-fixdate: "Sun, 06 Nov 1994 08:49:37 GMT". */
  lemma ImfFixdateExample()
    ensures ImfFixdate(DateTime(Sun, 6, Nov, 1994, 8, 49, 37)) == "Sun, 06 Nov 1994 08:49:37 GMT"
  {
    ExampleFields();
  }

  lemma Pad2Digits(n: int)
    requires 0 <= n < 100
    ensures |Pad2(n)| == 2 && IsDigits(Pad2(n)) && DigitsValue(Pad2(n)) == n
  {
    var p := Pad2(n);
    assert p[..1][..0] == [];
    assert DigitsValue(p[..1]) == n / 10;
    assert p[..2 - 1] == p[..1];
    assert DigitsValue(p) == DigitsValue(p[..1]) * 10 + n % 10;
  }

  lemma Pad4Digits(n: int)
    requires 0 <= n < 10000
    ensures |Pad4(n)| == 4 && IsDigits(Pad4(n)) && DigitsValue(Pad4(n)) == n
  {
    var p := Pad4(n);
    assert p[..1][..0] == [];
    assert DigitsValue(p[..1]) == n / 1000;
    assert p[..2][..1] == p[..1];
    assert DigitsValue(p[..2]) == n / 100 by {
      assert DigitsValue(p[..2]) == DigitsValue(p[..1]) * 10 + n / 100 % 10;
    }
    assert p[..3][..2] == p[..2];
    assert DigitsValue(p[..3]) == n / 10 by {
      assert DigitsValue(p[..3]) == DigitsValue(p[..2]) * 10 + n / 10 % 10;
    }
    assert p[..4 - 1] == p[..3];
    assert DigitsValue(p) == DigitsValue(p[..3]) * 10 + n % 10;
  }

  lemma DigitsNoDelimiter(s: string)
    requires IsDigits(s)
    ensures NoDelimiter(s)
  {
  }

  lemma NoDelimiterAppend(a: string, b: string)
    requires NoDelimiter(a) && NoDelimiter(b)
    ensures NoDelimiter(a + b)
  {
    assert forall i | |a| <= i < |a + b| :: (a + b)[i] == b[i - |a|];
  }

  lemma {:induction false} RunOf(t: string, rest: string)
    requires NoDelimiter(t) && (rest == [] || IsDelimiter(rest[0]))
    ensures NonDelimiterRun(t + rest) == |t|
    decreases |t|
  {
    if t != [] {
      assert (t + rest)[1..] == t[1..] + rest;
      RunOf(t[1..], rest);
    }
  }

  lemma {:induction false} SkipDelimiters(sep: string, rest: string)
    requires AllDelimiters(sep)
    ensures Tokens(sep + rest) == Tokens(rest)
    decreases |sep|
  {
    if sep != [] {
      assert (sep + rest)[0] == sep[0] && IsDelimiter(sep[0]);
      assert (sep + rest)[1..] == sep[1..] + rest;
      assert Tokens(sep + rest) == Tokens((sep + rest)[1..]);
      SkipDelimiters(sep[1..], rest);
    } else {
      assert sep + rest == rest;
    }
  }

  /** A run of non-delimiters followed by delimiters is one token. */
  lemma TokenThen(t: string, sep: string, rest: string)
    requires t != [] && NoDelimiter(t) && sep != [] && AllDelimiters(sep)
    ensures Tokens(t + sep + rest) == [t] + Tokens(rest)
  {
    var s := t + sep + rest;
    assert s == t + (sep + rest);
    RunOf(t, sep + rest);
    assert s[..|t|] == t && s[|t|..] == sep + rest;
    SkipDelimiters(sep, rest);
  }

  lemma LastToken(t: string)
    requires t != [] && NoDelimiter(t)
    ensures Tokens(t) == [t]
  {
    RunOf(t, []);
    assert t + [] == t;
    assert t[..|t|] == t && t[|t|..] == [];
  }

  lemma NamesNoDelimiter(d: DateTime)
    ensures NoDelimiter(DayName(d.weekday)) && |DayName(d.weekday)| == 3
    ensures NoDelimiter(MonthName(d.month)) && |MonthName(d.month)| == 3
  {
  }

  lemma TimeNoDelimiter(d: DateTime)
    requires Valid(d)
    ensures NoDelimiter(TimeText(d))
  {
    Pad2Digits(d.hour);
    Pad2Digits(d.minute);
    Pad2Digits(d.second);
    NoDelimiterAppend(Pad2(d.minute), ":");
    NoDelimiterAppend(Pad2(d.minute) + ":", Pad2(d.second));
    NoDelimiterAppend(Pad2(d.hour), ":");
    NoDelimiterAppend(Pad2(d.hour) + ":", Pad2(d.minute) + ":" + Pad2(d.second));
  }

  /** Three space-separated tokens in front of the rest. */
  lemma ThreeTokens(a: string, b: string, c: string, rest: string)
    requires a != [] && b != [] && c != []
    requires NoDelimiter(a) && NoDelimiter(b) && NoDelimiter(c)
    ensures Tokens(a + " " + (b + " " + (c + " " + rest))) == [a, b, c] + Tokens(rest)
  {
    TokenThen(c, " ", rest);
    TokenThen(b, " ", c + " " + rest);
    TokenThen(a, " ", b + " " + (c + " " + rest));
  }

  /** The time and the zone: two tokens. */
  lemma TailTokens(d: DateTime)
    requires Valid(d)
    ensures Tokens(TimeText(d) + " " + "GMT") == [TimeText(d), "GMT"]
  {
    TimeNoDelimiter(d);
    Pad2Digits(d.hour);
    LastToken("GMT");
    TokenThen(TimeText(d), " ", "GMT");
  }

  lemma FieldsNoDelimiter(d: DateTime)
    requires Valid(d)
    ensures NoDelimiter(Pad2(d.day)) && |Pad2(d.day)| == 2
    ensures NoDelimiter(Pad4(d.year)) && |Pad4(d.year)| == 4
    ensures NoDelimiter(DayName(d.weekday)) && |DayName(d.weekday)| == 3
    ensures NoDelimiter(MonthName(d.month)) && |MonthName(d.month)| == 3
  {
    Pad2Digits(d.day);
    Pad4Digits(d.year);
    DigitsNoDelimiter(Pad2(d.day));
    DigitsNoDelimiter(Pad4(d.year));
    NamesNoDelimiter(d);
  }

  /** The corrected layout splits into six tokens: weekday, day, month, year, time, zone. */
  lemma ImfTokens(d: DateTime)
    requires Valid(d)
    ensures Tokens(ImfFixdate(d))
      == [DayName(d.weekday), Pad2(d.day), MonthName(d.month), Pad4(d.year), TimeText(d), "GMT"]
  {
    FieldsNoDelimiter(d);
    var tail := TimeText(d) + " " + "GMT";
    TailTokens(d);
    ThreeTokens(Pad2(d.day), MonthName(d.month), Pad4(d.year), tail);
    TokenThen(DayName(d.weekday), ", ", Pad2(d.day) + " " + (MonthName(d.month) + " " + (Pad4(d.year) + " " + tail)));
  }

  /** The layout as written splits into four tokens: day, month name and year make one. */
  lemma CookieDateTokens(d: DateTime)
    requires Valid(d)
    ensures Tokens(CookieDateText(d))
      == [DayName(d.weekday), Pad2(d.day) + MonthName(d.month) + Pad4(d.year), TimeText(d), "GMT"]
  {
    FieldsNoDelimiter(d);
    var middle := Pad2(d.day) + MonthName(d.month) + Pad4(d.year);
    NoDelimiterAppend(Pad2(d.day), MonthName(d.month));
    NoDelimiterAppend(Pad2(d.day) + MonthName(d.month), Pad4(d.year));
    var tail := TimeText(d) + " " + "GMT";
    TailTokens(d);
    TokenThen(middle, " ", tail);
    TokenThen(DayName(d.weekday), ", ", middle + " " + tail);
  }

  lemma {:induction false} LeadingDigitsOf(p: string, rest: string)
    requires IsDigits(p) && (rest == [] || !IsDigit(rest[0]))
    ensures LeadingDigits(p + rest) == |p|
    decreases |p|
  {
    if p != [] {
      assert (p + rest)[1..] == p[1..] + rest;
      LeadingDigitsOf(p[1..], rest);
    }
  }

  lemma LettersNoMatch(t: string)
    requires |t| == 3 && !IsDigit(t[0])
    ensures MatchTime(t).None? && MatchDay(t).None? && MatchYear(t).None?
  {
  }

  lemma DayNameNoMonth(w: Weekday)
    ensures MatchMonth(DayName(w)).None?
  {
  }

  lemma MonthNameMatches(m: Month)
    ensures MatchMonth(MonthName(m)) == Some(m)
  {
  }

  /** A token that starts with a digit never names a month. */
  lemma DigitNoMonth(t: string)
    requires |t| > 0 && IsDigit(t[0])
    ensures MatchMonth(t).None?
  {
    if |t| >= 3 {
      var s := [LowerAscii(t[0]), LowerAscii(t[1]), LowerAscii(t[2])];
      assert IsDigit(s[0]);
    }
  }

  lemma TimeMatches(d: DateTime)
    requires Valid(d)
    ensures MatchTime(TimeText(d)) == Some((d.hour, d.minute, d.second))
  {
    Pad2Digits(d.hour);
    Pad2Digits(d.minute);
    Pad2Digits(d.second);
    var t := TimeText(d);
    var t2 := Pad2(d.minute) + ":" + Pad2(d.second);
    LeadingDigitsOf(Pad2(d.hour), ":" + t2);
    assert t == Pad2(d.hour) + (":" + t2);
    assert t[2] == ':' && t[3..] == t2 && t[..2] == Pad2(d.hour);
    LeadingDigitsOf(Pad2(d.minute), ":" + Pad2(d.second));
    assert t2 == Pad2(d.minute) + (":" + Pad2(d.second));
    assert t2[2] == ':' && t2[3..] == Pad2(d.second) && t2[..2] == Pad2(d.minute);
    LeadingDigitsOf(Pad2(d.second), []);
    assert Pad2(d.second) + [] == Pad2(d.second);
    assert Pad2(d.second)[..2] == Pad2(d.second);
  }

  lemma Pad2Matches(n: int)
    requires 0 <= n < 100
    ensures MatchTime(Pad2(n)).None? && MatchDay(Pad2(n)) == Some(n)
  {
    Pad2Digits(n);
    LeadingDigitsOf(Pad2(n), []);
    assert Pad2(n) + [] == Pad2(n);
    assert Pad2(n)[..2] == Pad2(n);
  }

  lemma Pad4Matches(n: int)
    requires 0 <= n < 10000
    ensures MatchTime(Pad4(n)).None? && MatchMonth(Pad4(n)).None? && MatchYear(Pad4(n)) == Some(n)
  {
    Pad4Digits(n);
    LeadingDigitsOf(Pad4(n), []);
    assert Pad4(n) + [] == Pad4(n);
    assert Pad4(n)[..4] == Pad4(n);
    DigitNoMonth(Pad4(n));
  }

  lemma ProcessCons(f: Found, t: string, rest: seq<string>)
    ensures Process(f, [t] + rest) == Process(Step(f, t), rest)
  {
    assert ([t] + rest)[1..] == rest;
  }

  /**
   * The corrected layout reads back as the date it was made from, for every
   * date from 1601 on (the algorithm rejects earlier years).
   */
  lemma ImfFixdateParses(d: DateTime)
    requires Valid(d) && d.year >= 1601
    ensures ParseCookieDate(ImfFixdate(d)) == Some(CalendarOf(d))
  {
    ImfTokens(d);
    var w := DayName(d.weekday);
    LettersNoMatch(w);
    DayNameNoMonth(d.weekday);
    var f1 := Step(NothingFound, w);
    assert f1 == NothingFound;
    Pad2Matches(d.day);
    var f2 := Step(f1, Pad2(d.day));
    assert f2 == Found(None, Some(d.day), None, None);
    LettersNoMatch(MonthName(d.month));
    MonthNameMatches(d.month);
    var f3 := Step(f2, MonthName(d.month));
    assert f3 == Found(None, Some(d.day), Some(d.month), None);
    Pad4Matches(d.year);
    var f4 := Step(f3, Pad4(d.year));
    assert f4 == Found(None, Some(d.day), Some(d.month), Some(d.year));
    TimeMatches(d);
    var f5 := Step(f4, TimeText(d));
    assert f5 == Found(Some((d.hour, d.minute, d.second)), Some(d.day), Some(d.month), Some(d.year));
    LettersNoMatch("GMT");
    var f6 := Step(f5, "GMT");
    assert f6 == f5;
    ProcessCons(NothingFound, w, [Pad2(d.day), MonthName(d.month), Pad4(d.year), TimeText(d), "GMT"]);
    ProcessCons(f1, Pad2(d.day), [MonthName(d.month), Pad4(d.year), TimeText(d), "GMT"]);
    ProcessCons(f2, MonthName(d.month), [Pad4(d.year), TimeText(d), "GMT"]);
    ProcessCons(f3, Pad4(d.year), [TimeText(d), "GMT"]);
    ProcessCons(f4, TimeText(d), ["GMT"]);
    ProcessCons(f5, "GMT", []);
    assert Process(NothingFound, Tokens(ImfFixdate(d))) == f6;
  }

  /** Tokens none of which names a month leave the month unfound. */
  lemma {:induction false} MonthNeverFound(f: Found, tokens: seq<string>)
    requires f.month.None?
    requires forall i | 0 <= i < |tokens| :: MatchMonth(tokens[i]).None?
    ensures Process(f, tokens).month.None?
    decreases |tokens|
  {
    if tokens != [] {
      assert forall i | 0 <= i < |tokens[1..]| :: tokens[1..][i] == tokens[i + 1];
      MonthNeverFound(Step(f, tokens[0]), tokens[1..]);
    }
  }

  /**
   * The layout as written never reads back: no token starts with a month
   * name, so the algorithm fails on every date. A user agent ignores such an
   * Expires attribute.
   */
  lemma CookieDateRejected(d: DateTime)
    requires Valid(d)
    ensures ParseCookieDate(CookieDateText(d)).None?
  {
    var middle := Pad2(d.day) + MonthName(d.month) + Pad4(d.year);
    var tokens := [DayName(d.weekday), middle, TimeText(d), "GMT"];
    CookieDateTokens(d);
    DayNameNoMonth(d.weekday);
    Pad2Digits(d.day);
    assert middle[0] == Pad2(d.day)[0];
    DigitNoMonth(middle);
    Pad2Digits(d.hour);
    assert TimeText(d)[0] == Pad2(d.hour)[0];
    DigitNoMonth(TimeText(d));
    assert MatchMonth("GMT").None?;
    assert forall i | 0 <= i < |tokens| :: MatchMonth(tokens[i]).None? by {
      forall i | 0 <= i < |tokens| ensures MatchMonth(tokens[i]).None? {
        if i == 0 {} else if i == 1 {} else if i == 2 {} else {}
      }
    }
    MonthNeverFound(NothingFound, tokens);
  }
}
