/**
 * How a script diagnostic is logged (LoggingUtils.kt, `ScriptDiagnostic.logTo`):
 * the logger level its severity maps to, the message text with an optional
 * " (file:line:col)" suffix, and whether the exception is attached. The
 * logger itself is left out; `LogTo` returns the event it would be given.
 */
module Logging {
  import opened Wrappers
  import opened Text

  /** `ScriptDiagnostic.Severity`, least severe first. */
  datatype Severity = Debug | Info | Warning | Error | Fatal

  /** The logger levels `logTo` uses. */
  datatype Level = DebugLevel | InfoLevel | WarnLevel | ErrorLevel

  function SeverityRank(s: Severity): nat {
    match s
    case Debug => 0
    case Info => 1
    case Warning => 2
    case Error => 3
    case Fatal => 4
  }

  function LevelRank(l: Level): nat {
    match l
    case DebugLevel => 0
    case InfoLevel => 1
    case WarnLevel => 2
    case ErrorLevel => 3
  }

  /** The `when (severity)` mapping. */
  function LevelOf(s: Severity): (l: Level)
    ensures l == ErrorLevel <==> s == Error || s == Fatal
  {
    match s
    case Debug => DebugLevel
    case Info => InfoLevel
    case Warning => WarnLevel
    case Error => ErrorLevel
    case Fatal => ErrorLevel
  }

  /** A source position: 1-based line and column. */
  datatype Position = Position(line: int, col: int)

  datatype Location = Location(start: Position, end: Option<Position>)

  /** The parts of a diagnostic `logTo` reads; the exception stands for the attached `Throwable`. */
  datatype Diagnostic = Diagnostic(
    message: string,
    severity: Severity,
    sourcePath: Option<string>,
    location: Option<Location>,
    exception: Option<string>)

  /** What is handed to the logger: the level, the message text, the cause. */
  datatype LogEvent = LogEvent(level: Level, message: string, cause: Option<string>)

  /** Whether `logTo` appends a location suffix. */
  predicate HasSuffix(d: Diagnostic, withLocation: bool) {
    withLocation && (d.sourcePath.Some? || d.location.Some?)
  }

  /** The text between " (" and ")": the file's base name, then ":" when both parts are there, then line:col. */
  function LocationText(d: Diagnostic, separator: char): string {
    (if d.sourcePath.Some? then SubstringAfterLast(d.sourcePath.value, separator) else "")
    + (if d.location.Some? then
         (if d.sourcePath.Some? then ":" else "")
         + IntToDecimal(d.location.value.start.line) + ":" + IntToDecimal(d.location.value.start.col)
       else "")
  }

  /** `logTo(logger, withLocation, withException)`, `separator` being `File.separatorChar`. */
  function LogTo(d: Diagnostic, withLocation: bool, withException: bool, separator: char): (e: LogEvent)
    ensures e.level == LevelOf(d.severity)
    ensures StartsWith(e.message, d.message)
    ensures e.message == d.message <==> !HasSuffix(d, withLocation)
    ensures e.cause == (if withException then d.exception else None)
  {
    var text := if HasSuffix(d, withLocation) then d.message + " (" + LocationText(d, separator) + ")" else d.message;
    LogEvent(LevelOf(d.severity), text, if withException then d.exception else None)
  }

  /** The mapping never lowers a severity relative to another: more severe never logs at a lower level. */
  lemma LevelOfMonotone(a: Severity, b: Severity)
    requires SeverityRank(a) <= SeverityRank(b)
    ensures LevelRank(LevelOf(a)) <= LevelRank(LevelOf(b))
  {
  }

  /** DEBUG, INFO and WARNING keep their rank; only FATAL is folded into ERROR. */
  lemma LevelOfRank(s: Severity)
    ensures LevelRank(LevelOf(s)) == if s == Fatal then 3 else SeverityRank(s)
  {
  }

  /**
   * The whole message when a suffix is appended: the base name, the start
   * line and the start column, in that order inside " (" and ")", with a
   * ':' between the base name and the line only when both are present.
   */
  lemma MessageLayout(d: Diagnostic, withLocation: bool, withException: bool, separator: char)
    requires HasSuffix(d, withLocation)
    ensures var m := LogTo(d, withLocation, withException, separator).message;
      && (d.sourcePath.Some? && d.location.Some? ==>
            m == d.message + " (" + SubstringAfterLast(d.sourcePath.value, separator) + ":"
                 + IntToDecimal(d.location.value.start.line) + ":" + IntToDecimal(d.location.value.start.col) + ")")
      && (d.sourcePath.None? && d.location.Some? ==>
            m == d.message + " (" + IntToDecimal(d.location.value.start.line) + ":" + IntToDecimal(d.location.value.start.col) + ")")
      && (d.sourcePath.Some? && d.location.None? ==>
            m == d.message + " (" + SubstringAfterLast(d.sourcePath.value, separator) + ")")
  {
  }

  /**
   * With a source path, the suffix names the file by its base name alone:
   * the end of the path after its last separator, with no separator in it.
   */
  lemma SuffixBaseName(d: Diagnostic, withLocation: bool, withException: bool, separator: char)
    requires HasSuffix(d, withLocation) && d.sourcePath.Some?
    ensures var base := SubstringAfterLast(d.sourcePath.value, separator);
      separator !in base && EndsWith(d.sourcePath.value, base)
      && StartsWith(LogTo(d, withLocation, withException, separator).message, d.message + " (" + base)
  {
    var base := SubstringAfterLast(d.sourcePath.value, separator);
    var m := LogTo(d, withLocation, withException, separator).message;
    var prefix := d.message + " (" + base;
    var rest := if d.location.Some? then
        (if d.sourcePath.Some? then ":" else "")
        + IntToDecimal(d.location.value.start.line) + ":" + IntToDecimal(d.location.value.start.col)
      else "";
    assert LocationText(d, separator) == base + rest;
    assert m == d.message + " (" + (base + rest) + ")";
    SuffixRegroup(d.message, " (", base, rest, ")");
    PrefixStarts(prefix, rest + ")");
  }

  lemma SuffixRegroup(a: string, b: string, c: string, x: string, y: string)
    ensures a + b + (c + x) + y == (a + b + c) + (x + y)
  {
  }

  lemma PrefixStarts(a: string, b: string)
    ensures StartsWith(a + b, a)
  {
    assert (a + b)[..|a|] == a;
  }

  /**
   * With a location, the message ends in ")" and the text between the last
   * ':' and that ")" reads back as the start column.
   */
  lemma SuffixColumn(d: Diagnostic, withLocation: bool, withException: bool, separator: char)
    requires HasSuffix(d, withLocation) && d.location.Some?
    ensures var m := LogTo(d, withLocation, withException, separator).message;
      |m| > 0 && m[|m| - 1] == ')'
      && ParseDecimal(SubstringAfterLast(m[..|m| - 1], ':')) == Some(d.location.value.start.col)
  {
    var m := LogTo(d, withLocation, withException, separator).message;
    var col := IntToDecimal(d.location.value.start.col);
    var p := d.message + " (" + (if d.sourcePath.Some? then SubstringAfterLast(d.sourcePath.value, separator) else "")
      + (if d.sourcePath.Some? then ":" else "") + IntToDecimal(d.location.value.start.line);
    assert m == p + [':'] + col + [')'];
    assert m[..|m| - 1] == p + [':'] + col;
    IntToDecimalChars(d.location.value.start.col);
    SubstringAfterLastOf(p, ':', col);
    DecimalRoundTrip(d.location.value.start.col);
  }
}
