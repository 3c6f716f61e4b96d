/**
 * The daemon's compiled-script cache (ScriptCache.kt): a map from a
 * script's absolute path string to its compiled form, `uncache`,
 * `contains`, `compile` (the cache update only) and the choice `evaluate`
 * makes between the four response texts. The compiler and the evaluator
 * are foreign: the compiler is a parameter from the script source to a
 * compiled script or a failure, and an evaluation is summed up by how the
 * script body ended and the result it left.
 */
module ScriptCaches {
  import opened Wrappers
  import opened Text
  import opened Unicode
  import opened CgiScripts
  import ShortNames
  import Status

  /**
   * `Path.absolutePathString()` for a path spelled as a string: an absolute
   * path is kept, a relative one is resolved against the working directory.
   */
  function AbsolutePath(workingDir: string, path: string): (r: string)
    ensures StartsWith(path, "/") ==> r == path
    ensures StartsWith(workingDir, "/") ==> StartsWith(r, "/")
  {
    if StartsWith(path, "/") then path
    else if path == "" then workingDir
    else if workingDir == "/" then "/" + path
    else workingDir + "/" + path
  }

  /** `Path.name`: the last element of the path. */
  function FileName(path: string): string {
    SubstringAfterLast(path, '/')
  }

  /** What `toScriptSource` is given: the file's text and the script's logical name. */
  datatype ScriptSource = ScriptSource(text: string, name: string)

  /** The source compiled for a path: its text, named by the file name without `.cgi.kts`. */
  function SourceOf(path: string, text: string): (s: ScriptSource)
    ensures s.text == text
    ensures EndsWith(FileName(path), ShortNames.ScriptSuffix) ==> s.name + ShortNames.ScriptSuffix == FileName(path)
    ensures !EndsWith(FileName(path), ShortNames.ScriptSuffix) ==> s.name == FileName(path)
    ensures '/' !in s.name
  {
    ScriptSource(text, ShortNames.BaseFileName(FileName(path)))
  }

  /** The compiler: a compiled script, or `None` when it reports failure. */
  type Compiler<!Compiled> = ScriptSource -> Option<Compiled>

  /** How the evaluation of a script ended and the `result` its response holder was left with. */
  type Evaluation = (ScriptEnd, Option<seq<byte>>)

  class ScriptCache<Compiled> {
    /** The directory relative paths are resolved against. */
    const workingDir: string
    var cache: map<string, Compiled>

    constructor(workingDir: string)
      ensures this.workingDir == workingDir && cache == map[]
    {
      this.workingDir := workingDir;
      cache := map[];
    }

    /** `contains(path)`: the cache has an entry under the path's absolute form. */
    predicate Contains(path: string)
      reads this
    {
      AbsolutePath(workingDir, path) in cache
    }

    /** `uncache(path)`: the entry under the path's absolute form is gone; every other entry stays. */
    method Uncache(path: string)
      modifies this
      ensures cache == old(cache) - {AbsolutePath(workingDir, path)}
      ensures !Contains(path)
      ensures forall other | AbsolutePath(workingDir, other) != AbsolutePath(workingDir, path) ::
        Contains(other) == old(Contains(other))
    {
      cache := cache - {AbsolutePath(workingDir, path)};
    }

    /**
     * `compile(path)`, the file holding `text`: on success the compiled
     * script is stored under the absolute path and the answer is true; on
     * failure the cache is untouched, so an earlier entry survives.
     */
    method Compile(path: string, text: string, compiler: Compiler<Compiled>) returns (ok: bool)
      modifies this
      ensures ok <==> compiler(SourceOf(path, text)).Some?
      ensures ok ==> cache == old(cache)[AbsolutePath(workingDir, path) := compiler(SourceOf(path, text)).value]
      ensures ok ==> Contains(path)
      ensures !ok ==> cache == old(cache)
    {
      var compiled := compiler(SourceOf(path, text));
      if compiled.Some? {
        cache := cache[AbsolutePath(workingDir, path) := compiled.value];
        ok := true;
      } else {
        ok := false;
      }
    }

    /**
     * `evaluate(path, envRequest)`, `run` standing for the evaluator
     * running the compiled script. An uncached path answers with the 500
     * "failed to compile" text. A script that returned or stopped answers
     * with exactly the text it responded with, or with the 500 "failed to
     * respond" text when it set none. A script that threw answers with the
     * 500 head and its reports.
     */
    function Evaluate(path: string, run: Compiled -> Evaluation): (response: string)
      reads this
      ensures !Contains(path) ==> response == UncachedResponse
      ensures Contains(path) ==> var e := run(cache[AbsolutePath(workingDir, path)]);
        && (forall text :: (e.0 == Returned || e.0 == Stop) && e.1 == Some(Utf8Encode(text)) ==> response == text)
        && ((e.0 == Returned || e.0 == Stop) && e.1 == None ==> response == NoResultResponse)
        && (forall reports :: e.0 == Threw(OtherThrowable(reports)) ==> response == FailureResponse(reports))
    {
      if !Contains(path) then UncachedResponse
      else
        var e := run(cache[AbsolutePath(workingDir, path)]);
        if (e.0 == Returned || e.0 == Stop) && e.1.Some? then
          DecodeEncodeAll(e.1.value);
          ResponseOf(e.0, e.1)
        else ResponseOf(e.0, e.1)
    }
  }

  /** A relative spelling and the absolute spelling of the same file are the same cache key. */
  lemma AbsolutePathIdempotent(workingDir: string, path: string)
    requires StartsWith(workingDir, "/")
    ensures AbsolutePath(workingDir, AbsolutePath(workingDir, path)) == AbsolutePath(workingDir, path)
  {
  }

  // ---- response selection ----

  /** How the evaluator sees the body once `scriptExecutionWrapper` has run it. */
  datatype Completion = Normal | Failure(reports: seq<string>)

  /** The wrapper: the stop exception is swallowed, any other throwable is a failure with its rendered reports. */
  function Wrapped(end: ScriptEnd): (c: Completion)
    ensures c.Normal? <==> end == Returned || end == Stop
    ensures c.Failure? ==> end == Threw(OtherThrowable(c.reports))
  {
    match end
    case Returned => Normal
    case Threw(CgiScriptStopped) => Normal
    case Threw(OtherThrowable(reports)) => Failure(reports)
  }

  /** "HTTP/1.1 ", the 500 status ("500 Internal Server Error"), and the blank line every error text starts with. */
  const ErrorHead: string := "HTTP/1.1 " + Status.ToString(Status.InternalServerError) + "\r\n\r\n"

  const UncachedResponse: string := ErrorHead + "This script failed to compile." + "\r\n\r\n"

  const NoResultResponse: string := ErrorHead + "This script failed to respond." + "\r\n\r\n"

  function FailureResponse(reports: seq<string>): string {
    ErrorHead + Join(reports, "\n") + "\r\n\r\n"
  }

  /** The response `evaluate` returns once the script has run: a failure's reports, the result, or the no-result text. */
  function ResponseOf(end: ScriptEnd, result: Option<seq<byte>>): string {
    match Wrapped(end)
    case Failure(reports) => FailureResponse(reports)
    case Normal => if result.Some? then Utf8Decode(result.value) else NoResultResponse
  }

  /** Bytes that are the UTF-8 encoding of some text decode to that text. */
  lemma DecodeEncodeAll(bs: seq<byte>)
    ensures forall text :: Utf8Encode(text) == bs ==> Utf8Decode(bs) == text
  {
    forall text | Utf8Encode(text) == bs
      ensures Utf8Decode(bs) == text
    {
      DecodeEncode(text);
    }
  }

  /** Stopping the script counts as finishing it: the response is the same as when the body returns. */
  lemma StopIsNormal(result: Option<seq<byte>>)
    ensures ResponseOf(Stop, result) == ResponseOf(Returned, result)
  {
  }

  /** A normal end with `respond(text)` called answers with exactly `text`; with no result, the no-result text. */
  lemma NormalResponse(end: ScriptEnd, text: string)
    requires Wrapped(end).Normal?
    ensures ResponseOf(end, Some(Utf8Encode(text))) == text
    ensures ResponseOf(end, None) == NoResultResponse
  {
    DecodeEncode(text);
  }

  /**
   * A failure answers with the 500 head, the reports joined by '\n', and a
   * blank line; when no report holds a line break, the text between the
   * head and the final "\r\n\r\n" splits back into the reports.
   */
  lemma FailureReportsRecoverable(reports: seq<string>, result: Option<seq<byte>>)
    requires |reports| >= 1 && forall i | 0 <= i < |reports| :: '\n' !in reports[i]
    ensures var r := ResponseOf(Threw(OtherThrowable(reports)), result);
      StartsWith(r, ErrorHead) && EndsWith(r, "\r\n\r\n")
      && Split(r[|ErrorHead|..|r| - 4], '\n') == reports
  {
    var r := ResponseOf(Threw(OtherThrowable(reports)), result);
    var middle := Join(reports, "\n");
    assert r == ErrorHead + middle + "\r\n\r\n";
    assert r[|ErrorHead|..|r| - 4] == middle;
    SplitOfJoin(reports, '\n');
  }
}
