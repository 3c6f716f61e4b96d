/**
 * What a running script sees (CgiResponseInfo.kt, api/CgiScript.kt,
 * api/HttpRequestType.kt): the response holder with its environment
 * callback and its set-once `result`, the CGI meta-variable accessors
 * (section 4.1 of RFC 3875), the query-string parser for
 * `application/x-www-form-urlencoded` pairs, the request method, `stop`,
 * and `respond(text)`.
 *
 * Every accessor goes through the environment callback, which the daemon
 * answers with one round trip to the relay; an accessor's result records
 * the names it asked for, in order, beside the value it computed.
 */
module CgiScripts {
  import opened Wrappers
  import opened Text
  import opened Unicode

  /** The environment callback: a variable's value, or null when it is unset. */
  type EnvRequest = string -> Option<string>

  /** `CgiResponseInfo`: the callback a script is built with and the response it sets. */
  class CgiResponseInfo {
    /** The callback passed at construction; a `val`, so it never changes. */
    const envRequest: EnvRequest

    /** `lateinit var result: ByteArray`: `None` until first assigned. */
    var result: Option<seq<byte>>

    constructor(envRequest: EnvRequest)
      ensures this.envRequest == envRequest
      ensures result == None && OldResult() == None
    {
      this.envRequest := envRequest;
      result := None;
    }

    /**
     * The `oldResult` getter: the UTF-8 decoding of `result`; `None` stands
     * for the exception reading an unassigned `lateinit` property throws.
     */
    function OldResult(): Option<string>
      reads this
    {
      if result.None? then None else Some(Utf8Decode(result.value))
    }

    /** The `oldResult` setter: stores the UTF-8 encoding, and reading back gives the same text. */
    method SetOldResult(value: string)
      modifies this
      ensures result == Some(Utf8Encode(value))
      ensures OldResult() == Some(value)
    {
      result := Some(Utf8Encode(value));
      DecodeEncode(value);
    }
  }

  /** How a script run ends: by returning, or by throwing. */
  datatype ScriptEnd = Returned | Threw(exception: Throwable)

  /** `CgiScriptStoppedException`, or any other throwable with its rendered diagnostics. */
  datatype Throwable = CgiScriptStopped | OtherThrowable(diagnostics: seq<string>)

  /** `stop()`: it always throws `CgiScriptStoppedException`, so it never returns normally. */
  const Stop: ScriptEnd := Threw(CgiScriptStopped)

  /** A value an accessor computed and the environment variables it asked for, in order. */
  datatype Access<T> = Access(value: T, requests: seq<string>)

  /** `HttpRequestType`, in declaration order. */
  datatype HttpRequestType = GET | POST | PUT | DELETE | HEAD | OPTIONS | TRACE | PATCH

  function MethodName(t: HttpRequestType): string {
    match t
    case GET => "GET"
    case POST => "POST"
    case PUT => "PUT"
    case DELETE => "DELETE"
    case HEAD => "HEAD"
    case OPTIONS => "OPTIONS"
    case TRACE => "TRACE"
    case PATCH => "PATCH"
  }

  /** `HttpRequestType.valueOf(name)`: an exact, case-sensitive match, otherwise `IllegalArgumentException`. */
  function ValueOf(name: string): Result<HttpRequestType, string> {
    if name == "GET" then Ok(GET)
    else if name == "POST" then Ok(POST)
    else if name == "PUT" then Ok(PUT)
    else if name == "DELETE" then Ok(DELETE)
    else if name == "HEAD" then Ok(HEAD)
    else if name == "OPTIONS" then Ok(OPTIONS)
    else if name == "TRACE" then Ok(TRACE)
    else if name == "PATCH" then Ok(PATCH)
    else Err("No enum constant com.sschr15.scripting.api.HttpRequestType." + name)
  }

  /** `valueOf` accepts exactly the eight names, and each name gives back its own constant. */
  lemma ValueOfNames(name: string, t: HttpRequestType)
    ensures ValueOf(MethodName(t)) == Ok(t)
    ensures ValueOf(name) == Ok(t) <==> name == MethodName(t)
    ensures ValueOf(name).Err? <==> forall u: HttpRequestType :: name != MethodName(u)
  {
    if ValueOf(name).Err? {
      forall u: HttpRequestType ensures name != MethodName(u) {
        match u
        case GET => case POST => case PUT => case DELETE =>
        case HEAD => case OPTIONS => case TRACE => case PATCH =>
      }
    } else {
      assert name == MethodName(ValueOf(name).value);
    }
  }

  /** Why reading `query` throws. */
  datatype QueryError =
    | MalformedEscape(piece: string)   // `URLDecoder.decode` rejects a piece
    | MissingValue(part: string)       // a pair without '=': the destructuring finds no second element

  /** Every piece decoded, in order; the first piece the decoder rejects is reported. */
  function DecodeAll(pieces: seq<string>, decode: string -> Option<string>): (r: Result<seq<string>, QueryError>)
    ensures r.Ok? ==> |r.value| == |pieces|
    ensures r.Ok? <==> forall i | 0 <= i < |pieces| :: decode(pieces[i]).Some?
    ensures r.Ok? ==> forall i | 0 <= i < |pieces| :: r.value[i] == decode(pieces[i]).value
  {
    if pieces == [] then Ok([])
    else
      match decode(pieces[0])
      case None => Err(MalformedEscape(pieces[0]))
      case Some(first) =>
        match DecodeAll(pieces[1..], decode)
        case Err(e) => Err(e)
        case Ok(rest) => Ok([first] + rest)
  }

  /** `val (key, value) = it.split("=").map(::decode)`: every piece is decoded, then the first two are kept. */
  function PairOf(part: string, decode: string -> Option<string>): Result<(string, string), QueryError> {
    PairFromPieces(part, Split(part, '='), decode)
  }

  function PairFromPieces(part: string, pieces: seq<string>, decode: string -> Option<string>): Result<(string, string), QueryError> {
    match DecodeAll(pieces, decode)
    case Err(e) => Err(e)
    case Ok(decoded) =>
      if |decoded| < 2 then Err(MissingValue(part)) else Ok((decoded[0], decoded[1]))
  }

  /** The pairs of all parts, in order; the first part that fails stops the parse. */
  function PairsOf(parts: seq<string>, decode: string -> Option<string>): (r: Result<seq<(string, string)>, QueryError>)
    ensures r.Ok? ==> |r.value| == |parts|
    ensures r.Ok? ==> forall i | 0 <= i < |parts| :: PairOf(parts[i], decode) == Ok(r.value[i])
  {
    if parts == [] then Ok([])
    else
      match PairOf(parts[0], decode)
      case Err(e) => Err(e)
      case Ok(pair) =>
        match PairsOf(parts[1..], decode)
        case Err(e) => Err(e)
        case Ok(rest) => Ok([pair] + rest)
  }

  /** `associate`: the pairs put into a map in order, so a later key overwrites an earlier one. */
  function Associate(pairs: seq<(string, string)>): map<string, string> {
    if pairs == [] then map[]
    else
      var last := pairs[|pairs| - 1];
      Associate(pairs[..|pairs| - 1])[last.0 := last.1]
  }

  /** The parse of a non-blank query string: split on '&', each part split on '='. */
  function ParseQuery(queryString: string, decode: string -> Option<string>): Result<map<string, string>, QueryError> {
    match PairsOf(Split(queryString, '&'), decode)
    case Err(e) => Err(e)
    case Ok(pairs) => Ok(Associate(pairs))
  }

  /** The scripts' receiver: `CgiScript(info)`. */
  class CgiScript {
    const info: CgiResponseInfo

    constructor(info: CgiResponseInfo)
      ensures this.info == info
    {
      this.info := info;
    }

    /** `requestEnvironmentVariable(env)`: one call of the callback. */
    function RequestEnvironmentVariable(name: string): Access<Option<string>> {
      Access(info.envRequest(name), [name])
    }

    /** A variable's value, or "" when it is unset. */
    function VariableOrEmpty(name: string): (a: Access<string>)
      ensures a.requests == [name]
      ensures info.envRequest(name).None? ==> a.value == ""
      ensures info.envRequest(name).Some? ==> a.value == info.envRequest(name).value
    {
      var asked := RequestEnvironmentVariable(name);
      Access(asked.value.GetOr(""), asked.requests)
    }

    function RequestUri(): Access<string> {
      VariableOrEmpty("REQUEST_URI")
    }

    function QueryString(): Access<string> {
      VariableOrEmpty("QUERY_STRING")
    }

    function UserAgent(): Access<string> {
      VariableOrEmpty("HTTP_USER_AGENT")
    }

    /**
     * `query`: empty when the query string is blank; otherwise the query
     * string is requested a second time and that answer is parsed.
     */
    function Query(decode: string -> Option<string>): (a: Access<Result<map<string, string>, QueryError>>)
      ensures IsBlank(QueryString().value) ==> a == Access(Ok(map[]), ["QUERY_STRING"])
      ensures !IsBlank(QueryString().value) ==> a.requests == ["QUERY_STRING", "QUERY_STRING"]
      ensures !IsBlank(QueryString().value) ==> a.value == ParseQuery(QueryString().value, decode)
    {
      var first := QueryString();
      if IsBlank(first.value) then Access(Ok(map[]), first.requests)
      else
        var second := QueryString();
        Access(ParseQuery(second.value, decode), first.requests + second.requests)
    }

    /** `requestType`: REQUEST_METHOD, GET when unset, read with `valueOf`. */
    function RequestType(): (a: Access<Result<HttpRequestType, string>>)
      ensures a.requests == ["REQUEST_METHOD"]
      ensures info.envRequest("REQUEST_METHOD").None? ==> a.value == Ok(GET)
      ensures forall t: HttpRequestType :: a.value == Ok(t) <==> info.envRequest("REQUEST_METHOD").GetOr("GET") == MethodName(t)
    {
      var asked := RequestEnvironmentVariable("REQUEST_METHOD");
      var name := asked.value.GetOr("GET");
      assert forall t: HttpRequestType :: ValueOf(name) == Ok(t) <==> name == MethodName(t) by {
        forall t: HttpRequestType ensures ValueOf(name) == Ok(t) <==> name == MethodName(t) {
          ValueOfNames(name, t);
        }
      }
      Access(ValueOf(name), asked.requests)
    }

    /** `respond(text)`: stores `text` as the result, replacing any earlier one. */
    method Respond(text: string)
      modifies info
      ensures info.result == Some(Utf8Encode(text))
      ensures info.OldResult() == Some(text)
    {
      info.SetOldResult(text);
    }
  }

  /** The map `associate` builds holds a key iff some pair has it, with the value of the last such pair. */
  lemma {:induction false} AssociateLastWins(pairs: seq<(string, string)>, k: string)
    ensures k in Associate(pairs) <==> exists i | 0 <= i < |pairs| :: pairs[i].0 == k
    ensures forall i | 0 <= i < |pairs| && pairs[i].0 == k ::
      (forall j | i < j < |pairs| :: pairs[j].0 != k) ==> Associate(pairs)[k] == pairs[i].1
    decreases |pairs|
  {
    if pairs != [] {
      var n := |pairs| - 1;
      var init := pairs[..n];
      AssociateLastWins(init, k);
      assert forall i | 0 <= i < n :: init[i] == pairs[i];
      if pairs[n].0 != k {
        assert (exists i | 0 <= i < |pairs| :: pairs[i].0 == k) ==> exists i | 0 <= i < n :: init[i].0 == k;
      }
    }
  }

  /** A pair without '=' makes `query` throw (once its one piece decodes). */
  lemma PairWithoutEquals(part: string, decode: string -> Option<string>)
    requires '=' !in part && decode(part).Some?
    ensures PairOf(part, decode) == Err(MissingValue(part))
  {
    assert Split(part, '=') == [part];
  }

  /** Text after a second '=' is decoded and then dropped. */
  lemma PairWithTwoEquals(k: string, v: string, w: string, decode: string -> Option<string>)
    requires '=' !in k && '=' !in v
    requires decode(k).Some? && decode(v).Some?
    requires forall i | 0 <= i < |Split(w, '=')| :: decode(Split(w, '=')[i]).Some?
    ensures PairOf(k + "=" + v + "=" + w, decode) == Ok((decode(k).value, decode(v).value))
  {
    var later := Split(w, '=');
    SplitTwoEquals(k, v, w);
    DecodedEach(later, decode);
    var part := k + "=" + v + "=" + w;
    PairOfPieces(part, Split(part, '='), k, v, later, decode);
  }

  lemma SplitTwoEquals(k: string, v: string, w: string)
    requires '=' !in k && '=' !in v
    ensures Split(k + "=" + v + "=" + w, '=') == [k, v] + Split(w, '=')
  {
    SplitOfPrefix(v, '=', w);
    assert k + "=" + v + "=" + w == k + ['='] + (v + ['='] + w);
    SplitOfPrefix(k, '=', v + ['='] + w);
    ConsTwo(Split(k + "=" + v + "=" + w, '='), k, v, Split(w, '='));
  }

  lemma ConsTwo<T>(whole: seq<T>, x: T, y: T, rest: seq<T>)
    requires whole == [x] + ([y] + rest)
    ensures whole == [x, y] + rest
  {
  }

  lemma PairOfPieces(part: string, pieces: seq<string>, k: string, v: string, later: seq<string>,
                     decode: string -> Option<string>)
    requires pieces == [k, v] + later
    requires decode(k).Some? && decode(v).Some? && DecodeAll(later, decode).Ok?
    ensures PairFromPieces(part, pieces, decode) == Ok((decode(k).value, decode(v).value))
  {
    DecodedCons(v, later, decode);
    assert pieces == [k] + ([v] + later);
    DecodedCons(k, [v] + later, decode);
  }

  lemma DecodedCons(first: string, rest: seq<string>, decode: string -> Option<string>)
    requires decode(first).Some? && DecodeAll(rest, decode).Ok?
    ensures DecodeAll([first] + rest, decode) == Ok([decode(first).value] + DecodeAll(rest, decode).value)
  {
    assert ([first] + rest)[1..] == rest;
  }

  lemma DecodedEach(pieces: seq<string>, decode: string -> Option<string>)
    requires forall i | 0 <= i < |pieces| :: decode(pieces[i]).Some?
    ensures DecodeAll(pieces, decode).Ok?
  {
  }

  /** The query text of a list of pairs: `key=value` joined by '&'. */
  function QueryText(pairs: seq<(string, string)>): string {
    Join(PairTexts(pairs), "&")
  }

  function PairTexts(pairs: seq<(string, string)>): (texts: seq<string>)
    ensures |texts| == |pairs|
    ensures forall i | 0 <= i < |pairs| :: texts[i] == pairs[i].0 + "=" + pairs[i].1
  {
    if pairs == [] then [] else [pairs[0].0 + "=" + pairs[0].1] + PairTexts(pairs[1..])
  }

  /** Keys and values the query syntax can carry as they are: no '&', no '=', and the decoder leaves them alone. */
  predicate Plain(s: string, decode: string -> Option<string>) {
    '&' !in s && '=' !in s && decode(s) == Some(s)
  }

  /**
   * Parsing the text of a non-empty list of plain pairs gives the map
   * `associate` builds from them: the last value for each key.
   */
  lemma ParseQueryText(pairs: seq<(string, string)>, decode: string -> Option<string>)
    requires |pairs| >= 1
    requires forall i | 0 <= i < |pairs| :: Plain(pairs[i].0, decode) && Plain(pairs[i].1, decode)
    ensures ParseQuery(QueryText(pairs), decode) == Ok(Associate(pairs))
  {
    var texts := PairTexts(pairs);
    forall i | 0 <= i < |texts| ensures '&' !in texts[i] {
      assert texts[i] == pairs[i].0 + ['='] + pairs[i].1;
    }
    SplitOfJoin(texts, '&');
    assert Split(QueryText(pairs), '&') == texts;
    PairsOfPlain(pairs, decode);
  }

  lemma {:induction false} PairsOfPlain(pairs: seq<(string, string)>, decode: string -> Option<string>)
    requires forall i | 0 <= i < |pairs| :: Plain(pairs[i].0, decode) && Plain(pairs[i].1, decode)
    ensures PairsOf(PairTexts(pairs), decode) == Ok(pairs)
    decreases |pairs|
  {
    if pairs != [] {
      var texts := PairTexts(pairs);
      PairOfPlain(pairs[0].0, pairs[0].1, decode);
      assert PairOf(texts[0], decode) == Ok(pairs[0]);
      PairsOfPlain(pairs[1..], decode);
      assert texts[1..] == PairTexts(pairs[1..]);
      assert PairsOf(texts[1..], decode) == Ok(pairs[1..]);
      assert [pairs[0]] + pairs[1..] == pairs;
    }
  }

  lemma PairOfPlain(k: string, v: string, decode: string -> Option<string>)
    requires Plain(k, decode) && Plain(v, decode)
    ensures PairOf(k + "=" + v, decode) == Ok((k, v))
  {
    SplitOfPrefix(k, '=', v);
    assert Split(v, '=') == [v];
    assert Split(k + "=" + v, '=') == [k, v] by { assert k + "=" + v == k + ['='] + v; }
    var r := DecodeAll([k, v], decode);
    assert [k, v][0] == k && [k, v][1] == v;
    assert r.Ok? && r.value[0] == k && r.value[1] == v;
    assert r.value == [k, v];
  }
}
