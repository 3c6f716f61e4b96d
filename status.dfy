/**
 * HTTP status codes as scripts name them (api/HttpStatusCode.kt): a class
 * by hundreds (section 15 of RFC 9110), a number and a reason phrase, the
 * named constants, the `HttpStatusCode(code)` lookup with its fallbacks,
 * and `toString`.
 */
module Status {
  import opened Wrappers
  import opened Text
  import opened Int32

  /** The subclasses of the sealed `HttpStatusCode` class. */
  datatype StatusClass = Success | Redirect | ClientError | ServerError | Unknown

  datatype HttpStatusCode = HttpStatusCode(kind: StatusClass, number: int, message: string)

  const Ok: HttpStatusCode := HttpStatusCode(Success, 200, "OK")
  const NotFound: HttpStatusCode := HttpStatusCode(ClientError, 404, "Not Found")
  const InternalServerError: HttpStatusCode := HttpStatusCode(ServerError, 500, "Internal Server Error")

  /** The class a code of 200 to 599 belongs to, by its hundreds digit. */
  function ClassOfHundreds(code: int): (c: StatusClass)
    requires 200 <= code < 600
    ensures c != Unknown
  {
    if code < 300 then Success
    else if code < 400 then Redirect
    else if code < 500 then ClientError
    else ServerError
  }

  /** The phrase an unlisted code gets from the range it falls in. */
  function FallbackMessage(code: int): string {
    if 100 <= code <= 199 then "Informational"
    else if 200 <= code <= 299 then "Other Success"
    else if 300 <= code <= 399 then "Other Redirect"
    else if 400 <= code <= 499 then "Other Client Error"
    else if 500 <= code <= 599 then "Other Server Error"
    else "Unknown"
  }

  /**
   * The named constants, each in the companion object of its class: the
   * class and reason phrase of every listed code (306 is not listed).
   */
  function Listed(code: int): Option<(StatusClass, string)> {
    match code
    case 200 => Some((Success, "OK"))
    case 201 => Some((Success, "Created"))
    case 202 => Some((Success, "Accepted"))
    case 203 => Some((Success, "Non-Authoritative Information"))
    case 204 => Some((Success, "No Content"))
    case 205 => Some((Success, "Reset Content"))
    case 206 => Some((Success, "Partial Content"))
    case 207 => Some((Success, "Multi-Status"))
    case 208 => Some((Success, "Already Reported"))
    case 226 => Some((Success, "IM Used"))
    case 300 => Some((Redirect, "Multiple Choices"))
    case 301 => Some((Redirect, "Moved Permanently"))
    case 302 => Some((Redirect, "Found"))
    case 303 => Some((Redirect, "See Other"))
    case 304 => Some((Redirect, "Not Modified"))
    case 305 => Some((Redirect, "Use Proxy"))
    case 307 => Some((Redirect, "Temporary Redirect"))
    case 308 => Some((Redirect, "Permanent Redirect"))
    case 400 => Some((ClientError, "Bad Request"))
    case 401 => Some((ClientError, "Unauthorized"))
    case 402 => Some((ClientError, "Payment Required"))
    case 403 => Some((ClientError, "Forbidden"))
    case 404 => Some((ClientError, "Not Found"))
    case 405 => Some((ClientError, "Method Not Allowed"))
    case 406 => Some((ClientError, "Not Acceptable"))
    case 407 => Some((ClientError, "Proxy Authentication Required"))
    case 408 => Some((ClientError, "Request Timeout"))
    case 409 => Some((ClientError, "Conflict"))
    case 410 => Some((ClientError, "Gone"))
    case 411 => Some((ClientError, "Length Required"))
    case 412 => Some((ClientError, "Precondition Failed"))
    case 413 => Some((ClientError, "Payload Too Large"))
    case 414 => Some((ClientError, "URI Too Long"))
    case 415 => Some((ClientError, "Unsupported Media Type"))
    case 416 => Some((ClientError, "Range Not Satisfiable"))
    case 417 => Some((ClientError, "Expectation Failed"))
    case 418 => Some((ClientError, "I'm a teapot"))
    case 421 => Some((ClientError, "Misdirected Request"))
    case 422 => Some((ClientError, "Unprocessable Content"))
    case 423 => Some((ClientError, "Locked"))
    case 424 => Some((ClientError, "Failed Dependency"))
    case 425 => Some((ClientError, "Too Early"))
    case 426 => Some((ClientError, "Upgrade Required"))
    case 428 => Some((ClientError, "Precondition Required"))
    case 429 => Some((ClientError, "Too Many Requests"))
    case 431 => Some((ClientError, "Request Header Fields Too Large"))
    case 451 => Some((ClientError, "Unavailable For Legal Reasons"))
    case 500 => Some((ServerError, "Internal Server Error"))
    case 501 => Some((ServerError, "Not Implemented"))
    case 502 => Some((ServerError, "Bad Gateway"))
    case 503 => Some((ServerError, "Service Unavailable"))
    case 504 => Some((ServerError, "Gateway Timeout"))
    case 505 => Some((ServerError, "HTTP Version Not Supported"))
    case 506 => Some((ServerError, "Variant Also Negotiates"))
    case 507 => Some((ServerError, "Insufficient Storage"))
    case 508 => Some((ServerError, "Loop Detected"))
    case 510 => Some((ServerError, "Not Extended"))
    case 511 => Some((ServerError, "Network Authentication Required"))
    case _ => None
  }

  /** `HttpStatusCode(code)`: the named constant for a listed code, otherwise a fallback by range. */
  function FromCode(code: int): (s: HttpStatusCode)
    requires IsInt32(code)
    ensures s.number == code
  {
    match Listed(code)
    case Some((kind, message)) => HttpStatusCode(kind, code, message)
    case None =>
      if 200 <= code <= 599 then HttpStatusCode(ClassOfHundreds(code), code, FallbackMessage(code))
      else HttpStatusCode(Unknown, code, FallbackMessage(code))
  }

  /** `toString()`: the number, one space, the reason phrase. */
  function ToString(s: HttpStatusCode): string {
    IntToDecimal(s.number) + " " + s.message
  }

  /** The class is fixed by the hundreds digit for every code from 200 to 599, and Unknown for every other code. */
  lemma ClassByHundreds(code: int)
    requires IsInt32(code)
    ensures 200 <= code < 600 ==> FromCode(code).kind == ClassOfHundreds(code)
    ensures !(200 <= code < 600) ==> FromCode(code).kind == Unknown
  {
  }

  /** An unlisted code carries the phrase of its range: "Informational", "Other ...", or "Unknown". */
  lemma UnlistedFallback(code: int)
    requires IsInt32(code) && Listed(code).None?
    ensures FromCode(code).message == FallbackMessage(code)
    ensures code < 100 || code > 599 ==> FromCode(code) == HttpStatusCode(Unknown, code, "Unknown")
    ensures 100 <= code <= 199 ==> FromCode(code) == HttpStatusCode(Unknown, code, "Informational")
  {
  }

  /** 306 is not named, so it becomes an unnamed redirect. */
  lemma SwitchProxyFallback()
    ensures FromCode(306) == HttpStatusCode(Redirect, 306, "Other Redirect")
  {
  }

  /** The constants the daemon uses are what the lookup returns for their codes. */
  lemma ConstantsAreLookedUp()
    ensures FromCode(200) == Ok
    ensures FromCode(404) == NotFound
    ensures FromCode(500) == InternalServerError
  {
  }

  /** The texts of the two constants the daemon writes into its own responses. */
  lemma ConstantTexts()
    ensures ToString(NotFound) == "404 Not Found"
    ensures ToString(InternalServerError) == "500 Internal Server Error"
  {
    NotFoundText();
    InternalServerErrorText();
  }

  lemma NotFoundText()
    ensures ToString(NotFound) == "404 Not Found"
  {
    ThreeDigits(4, 0, 4);
    assert DigitChar(4) == '4' && DigitChar(0) == '0';
    TextOf(NotFound, "404");
  }

  lemma InternalServerErrorText()
    ensures ToString(InternalServerError) == "500 Internal Server Error"
  {
    ThreeDigits(5, 0, 0);
    assert DigitChar(5) == '5' && DigitChar(0) == '0';
    TextOf(InternalServerError, "500");
    ServerErrorJoin();
  }

  lemma ServerErrorJoin()
    ensures "500" + " " + "Internal Server Error" == "500 Internal Server Error"
  {
  }

  /** The text of a code whose number is written as `digits`. */
  lemma TextOf(s: HttpStatusCode, digits: string)
    requires IntToDecimal(s.number) == digits
    ensures ToString(s) == digits + " " + s.message
  {
  }

  /** A three-digit number is written as its three digits. */
  lemma ThreeDigits(h: nat, t: nat, u: nat)
    requires 1 <= h < 10 && t < 10 && u < 10
    ensures IntToDecimal(100 * h + 10 * t + u) == [DigitChar(h), DigitChar(t), DigitChar(u)]
  {
    var tens := 10 * h + t;
    var n := 100 * h + 10 * t + u;
    assert NatToDecimal(h) == [DigitChar(h)];
    assert tens / 10 == h && tens % 10 == t;
    assert NatToDecimal(tens) == NatToDecimal(h) + [DigitChar(t)];
    assert n / 10 == tens && n % 10 == u;
    assert NatToDecimal(n) == NatToDecimal(tens) + [DigitChar(u)];
  }

  /** The text before the first space of `toString()` reads back as the number. */
  lemma ToStringNumberRoundTrip(s: HttpStatusCode)
    ensures ' ' in ToString(s)
    ensures ParseDecimal(ToString(s)[..IndexOf(ToString(s), ' ')]) == Some(s.number)
    ensures ToString(s)[IndexOf(ToString(s), ' ') + 1..] == s.message
  {
    var digits := IntToDecimal(s.number);
    var r := ToString(s);
    DecimalHasNoSpace(s.number);
    assert r[|digits|] == ' ';
    assert ' ' !in r[..|digits|] by { assert r[..|digits|] == digits; }
    IndexOfIsFirst(r, ' ', |digits|);
    assert r[..|digits|] == digits;
    DecimalRoundTrip(s.number);
  }

  lemma DecimalHasNoSpace(n: int)
    ensures ' ' !in IntToDecimal(n)
  {
    IntToDecimalChars(n);
  }
}
