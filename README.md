# cgi-kts in Dafny

cgi-kts serves Kotlin scripts (`*.cgi.kts`) as CGI programs. It has two
processes that talk over a Unix socket:

- **The relay.** The web server runs a small C program, the relay
  (`call_kt_cgi_daemon.c`). It turns the name it was invoked under into a
  17-byte *short name* and sends that name. It answers the daemon's
  environment-variable requests byte by byte, then prints the response
  that arrives in the daemon's final frame.
- **The daemon.** A long-running Kotlin process (`DaemonMain.kt`) watches a
  script directory. It indexes every file under its short name and
  compiles changed files into a script cache (`ScriptCache.kt`). For each
  connection it runs the cached script, forwarding the script's
  environment-variable requests to the relay.

Scripts build their answer with the client API:

- status codes (`HttpStatusCode.kt`);
- the response and header builders, and Set-Cookie values
  (`ResponseBuilding.kt`);
- CGI meta-variable accessors and the query-string parser (`CgiScript.kt`);
- the response holder (`CgiResponseInfo.kt`).

A script can declare Maven Central dependencies
(`CgiScriptCompilationConfiguration.kt`). Compiler diagnostics are logged
through `LoggingUtils.kt`.

This project models that core and proves properties of it.

| module | file | models |
|---|---|---|
| `Wrappers` | wrappers.dfy | `Option` and `Result` |
| `Text` | text.dfy | the Kotlin string operations used by the core: `removeSuffix`, `padStart`, `takeLast`, `replace`, `split`, `joinToString`, `substringAfterLast`, `isBlank`, decimal `toString` |
| `Unicode` | unicode.dfy | bytes, UTF-8 `encodeToByteArray` / `decodeToString`, UTF-16 code units |
| `Int32` | int32.dfy | 32-bit wrap-around, little-endian `int` bytes, C's truncating `/` and `%` |
| `ShortNames` | short_names.dfy | the short name as each end derives it: `String.hashCode`, `hash`, `toString(36)`, `base36`, `generate_short_name` |
| `Relay` | relay.dfy | `hash`, `base36`, `generate_short_name` over arrays; the relay's `main` loop and `signal_handler`'s final-frame reader |
| `Status` | status.dfy | the `HttpStatusCode` table, `toString`, the `HttpStatusCode(code)` lookup |
| `CgiScripts` | cgi_script.dfy | `CgiResponseInfo`, the `CgiScript` accessors, `query`, `requestType`, `stop`, `respond(text)` |
| `ScriptCaches` | cache.dfy | `ScriptCache`: `uncache`, `contains`, `compile`, `evaluate` |
| `Connection` | connection.dfy | the daemon's connection handler: frames, the 4-byte reply, the identifier lookup |
| `Conversation` | conversation.dfy | both ends together: one whole connection, and the final-frame mismatch |
| `Responses` | response.dfy | `ResponseBuilder`, `HeaderBuilder`, cookies, `respond(code) { … }`, `html` |
| `Watcher` | watcher.dfy | one cycle of the daemon's directory watcher |
| `Maven` | maven.dfy | `handleMavenCentral`: coordinates, fields, repository path and URL, the annotation loop |
| `CookieDates` | cookie_date.dfy | `cookieDateTimeFormat`, and the cookie-date algorithm of section 5.1.1 of RFC 6265 that reads it back |
| `Logging` | logging.dfy | `ScriptDiagnostic.logTo`: level and message text |

The following are parameters of the model:

- the Kotlin compiler and evaluator;
- the content hash (imohash);
- whether a download succeeds;
- URL decoding;
- the HTML renderer.

The directory and the socket are values: a set of existing paths, a listing
of (path, hash) pairs, and the byte sequences each end receives.

## Model

| member | source | states |
|---|---|---|
| Int32.Wrap32 | call_kt_cgi_daemon.c:90 | the result is an `int` congruent to its argument modulo 2^32, and equal to it when it already fits |
| Int32.LittleEndianRoundTrip | scripting-host/src/main/kotlin/DaemonMain.kt:173-184 | reading back the four little-endian bytes of an `int` gives that `int` |
| Int32.LittleEndianBytesRoundTrip | call_kt_cgi_daemon.c:51-62 | every four bytes are the little-endian encoding of the `int` they read as |
| Int32.CRem | call_kt_cgi_daemon.c:98-99 | C's `%` pairs with its `/`: `a == (a / b) * b + a % b`, with the remainder taking the sign of `a` |
| Text.RemoveSuffix | scripting-host/src/main/kotlin/DaemonMain.kt:45 | the suffix is removed only when present; otherwise the text is unchanged |
| Text.PadStart | scripting-host/src/main/kotlin/DaemonMain.kt:54 | the result has at least `n` characters, ends with the input, and is filled with the pad character in front |
| Text.TakeLast | scripting-host/src/main/kotlin/DaemonMain.kt:55 | the result has at most `n` characters and is a suffix of the input |
| Text.ReplaceChar | scripting-client/src/main/kotlin/CgiScriptCompilationConfiguration.kt:88 | same length; every occurrence of the first character becomes the second, nothing else changes |
| Text.SplitJoin | scripting-client/src/main/kotlin/api/CgiScript.kt:27-28 | joining the pieces of a split with the delimiter gives the text back |
| Text.SplitOfJoin | scripting-host/src/main/kotlin/ScriptCache.kt:88 | pieces free of the delimiter, joined with it, split back into those pieces |
| Text.SplitCount | scripting-client/src/main/kotlin/CgiScriptCompilationConfiguration.kt:49 | a split has one more piece than the text has delimiters |
| Text.SubstringAfterLast | scripting-host/src/main/kotlin/LoggingUtils.kt:26 | the result is a delimiter-free suffix that starts right after the last delimiter, if there is one |
| Text.DecimalRoundTrip | scripting-client/src/main/kotlin/api/HttpStatusCode.kt:86 | the decimal text of an `Int` parses back to it |
| Unicode.DecodeEncode | scripting-client/src/main/kotlin/CgiResponseInfo.kt:9-13 | decoding the UTF-8 encoding of a string gives the string back |
| Unicode.EncodeAppend | scripting-host/src/main/kotlin/DaemonMain.kt:139-144 | UTF-8 encoding distributes over concatenation |
| Unicode.AsciiUtf16 | scripting-host/src/main/kotlin/DaemonMain.kt:46-52 | for ASCII text the UTF-16 code units are the UTF-8 bytes, so `length` counts bytes |
| ShortNames.HashesAgreeOnAscii | call_kt_cgi_daemon.c:86-93 | on ASCII names the relay's `hash` over signed chars equals Java's `String.hashCode`, both wrapping at 32 bits |
| ShortNames.HashString | scripting-host/src/main/kotlin/DaemonMain.kt:52-55 | the daemon's hash string always has exactly 6 characters |
| ShortNames.HashStringIsLowDigits | scripting-host/src/main/kotlin/DaemonMain.kt:53-55 | for a non-negative hash, `toString(36).padStart(6,'0').takeLast(6)` is the lowest six base-36 digits, most significant first |
| ShortNames.HashStringCharacters | scripting-host/src/main/kotlin/DaemonMain.kt:53-56 | every character of the hash string is a base-36 digit or '-', so it is ASCII and never NUL |
| ShortNames.DaemonShortName | scripting-host/src/main/kotlin/DaemonMain.kt:46-57 | a base name shorter than 16 UTF-16 units is its own short name; otherwise the short name ends with U+0001 and the 6-character hash string |
| ShortNames.LongAsciiShortName | scripting-host/src/main/kotlin/DaemonMain.kt:48-56 | an ASCII base name of 16 or more characters gives its first 9 characters, U+0001 and the hash string: 16 characters |
| ShortNames.CShortName | call_kt_cgi_daemon.c:105-120 | 17 bytes whenever defined; undefined exactly when the name is longer than 16 bytes and its hash is negative |
| ShortNames.CShortNameOfShort | call_kt_cgi_daemon.c:107-110 | a name of at most 16 bytes is copied and zero-padded to 17 bytes |
| ShortNames.CShortNameOfLong | call_kt_cgi_daemon.c:112-118 | a longer name with a non-negative hash gives bytes 0-8 of the name, byte 1, six base-36 digits of the hash, byte 0 |
| ShortNames.DropTrailingZeros | scripting-host/src/main/kotlin/DaemonMain.kt:150 | the result is a prefix ending in a nonzero byte, and everything dropped is zero |
| ShortNames.ReceivedShortName | scripting-host/src/main/kotlin/DaemonMain.kt:149-152 | the daemon recovers a name of at most 16 bytes (not ending in NUL) from the relay's padded 17 bytes |
| ShortNames.ShortNamesAgree | call_kt_cgi_daemon.c:105-120 | for ASCII file names of any length but 16 (and a non-negative hash when longer), the identifier the daemon reads from the relay's 17 bytes is the daemon's own short name |
| ShortNames.SixteenByteNamesDisagree | call_kt_cgi_daemon.c:107 | a 16-byte name is sent verbatim while the daemon hashes it, so the two ends disagree |
| ShortNames.NegativeHashUnnamed | call_kt_cgi_daemon.c:98 | a name longer than 16 bytes with a negative hash has no defined relay short name, while the daemon still names it |
| ShortNames.CShortNameCorrected | call_kt_cgi_daemon.c:105-120 | the corrected relay short name: always 17 bytes |
| ShortNames.CorrectionKeepsLongNames | call_kt_cgi_daemon.c:112-118 | the correction agrees with the code as written wherever that is defined for long names |
| ShortNames.CorrectedShortNamesAgree | scripting-host/src/main/kotlin/DaemonMain.kt:46-57 | with the correction, both ends agree on every ASCII file name |
| Relay.CString | call_kt_cgi_daemon.c:107 | the bytes before the first NUL: a NUL-free prefix followed by a NUL when one exists |
| Relay.Hash | call_kt_cgi_daemon.c:87-93 | the loop computes the wrapped polynomial hash of the C string's signed chars |
| Relay.Base36 | call_kt_cgi_daemon.c:95-103 | succeeds exactly when the number is non-negative, then yields its lowest six base-36 digits and a NUL |
| Relay.GenerateShortName | call_kt_cgi_daemon.c:105-120 | the 17 bytes written are the relay short name of the C string, and fail exactly when that is undefined |
| Relay.EnvReply | call_kt_cgi_daemon.c:220-231 | read back as a little-endian `int`, the first four bytes give the value's length for a set variable and -1 for an unset one; the value's bytes follow with no terminator, and an unset variable gets nothing after the length |
| Relay.FinalRead | call_kt_cgi_daemon.c:50-78 | the final reader writes nothing to the socket; fewer than four length bytes, or a negative length, end the relay with exit code 1 after printing the error response |
| Relay.FinalReadOfLengthFrame | call_kt_cgi_daemon.c:50-78 | a length-prefixed payload is printed exactly, and the relay exits 0 |
| Relay.FinalReadOfShortFrame | call_kt_cgi_daemon.c:64-69 | fewer bytes than the length announces print RESPONSE_ERROR and exit 1 |
| Relay.FinalReadExits | call_kt_cgi_daemon.c:50-78 | the final reader exits 1 with RESPONSE_ERROR, or exits 0 having printed at most the announced length, none of it NUL |
| Relay.ReadFrame | call_kt_cgi_daemon.c:185-216 | classifies the bytes at a tag: final, a NUL-terminated request name that fits the buffer, end of stream, or a name that never ends or overflows |
| Relay.ServeFinal | call_kt_cgi_daemon.c:199-202 | a nonzero tag hands the rest of the stream to the final reader |
| Relay.ServeEnvExchange | call_kt_cgi_daemon.c:204-233 | a request frame is answered with the variable's reply, then the loop reads the next tag |
| Relay.ServeHangs | call_kt_cgi_daemon.c:204-216 | a name the stream never terminates makes the inner loop spin on end of file |
| Relay.ServeOverflows | call_kt_cgi_daemon.c:204-216 | a name longer than `general_buffer` overruns it, which C leaves undefined |
| Relay.ServeExits | call_kt_cgi_daemon.c:185-234 | the relay exits only with 0 or 1, exit 1 always prints RESPONSE_ERROR, and what it prints on exit 0 holds no NUL |
| Relay.ServeRequests | call_kt_cgi_daemon.c:180-234 | the byte-by-byte loop computes the main-loop specification |
| Relay.RunRelay | call_kt_cgi_daemon.c:126-234 | `main` with no slash in `argv[0]` prints RESPONSE_ERROR; otherwise it sends the short name and runs the loop |
| Relay.RelaySpecNamed | call_kt_cgi_daemon.c:170-172 | the relay's first 17 bytes are the short name of the text after the last '/' |
| Connection.FinalFrame | scripting-host/src/main/kotlin/DaemonMain.kt:139-144 | the final frame is byte 1, the message's UTF-8 bytes, byte 0 |
| Connection.RequestFrame | scripting-host/src/main/kotlin/DaemonMain.kt:180-181 | a request frame is byte 0, the name's UTF-8 bytes, byte 0 |
| Connection.ReadReply | scripting-host/src/main/kotlin/DaemonMain.kt:182-194 | a negative length means null; otherwise exactly that many bytes are read and decoded with trailing zeros dropped; too few bytes end the stream |
| Connection.ReadNullReply | scripting-host/src/main/kotlin/DaemonMain.kt:186 | a negative length reads as null and uses four bytes |
| Connection.ReadValueReply | scripting-host/src/main/kotlin/DaemonMain.kt:188-194 | a length-prefixed value not ending in NUL reads back as its decoding |
| Connection.Exchange | scripting-host/src/main/kotlin/DaemonMain.kt:175-195 | the request-and-reply loop computes the conversation specification |
| Connection.Handle | scripting-host/src/main/kotlin/DaemonMain.kt:146-198 | the handler computes the whole-connection specification |
| Connection.ConverseSent | scripting-host/src/main/kotlin/DaemonMain.kt:175-195 | while the script runs, the daemon sends exactly one request frame per name asked, in order |
| Connection.SessionFrames | scripting-host/src/main/kotlin/DaemonMain.kt:135-199 | a connection sends the request frames, then at most one final frame, last, and only when there is a response |
| Connection.UnknownIdentifier | scripting-host/src/main/kotlin/DaemonMain.kt:154-158 | an unknown identifier gets exactly one frame carrying `HTTP/1.1 404 Not Found\r\n\r\n` |
| Connection.UncachedScript | scripting-host/src/main/kotlin/DaemonMain.kt:160-171 | a known identifier with no cached script gets exactly one frame carrying the 500 status, a blank line and "This script failed to compile." |
| Conversation.RequestServed | call_kt_cgi_daemon.c:204-233 | the relay answers the daemon's request frame for a variable with the reply for that variable |
| Conversation.ReplyRoundTrip | scripting-host/src/main/kotlin/DaemonMain.kt:182-194 | the daemon reads the relay's reply as the variable's value, or null when it is unset |
| Conversation.AsWrittenFinalFrameRejected | scripting-host/src/main/kotlin/DaemonMain.kt:139-144 | the relay reads "HTTP" as a length of more than a billion bytes, so it prints RESPONSE_ERROR and exits 1 instead of the daemon's response |
| Conversation.AsWrittenConversation | scripting-host/src/main/kotlin/DaemonMain.kt:135-199 | the whole connection as written: the daemon completes the exchange, and the relay prints RESPONSE_ERROR and exits 1 |
| Conversation.CorrectedFinalFrame | call_kt_cgi_daemon.c:50-73 | the corrected final frame: byte 1, the little-endian length, the message, byte 0 |
| Conversation.CorrectedFinalFrameDelivered | call_kt_cgi_daemon.c:50-78 | the relay prints a NUL-free response sent in the corrected frame exactly, and exits 0 |
| Conversation.CorrectedConversation | call_kt_cgi_daemon.c:126-234 | with the corrected frame, a whole connection delivers the script's response to the relay's stdout and exits 0 |
| Conversation.RelaySide | call_kt_cgi_daemon.c:185-234 | the relay answers a run of request frames with the run of replies, in order |
| Conversation.DaemonSide | scripting-host/src/main/kotlin/DaemonMain.kt:175-195 | given the relay's replies, the daemon asks for every name and finishes the script |
| Status.FromCode | scripting-client/src/main/kotlin/api/HttpStatusCode.kt:90-156 | the status always carries the code it was looked up with |
| Status.ConstantsAreLookedUp | scripting-client/src/main/kotlin/api/HttpStatusCode.kt:91-138 | 200, 404 and 500 map to their named constants |
| Status.ClassByHundreds | scripting-client/src/main/kotlin/api/HttpStatusCode.kt:90-156 | 200-599 are classed by their hundreds digit; every other code is Unknown |
| Status.UnlistedFallback | scripting-client/src/main/kotlin/api/HttpStatusCode.kt:150-155 | an unlisted code gets the phrase of its range: "Informational" for 100-199, "Other …" for 200-599, "Unknown" elsewhere |
| Status.SwitchProxyFallback | scripting-client/src/main/kotlin/api/HttpStatusCode.kt:152 | 306 is not named and becomes Redirect "Other Redirect" |
| Status.ConstantTexts | scripting-client/src/main/kotlin/api/HttpStatusCode.kt:85-87 | `toString` of the two constants the daemon writes: "404 Not Found", "500 Internal Server Error" |
| Status.ToStringNumberRoundTrip | scripting-client/src/main/kotlin/api/HttpStatusCode.kt:85-87 | `toString` is the number, one space and the message: the text before the first space parses back to the number, and the rest is the message |
| CgiScripts.CgiResponseInfo.constructor | scripting-client/src/main/kotlin/CgiResponseInfo.kt:6-15 | the callback is the one passed; `result` starts unset |
| CgiScripts.CgiResponseInfo.SetOldResult | scripting-client/src/main/kotlin/CgiResponseInfo.kt:9-13 | setting `oldResult` stores the UTF-8 encoding, and getting it returns the original string |
| CgiScripts.ValueOfNames | scripting-client/src/main/kotlin/api/HttpRequestType.kt:3-12 | `valueOf` accepts exactly the eight method names and fails on anything else |
| CgiScripts.DecodeAll | scripting-client/src/main/kotlin/api/CgiScript.kt:28 | every piece is decoded, in order, and the whole fails when any decoding fails |
| CgiScripts.PairsOf | scripting-client/src/main/kotlin/api/CgiScript.kt:27-30 | every `&`-part becomes its pair, in order |
| CgiScripts.AssociateLastWins | scripting-client/src/main/kotlin/api/CgiScript.kt:27-30 | the map holds a key iff some pair has it, with the value of the last such pair |
| CgiScripts.PairWithoutEquals | scripting-client/src/main/kotlin/api/CgiScript.kt:28 | a part without '=' makes `query` fail |
| CgiScripts.PairWithTwoEquals | scripting-client/src/main/kotlin/api/CgiScript.kt:28 | text after a second '=' is dropped |
| CgiScripts.ParseQueryText | scripting-client/src/main/kotlin/api/CgiScript.kt:24-31 | a query string written from pairs parses back to the map of those pairs |
| CgiScripts.CgiScript.VariableOrEmpty | scripting-client/src/main/kotlin/api/CgiScript.kt:16-19 | `requestUri`, `queryString` and (line 34) `userAgent` each make one request and gives the value, or "" when it is unset |
| CgiScripts.CgiScript.Query | scripting-client/src/main/kotlin/api/CgiScript.kt:24-31 | a blank query string gives the empty map after one request; otherwise QUERY_STRING is requested twice and the map is the query string's parse |
| CgiScripts.CgiScript.RequestType | scripting-client/src/main/kotlin/api/CgiScript.kt:37-38 | one REQUEST_METHOD request; GET when unset, otherwise the method whose name equals the value |
| CgiScripts.CgiScript.Respond | scripting-client/src/main/kotlin/api/CgiScript.kt:57-59 | `respond(text)` stores `text` as the result, replacing any earlier one |
| ScriptCaches.AbsolutePath | scripting-host/src/main/kotlin/ScriptCache.kt:26-30 | an absolute path is kept, and a relative one resolved against an absolute directory becomes absolute |
| ScriptCaches.AbsolutePathIdempotent | scripting-host/src/main/kotlin/ScriptCache.kt:26-30 | resolving twice gives the same key as resolving once |
| ScriptCaches.SourceOf | scripting-host/src/main/kotlin/ScriptCache.kt:36 | the script's logical name is the file name with `.cgi.kts` removed when present |
| ScriptCaches.ScriptCache.constructor | scripting-host/src/main/kotlin/ScriptCache.kt:20-22 | the cache starts empty |
| ScriptCaches.ScriptCache.Uncache | scripting-host/src/main/kotlin/ScriptCache.kt:26-28 | removes only the path's key; every other entry is unchanged |
| ScriptCaches.ScriptCache.Compile | scripting-host/src/main/kotlin/ScriptCache.kt:32-54 | success stores the compiled script under the absolute path and returns true; failure returns false and leaves the cache unchanged |
| ScriptCaches.ScriptCache.Evaluate | scripting-host/src/main/kotlin/ScriptCache.kt:56-104 | an uncached path gives the compile-failure text; a body that returned or stopped gives the text whose UTF-8 bytes it left as its result, or the no-result text when it left none; a body that threw gives the failure text built from its reports |
| ScriptCaches.Wrapped | scripting-host/src/main/kotlin/ScriptCache.kt:69-76 | the stop exception counts as normal completion, and any other throwable is a failure |
| ScriptCaches.StopIsNormal | scripting-host/src/main/kotlin/ScriptCache.kt:72-74 | stopping gives the same response as returning |
| ScriptCaches.NormalResponse | scripting-host/src/main/kotlin/ScriptCache.kt:93-103 | a normal end answers with the text the script set, or "This script failed to respond." when it set none |
| ScriptCaches.FailureReportsRecoverable | scripting-host/src/main/kotlin/ScriptCache.kt:81-90 | a failure answers with the 500 head, the reports joined by '\n' and "\r\n\r\n", and the reports can be split back out |
| Responses.AddedIsSetInsertion | scripting-client/src/main/kotlin/api/ResponseBuilding.kt:77 | headers are an insertion-ordered set: adding keeps the order, adds the pair once, and adding it again changes nothing |
| Responses.SameKeyTwice | scripting-client/src/main/kotlin/api/ResponseBuilding.kt:38-45 | the same key with two values gives two headers; the same pair twice gives one |
| Responses.ResponseBuilder.constructor | scripting-client/src/main/kotlin/api/ResponseBuilding.kt:76-79 | no headers and no text |
| Responses.ResponseBuilder.AddHeader | scripting-client/src/main/kotlin/api/ResponseBuilding.kt:38-45 | adds the pair to the header set and leaves the text |
| Responses.ResponseBuilder.Html | scripting-client/src/main/kotlin/api/ResponseBuilding.kt:97-101 | adds Content-Type text/html, appends the page, then adds Content-Length equal to the total text length |
| Responses.HeaderBuilder.Invoke | scripting-client/src/main/kotlin/api/ResponseBuilding.kt:39-41 | `key(value)` adds the pair |
| Responses.HeaderBuilder.Set | scripting-client/src/main/kotlin/api/ResponseBuilding.kt:43-45 | `set(key, value)` adds the same pair as `key(value)` |
| Responses.HeaderBuilder.Cookie | scripting-client/src/main/kotlin/api/ResponseBuilding.kt:50-73 | adds one Set-Cookie header carrying the cookie value |
| Responses.InWholeSeconds | scripting-client/src/main/kotlin/api/ResponseBuilding.kt:69 | Max-Age is the duration's whole seconds, truncated toward zero |
| CookieDates.CookieDateExample | scripting-client/src/main/kotlin/api/ResponseBuilding.kt:14-27 | the Expires format writes 6 November 1994, 08:49:37 as "Sun, 06Nov1994 08:49:37 GMT" |
| CookieDates.CookieDateTokens | scripting-client/src/main/kotlin/api/ResponseBuilding.kt:14-27 | a date in that format splits, under the cookie-date delimiters of section 5.1.1 of RFC 6265, into four tokens: the weekday, day-month-year run together, the time and "GMT" |
| CookieDates.CookieDateRejected | scripting-client/src/main/kotlin/api/ResponseBuilding.kt:68 | no valid date written in that format is read back by the RFC 6265 cookie-date algorithm: the month is never found |
| CookieDates.ImfTokens | scripting-client/src/main/kotlin/api/ResponseBuilding.kt:14-27 | the corrected layout (the IMF-fixdate of section 5.6.7 of RFC 9110) splits into six tokens: weekday, day, month, year, time and "GMT" |
| CookieDates.ImfFixdateParses | scripting-client/src/main/kotlin/api/ResponseBuilding.kt:14-27 | every valid date from 1601 on, written as an IMF-fixdate, is read back by the cookie-date algorithm as the same day, month, year and time |
| Responses.CookieLayout | scripting-client/src/main/kotlin/api/ResponseBuilding.kt:62-72 | the value is `name=value`, then "; " and each enabled attribute, in the order Secure, HttpOnly, SameSite, Partitioned, Expires, Max-Age, Domain, Path |
| Responses.FlagAttributes | scripting-client/src/main/kotlin/api/ResponseBuilding.kt:64-69 | Secure, HttpOnly and Partitioned appear iff enabled; SameSite and Max-Age appear whenever they are given |
| Responses.CookieSplits | scripting-client/src/main/kotlin/api/ResponseBuilding.kt:62-72 | with no ';' in its parts, the value splits on ';' back into `name=value` and the attributes |
| Responses.Respond | scripting-client/src/main/kotlin/api/ResponseBuilding.kt:82-93 | the result becomes the status line, one `key: value` line per header, an empty line and the text, replacing any earlier result |
| Responses.ResponseLines | scripting-client/src/main/kotlin/api/ResponseBuilding.kt:85-92 | the response splits on LF into the status line, the headers in insertion order, an empty line and the text |
| Logging.LevelOf | scripting-host/src/main/kotlin/LoggingUtils.kt:13-19 | ERROR and FATAL, and only they, map to the error level |
| Logging.LevelOfRank | scripting-host/src/main/kotlin/LoggingUtils.kt:13-19 | DEBUG, INFO and WARNING map to their own levels, FATAL to ERROR |
| Logging.LevelOfMonotone | scripting-host/src/main/kotlin/LoggingUtils.kt:13-19 | a more severe diagnostic never logs at a lower level |
| Logging.LogTo | scripting-host/src/main/kotlin/LoggingUtils.kt:8-39 | the level is the severity's; the message starts with the diagnostic's and is unchanged exactly when there is no location suffix; the exception is attached iff requested |
| Logging.SuffixBaseName | scripting-host/src/main/kotlin/LoggingUtils.kt:24-26 | the suffix names the source by the part after its last separator |
| Logging.MessageLayout | scripting-host/src/main/kotlin/LoggingUtils.kt:22-35 | the message with a suffix is the diagnostic's, then " (", the base name, the start line and column, and ")", with ':' between base name and line only when both are present |
| Logging.SuffixColumn | scripting-host/src/main/kotlin/LoggingUtils.kt:27-33 | the suffix ends with ':', the start column and ')' |
| Watcher.Kept | scripting-host/src/main/kotlin/DaemonMain.kt:37-42 | the removal pass keeps exactly the entries whose path still exists, unchanged |
| Watcher.KeptOrVanished | scripting-host/src/main/kotlin/DaemonMain.kt:37-42 | an entry is either kept or has its path queued for eviction |
| Watcher.WalkIndexes | scripting-host/src/main/kotlin/DaemonMain.kt:44-67 | whatever the hashes, the walk enters every listed file under its short name |
| Watcher.IndexedLast | scripting-host/src/main/kotlin/DaemonMain.kt:63-64 | the last listed file with a given short name wins; a name nobody lists keeps its old entry |
| Watcher.QueueGrows | scripting-host/src/main/kotlin/DaemonMain.kt:65 | files are queued in walk order |
| Watcher.QueueFromListing | scripting-host/src/main/kotlin/DaemonMain.kt:44-65 | only listed files are queued |
| Watcher.StaleQueued | scripting-host/src/main/kotlin/DaemonMain.kt:63-66 | a file whose entry or hash differs at its turn is queued |
| Watcher.UnrecordedQueued | scripting-host/src/main/kotlin/DaemonMain.kt:63-66 | a file whose current hash is not recorded is queued, whatever `fileMap` holds |
| Watcher.SteadyWalk | scripting-host/src/main/kotlin/DaemonMain.kt:63-66 | when every file is indexed and recorded, the walk changes nothing and queues nothing |
| Watcher.CollidingRequeued | scripting-host/src/main/kotlin/DaemonMain.kt:63-66 | of two files with the same short name, the earlier one is queued again on the next cycle |
| Watcher.RecordedKeeps | scripting-host/src/main/kotlin/DaemonMain.kt:72-74 | hash entries are never removed, and a file none of whose compiles succeeds keeps its old hash |
| Watcher.FailingFileRequeued | scripting-host/src/main/kotlin/DaemonMain.kt:72-74 | a file that fails to compile is queued again on the next cycle |
| Watcher.Checker.RemovalPass | scripting-host/src/main/kotlin/DaemonMain.kt:37-42 | the loop leaves the kept entries and lists exactly the vanished paths, one per removed entry |
| Watcher.Checker.WalkPass | scripting-host/src/main/kotlin/DaemonMain.kt:44-67 | the loop computes the walk specification: the new `fileMap` and the compile queue |
| Watcher.Checker.CompileTask | scripting-host/src/main/kotlin/DaemonMain.kt:70-75 | one task updates the cache through `compile` and records the hash only on success |
| Watcher.Checker.CompileAll | scripting-host/src/main/kotlin/DaemonMain.kt:69-76 | the tasks in queue order give the cache and the hashes of the compile specification |
| Watcher.Checker.EvictAll | scripting-host/src/main/kotlin/DaemonMain.kt:78-83 | each removed path's key leaves the cache |
| Watcher.Checker.Cycle | scripting-host/src/main/kotlin/DaemonMain.kt:33-83 | one cycle: the removal pass, the walk, the compile tasks, then the evictions, in terms of the specifications above |
| Maven.CoordinatesAccepted | scripting-client/src/main/kotlin/CgiScriptCompilationConfiguration.kt:85-87 | coordinates are accepted iff they hold exactly 2 or 3 colons; otherwise the error is "Invalid coordinates: …" |
| Maven.CoordinatesRoundTrip | scripting-client/src/main/kotlin/CgiScriptCompilationConfiguration.kt:86-96 | `group:name:version` gives those fields back, the group's dots made slashes, no classifier, extension "jar" |
| Maven.ClassifiedRoundTrip | scripting-client/src/main/kotlin/CgiScriptCompilationConfiguration.kt:91-94 | a fourth field becomes the classifier part "-" + classifier |
| Maven.ExtensionSwallowed | scripting-client/src/main/kotlin/CgiScriptCompilationConfiguration.kt:49 | an `@extension` suffix stays in the version, and the extension is "jar" |
| Maven.CorrectedExtensionRoundTrip | scripting-client/src/main/kotlin/CgiScriptCompilationConfiguration.kt:49 | with the corrected pattern, `group:name:version@extension` gives all four fields back |
| Maven.CorrectedAgreesWithoutSuffix | scripting-client/src/main/kotlin/CgiScriptCompilationConfiguration.kt:49 | without '@' the corrected parse is the parse as written |
| Maven.CoordinatesFirst | scripting-client/src/main/kotlin/CgiScriptCompilationConfiguration.kt:85 | non-blank coordinates decide the artifact, whatever the fields say |
| Maven.FieldForm | scripting-client/src/main/kotlin/CgiScriptCompilationConfiguration.kt:98-111 | a blank group, artifact or version fails, in that order, with its own message; otherwise the fields are taken, with the classifier part only for a non-blank classifier |
| Maven.GroupIsPath | scripting-client/src/main/kotlin/CgiScriptCompilationConfiguration.kt:88 | in both forms, the group's dots become '/', and its length is kept |
| Maven.UrlShape | scripting-client/src/main/kotlin/CgiScriptCompilationConfiguration.kt:115-116 | the URL is Maven Central's followed by the path, and the path ends in `name-version{classifier}.extension` |
| Maven.PathSegments | scripting-client/src/main/kotlin/CgiScriptCompilationConfiguration.kt:115 | the path splits on '/' into the group's segments, the name, the version and the file name |
| Maven.MavenOnlyKeeps | scripting-client/src/main/kotlin/CgiScriptCompilationConfiguration.kt:68-69 | only the Maven Central annotations are resolved, all of them |
| Maven.ResolveSucceeds | scripting-client/src/main/kotlin/CgiScriptCompilationConfiguration.kt:74-163 | the loop succeeds exactly when every annotation resolves |
| Maven.ResolveAppends | scripting-client/src/main/kotlin/CgiScriptCompilationConfiguration.kt:149-152 | on success, one dependency is appended per annotation, in order, after the original ones |
| Maven.ResolveStops | scripting-client/src/main/kotlin/CgiScriptCompilationConfiguration.kt:153-159 | processing stops at the first failing annotation and reports its failure |
| Maven.NothingToResolve | scripting-client/src/main/kotlin/CgiScriptCompilationConfiguration.kt:68-70 | with no Maven Central annotations the configuration is returned unchanged |
| Maven.HandleAnnotations | scripting-client/src/main/kotlin/CgiScriptCompilationConfiguration.kt:67-164 | the loop with its early returns computes the handler specification |

## Left out

- I/O and processes are not modelled. This covers:
  - the socket and its binding, `setfacl`, the shutdown hook, `connect`, `raise(SIGUSR1)`, `printf` and `perror`;
  - the single-thread executor;
  - `SingleExecutionMain.kt`;
  - the build files.

  Only the byte sequences the two ends exchange are modelled.
- Each read is assumed to fill its buffer. When fewer bytes remain, the stream has ended and the model stops there. Partial socket reads are not modelled.
- The daemon past the end of the stream is not modelled. The handler then stops with no response.
- Concurrency is not modelled. The `launch`ed compile and eviction tasks run one after another, in launch order. `delay(5.seconds)` and the endless loop are one cycle.
- The imohash file hash, the file contents and the directory walk are parameters:
  - the walk is a listing of (path, hash) pairs;
  - existence is a set of paths.
- The Kotlin compiler, the evaluator and `ScriptDiagnostic.render` are parameters. An evaluation is summed up by how the body ended and the result it left.
- Cache persistence (`SerializableBackedMutableMap.kt`, `cache.save`) is not modelled. The cache is a plain map.
- Artifact download and SHA-1 checking are not modelled. Whether fetching a URL succeeds is a parameter.
- `handleMavenAnnotations`, `handleFile` and `handleUrl` are not modelled. They are network and filesystem I/O.
- Foreign libraries are parameters: the HTML renderer and `URLDecoder.decode`.
- CookieDates.CookieDateText: an `Instant` is given by its UTC calendar fields, and its weekday is taken as given rather than computed. Years outside 0 to 9999 are written as plain decimals, without kotlinx's sign or padding rules.
- CgiScripts.CgiScript.Respond, Responses.Respond, ScriptCaches.ResponseOf: `CgiResponseInfo.result` is a `ByteArray`, yet `respond(text)` (CgiScript.kt:58) and `respond(code) { … }` (ResponseBuilding.kt:85) assign it a `String`, and `evaluate` (ScriptCache.kt:94) returns it where a `String` is expected. These lines do not type-check as written. The model stores the result as the UTF-8 bytes of the text, as `oldResult` does, and `evaluate` decodes them back.
- Relay.Hash, ShortNames.HashesAgreeOnAscii: the C `hash` loop is read with two assumptions. `char` is signed, which C leaves to the implementation. Signed overflow of `int` wraps modulo 2^32 in two's complement, which C leaves undefined. Only under both does the relay's hash agree with `String.hashCode`.
- Maven.LocalCopy: joins the home directory and the path with slashes. It does not normalise paths as `Path(...)` does.
- ScriptCaches.AbsolutePath: resolves against the working directory. It does not normalise `.` or `..`.
- Responses.InWholeSeconds: durations are nanosecond integers. Infinite durations are not modelled.
- Relay.RunRelay: only the build without `RUN_AS_MAIN` is modelled. A `malloc` that fails is not modelled.
- Relay.Serve: `getenv` matches the whole buffer as a name. A name containing '=' is not treated specially.
- UTF-8 decoding of malformed input replaces each offending byte with U+FFFD. The JVM replaces each maximal ill-formed subpart, so the model only covers well-formed input exactly. Strings are sequences of Unicode scalar values, so lone surrogates cannot be expressed.
- The failure location passed to `fail` is not modelled. Only the message text is.
- Connection.Handle keeps the daemon's final frame as written. The mismatch with the relay is under "Findings", and the corrected frame is proved in its own lemmas.
- Maven.HandleAnnotations keeps the coordinate parse as written. The corrected parse is proved in its own lemmas.

## Findings

| source | as written | input that shows it | evidently intended | confidence | as-written member | corrected member |
|---|---|---|---|---|---|---|
| scripting-host/src/main/kotlin/DaemonMain.kt:139-144 | the final frame is byte 1, the message and byte 0; the relay (call_kt_cgi_daemon.c:50-73) reads four bytes after the tag as a length | any response starting "HTTP": the relay reads "HTTP" as a length of 1347703880 | byte 1, the little-endian length, the message, byte 0 | not executed | Conversation.AsWrittenFinalFrameRejected | Conversation.CorrectedFinalFrameDelivered |
| call_kt_cgi_daemon.c:107 | names of at most 16 bytes are sent verbatim, while the daemon (DaemonMain.kt:46) hashes names of 16 characters | any 16-character ASCII base name, such as "abcdefghijklmnop" | both ends use the same bound | not executed | ShortNames.SixteenByteNamesDisagree | ShortNames.CorrectedShortNamesAgree |
| call_kt_cgi_daemon.c:98 | `num % 36` of a negative hash indexes before the alphabet, which C leaves undefined | a name of more than 16 bytes whose hash is negative | the daemon's `toString(36).padStart(6,'0').takeLast(6)` of the signed hash | not executed | ShortNames.NegativeHashUnnamed | ShortNames.CorrectedShortNamesAgree |
| scripting-client/src/main/kotlin/api/ResponseBuilding.kt:14-27 | `dayOfMonth()`, `monthName(…)` and `year()` follow each other with no separator | 6 November 1994, 08:49:37 is written "Sun, 06Nov1994 08:49:37 GMT"; the cookie-date algorithm of RFC 6265 then finds no month and ignores the Expires attribute | the IMF-fixdate "Sun, 06 Nov 1994 08:49:37 GMT" | not executed | CookieDates.CookieDateRejected | CookieDates.ImfFixdateParses |
| scripting-client/src/main/kotlin/CgiScriptCompilationConfiguration.kt:49 | the `[^:]*` version and classifier groups also match '@', so the `extension` group never matches | "g:a:1.0@pom" resolves as version "1.0@pom", extension "jar" | version "1.0", extension "pom" | not executed | Maven.ExtensionSwallowed | Maven.CorrectedExtensionRoundTrip |
