/**
 * The daemon's side of one connection (DaemonMain.kt, the `channel.accept()`
 * block): read the relay's 17-byte script identifier, look it up, and either
 * answer 404 or a compile failure at once, or run the cached script,
 * forwarding each environment-variable request it makes to the relay and
 * reading the reply, then send the response in the final frame.
 *
 * The relay's side of the socket is the byte sequence `input`; what the
 * daemon writes is `sent`. Every read takes as many bytes as its buffer
 * holds; when fewer remain, the stream has ended and the model stops there.
 */
module Connection {
  import opened Wrappers
  import opened Text
  import opened Unicode
  import opened Int32
  import opened ShortNames
  import opened CgiScripts
  import opened ScriptCaches
  import Status

  /** The size of `scriptBytes`, the buffer the identifier is read into. */
  const NameLength: nat := 17

  /** `respond(message)`: byte 1, the message's UTF-8 bytes, byte 0. */
  function FinalFrame(message: string): (frame: seq<byte>)
    ensures |frame| >= 2 && frame[0] == 1 && frame[|frame| - 1] == 0
    ensures frame[1..|frame| - 1] == Utf8Encode(message)
  {
    [1] + Utf8Encode(message) + [0]
  }

  /** The request for an environment variable: byte 0, the name's UTF-8 bytes, byte 0. */
  function RequestFrame(name: string): (frame: seq<byte>)
    ensures |frame| >= 2 && frame[0] == 0 && frame[|frame| - 1] == 0
    ensures frame[1..|frame| - 1] == Utf8Encode(name)
  {
    [0] + Utf8Encode(name) + [0]
  }

  /** The request frames for `names`, in order. */
  function RequestFrames(names: seq<string>): seq<byte> {
    if names == [] then [] else RequestFrame(names[0]) + RequestFrames(names[1..])
  }

  /** The answer to an unknown identifier: "HTTP/1.1 404 Not Found", then a blank line. */
  const NotFoundMessage: string := "HTTP/1.1 " + Status.ToString(Status.NotFound) + "\r\n\r\n"

  /** The answer to a known identifier whose script is not in the cache. */
  const CompileFailedMessage: string :=
    "HTTP/1.1 " + Status.ToString(Status.InternalServerError) + "\r\n\r\n" + "This script failed to compile."

  /** What the callback makes of the bytes after a request: a value or null and the bytes it took, or a stream too short. */
  datatype ReplyRead = Reply(value: Option<string>, used: nat) | Short

  /**
   * The callback's read: a little-endian `int`; a negative one means null,
   * otherwise that many bytes follow, decoded once trailing zeros are dropped.
   */
  function ReadReply(input: seq<byte>): (r: ReplyRead)
    ensures r.Reply? ==> 4 <= r.used <= |input|
    ensures r.Reply? ==> (r.value.None? <==> FromLittleEndian32(input[..4]) < 0)
    ensures r.Reply? && r.value.Some? ==>
      r.used == 4 + FromLittleEndian32(input[..4]) && r.value.value == Utf8Decode(DropTrailingZeros(input[4..r.used]))
    ensures r.Short? <==> |input| < 4 || (FromLittleEndian32(input[..4]) >= 0 && FromLittleEndian32(input[..4]) > |input| - 4)
  {
    if |input| < 4 then Short
    else
      var n := FromLittleEndian32(input[..4]);
      if n < 0 then Reply(None, 4)
      else if |input| - 4 < n then Short
      else Reply(Some(Utf8Decode(DropTrailingZeros(input[4..4 + n]))), 4 + n)
  }

  /** What a running script does next, given the answers to its requests so far. */
  datatype ScriptStep = Ask(name: string) | Finish(end: ScriptEnd, result: Option<seq<byte>>)

  /** A compiled script as the evaluator runs it: its next step after each sequence of answers. */
  type Script = seq<Option<string>> -> ScriptStep

  /**
   * The exchange while the script runs: the names it asked for, what was
   * sent, and how it finished, or `None` when the stream ended first.
   */
  datatype Talk = Talk(asked: seq<string>, sent: seq<byte>, finished: Option<Evaluation>)

  function Converse(script: Script, answers: seq<Option<string>>, input: seq<byte>): Talk
    decreases |input|
  {
    match script(answers)
    case Finish(end, result) => Talk([], [], Some((end, result)))
    case Ask(name) =>
      match ReadReply(input)
      case Short => Talk([name], RequestFrame(name), None)
      case Reply(value, used) =>
        var rest := Converse(script, answers + [value], input[used..]);
        Talk([name] + rest.asked, RequestFrame(name) + rest.sent, rest.finished)
  }

  /** A connection: the names requested, the bytes sent, and the response, or `None` when the stream ended first. */
  datatype Session = Session(asked: seq<string>, sent: seq<byte>, response: Option<string>)

  /** The connection once the script has run: the final frame follows the requests when the script finished. */
  function Finished(t: Talk): Session {
    if t.finished.None? then Session(t.asked, t.sent, None)
    else
      var response := ResponseOf(t.finished.value.0, t.finished.value.1);
      Session(t.asked, t.sent + FinalFrame(response), Some(response))
  }

  /**
   * The connection as a whole. `fileMap` maps identifiers to paths, `cache`
   * is the script cache's map resolved against `workingDir`, and `run` gives
   * the behaviour of a compiled script.
   */
  function Serve<C>(fileMap: map<string, string>, workingDir: string, cache: map<string, C>,
                    run: C -> Script, input: seq<byte>): Session
  {
    if |input| < NameLength then Session([], [], None)
    else
      var name := ReceivedName(input[..NameLength]);
      if name !in fileMap then Session([], FinalFrame(NotFoundMessage), Some(NotFoundMessage))
      else
        var path := AbsolutePath(workingDir, fileMap[name]);
        if path !in cache then Session([], FinalFrame(CompileFailedMessage), Some(CompileFailedMessage))
        else Finished(Converse(run(cache[path]), [], input[NameLength..]))
  }

  /** The exchange so far, `asked` and `sent`, followed by the rest of it from `answers` on, is `whole`. */
  predicate Resumes(whole: Talk, asked: seq<string>, sent: seq<byte>, script: Script,
                    answers: seq<Option<string>>, input: seq<byte>)
  {
    var t := Converse(script, answers, input);
    whole == Talk(asked + t.asked, sent + t.sent, t.finished)
  }

  /** One request answered: the exchange resumes from the bytes after the reply. */
  lemma AskResumes(whole: Talk, asked: seq<string>, sent: seq<byte>, script: Script,
                   answers: seq<Option<string>>, input: seq<byte>, name: string, value: Option<string>, rest: seq<byte>)
    requires script(answers) == Ask(name)
    requires ReadReply(input).Reply? && value == ReadReply(input).value && rest == input[ReadReply(input).used..]
    requires Resumes(whole, asked, sent, script, answers, input)
    ensures Resumes(whole, asked + [name], sent + RequestFrame(name), script, answers + [value], rest)
  {
    var t := Converse(script, answers + [value], rest);
    AskStep(script, answers, input, name, value, ReadReply(input).used, answers + [value], rest, t);
    FrameRegroup(asked, [name], t.asked);
    FrameRegroup(sent, RequestFrame(name), t.sent);
  }

  /** The same step, with the remaining input as a position in the whole input. */
  lemma AskAdvances(whole: Talk, asked: seq<string>, sent: seq<byte>, script: Script,
                    answers: seq<Option<string>>, input: seq<byte>, cursor: nat, name: string,
                    asked': seq<string>, sent': seq<byte>, answers': seq<Option<string>>, cursor': int)
    requires cursor <= |input| && script(answers) == Ask(name) && ReadReply(input[cursor..]).Reply?
    requires Resumes(whole, asked, sent, script, answers, input[cursor..])
    requires asked' == asked + [name] && sent' == sent + RequestFrame(name)
    requires answers' == answers + [ReadReply(input[cursor..]).value] && cursor' == cursor + ReadReply(input[cursor..]).used
    ensures cursor < cursor' <= |input| && Resumes(whole, asked', sent', script, answers', input[cursor'..])
  {
    var reply := ReadReply(input[cursor..]);
    assert input[cursor..][reply.used..] == input[cursor'..];
    AskResumes(whole, asked, sent, script, answers, input[cursor..], name, reply.value, input[cursor'..]);
  }

  /** One request answered: the exchange asks for `name`, reads the reply, and carries on with the value. */
  lemma AskStep(script: Script, answers: seq<Option<string>>, input: seq<byte>, name: string,
                value: Option<string>, used: nat, next: seq<Option<string>>, unread: seq<byte>, t: Talk)
    requires script(answers) == Ask(name) && ReadReply(input) == Reply(value, used)
    requires used <= |input| && input[used..] == unread && answers + [value] == next
    requires t == Converse(script, next, unread)
    ensures Converse(script, answers, input)
      == Talk([name] + t.asked, RequestFrame(name) + t.sent, t.finished)
  {
  }

  lemma FrameRegroup<T>(a: seq<T>, b: seq<T>, c: seq<T>)
    ensures a + (b + c) == (a + b) + c
  {
  }

  lemma StartResumes(script: Script, input: seq<byte>)
    ensures Resumes(Converse(script, [], input), [], [], script, [], input[0..])
  {
    var t := Converse(script, [], input);
    assert input[0..] == input && [] + t.asked == t.asked && [] + t.sent == t.sent;
  }

  /** The script finishes: the exchange so far is the whole of it. */
  lemma FinishEnds(whole: Talk, asked: seq<string>, sent: seq<byte>, script: Script,
                   answers: seq<Option<string>>, input: seq<byte>)
    requires script(answers).Finish? && Resumes(whole, asked, sent, script, answers, input)
    ensures whole == Talk(asked, sent, Some((script(answers).end, script(answers).result)))
  {
    assert asked + [] == asked && sent + [] == sent;
  }

  /** The stream ends before a reply: the request was sent and nothing follows. */
  lemma ShortEnds(whole: Talk, asked: seq<string>, sent: seq<byte>, script: Script,
                  answers: seq<Option<string>>, input: seq<byte>)
    requires script(answers).Ask? && ReadReply(input).Short? && Resumes(whole, asked, sent, script, answers, input)
    ensures whole == Talk(asked + [script(answers).name], sent + RequestFrame(script(answers).name), None)
  {
  }

  /**
   * `evaluate` with the callback: one request and one reply per step the
   * script asks for, until it finishes or the stream ends.
   */
  method Exchange(script: Script, input: seq<byte>) returns (asked: seq<string>, sent: seq<byte>, finished: Option<Evaluation>)
    ensures Talk(asked, sent, finished) == Converse(script, [], input)
  {
    ghost var whole := Converse(script, [], input);
    asked, sent := [], [];
    StartResumes(script, input);
    var answers: seq<Option<string>> := [];
    var cursor := 0;
    while true
      invariant cursor <= |input|
      invariant Resumes(whole, asked, sent, script, answers, input[cursor..])
      decreases |input| - cursor
    {
      var step := script(answers);
      if step.Finish? {
        FinishEnds(whole, asked, sent, script, answers, input[cursor..]);
        finished := Some((step.end, step.result));
        return;
      }
      var reply := ReadReply(input[cursor..]);
      if reply.Short? {
        ShortEnds(whole, asked, sent, script, answers, input[cursor..]);
        asked := asked + [step.name];
        sent := sent + RequestFrame(step.name);
        finished := None;
        return;
      }
      ghost var (asked0, sent0, answers0, cursor0) := (asked, sent, answers, cursor);
      asked := asked + [step.name];
      sent := sent + RequestFrame(step.name);
      answers := answers + [reply.value];
      cursor := cursor + reply.used;
      AskAdvances(whole, asked0, sent0, script, answers0, input, cursor0, step.name, asked, sent, answers, cursor);
    }
  }

  /**
   * The handler: the identifier read, the lookups, the exchange while the
   * script runs, then the response in the final frame.
   */
  method Handle<C>(fileMap: map<string, string>, scriptCache: ScriptCache<C>, run: C -> Script, input: seq<byte>)
    returns (asked: seq<string>, sent: seq<byte>, response: Option<string>)
    ensures Session(asked, sent, response) == Serve(fileMap, scriptCache.workingDir, scriptCache.cache, run, input)
  {
    asked, sent, response := [], [], None;
    if |input| < NameLength {
      return;
    }
    var name := ReceivedName(input[..NameLength]);
    if name !in fileMap {
      sent, response := FinalFrame(NotFoundMessage), Some(NotFoundMessage);
      return;
    }
    var scriptPath := fileMap[name];
    if !scriptCache.Contains(scriptPath) {
      sent, response := FinalFrame(CompileFailedMessage), Some(CompileFailedMessage);
      return;
    }
    var script := run(scriptCache.cache[AbsolutePath(scriptCache.workingDir, scriptPath)]);
    var finished;
    asked, sent, finished := Exchange(script, input[NameLength..]);
    if finished.Some? {
      var text := ResponseOf(finished.value.0, finished.value.1);
      sent := sent + FinalFrame(text);
      response := Some(text);
    }
  }

  // ---- what a connection sends ----

  /** While the script runs, the daemon sends exactly one request frame per name asked, in order. */
  lemma {:induction false} ConverseSent(script: Script, answers: seq<Option<string>>, input: seq<byte>)
    ensures Converse(script, answers, input).sent == RequestFrames(Converse(script, answers, input).asked)
    decreases |input|
  {
    if script(answers).Ask? && ReadReply(input).Reply? {
      var reply := ReadReply(input);
      ConverseSent(script, answers + [reply.value], input[reply.used..]);
      var name := script(answers).name;
      var t := Converse(script, answers + [reply.value], input[reply.used..]);
      assert ([name] + t.asked)[1..] == t.asked;
    } else if script(answers).Ask? {
      var name := script(answers).name;
      assert RequestFrames([name]) == RequestFrame(name) + RequestFrames([]);
    }
  }

  /**
   * A connection sends the request frames for the names asked, then at most
   * one final frame, last, and only when there is a response.
   */
  lemma SessionFrames<C>(fileMap: map<string, string>, workingDir: string, cache: map<string, C>,
                         run: C -> Script, input: seq<byte>)
    ensures var s := Serve(fileMap, workingDir, cache, run, input);
      s.sent == RequestFrames(s.asked) + (if s.response.Some? then FinalFrame(s.response.value) else [])
  {
    if |input| >= NameLength {
      var name := ReceivedName(input[..NameLength]);
      if name in fileMap && AbsolutePath(workingDir, fileMap[name]) in cache {
        ConverseSent(run(cache[AbsolutePath(workingDir, fileMap[name])]), [], input[NameLength..]);
      }
    }
  }

  /** An identifier with no file answers "HTTP/1.1 404 Not Found" and a blank line, in one frame, and nothing else. */
  lemma UnknownIdentifier<C>(fileMap: map<string, string>, workingDir: string, cache: map<string, C>,
                             run: C -> Script, input: seq<byte>)
    requires |input| >= NameLength && ReceivedName(input[..NameLength]) !in fileMap
    ensures Serve(fileMap, workingDir, cache, run, input)
      == Session([], FinalFrame(NotFoundMessage), Some(NotFoundMessage))
    ensures NotFoundMessage == "HTTP/1.1 " + "404 Not Found" + "\r\n\r\n"
  {
    Status.ConstantTexts();
  }

  /** A known identifier whose script is not cached answers the compile failure, in one frame, and nothing else. */
  lemma UncachedScript<C>(fileMap: map<string, string>, workingDir: string, cache: map<string, C>,
                          run: C -> Script, input: seq<byte>)
    requires |input| >= NameLength && ReceivedName(input[..NameLength]) in fileMap
    requires AbsolutePath(workingDir, fileMap[ReceivedName(input[..NameLength])]) !in cache
    ensures Serve(fileMap, workingDir, cache, run, input)
      == Session([], FinalFrame(CompileFailedMessage), Some(CompileFailedMessage))
    ensures CompileFailedMessage == "HTTP/1.1 " + "500 Internal Server Error" + "\r\n\r\n" + "This script failed to compile."
  {
    Status.ConstantTexts();
  }

  /** A negative length reads as null and takes only the four length bytes. */
  lemma ReadNullReply(n: int, rest: seq<byte>)
    requires IsInt32(n) && n < 0
    ensures ReadReply(LittleEndian32(n) + rest) == Reply(None, 4)
  {
    var input := LittleEndian32(n) + rest;
    assert input[..4] == LittleEndian32(n);
    LittleEndianRoundTrip(n);
  }

  /** A length and that many bytes, the last not zero, read back as the decoded bytes. */
  lemma ReadValueReply(value: seq<byte>, rest: seq<byte>)
    requires |value| < Pow31 && (value == [] || value[|value| - 1] != 0)
    ensures ReadReply(LittleEndian32(|value|) + value + rest) == Reply(Some(Utf8Decode(value)), 4 + |value|)
  {
    var header := LittleEndian32(|value|);
    FramedParts(header, value, rest);
    LittleEndianRoundTrip(|value|);
    DropZerosPadding(value, 0);
    assert value + Zeros(0) == value;
  }

  /** The header and the payload come back out of a framed message by slicing. */
  lemma FramedParts(header: seq<byte>, value: seq<byte>, rest: seq<byte>)
    requires |header| == 4
    ensures |header + value + rest| >= 4 + |value|
    ensures (header + value + rest)[..4] == header && (header + value + rest)[4..4 + |value|] == value
  {
  }
}
