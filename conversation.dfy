/**
 * The two ends of the Unix socket together: the daemon's handler
 * (DaemonMain.kt) and the relay (call_kt_cgi_daemon.c). A request frame the
 * daemon writes is one the relay reads; the relay's reply reads back as the
 * variable's value; and a whole conversation runs as far as the final frame,
 * which the relay, reading a length the daemon never writes, rejects.
 */
module Conversation {
  import opened Wrappers
  import opened Text
  import opened Unicode
  import opened Int32
  import opened ShortNames
  import opened Relay
  import opened CgiScripts
  import opened ScriptCaches
  import opened Connection

  /** The value a script receives for `name` when the relay's environment is `env`. */
  function Answer(env: Environment, name: string): Option<string> {
    var key := Utf8Encode(name);
    if key in env then Some(Utf8Decode(env[key])) else None
  }

  function Answers(env: Environment, names: seq<string>): (r: seq<Option<string>>)
    ensures |r| == |names|
    ensures forall i | 0 <= i < |names| :: r[i] == Answer(env, names[i])
  {
    if names == [] then [] else [Answer(env, names[0])] + Answers(env, names[1..])
  }

  /** The relay's replies to requests for `names`, in order. */
  function Replies(env: Environment, names: seq<string>): seq<byte>
    requires ValidEnvironment(env)
  {
    if names == [] then [] else EnvReply(env, Utf8Encode(names[0])) + Replies(env, names[1..])
  }

  /** A name the relay can take in one request: no NUL, and room for it in `general_buffer`. */
  predicate Requestable(name: string) {
    '\0' !in name && |Utf8Encode(name)| < BufferSize
  }

  /** The script asks for `names` in order, each answered from `env`, and then finishes as `e` says. */
  predicate AsksThenFinishes(script: Script, env: Environment, names: seq<string>, e: Evaluation) {
    && (forall k | 0 <= k < |names| :: script(Answers(env, names[..k])) == Ask(names[k]))
    && script(Answers(env, names)) == Finish(e.0, e.1)
  }

  /** The name the relay's buffer holds after requests for `names`. */
  function LastRequested(names: seq<string>, last: Option<seq<byte>>): Option<seq<byte>> {
    if names == [] then last else Some(Utf8Encode(names[|names| - 1]))
  }

  // ---- one exchange ----

  lemma {:induction false} EncodedNoNul(s: string)
    requires '\0' !in s
    ensures 0 !in Utf8Encode(s)
    decreases |s|
  {
    if s != [] {
      assert s[0] != '\0';
      EncodedNoNul(s[1..]);
    }
  }

  /** The daemon's request frame reaches the relay as the name's bytes, and the relay replies and reads on. */
  lemma RequestServed(name: string, rest: seq<byte>, env: Environment, last: Option<seq<byte>>)
    requires ValidEnvironment(env) && Requestable(name)
    ensures Relay.Serve(RequestFrame(name) + rest, env, last)
      == Prepend(EnvReply(env, Utf8Encode(name)), Relay.Serve(rest, env, Some(Utf8Encode(name))))
  {
    EncodedNoNul(name);
    assert RequestFrame(name) + rest == [0] + Utf8Encode(name) + [0] + rest;
    ServeEnvExchange(Utf8Encode(name), rest, env, last);
  }

  /** The relay's reply reads back, at the daemon, as the variable's value, or null when it is unset. */
  lemma ReplyRoundTrip(env: Environment, name: string, rest: seq<byte>)
    requires ValidEnvironment(env)
    ensures var reply := EnvReply(env, Utf8Encode(name));
      ReadReply(reply + rest) == Reply(Answer(env, name), |reply|)
  {
    var key := Utf8Encode(name);
    if key in env {
      var value := env[key];
      assert value == [] || value[|value| - 1] != 0 by {
        if value != [] { assert value[|value| - 1] in value; }
      }
      ReadValueReply(value, rest);
      assert EnvReply(env, key) + rest == LittleEndian32(|value|) + value + rest;
    } else {
      ReadNullReply(-1, rest);
    }
  }

  // ---- a whole conversation ----

  /**
   * Fed the relay's replies, the daemon's exchange asks for `names` in order,
   * sends their request frames, and finishes as the script does; the bytes
   * after the replies are left unread.
   */
  lemma {:induction false} DaemonSide(script: Script, env: Environment, names: seq<string>, e: Evaluation,
                                      k: nat, extra: seq<byte>)
    requires ValidEnvironment(env) && AsksThenFinishes(script, env, names, e) && k <= |names|
    ensures Converse(script, Answers(env, names[..k]), Replies(env, names[k..]) + extra)
      == Talk(names[k..], RequestFrames(names[k..]), Some(e))
    decreases |names| - k
  {
    if k == |names| {
      assert names[..k] == names;
      assert names[k..] == [];
      assert Replies(env, []) + extra == extra;
    } else {
      DaemonSide(script, env, names, e, k + 1, extra);
      DaemonStep(script, env, names, e, k, extra);
    }
  }

  /** One reply read: the exchange from the `k`th request on is that request followed by the exchange from the next. */
  lemma DaemonStep(script: Script, env: Environment, names: seq<string>, e: Evaluation, k: nat, extra: seq<byte>)
    requires ValidEnvironment(env) && k < |names|
    requires script(Answers(env, names[..k])) == Ask(names[k])
    requires Converse(script, Answers(env, names[..k + 1]), Replies(env, names[k + 1..]) + extra)
      == Talk(names[k + 1..], RequestFrames(names[k + 1..]), Some(e))
    ensures Converse(script, Answers(env, names[..k]), Replies(env, names[k..]) + extra)
      == Talk(names[k..], RequestFrames(names[k..]), Some(e))
  {
    var name := names[k];
    var reply := EnvReply(env, Utf8Encode(name));
    var later := Replies(env, names[k + 1..]) + extra;
    RepliesStep(env, names, k, extra);
    ReplyRoundTrip(env, name, later);
    Suffix(reply, later);
    AnswersStep(env, names, k);
    AskStep(script, Answers(env, names[..k]), reply + later, name, Answer(env, name), |reply|,
            Answers(env, names[..k + 1]), later, Talk(names[k + 1..], RequestFrames(names[k + 1..]), Some(e)));
    NamesStep(names, k);
  }

  lemma Suffix<T>(a: seq<T>, b: seq<T>)
    ensures (a + b)[|a|..] == b
  {
  }

  lemma NamesStep(names: seq<string>, k: nat)
    requires k < |names|
    ensures names[k..] == [names[k]] + names[k + 1..]
    ensures RequestFrames(names[k..]) == RequestFrame(names[k]) + RequestFrames(names[k + 1..])
  {
    assert names[k..][1..] == names[k + 1..];
  }

  lemma RepliesStep(env: Environment, names: seq<string>, k: nat, extra: seq<byte>)
    requires ValidEnvironment(env) && k < |names|
    ensures Replies(env, names[k..]) + extra
      == EnvReply(env, Utf8Encode(names[k])) + (Replies(env, names[k + 1..]) + extra)
  {
    assert names[k..][1..] == names[k + 1..];
  }

  lemma AnswersStep(env: Environment, names: seq<string>, k: nat)
    requires k < |names|
    ensures Answers(env, names[..k]) + [Answer(env, names[k])] == Answers(env, names[..k + 1])
  {
    var before := Answers(env, names[..k]);
    var after := Answers(env, names[..k + 1]);
    forall i | 0 <= i < k + 1
      ensures (before + [Answer(env, names[k])])[i] == after[i]
    {
      assert names[..k + 1][i] == names[i];
      if i < k {
        assert names[..k][i] == names[i];
      }
    }
  }

  /** The relay answers the request frames for `names` one by one and then reads what follows. */
  lemma {:induction false} RelaySide(names: seq<string>, tail: seq<byte>, env: Environment, last: Option<seq<byte>>)
    requires ValidEnvironment(env) && forall i | 0 <= i < |names| :: Requestable(names[i])
    ensures Relay.Serve(RequestFrames(names) + tail, env, last)
      == Prepend(Replies(env, names), Relay.Serve(tail, env, LastRequested(names, last)))
    decreases |names|
  {
    if names == [] {
      assert RequestFrames(names) + tail == tail;
    } else {
      var first := Utf8Encode(names[0]);
      var rest := names[1..];
      assert RequestFrames(names) + tail == RequestFrame(names[0]) + (RequestFrames(rest) + tail);
      RequestServed(names[0], RequestFrames(rest) + tail, env, last);
      RelaySide(rest, tail, env, Some(first));
      PrependTwice(EnvReply(env, first), Replies(env, rest), Relay.Serve(tail, env, LastRequested(rest, Some(first))));
      if rest != [] {
        assert rest[|rest| - 1] == names[|names| - 1];
      }
    }
  }

  // ---- the final frame ----

  /** The four bytes "HTTP" read as a little-endian `int`. */
  const HttpAsLength: int := 0x50545448

  /**
   * The final frame as the daemon writes it, for a response that starts
   * with "HTTP" as every response it builds does: the relay takes "HTTP" for
   * a length of 1347703880 bytes, finds fewer, and prints RESPONSE_ERROR.
   */
  lemma AsWrittenFinalFrameRejected(message: string, rest: seq<byte>, env: Environment, last: Option<seq<byte>>)
    requires ValidEnvironment(env)
    requires StartsWith(message, "HTTP") && |Utf8Encode(message)| + |rest| < HttpAsLength
    ensures Relay.Serve(FinalFrame(message) + rest, env, last) == Run([], ResponseErrorBytes, Exit(1))
  {
    var bytes := Utf8Encode(message);
    HttpBytes(message);
    var payload := bytes + [0] + rest;
    assert payload[..4] == bytes[..4];
    assert FinalFrame(message) + rest == [1] + payload;
    ServeOfFinal(payload, env, last);
    HttpPayloadRejected(payload);
  }

  /** A message starting with "HTTP" encodes to bytes starting with 72, 84, 84, 80. */
  lemma HttpBytes(message: string)
    requires StartsWith(message, "HTTP")
    ensures |Utf8Encode(message)| >= 4 && Utf8Encode(message)[..4] == [72, 84, 84, 80]
  {
    assert message == "HTTP" + message[4..];
    EncodeAppend("HTTP", message[4..]);
    AsciiEncode("HTTP");
  }

  /** The final reader takes "HTTP" for a length and rejects a payload shorter than that. */
  lemma HttpPayloadRejected(payload: seq<byte>)
    requires |payload| >= 4 && payload[..4] == [72, 84, 84, 80] && |payload| < HttpAsLength + 4
    ensures FinalRead(payload) == Run([], ResponseErrorBytes, Exit(1))
  {
    assert FromLittleEndian32(payload[..4]) == HttpAsLength;
    FinalReadOfShortFrame(payload);
  }

  lemma ServeOfFinal(payload: seq<byte>, env: Environment, last: Option<seq<byte>>)
    requires ValidEnvironment(env)
    ensures Relay.Serve([1] + payload, env, last) == FinalRead(payload)
  {
    assert ReadFrame([1] + payload) == Final(payload);
  }

  /** The final frame as evidently intended: byte 1, the length as a little-endian `int`, the message, byte 0. */
  function CorrectedFinalFrame(message: string): (frame: seq<byte>)
    requires |Utf8Encode(message)| < Pow31
    ensures |frame| == |Utf8Encode(message)| + 6 && frame[0] == 1 && frame[1..5] == LittleEndian32(|Utf8Encode(message)|)
  {
    [1] + LittleEndian32(|Utf8Encode(message)|) + Utf8Encode(message) + [0]
  }

  /** With the length in the frame, the relay prints exactly the message and exits 0. */
  lemma CorrectedFinalFrameDelivered(message: string, rest: seq<byte>, env: Environment, last: Option<seq<byte>>)
    requires ValidEnvironment(env)
    requires '\0' !in message && |Utf8Encode(message)| < Pow31 - 1
    ensures Relay.Serve(CorrectedFinalFrame(message) + rest, env, last) == Run([], Utf8Encode(message), Exit(0))
  {
    var bytes := Utf8Encode(message);
    EncodedNoNul(message);
    var payload := LittleEndian32(|bytes|) + bytes + ([0] + rest);
    assert CorrectedFinalFrame(message) + rest == [1] + payload;
    assert ReadFrame([1] + payload) == Final(payload);
    FinalReadOfLengthFrame(bytes, [0] + rest);
  }

  /**
   * A whole request, the relay invoked as `argv0` and the daemon's script
   * asking for `names` then finishing: the relay's writes are exactly what
   * the daemon reads, the daemon answers with the script's response, and the
   * relay, meeting the as-written final frame, prints RESPONSE_ERROR and
   * exits 1.
   */
  lemma AsWrittenConversation<C>(argv0: seq<byte>, env: Environment, shortName: seq<byte>,
                                 fileMap: map<string, string>, workingDir: string, cache: map<string, C>,
                                 run: C -> Script, script: Script, names: seq<string>, e: Evaluation,
                                 response: string)
    requires 0 !in argv0 && ValidEnvironment(env) && Slash in argv0
    requires CShortName(argv0[LastIndexOf(argv0, Slash) + 1..]) == Some(shortName)
    requires |shortName| == NameLength && ReceivedName(shortName) in fileMap
    requires AbsolutePath(workingDir, fileMap[ReceivedName(shortName)]) in cache
    requires script == run(cache[AbsolutePath(workingDir, fileMap[ReceivedName(shortName)])])
    requires AsksThenFinishes(script, env, names, e) && response == ResponseOf(e.0, e.1)
    requires forall i | 0 <= i < |names| :: Requestable(names[i])
    requires StartsWith(response, "HTTP") && |Utf8Encode(response)| < HttpAsLength
    ensures Connection.Serve(fileMap, workingDir, cache, run, shortName + Replies(env, names))
         == Session(names, RequestFrames(names) + FinalFrame(response), Some(response))
      && RelaySpec(argv0, env, RequestFrames(names) + FinalFrame(response))
         == Run(shortName + Replies(env, names), ResponseErrorBytes, Exit(1))
  {
    DaemonSession(env, shortName, fileMap, workingDir, cache, run, script, names, e, response);
    AsWrittenRelayRun(argv0, env, shortName, names, response);
  }

  /** The relay's side of the conversation with the as-written final frame. */
  lemma AsWrittenRelayRun(argv0: seq<byte>, env: Environment, shortName: seq<byte>, names: seq<string>, response: string)
    requires 0 !in argv0 && ValidEnvironment(env) && Slash in argv0
    requires CShortName(argv0[LastIndexOf(argv0, Slash) + 1..]) == Some(shortName)
    requires forall i | 0 <= i < |names| :: Requestable(names[i])
    requires StartsWith(response, "HTTP") && |Utf8Encode(response)| < HttpAsLength
    ensures RelaySpec(argv0, env, RequestFrames(names) + FinalFrame(response))
      == Run(shortName + Replies(env, names), ResponseErrorBytes, Exit(1))
  {
    RelayConversation(argv0, env, shortName, names, FinalFrame(response));
    assert FinalFrame(response) == FinalFrame(response) + [];
    AsWrittenFinalFrameRejected(response, [], env, LastRequested(names, None));
    PrependNothing(shortName + Replies(env, names), ResponseErrorBytes, Exit(1));
  }

  /**
   * The same request with the corrected final frame: the relay prints the
   * script's response and exits 0.
   */
  lemma CorrectedConversation<C>(argv0: seq<byte>, env: Environment, shortName: seq<byte>,
                                 fileMap: map<string, string>, workingDir: string, cache: map<string, C>,
                                 run: C -> Script, script: Script, names: seq<string>, e: Evaluation,
                                 response: string)
    requires 0 !in argv0 && ValidEnvironment(env) && Slash in argv0
    requires CShortName(argv0[LastIndexOf(argv0, Slash) + 1..]) == Some(shortName)
    requires |shortName| == NameLength && ReceivedName(shortName) in fileMap
    requires AbsolutePath(workingDir, fileMap[ReceivedName(shortName)]) in cache
    requires script == run(cache[AbsolutePath(workingDir, fileMap[ReceivedName(shortName)])])
    requires AsksThenFinishes(script, env, names, e) && response == ResponseOf(e.0, e.1)
    requires forall i | 0 <= i < |names| :: Requestable(names[i])
    requires '\0' !in response && |Utf8Encode(response)| < Pow31 - 1
    ensures Connection.Serve(fileMap, workingDir, cache, run, shortName + Replies(env, names))
         == Session(names, RequestFrames(names) + FinalFrame(response), Some(response))
      && RelaySpec(argv0, env, RequestFrames(names) + CorrectedFinalFrame(response))
         == Run(shortName + Replies(env, names), Utf8Encode(response), Exit(0))
  {
    DaemonSession(env, shortName, fileMap, workingDir, cache, run, script, names, e, response);
    CorrectedRelayRun(argv0, env, shortName, names, response);
  }

  /** The relay's side of the conversation with the corrected final frame. */
  lemma CorrectedRelayRun(argv0: seq<byte>, env: Environment, shortName: seq<byte>, names: seq<string>, response: string)
    requires 0 !in argv0 && ValidEnvironment(env) && Slash in argv0
    requires CShortName(argv0[LastIndexOf(argv0, Slash) + 1..]) == Some(shortName)
    requires forall i | 0 <= i < |names| :: Requestable(names[i])
    requires '\0' !in response && |Utf8Encode(response)| < Pow31 - 1
    ensures RelaySpec(argv0, env, RequestFrames(names) + CorrectedFinalFrame(response))
      == Run(shortName + Replies(env, names), Utf8Encode(response), Exit(0))
  {
    RelayConversation(argv0, env, shortName, names, CorrectedFinalFrame(response));
    assert CorrectedFinalFrame(response) == CorrectedFinalFrame(response) + [];
    CorrectedFinalFrameDelivered(response, [], env, LastRequested(names, None));
    PrependNothing(shortName + Replies(env, names), Utf8Encode(response), Exit(0));
  }

  lemma PrependNothing(bytes: seq<byte>, stdout: seq<byte>, ending: Ending)
    ensures Prepend(bytes, Run([], stdout, ending)) == Run(bytes, stdout, ending)
  {
    assert bytes + [] == bytes;
  }

  /** The daemon, reading the short name and then the relay's replies, asks for `names` and sends the script's response. */
  lemma DaemonSession<C>(env: Environment, shortName: seq<byte>, fileMap: map<string, string>, workingDir: string,
                         cache: map<string, C>, run: C -> Script, script: Script, names: seq<string>,
                         e: Evaluation, response: string)
    requires ValidEnvironment(env) && |shortName| == NameLength
    requires ReceivedName(shortName) in fileMap
    requires AbsolutePath(workingDir, fileMap[ReceivedName(shortName)]) in cache
    requires script == run(cache[AbsolutePath(workingDir, fileMap[ReceivedName(shortName)])])
    requires AsksThenFinishes(script, env, names, e) && response == ResponseOf(e.0, e.1)
    ensures Connection.Serve(fileMap, workingDir, cache, run, shortName + Replies(env, names))
        == Session(names, RequestFrames(names) + FinalFrame(response), Some(response))
  {
    var daemonInput := shortName + Replies(env, names);
    assert daemonInput[..NameLength] == shortName;
    assert daemonInput[NameLength..] == Replies(env, names) + [];
    DaemonSide(script, env, names, e, 0, []);
    assert names[..0] == [] && names[0..] == names;
  }

  /** The relay, invoked as `argv0`, sends the short name, answers each request for `names`, and reads on. */
  lemma RelayConversation(argv0: seq<byte>, env: Environment, shortName: seq<byte>, names: seq<string>, tail: seq<byte>)
    requires 0 !in argv0 && ValidEnvironment(env) && Slash in argv0
    requires CShortName(argv0[LastIndexOf(argv0, Slash) + 1..]) == Some(shortName)
    requires forall i | 0 <= i < |names| :: Requestable(names[i])
    ensures RelaySpec(argv0, env, RequestFrames(names) + tail)
      == Prepend(shortName + Replies(env, names), Relay.Serve(tail, env, LastRequested(names, None)))
  {
    RelaySpecNamed(argv0, env, RequestFrames(names) + tail, shortName);
    RelaySide(names, tail, env, None);
    PrependTwice(shortName, Replies(env, names), Relay.Serve(tail, env, LastRequested(names, None)));
  }
}
