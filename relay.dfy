/**
 * The CGI relay (call_kt_cgi_daemon.c): the executable the web server runs.
 * It sends the 17-byte short name of the name it was invoked under, then
 * serves the daemon's environment-variable requests byte by byte until a
 * frame with a nonzero tag arrives, whose payload it prints as the CGI
 * response.
 *
 * The daemon's side of the socket is the byte sequence `input`; what the
 * relay writes back is `sent`, what it prints is `stdout`. A read that finds
 * the stream ended returns 0, as `read` does at end of file.
 */
module Relay {
  import opened Wrappers
  import opened Text
  import opened Unicode
  import opened Int32
  import opened ShortNames

  /** The CGI response printed on every failure. */
  const ResponseError: string :=
    "Http/1.1 500 Internal Server Error\r\n"
    + "Content-Type: text/plain\r\n"
    + "Content-Length: 58\r\n"
    + "\r\n"
    + "There was an error communicating with the script server.\r\n"

  const ResponseErrorBytes: seq<byte> := Utf8Encode(ResponseError)

  /** The size of `general_buffer`, where a requested name is collected. */
  const BufferSize: nat := 1048576

  const Slash: byte := 47

  /** How the relay ends: `exit`/`return` with a code, spinning forever, or behaviour C leaves undefined. */
  datatype Ending = Exit(code: int) | Hang | Undefined

  /** Everything the relay does: the bytes it writes to the socket, what it prints, how it ends. */
  datatype Run = Run(sent: seq<byte>, stdout: seq<byte>, ending: Ending)

  function Prepend(bytes: seq<byte>, run: Run): (r: Run)
    ensures r.sent == bytes + run.sent && r.stdout == run.stdout && r.ending == run.ending
  {
    run.(sent := bytes + run.sent)
  }

  /** The C string stored at the start of `bs`: the bytes before the first NUL. */
  function CString(bs: seq<byte>): (r: seq<byte>)
    ensures |r| <= |bs| && 0 !in r && r == bs[..|r|]
    ensures |r| < |bs| ==> bs[|r|] == 0
    ensures 0 in bs ==> |r| < |bs|
  {
    if bs == [] || bs[0] == 0 then []
    else
      var rest := CString(bs[1..]);
      assert [bs[0]] + rest == bs[..|rest| + 1];
      [bs[0]] + rest
  }

  /** The C string at the start of a buffer holding `p` and a NUL is `p`. */
  lemma {:induction false} CStringOfTerminated(p: seq<byte>, rest: seq<byte>)
    requires 0 !in p
    ensures CString(p + [0] + rest) == p
    decreases |p|
  {
    if p != [] {
      assert (p + [0] + rest)[1..] == p[1..] + [0] + rest;
      assert 0 !in p[1..] by { assert forall t :: 0 <= t < |p| - 1 ==> p[1..][t] == p[t + 1]; }
      CStringOfTerminated(p[1..], rest);
      assert [p[0]] + p[1..] == p;
    }
  }

  // ---- hash ----

  /** `hash(str)`: h = 31 * h + c over the signed bytes of the C string at `str[from..]`. */
  method Hash(str: array<byte>, from: nat) returns (h: int)
    requires from <= str.Length && 0 in str[from..]
    ensures h == CHash(CString(str[from..]))
  {
    ghost var s := str[from..];
    ghost var name := CString(s);
    assert |name| < |s| && s[|name|] == 0;
    h := 0;
    var i := 0;
    while str[from + i] != 0
      invariant 0 <= i <= |name|
      invariant h == CHash(name[..i])
      invariant forall t :: 0 <= t < |name| ==> str[from + t] == name[t]
      decreases |name| - i
    {
      assert str[from + i] == s[i] == name[i];
      assert name[..i + 1][..i] == name[..i];
      h := Wrap32(31 * h + SignedChar(str[from + i]));
      i := i + 1;
    }
    assert name[..i] == name;
  }

  // ---- base36 ----

  function Pow36(k: nat): (p: nat)
    ensures p >= 1
  {
    if k == 0 then 1 else 36 * Pow36(k - 1)
  }

  /** Six base-36 digits cannot reach a negative 32-bit value from a negative quotient. */
  lemma NegativeOutOfRange(n: int)
    ensures n < 0 ==> n * Pow36(6) < -Pow31
  {
    assert Pow36(6) == 2176782336;
  }

  /** A negative quotient that divides exactly carries the power of 36 one step further. */
  lemma ScaleStep(m: int, n: int, scale: int, num: int)
    requires m < 0 && CRem(m, 36) == 0 && n == CDiv(m, 36) && m * scale == num
    ensures n * (scale * 36) == num
  {
    assert m == n * 36;
    assert n * (scale * 36) == (n * 36) * scale;
  }

  /** One more digit stored: the quotient's remaining digits and the stored ones still spell the value. */
  lemma DigitStep(num: nat, m: nat, i: nat, tail: string)
    requires LowDigits36(num, 6) == LowDigits36(m, i + 1) + tail
    ensures LowDigits36(num, 6) == LowDigits36(CDiv(m, 36), i) + ([Digit36(CRem(m, 36))] + tail)
  {
  }

  /**
   * `base36(num)`: the six characters it stores, and its terminating NUL.
   * `ok` is false when C's remainder of a negative quotient indexes before
   * the alphabet, which C leaves undefined.
   */
  method Base36(num: int) returns (digits: seq<char>, ok: bool)
    requires IsInt32(num)
    ensures ok <==> num >= 0
    ensures ok ==> digits == LowDigits36(num, 6) + ['\0']
  {
    var result := new char[7];
    var n := num;
    var i := 5;
    ghost var scale := 1;
    while i >= 0
      invariant -1 <= i <= 5
      invariant num >= 0 ==> n >= 0 && LowDigits36(num, 6) == LowDigits36(n, i + 1) + result[i + 1..6]
      invariant num < 0 ==> n < 0 && n * scale == num && scale == Pow36(5 - i)
    {
      var r := CRem(n, 36);
      if r < 0 {
        return [], false;
      }
      ghost var tail := result[i + 1..6];
      result[i] := Base36Alphabet[r];
      assert result[i..6] == [Digit36(r)] + tail;
      ghost var m := n;
      n := CDiv(n, 36);
      if num < 0 {
        ScaleStep(m, n, scale, num);
        scale := scale * 36;
      } else {
        DigitStep(num, m, i, tail);
      }
      i := i - 1;
    }
    NegativeOutOfRange(n);
    result[6] := '\0';
    digits := result[..];
    ok := true;
  }

  // ---- generate_short_name ----

  /**
   * `generate_short_name(filename)`, the name being the C string at
   * `filename[from..]`. `ok` is false when base36 is undefined.
   */
  method GenerateShortName(filename: array<byte>, from: nat) returns (newName: array<byte>, ok: bool)
    requires from <= filename.Length && 0 in filename[from..]
    ensures ok <==> CShortName(CString(filename[from..])).Some?
    ensures ok ==> newName[..] == CShortName(CString(filename[from..])).value
  {
    var len := |CString(filename[from..])|;
    ghost var name := CString(filename[from..]);
    if len <= 16 {
      newName := PaddedName(filename, from, len);
      CShortNameOfShort(name);
      return newName, true;
    }
    var hashValue := Hash(filename, from);
    var hashDigits, fine := Base36(hashValue);
    if !fine {
      newName := new byte[17];
      return newName, false;
    }
    newName := HashedName(filename, from, hashValue, hashDigits);
    CShortNameOfLong(name);
    ok := true;
  }

  /** The short branch: the name itself, NUL-padded to 17 bytes. */
  method PaddedName(filename: array<byte>, from: nat, len: nat) returns (newName: array<byte>)
    requires from <= filename.Length && len == |CString(filename[from..])| <= 16
    ensures fresh(newName) && newName[..] == CString(filename[from..]) + Zeros(17 - len)
  {
    ghost var name := CString(filename[from..]);
    newName := new byte[17](j requires 0 <= j < 17 reads filename =>
      if j < len && from + j < filename.Length then filename[from + j] else 0);
    assert newName[..] == name + Zeros(17 - len);
  }

  /** The long branch: the first nine bytes, a 1, six base-36 digits of the hash and a NUL. */
  method HashedName(filename: array<byte>, from: nat, hashValue: int, hashDigits: seq<char>) returns (newName: array<byte>)
    requires from <= filename.Length && |CString(filename[from..])| > 16
    requires hashValue >= 0 && hashDigits == LowDigits36(hashValue, 6) + ['\0']
    ensures IsAscii(LowDigits36(hashValue, 6))
    ensures fresh(newName)
    ensures newName[..] == CString(filename[from..])[..9] + [1] + AsciiBytes(LowDigits36(hashValue, 6)) + [0]
  {
    ghost var name := CString(filename[from..]);
    LowDigitsAscii(hashValue, 6);
    assert forall k :: 0 <= k < 6 ==> (hashDigits[k] as int) < 0x80 by {
      assert hashDigits[..6] == LowDigits36(hashValue, 6);
    }
    newName := new byte[17](j requires 0 <= j < 17 reads filename =>
      if j < 9 then (if from + j < filename.Length then filename[from + j] else 0)
      else if j == 9 then 1
      else if j < 16 then hashDigits[j - 10] as int
      else 0);
    assert newName[..] == name[..9] + [1] + AsciiBytes(LowDigits36(hashValue, 6)) + [0];
  }

  // ---- the conversation loop of main ----

  /** The environment the web server gave the relay: names to values, as C strings. */
  type Environment = map<seq<byte>, seq<byte>>

  /** What the operating system guarantees of an environment: no NUL inside, lengths an `int` holds. */
  predicate ValidEnvironment(env: Environment) {
    forall name | name in env :: 0 !in env[name] && |env[name]| < Pow31
  }

  /**
   * The reply to a request for `name`: a 4-byte length that reads back as
   * the value's length, followed by exactly the value's bytes; or the
   * length -1 alone when the variable is unset.
   */
  function EnvReply(env: Environment, name: seq<byte>): (reply: seq<byte>)
    requires ValidEnvironment(env)
    ensures |reply| >= 4
    ensures FromLittleEndian32(reply[..4]) == if name in env then |env[name]| else -1
    ensures name in env ==> reply[4..] == env[name]
    ensures name !in env ==> |reply| == 4
  {
    if name in env then
      LittleEndianRoundTrip(|env[name]|);
      LittleEndian32(|env[name]|) + env[name]
    else
      LittleEndianRoundTrip(-1);
      LittleEndian32(-1)
  }

  /**
   * The reader `signal_handler` runs after a nonzero tag: a 4-byte length,
   * then that many bytes, printed as `%.*s` prints them (up to the first NUL).
   */
  function FinalRead(input: seq<byte>): (run: Run)
    ensures run.sent == []
    ensures |input| < 4 || FromLittleEndian32(input[..4]) < 0 ==> run == Run([], ResponseErrorBytes, Exit(1))
  {
    if |input| < 4 then Run([], ResponseErrorBytes, Exit(1))
    else
      var length := FromLittleEndian32(input[..4]);
      if length < 0 then Run([], ResponseErrorBytes, Exit(1))
      else if length == Pow31 - 1 then Run([], [], Undefined)  // malloc(length + 1) overflows int
      else if |input| - 4 < length then Run([], ResponseErrorBytes, Exit(1))
      else Run([], CString(input[4..4 + length]), Exit(0))
  }

  /** How the bytes after the relay's last read begin, as the main loop reads them. */
  datatype Frame =
    | EndOfStream                                // no tag byte: the read reports end of file
    | Final(payload: seq<byte>)                  // a nonzero tag; the final reader takes the rest
    | Request(name: seq<byte>, rest: seq<byte>)  // tag 0, a name, and its terminating 0
    | Reread                                     // tag 0, then end of stream: next_byte is still 0
    | Unterminated                               // tag 0, then a name the stream cuts off: the loop spins
    | Oversized                                  // tag 0, then more name bytes than general_buffer holds

  /** The frame at the start of `input`. */
  function ReadFrame(input: seq<byte>): (f: Frame)
    ensures f.Final? ==> |input| >= 1 && input[0] != 0 && f.payload == input[1..]
    ensures f.Request? ==> 0 !in f.name && |f.name| < BufferSize && input == [0] + f.name + [0] + f.rest
    ensures f.Reread? <==> input == [0]
    ensures f.Unterminated? ==> |input| >= 2 && 0 !in input[1..] && |input| - 1 <= BufferSize
    ensures f.Oversized? ==> |input| - 1 > BufferSize && 0 !in input[1..1 + BufferSize]
  {
    if input == [] then EndOfStream
    else if input[0] != 0 then Final(input[1..])
    else
      var body := input[1..];
      if body == [] then Reread
      else if |body| > BufferSize && 0 !in body[..BufferSize] then
        assert body[..BufferSize] == input[1..1 + BufferSize];
        Oversized
      else if 0 !in body then Unterminated
      else
        var k := IndexOf(body, 0);
        assert forall t :: 0 <= t < k ==> body[t] != 0 by {
          forall t | 0 <= t < k ensures body[t] != 0 { assert body[t] == body[..k][t]; }
        }
        assert input == [0] + body[..k] + [0] + body[k + 1..] by {
          assert body == body[..k] + [0] + body[k + 1..];
        }
        Request(body[..k], body[k + 1..])
  }

  /**
   * The main loop from the read of a frame's tag on. `last` is the name left
   * in `general_buffer` by the previous request, if any.
   */
  function Serve(input: seq<byte>, env: Environment, last: Option<seq<byte>>): (run: Run)
    requires ValidEnvironment(env)
    decreases |input|
  {
    match ReadFrame(input)
    case EndOfStream => Run([], ResponseErrorBytes, Exit(1))
    case Final(payload) => FinalRead(payload)
    case Request(name, rest) => Prepend(EnvReply(env, name), Serve(rest, env, Some(name)))
    case Reread =>
      // getenv reads whatever general_buffer holds, then the next read finds the end of stream
      if last.None? then Run([], [], Undefined)
      else Prepend(EnvReply(env, last.value), Serve([], env, last))
    case Unterminated => Run([], [], Hang)
    case Oversized => Run([], [], Undefined)
  }

  /** The relay run as a whole, invoked as `argv0` (a C string, so free of NUL bytes). */
  function RelaySpec(argv0: seq<byte>, env: Environment, input: seq<byte>): (run: Run)
    requires 0 !in argv0 && ValidEnvironment(env)
  {
    if Slash !in argv0 then Run([], ResponseErrorBytes, Exit(1))
    else
      var named := CShortName(argv0[LastIndexOf(argv0, Slash) + 1..]);
      if named.None? then Run([], [], Undefined)
      else Prepend(named.value, Serve(input, env, None))
  }

  lemma RelaySpecNamed(argv0: seq<byte>, env: Environment, input: seq<byte>, shortName: seq<byte>)
    requires 0 !in argv0 && ValidEnvironment(env) && Slash in argv0
    requires CShortName(argv0[LastIndexOf(argv0, Slash) + 1..]) == Some(shortName)
    ensures RelaySpec(argv0, env, input) == Prepend(shortName, Serve(input, env, None))
  {
    var tail := argv0[LastIndexOf(argv0, Slash) + 1..];
    assert CShortName(tail).value == shortName;
  }

  lemma NamedFrom(dir: array<byte>, argv0: seq<byte>, from: nat)
    requires dir.Length == |argv0| + 1 && from <= |argv0| && 0 !in argv0
    requires forall i :: 0 <= i < |argv0| ==> dir[i] == argv0[i]
    requires dir[|argv0|] == 0
    ensures 0 in dir[from..] && CString(dir[from..]) == argv0[from..]
  {
    assert dir[from..] == argv0[from..] + [0];
    CStringOfTerminated(argv0[from..], []);
  }

  /** `main` (without RUN_AS_MAIN), from `strdup(argv[0])` to its exit. */
  method RunRelay(argv0: seq<byte>, env: Environment, input: seq<byte>) returns (run: Run)
    requires 0 !in argv0 && ValidEnvironment(env)
    ensures run == RelaySpec(argv0, env, input)
  {
    var dir := new byte[|argv0| + 1](i requires 0 <= i <= |argv0| => if i < |argv0| then argv0[i] else 0);
    if Slash !in argv0 {
      return Run([], ResponseErrorBytes, Exit(1));
    }
    var slash := LastIndexOf(argv0, Slash);
    NamedFrom(dir, argv0, slash + 1);
    var shortName, named := GenerateShortName(dir, slash + 1);
    if !named {
      return Run([], [], Undefined);
    }
    var sentName := shortName[..];
    run := ServeRequests(input, env);
    RelaySpecNamed(argv0, env, input, sentName);
    run := Prepend(sentName, run);
  }

  /** The `while (1)` loop of `main`: frames are read until the stream ends or a final frame arrives. */
  method ServeRequests(input: seq<byte>, env: Environment) returns (run: Run)
    requires ValidEnvironment(env)
    ensures run == Serve(input, env, None)
  {
    var sent := [];
    var buffer := new byte[BufferSize];
    var initialised := false;
    ghost var last: Option<seq<byte>> := None;
    var cursor := 0;
    while true
      invariant 0 <= cursor <= |input| && buffer.Length == BufferSize
      invariant initialised <==> last.Some?
      invariant last.Some? ==> 0 !in last.value && |last.value| < BufferSize
      invariant last.Some? ==> buffer[..|last.value| + 1] == last.value + [0]
      invariant Serve(input, env, None) == Prepend(sent, Serve(input[cursor..], env, last))
      decreases |input| - cursor
    {
      var step;
      ghost var name;
      step, name := ServeFrame(input, cursor, buffer, env, initialised, last);
      match step {
        case Stop(final) =>
          return Prepend(sent, final);
        case Continue(reply, next) =>
          PrependTwice(sent, reply, Serve(input[next..], env, Some(name)));
          sent := sent + reply;
          cursor := next;
          last := Some(name);
          initialised := true;
      }
    }
  }

  /** What one pass of the main loop does: answers a request and goes on, or ends the run. */
  datatype FrameStep = Continue(reply: seq<byte>, next: nat) | Stop(run: Run)

  /**
   * One pass of the main loop from `input[cursor]` on. `general_buffer`
   * holds `last` (and its NUL) from the previous request, if there was one;
   * `name` is the name a continuing pass leaves there.
   */
  method ServeFrame(input: seq<byte>, cursor: nat, buffer: array<byte>, env: Environment,
                    initialised: bool, ghost last: Option<seq<byte>>)
      returns (step: FrameStep, ghost name: seq<byte>)
    requires ValidEnvironment(env)
    requires cursor <= |input| && buffer.Length == BufferSize
    requires initialised <==> last.Some?
    requires last.Some? ==> 0 !in last.value && |last.value| < BufferSize
    requires last.Some? ==> buffer[..|last.value| + 1] == last.value + [0]
    modifies buffer
    ensures step.Stop? ==> Serve(input[cursor..], env, last) == step.run
    ensures step.Continue? ==> cursor < step.next <= |input|
    ensures step.Continue? ==> 0 !in name && |name| < BufferSize && buffer[..|name| + 1] == name + [0]
    ensures step.Continue? ==>
      Serve(input[cursor..], env, last) == Prepend(step.reply, Serve(input[step.next..], env, Some(name)))
  {
    name := [];
    if cursor == |input| {
      assert input[cursor..] == [];
      return Stop(Run([], ResponseErrorBytes, Exit(1))), name;
    }
    var nextByte := input[cursor];
    if nextByte != 0 {
      ServeFinal(input, cursor, env, last);
      return Stop(FinalRead(input[cursor + 1..])), name;
    }
    var scan, after := ReadName(input, cursor + 1, buffer);
    match scan {
      case Spins =>
        ServeHangs(input, cursor + 1, env, last);
        return Stop(Run([], [], Hang)), name;
      case Overflows =>
        ServeOverflows(input, cursor + 1, env, last);
        return Stop(Run([], [], Undefined)), name;
      case EndedBeforeName =>
        if !initialised {
          assert input[cursor..] == [0];
          return Stop(Run([], [], Undefined)), name;
        }
        name := last.value;
        BufferedName(buffer[..], name);
        ServeEndedBeforeName(input, env, name);
      case Terminated(k) =>
        name := input[cursor + 1..cursor + 1 + k];
        BufferedName(buffer[..], name);
        ServeRequestAt(input, cursor, k, after, env, last);
    }
    var requested := CString(buffer[..]);
    step := Continue(EnvReply(env, requested), after);
  }

  /** How the do-while that collects a requested name ends. */
  datatype NameScan =
    | Terminated(length: nat)  // the name and its NUL are in general_buffer
    | EndedBeforeName          // the stream ended at the first read; next_byte is still 0
    | Spins                    // the stream ended inside the name; next_byte stays nonzero forever
    | Overflows                // the name does not fit in general_buffer

  /**
   * The do-while of `main`: reads bytes from `input[start..]` into
   * `buffer` up to and including a 0. `cursor` is where reading stopped.
   */
  method ReadName(input: seq<byte>, start: nat, buffer: array<byte>) returns (scan: NameScan, cursor: nat)
    requires start <= |input| && buffer.Length == BufferSize
    modifies buffer
    ensures scan.EndedBeforeName? <==> start == |input|
    ensures scan.EndedBeforeName? ==> unchanged(buffer) && cursor == start
    ensures scan.Terminated? ==> var k := scan.length;
      cursor == start + k + 1 <= |input| && k < BufferSize && input[start + k] == 0
      && 0 !in input[start..start + k] && buffer[..k + 1] == input[start..start + k] + [0]
    ensures scan.Spins? ==> start < |input| && 0 !in input[start..] && |input| - start <= BufferSize
    ensures scan.Overflows? ==> |input| - start > BufferSize && 0 !in input[start..start + BufferSize]
  {
    var nextByte: byte := 0;
    var pos := 0;
    cursor := start;
    while true
      invariant start <= cursor <= |input| && pos == cursor - start && pos <= BufferSize
      invariant buffer[..pos] == input[start..cursor] && 0 !in input[start..cursor]
      invariant pos == 0 ==> nextByte == 0 && unchanged(buffer)
      invariant pos > 0 ==> nextByte != 0
      decreases |input| - cursor
    {
      if cursor == |input| {
        if nextByte != 0 {
          return Spins, cursor;
        }
        return EndedBeforeName, cursor;
      }
      nextByte := input[cursor];
      cursor := cursor + 1;
      if pos == BufferSize {
        assert input[start..start + BufferSize] == input[start..cursor - 1];
        return Overflows, cursor;
      }
      buffer[pos] := nextByte;
      pos := pos + 1;
      if nextByte == 0 {
        assert input[start..start + pos - 1] == input[start..cursor][..pos - 1];
        assert input[start..cursor] == input[start..start + pos - 1] + [0];
        return Terminated(pos - 1), cursor;
      }
    }
  }

  /** general_buffer holding `name` and its NUL: getenv is asked for `name`. */
  lemma BufferedName(buffer: seq<byte>, name: seq<byte>)
    requires |buffer| > |name| && 0 !in name && buffer[..|name| + 1] == name + [0]
    ensures CString(buffer) == name
  {
    assert buffer == name + [0] + buffer[|name| + 1..];
    CStringOfTerminated(name, buffer[|name| + 1..]);
  }

  /** The stream ended right after a request tag: getenv reads the previous name again. */
  lemma ServeEndedBeforeName(input: seq<byte>, env: Environment, name: seq<byte>)
    requires ValidEnvironment(env)
    requires |input| >= 1 && input[|input| - 1] == 0
    ensures Serve(input[|input| - 1..], env, Some(name))
      == Prepend(EnvReply(env, name), Serve(input[|input|..], env, Some(name)))
  {
    assert input[|input| - 1..] == [0];
    assert input[|input|..] == [];
  }

  /** A frame with a nonzero tag: the final reader takes over. */
  lemma ServeFinal(input: seq<byte>, cursor: nat, env: Environment, last: Option<seq<byte>>)
    requires ValidEnvironment(env)
    requires cursor < |input| && input[cursor] != 0
    ensures Serve(input[cursor..], env, last) == FinalRead(input[cursor + 1..])
  {
    assert input[cursor..][1..] == input[cursor + 1..];
  }

  /** The stream ended inside a name: the relay spins. */
  lemma ServeHangs(input: seq<byte>, start: nat, env: Environment, last: Option<seq<byte>>)
    requires ValidEnvironment(env)
    requires 1 <= start < |input| && input[start - 1] == 0
    requires 0 !in input[start..] && |input| - start <= BufferSize
    ensures Serve(input[start - 1..], env, last) == Run([], [], Hang)
  {
    var x := input[start - 1..];
    assert x[1..] == input[start..];
    assert ReadFrame(x).Unterminated?;
  }

  /** A name longer than general_buffer: the relay writes past its end. */
  lemma ServeOverflows(input: seq<byte>, start: nat, env: Environment, last: Option<seq<byte>>)
    requires ValidEnvironment(env)
    requires 1 <= start && |input| - start > BufferSize
    requires input[start - 1] == 0 && 0 !in input[start..start + BufferSize]
    ensures Serve(input[start - 1..], env, last) == Run([], [], Undefined)
  {
    var x := input[start - 1..];
    assert x[1..][..BufferSize] == input[start..start + BufferSize];
    assert ReadFrame(x).Oversized?;
  }

  lemma PrependTwice(a: seq<byte>, b: seq<byte>, run: Run)
    ensures Prepend(a, Prepend(b, run)) == Prepend(a + b, run)
  {
    assert a + (b + run.sent) == (a + b) + run.sent;
  }

  /** A request frame is read back as the name it carries and the bytes after it. */
  lemma ReadRequestFrame(name: seq<byte>, rest: seq<byte>)
    requires 0 !in name && |name| < BufferSize
    ensures ReadFrame([0] + name + [0] + rest) == Request(name, rest)
  {
    var input := [0] + name + [0] + rest;
    var body := input[1..];
    assert body == name + [0] + rest;
    assert body[|name|] == 0;
    var k := IndexOf(body, 0);
    assert body[..|name|] == name;
    assert forall t :: 0 <= t < |name| ==> body[t] == name[t];
    assert k == |name|;
    assert body[k + 1..] == rest;
  }

  /** A request frame from `input[cursor]` on whose name has `k` bytes; `after` is where the next frame starts. */
  lemma ServeRequestAt(input: seq<byte>, cursor: nat, k: nat, after: nat, env: Environment, last: Option<seq<byte>>)
    requires ValidEnvironment(env)
    requires after == cursor + 1 + k + 1 <= |input| && input[cursor] == 0 && input[cursor + 1 + k] == 0
    requires 0 !in input[cursor + 1..cursor + 1 + k] && k < BufferSize
    ensures Serve(input[cursor..], env, last)
      == Prepend(EnvReply(env, input[cursor + 1..cursor + 1 + k]),
                 Serve(input[after..], env, Some(input[cursor + 1..cursor + 1 + k])))
  {
    ServeRequest(input, cursor + 1, k, env, last);
  }

  /** A request frame whose name is `input[start..start + k]`, followed by its NUL. */
  lemma ServeRequest(input: seq<byte>, start: nat, k: nat, env: Environment, last: Option<seq<byte>>)
    requires ValidEnvironment(env)
    requires 1 <= start && start + k < |input| && input[start - 1] == 0 && input[start + k] == 0
    requires 0 !in input[start..start + k] && k < BufferSize
    ensures Serve(input[start - 1..], env, last)
      == Prepend(EnvReply(env, input[start..start + k]),
                 Serve(input[start + k + 1..], env, Some(input[start..start + k])))
  {
    var name := input[start..start + k];
    assert input[start - 1..] == [0] + name + [0] + input[start + k + 1..];
    ReadRequestFrame(name, input[start + k + 1..]);
  }

  // ---- properties of the relay's side of the conversation ----

  /** A C string without NUL bytes is printed whole. */
  lemma {:induction false} CStringOfUnterminated(p: seq<byte>)
    requires 0 !in p
    ensures CString(p) == p
    decreases |p|
  {
    if p != [] {
      assert 0 !in p[1..] by { assert forall t :: 0 <= t < |p| - 1 ==> p[1..][t] == p[t + 1]; }
      CStringOfUnterminated(p[1..]);
      assert [p[0]] + p[1..] == p;
    }
  }

  /**
   * An environment request `0, name, 0` is answered with the variable's
   * length and value (or -1), and the relay goes on reading frames.
   */
  lemma ServeEnvExchange(name: seq<byte>, rest: seq<byte>, env: Environment, last: Option<seq<byte>>)
    requires ValidEnvironment(env)
    requires 0 !in name && |name| < BufferSize
    ensures Serve([0] + name + [0] + rest, env, last)
      == Prepend(EnvReply(env, name), Serve(rest, env, Some(name)))
  {
    ReadRequestFrame(name, rest);
  }

  /** A final frame carrying its length prints exactly the payload and exits 0. */
  lemma FinalReadOfLengthFrame(payload: seq<byte>, rest: seq<byte>)
    requires 0 !in payload && |payload| < Pow31 - 1
    ensures FinalRead(LittleEndian32(|payload|) + payload + rest) == Run([], payload, Exit(0))
  {
    var input := LittleEndian32(|payload|) + payload + rest;
    assert input[..4] == LittleEndian32(|payload|);
    LittleEndianRoundTrip(|payload|);
    assert input[4..4 + |payload|] == payload;
    CStringOfUnterminated(payload);
  }

  /** A final frame whose first four bytes claim more than follows is reported as an error. */
  lemma FinalReadOfShortFrame(input: seq<byte>)
    requires |input| >= 4 && FromLittleEndian32(input[..4]) > |input| - 4
    requires FromLittleEndian32(input[..4]) != Pow31 - 1
    ensures FinalRead(input) == Run([], ResponseErrorBytes, Exit(1))
  {
  }

  /**
   * The final reader exits 1 with RESPONSE_ERROR, or exits 0 having printed
   * at most the announced number of bytes, none of them NUL.
   */
  lemma FinalReadExits(input: seq<byte>)
    ensures var run := FinalRead(input);
      && (run.ending.Exit? ==> run.ending.code == 0 || run.ending.code == 1)
      && (run.ending == Exit(1) ==> run.stdout == ResponseErrorBytes)
      && (run.ending == Exit(0) ==>
            4 <= |input| && 0 !in run.stdout && |run.stdout| <= FromLittleEndian32(input[..4]) <= |input| - 4)
  {
  }

  /**
   * The relay exits only with 0 or 1; exit code 1 always comes with
   * RESPONSE_ERROR on stdout, and what it prints on success holds no NUL.
   */
  lemma {:induction false} ServeExits(input: seq<byte>, env: Environment, last: Option<seq<byte>>)
    requires ValidEnvironment(env)
    ensures var run := Serve(input, env, last);
      && (run.ending.Exit? ==> run.ending.code == 0 || run.ending.code == 1)
      && (run.ending == Exit(1) ==> run.stdout == ResponseErrorBytes)
      && (run.ending == Exit(0) ==> 0 !in run.stdout)
    decreases |input|
  {
    match ReadFrame(input)
    case Final(payload) => FinalReadExits(payload);
    case Request(name, rest) => ServeExits(rest, env, Some(name));
    case Reread => ServeExits([], env, last);
    case _ =>
  }
}
