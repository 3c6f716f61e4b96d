/**
 * The response builder scripts use (api/ResponseBuilding.kt): an
 * insertion-ordered set of header pairs and a text buffer, the header DSL
 * with its Set-Cookie assembly (section 4.1.1 of RFC 6265), `html`'s header
 * bookkeeping, and `respond(code) { ... }`, which writes the status line,
 * one line per header, a blank line and the text.
 */
module Responses {
  import opened Wrappers
  import opened Text
  import opened Unicode
  import opened Int32
  import opened CgiScripts
  import Status
  import opened CookieDates

  // ---- the header set ----

  /** `headers += pair` on a `LinkedHashSet`: appended unless already there. */
  function Added(headers: seq<(string, string)>, pair: (string, string)): seq<(string, string)> {
    if pair in headers then headers else headers + [pair]
  }

  predicate NoDuplicates<T(==)>(s: seq<T>) {
    forall i, j | 0 <= i < j < |s| :: s[i] != s[j]
  }

  /**
   * Adding keeps the set a set; what was there stays, in order, in front;
   * the pair is present afterwards; adding it again changes nothing.
   */
  lemma AddedIsSetInsertion(headers: seq<(string, string)>, pair: (string, string))
    requires NoDuplicates(headers)
    ensures NoDuplicates(Added(headers, pair))
    ensures Added(headers, pair)[..|headers|] == headers
    ensures pair in Added(headers, pair)
    ensures forall p :: p in Added(headers, pair) <==> p in headers || p == pair
    ensures Added(Added(headers, pair), pair) == Added(headers, pair)
  {
  }

  /** The same key with two different values gives two headers; the same pair twice gives one. */
  lemma SameKeyTwice(headers: seq<(string, string)>, key: string, v1: string, v2: string)
    requires NoDuplicates(headers) && v1 != v2
    ensures var h := Added(Added(headers, (key, v1)), (key, v2));
      (key, v1) in h && (key, v2) in h && NoDuplicates(h)
    ensures Added(Added(headers, (key, v1)), (key, v1)) == Added(headers, (key, v1))
  {
    AddedIsSetInsertion(headers, (key, v1));
    AddedIsSetInsertion(Added(headers, (key, v1)), (key, v2));
  }

  /** `ResponseBuilder`: the header set and the `StringBuilder` text. */
  class ResponseBuilder {
    var headers: seq<(string, string)>
    var text: string

    ghost predicate Valid()
      reads this
    {
      NoDuplicates(headers)
    }

    constructor()
      ensures Valid() && headers == [] && text == ""
    {
      headers := [];
      text := "";
    }

    /** `headers += key to value` (also `headers.add`). */
    method AddHeader(key: string, value: string)
      requires Valid()
      modifies this
      ensures Valid()
      ensures headers == Added(old(headers), (key, value))
      ensures text == old(text)
    {
      AddedIsSetInsertion(headers, (key, value));
      if (key, value) !in headers {
        headers := headers + [(key, value)];
      }
    }

    /**
     * `html { ... }`, the rendered page being `page`: Content-Type first,
     * then the page appended, then Content-Length, the UTF-16 length of all
     * the text so far.
     */
    method Html(page: string)
      requires Valid()
      modifies this
      ensures Valid()
      ensures text == old(text) + page
      ensures headers == Added(Added(old(headers), ("Content-Type", "text/html")),
                               ("Content-Length", IntToDecimal(|Utf16Units(old(text) + page)|)))
    {
      AddHeader("Content-Type", "text/html");
      text := text + page;
      AddHeader("Content-Length", IntToDecimal(|Utf16Units(text)|));
    }
  }

  // ---- cookies ----

  /** `CookieSameSite`, printed by its constant name. */
  datatype CookieSameSite = Strict | Lax | SameSiteNone

  function SameSiteName(s: CookieSameSite): string {
    match s
    case Strict => "Strict"
    case Lax => "Lax"
    case SameSiteNone => "None"
  }

  /**
   * The optional arguments of `cookie`. `expires` is the instant's UTC
   * calendar fields, written with `cookieDateTimeFormat`; `maxAge` is a
   * duration in nanoseconds.
   */
  datatype CookieOptions = CookieOptions(
    secure: bool,
    httpOnly: bool,
    sameSite: Option<CookieSameSite>,
    partitioned: bool,
    expires: Option<DateTime>,
    maxAge: Option<int>,
    domain: Option<string>,
    path: Option<string>)

  const DefaultCookieOptions: CookieOptions :=
    CookieOptions(false, false, None, false, None, None, None, None)

  /** `Duration.inWholeSeconds`: whole seconds, the fraction cut off toward zero. */
  function InWholeSeconds(nanoseconds: int): (s: int)
    ensures nanoseconds >= 0 ==> s * 1000000000 <= nanoseconds < (s + 1) * 1000000000
    ensures nanoseconds < 0 ==> (s - 1) * 1000000000 < nanoseconds <= s * 1000000000
  {
    CDiv(nanoseconds, 1000000000)
  }

  /** One `if (...) append("; " + attribute)` step of `cookie`'s `buildString`. */
  function AppendIf(s: string, enabled: bool, attribute: string): string {
    if enabled then s + "; " + attribute else s
  }

  function SameSiteText(o: CookieOptions): string {
    if o.sameSite.Some? then "SameSite=" + SameSiteName(o.sameSite.value) else ""
  }

  function ExpiresText(o: CookieOptions): string {
    if o.expires.Some? then "Expires=" + CookieDateText(o.expires.value) else ""
  }

  function MaxAgeText(o: CookieOptions): string {
    if o.maxAge.Some? then "Max-Age=" + IntToDecimal(InWholeSeconds(o.maxAge.value)) else ""
  }

  function DomainText(o: CookieOptions): string {
    if o.domain.Some? then "Domain=" + o.domain.value else ""
  }

  function PathText(o: CookieOptions): string {
    if o.path.Some? then "Path=" + o.path.value else ""
  }

  /**
   * The eight optional attributes in the order `cookie` tests them: whether
   * each is enabled or present, and its text.
   */
  function Steps(o: CookieOptions): seq<(bool, string)> {
    [(o.secure, "Secure"),
     (o.httpOnly, "HttpOnly"),
     (o.sameSite.Some?, SameSiteText(o)),
     (o.partitioned, "Partitioned"),
     (o.expires.Some?, ExpiresText(o)),
     (o.maxAge.Some?, MaxAgeText(o)),
     (o.domain.Some?, DomainText(o)),
     (o.path.Some?, PathText(o))]
  }

  /** The conditional appends of `buildString`, applied in order. */
  function Build(s: string, steps: seq<(bool, string)>): string
    decreases |steps|
  {
    if steps == [] then s else Build(AppendIf(s, steps[0].0, steps[0].1), steps[1..])
  }

  /** The Set-Cookie value `cookie` builds: `name=value`, then each step's append. */
  function CookieValue(name: string, value: string, o: CookieOptions): string {
    Build(name + "=" + value, Steps(o))
  }

  /** The attributes of the enabled steps, in order. */
  function Enabled(steps: seq<(bool, string)>): seq<string> {
    if steps == [] then [] else (if steps[0].0 then [steps[0].1] else []) + Enabled(steps[1..])
  }

  /** The attributes a cookie carries: the enabled or present ones, in the order above. */
  function Attributes(o: CookieOptions): seq<string> {
    Enabled(Steps(o))
  }

  /** An attribute is carried iff its step is enabled. */
  lemma {:induction false} EnabledMembers(steps: seq<(bool, string)>)
    ensures forall a :: a in Enabled(steps) <==> exists k | 0 <= k < |steps| :: steps[k].0 && steps[k].1 == a
    decreases |steps|
  {
    if steps != [] {
      EnabledMembers(steps[1..]);
      assert forall k | 1 <= k < |steps| :: steps[k] == steps[1..][k - 1];
      forall a | exists k | 0 <= k < |steps| :: steps[k].0 && steps[k].1 == a
        ensures a in Enabled(steps)
      {
        var k :| 0 <= k < |steps| && steps[k].0 && steps[k].1 == a;
        if k > 0 {
          assert steps[1..][k - 1] == steps[k];
        }
      }
    }
  }

  /** The flag attributes appear exactly when their flags are set. */
  lemma FlagAttributes(o: CookieOptions)
    ensures o.secure <==> "Secure" in Attributes(o)
    ensures o.httpOnly <==> "HttpOnly" in Attributes(o)
    ensures o.partitioned <==> "Partitioned" in Attributes(o)
    ensures o.sameSite.Some? ==> "SameSite=" + SameSiteName(o.sameSite.value) in Attributes(o)
    ensures o.maxAge.Some? ==> "Max-Age=" + IntToDecimal(InWholeSeconds(o.maxAge.value)) in Attributes(o)
  {
    var steps := Steps(o);
    EnabledMembers(steps);
    assert steps[0] == (o.secure, "Secure") && steps[1] == (o.httpOnly, "HttpOnly");
    assert steps[3] == (o.partitioned, "Partitioned");
    assert steps[2].1 == SameSiteText(o) && steps[5].1 == MaxAgeText(o);
    forall k | 0 <= k < |steps| && k != 0 ensures steps[k].1 != "Secure" {
      NotFlagText(o, k);
    }
    forall k | 0 <= k < |steps| && k != 1 ensures steps[k].1 != "HttpOnly" {
      NotFlagText(o, k);
    }
    forall k | 0 <= k < |steps| && k != 3 ensures steps[k].1 != "Partitioned" {
      NotFlagText(o, k);
    }
  }

  /** The texts of the valued attributes all hold '=' or are empty, so none equals a flag's name. */
  lemma NotFlagText(o: CookieOptions, k: nat)
    requires k < 8
    ensures k != 0 ==> Steps(o)[k].1 != "Secure"
    ensures k != 1 ==> Steps(o)[k].1 != "HttpOnly"
    ensures k != 3 ==> Steps(o)[k].1 != "Partitioned"
  {
    var t := Steps(o)[k].1;
    if k !in {0, 1, 3} {
      assert t == "" || '=' in t by {
        if k == 2 && o.sameSite.Some? { assert t[8] == '='; }
        if k == 4 && o.expires.Some? { assert t[7] == '='; }
        if k == 5 && o.maxAge.Some? { assert t[7] == '='; }
        if k == 6 && o.domain.Some? { assert t[6] == '='; }
        if k == 7 && o.path.Some? { assert t[4] == '='; }
      }
    }
  }

  /** `"; " + a` for each attribute, concatenated. */
  function AttributeText(attributes: seq<string>): string {
    if attributes == [] then "" else "; " + attributes[0] + AttributeText(attributes[1..])
  }

  /** Text free of ';', as a cookie's parts must be for the value to split back. */
  predicate NoSemicolon(s: string) {
    ';' !in s
  }

  lemma {:induction false} AttributeTextAppend(a: seq<string>, b: seq<string>)
    ensures AttributeText(a + b) == AttributeText(a) + AttributeText(b)
    decreases |a|
  {
    if a == [] {
      assert a + b == b;
    } else {
      assert (a + b)[0] == a[0];
      assert (a + b)[1..] == a[1..] + b;
      AttributeTextAppend(a[1..], b);
    }
  }

  /** The appends add `"; "` and the attribute for each enabled step, and nothing else. */
  lemma {:induction false} BuildAppends(head: string, done: seq<string>, steps: seq<(bool, string)>)
    ensures Build(head + AttributeText(done), steps) == head + AttributeText(done + Enabled(steps))
    decreases |steps|
  {
    if steps == [] {
      assert done + [] == done;
    } else {
      var enabled := steps[0].0;
      var attribute := steps[0].1;
      var step := if enabled then [attribute] else [];
      AppendIfStep(head, done, enabled, attribute);
      BuildAppends(head, done + step, steps[1..]);
      assert Enabled(steps) == step + Enabled(steps[1..]);
      assert done + step + Enabled(steps[1..]) == done + Enabled(steps);
    }
  }

  lemma AppendIfStep(head: string, done: seq<string>, enabled: bool, attribute: string)
    ensures AppendIf(head + AttributeText(done), enabled, attribute)
      == head + AttributeText(done + if enabled then [attribute] else [])
  {
    var step := if enabled then [attribute] else [];
    AttributeTextAppend(done, step);
    if enabled {
      assert [attribute][1..] == [];
      assert AttributeText(step) == "; " + attribute + "";
    } else {
      assert AttributeText(step) == "";
    }
  }

  /** The cookie value is `name=value` followed by `"; "` and each enabled attribute in order. */
  lemma CookieLayout(name: string, value: string, o: CookieOptions)
    ensures CookieValue(name, value, o) == name + "=" + value + AttributeText(Attributes(o))
  {
    var h := name + "=" + value;
    assert h + AttributeText([]) == h;
    BuildAppends(h, [], Steps(o));
    assert [] + Enabled(Steps(o)) == Attributes(o);
  }

  /** The `HeaderBuilder` a `headers { ... }` block runs on. */
  class HeaderBuilder {
    const builder: ResponseBuilder

    constructor(builder: ResponseBuilder)
      ensures this.builder == builder
    {
      this.builder := builder;
    }

    /** `key(value)`: the `String.invoke` form. */
    method Invoke(key: string, value: string)
      requires builder.Valid()
      modifies builder
      ensures builder.Valid()
      ensures builder.headers == Added(old(builder.headers), (key, value))
      ensures builder.text == old(builder.text)
    {
      builder.AddHeader(key, value);
    }

    /** `this[key] = value`: the same pair added as `Invoke` adds it. */
    method Set(key: string, value: string)
      requires builder.Valid()
      modifies builder
      ensures builder.Valid()
      ensures builder.headers == Added(old(builder.headers), (key, value))
      ensures builder.text == old(builder.text)
    {
      builder.AddHeader(key, value);
    }

    /** `cookie(name, value, ...)`: one Set-Cookie header. */
    method Cookie(name: string, value: string, o: CookieOptions)
      requires builder.Valid()
      modifies builder
      ensures builder.Valid()
      ensures builder.headers == Added(old(builder.headers), ("Set-Cookie", CookieValue(name, value, o)))
      ensures builder.text == old(builder.text)
    {
      builder.AddHeader("Set-Cookie", CookieValue(name, value, o));
    }
  }

  // ---- the response text ----

  /** Each line followed by '\n', as `appendLine` writes it. */
  function Lines(lines: seq<string>): string {
    if lines == [] then "" else lines[0] + "\n" + Lines(lines[1..])
  }

  lemma {:induction false} LinesSnoc(lines: seq<string>, line: string)
    ensures Lines(lines + [line]) == Lines(lines) + line + "\n"
    decreases |lines|
  {
    if lines != [] {
      assert (lines + [line])[1..] == lines[1..] + [line];
      LinesSnoc(lines[1..], line);
    } else {
      assert [] + [line] == [line];
    }
  }

  function StatusLine(code: Status.HttpStatusCode): string {
    "HTTP/1.1 " + IntToDecimal(code.number) + " " + code.message
  }

  function HeaderLine(header: (string, string)): string {
    header.0 + ": " + header.1
  }

  function HeaderLines(headers: seq<(string, string)>): (lines: seq<string>)
    ensures |lines| == |headers|
    ensures forall i | 0 <= i < |headers| :: lines[i] == HeaderLine(headers[i])
  {
    if headers == [] then [] else [HeaderLine(headers[0])] + HeaderLines(headers[1..])
  }

  /** The whole response: the status line, the header lines, an empty line, then the text. */
  function ResponseText(code: Status.HttpStatusCode, headers: seq<(string, string)>, text: string): string {
    Lines([StatusLine(code)] + HeaderLines(headers) + [""]) + text
  }

  /**
   * `respond(code) { ... }`, the block having filled `builder`: the response
   * text is built line by line and stored as the result, replacing any
   * earlier one.
   */
  method Respond(script: CgiScript, code: Status.HttpStatusCode, builder: ResponseBuilder)
    modifies script.info
    ensures script.info.OldResult() == Some(ResponseText(code, builder.headers, builder.text))
  {
    var headers := builder.headers;
    var out := StatusLine(code) + "\n";
    assert out == Lines([StatusLine(code)] + HeaderLines(headers[..0]));
    var i := 0;
    while i < |headers|
      invariant 0 <= i <= |headers|
      invariant out == Lines([StatusLine(code)] + HeaderLines(headers[..i]))
    {
      assert HeaderLines(headers[..i + 1]) == HeaderLines(headers[..i]) + [HeaderLine(headers[i])];
      LinesSnoc([StatusLine(code)] + HeaderLines(headers[..i]), HeaderLine(headers[i]));
      assert [StatusLine(code)] + HeaderLines(headers[..i + 1])
        == [StatusLine(code)] + HeaderLines(headers[..i]) + [HeaderLine(headers[i])];
      out := out + HeaderLine(headers[i]) + "\n";
      i := i + 1;
    }
    assert headers[..i] == headers;
    var lines := [StatusLine(code)] + HeaderLines(headers);
    LinesSnoc(lines, "");
    assert Lines(lines + [""]) == out + "\n";
    var text := builder.text;
    out := out + "\n" + text;
    assert out == ResponseText(code, headers, text);
    script.Respond(out);
  }

  /** Splitting text that starts with whole lines on '\n' gives those lines back, then the rest split. */
  lemma {:induction false} SplitLines(lines: seq<string>, tail: string)
    requires forall i | 0 <= i < |lines| :: '\n' !in lines[i]
    ensures Split(Lines(lines) + tail, '\n') == lines + Split(tail, '\n')
    decreases |lines|
  {
    if lines == [] {
      assert Lines(lines) + tail == tail;
    } else {
      var first := lines[0];
      var rest := Lines(lines[1..]) + tail;
      assert '\n' !in first;
      assert Lines(lines) + tail == first + ['\n'] + rest;
      SplitOfPrefix(first, '\n', rest);
      SplitLines(lines[1..], tail);
      HeadRegroup(lines, Split(tail, '\n'));
    }
  }

  lemma HeadRegroup<T>(s: seq<T>, t: seq<T>)
    requires s != []
    ensures [s[0]] + (s[1..] + t) == s + t
  {
    assert s == [s[0]] + s[1..];
  }

  /**
   * When the reason phrase and the headers hold no line break, the response
   * splits back on '\n' into the status line, one `key: value` line per
   * header in insertion order, an empty line, and the text's own lines.
   */
  lemma ResponseLines(code: Status.HttpStatusCode, headers: seq<(string, string)>, text: string)
    requires '\n' !in code.message
    requires forall i | 0 <= i < |headers| :: '\n' !in headers[i].0 && '\n' !in headers[i].1
    ensures Split(ResponseText(code, headers, text), '\n')
      == [StatusLine(code)] + HeaderLines(headers) + [""] + Split(text, '\n')
  {
    var lines := [StatusLine(code)] + HeaderLines(headers) + [""];
    IntToDecimalChars(code.number);
    assert '\n' !in StatusLine(code);
    forall i | 0 <= i < |lines| ensures '\n' !in lines[i] {
      if 1 <= i < |lines| - 1 {
        assert lines[i] == headers[i - 1].0 + [':', ' '] + headers[i - 1].1;
      }
    }
    SplitLines(lines, text);
  }

  /** With no ';' in its parts, a cookie value splits on ';' into `name=value` and " " + each attribute. */
  lemma CookieSplits(name: string, value: string, o: CookieOptions)
    requires NoSemicolon(name) && NoSemicolon(value)
    requires forall a | a in Attributes(o) :: NoSemicolon(a)
    ensures Split(CookieValue(name, value, o), ';') == [name + "=" + value] + SpacedAttributes(Attributes(o))
  {
    CookieLayout(name, value, o);
    AttributeSplit(name + "=" + value, Attributes(o));
  }

  function SpacedAttributes(attributes: seq<string>): (r: seq<string>)
    ensures |r| == |attributes|
    ensures forall i | 0 <= i < |r| :: r[i] == " " + attributes[i]
  {
    if attributes == [] then [] else [" " + attributes[0]] + SpacedAttributes(attributes[1..])
  }

  lemma {:induction false} AttributeSplit(head: string, attributes: seq<string>)
    requires NoSemicolon(head)
    requires forall a | a in attributes :: NoSemicolon(a)
    ensures Split(head + AttributeText(attributes), ';') == [head] + SpacedAttributes(attributes)
    decreases |attributes|
  {
    if attributes == [] {
      assert head + "" == head;
    } else {
      var first := " " + attributes[0];
      var rest := attributes[1..];
      assert NoSemicolon(first) by {
        assert attributes[0] in attributes;
      }
      forall a | a in rest
        ensures NoSemicolon(a)
      {
        assert a in attributes;
      }
      AttributeSplit(first, rest);
      SeparatorFirst(head, attributes[0], AttributeText(rest));
      SplitOfPrefix(head, ';', first + AttributeText(rest));
    }
  }

  lemma SeparatorFirst(head: string, attribute: string, more: string)
    ensures head + ("; " + attribute + more) == head + [';'] + (" " + attribute + more)
  {
    assert "; " == [';'] + " ";
  }
}
