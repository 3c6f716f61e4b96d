/**
 * Resolution of `@file:DependsOnMavenCentral` annotations during script
 * compilation (CgiScriptCompilationConfiguration.kt, `handleMavenCentral`):
 * an annotation names an artifact either by a coordinate string
 * `group:name:version[:classifier]` or field by field; the artifact's
 * repository path and Maven Central URL are built from it, the artifact is
 * fetched, and its local copy is appended to the script's dependencies.
 * Whether a fetch succeeds is a parameter; the dependencies of the
 * configuration are the list of local files.
 */
module Maven {
  import opened Wrappers
  import opened Text

  const MavenCentralUrl: string := "https://repo1.maven.org/maven2"

  /** The fields of a `DependsOnMavenCentral` annotation, with its defaults: all empty but `extension = "jar"`. */
  datatype MavenCentral = MavenCentral(coordinates: string, group: string, artifact: string, version: string,
                                       classifier: string, extension: string)

  /** A collected file annotation: the Maven Central kind, or any other kind, which this handler skips. */
  datatype Annotation = DependsOnMavenCentral(fields: MavenCentral) | OtherAnnotation(name: string)

  /** A resolved artifact: the group as a path (dots turned into slashes), and the classifier part with its dash. */
  datatype Artifact = Artifact(group: string, name: string, version: string, classifierPart: string, extension: string)

  function InvalidCoordinates(coordinates: string): string {
    "Invalid coordinates: " + coordinates
  }

  const NoGroup: string := "No specified MavenCentral group"
  const NoArtifact: string := "No specified MavenCentral artifact"
  const NoVersion: string := "No specified MavenCentral version"

  function DownloadFailed(url: string): string {
    "Failed to download artifact from " + url
  }

  function GroupPath(group: string): string {
    ReplaceChar(group, '.', '/')
  }

  /**
   * `artifactRegex.matchEntire(coordinates)` as written: every group is
   * `[^:]*`, so the string matches when it has exactly two or three colons;
   * the version (or, with three colons, the classifier) runs to the end of
   * the string, `@` included, and the extension group never matches.
   */
  function ParseCoordinates(coordinates: string): Result<Artifact, string> {
    var pieces := Split(coordinates, ':');
    if |pieces| == 3 then Ok(Artifact(GroupPath(pieces[0]), pieces[1], pieces[2], "", "jar"))
    else if |pieces| == 4 then Ok(Artifact(GroupPath(pieces[0]), pieces[1], pieces[2], "-" + pieces[3], "jar"))
    else Err(InvalidCoordinates(coordinates))
  }

  /** The artifact an annotation names: non-blank coordinates first, otherwise the fields, checked in order. */
  function ArtifactOf(a: MavenCentral): Result<Artifact, string> {
    if !IsBlank(a.coordinates) then ParseCoordinates(a.coordinates)
    else if IsBlank(a.group) then Err(NoGroup)
    else if IsBlank(a.artifact) then Err(NoArtifact)
    else if IsBlank(a.version) then Err(NoVersion)
    else
      var classifierPart := if IsBlank(a.classifier) then "" else "-" + a.classifier;
      Ok(Artifact(GroupPath(a.group), a.artifact, a.version, classifierPart, a.extension))
  }

  /** `{group}/{name}/{version}/{name}-{version}{classifier}.{extension}` */
  function ArtifactPath(d: Artifact): string {
    d.group + "/" + d.name + "/" + d.version + "/" + FileNameOf(d)
  }

  function FileNameOf(d: Artifact): string {
    d.name + "-" + d.version + d.classifierPart + "." + d.extension
  }

  function ArtifactUrl(d: Artifact): string {
    MavenCentralUrl + "/" + ArtifactPath(d)
  }

  /** `Path(HOME, ".m2/repository", path)`, joined with slashes. */
  function LocalCopy(home: string, d: Artifact): string {
    home + "/.m2/repository/" + ArtifactPath(d)
  }

  /** One annotation: the local copy of its artifact, or the failure it reports. */
  function Resolved(a: MavenCentral, home: string, fetched: string -> bool): Result<string, string> {
    match ArtifactOf(a)
    case Err(message) => Err(message)
    case Ok(d) => if fetched(ArtifactUrl(d)) then Ok(LocalCopy(home, d)) else Err(DownloadFailed(ArtifactUrl(d)))
  }

  /** The Maven Central annotations among the collected ones, in order. */
  function MavenOnly(annotations: seq<Annotation>): (sources: seq<MavenCentral>)
    ensures |sources| <= |annotations|
  {
    if annotations == [] then []
    else
      var rest := MavenOnly(annotations[1..]);
      match annotations[0]
      case DependsOnMavenCentral(fields) => [fields] + rest
      case OtherAnnotation(_) => rest
  }

  /** The loop over the sources, from the dependencies so far: stop at the first failure, else append. */
  function Resolve(config: seq<string>, sources: seq<MavenCentral>, resolve: MavenCentral -> Result<string, string>)
    : Result<seq<string>, string>
    decreases |sources|
  {
    if sources == [] then Ok(config)
    else
      match resolve(sources[0])
      case Err(message) => Err(message)
      case Ok(file) => Resolve(config + [file], sources[1..], resolve)
  }

  /** `handleMavenCentral`: no collected annotations leaves the configuration as it is. */
  function HandleMavenCentral(config: seq<string>, collected: Option<seq<Annotation>>, home: string,
                              fetched: string -> bool): Result<seq<string>, string> {
    if collected.None? then Ok(config)
    else Resolve(config, MavenOnly(collected.value), a => Resolved(a, home, fetched))
  }

  /** The handler's loop, reassigning the configuration and returning at the first failure. */
  method HandleAnnotations(config: seq<string>, collected: Option<seq<Annotation>>, home: string,
                           fetched: string -> bool) returns (r: Result<seq<string>, string>)
    ensures r == HandleMavenCentral(config, collected, home, fetched)
  {
    if collected.None? {
      return Ok(config);
    }
    var sources := MavenOnly(collected.value);
    var current := config;
    ghost var resolve := a => Resolved(a, home, fetched);
    for i := 0 to |sources|
      invariant Resolve(current, sources[i..], resolve) == Resolve(config, sources, resolve)
    {
      assert sources[i..][1..] == sources[i + 1..];
      var dep := ArtifactOf(sources[i]);
      if dep.Err? {
        return Err(dep.error);
      }
      var url := ArtifactUrl(dep.value);
      if !fetched(url) {
        return Err(DownloadFailed(url));
      }
      current := current + [LocalCopy(home, dep.value)];
    }
    return Ok(current);
  }

  // ---- coordinates ----

  /** Coordinates are accepted exactly when they hold two or three colons. */
  lemma CoordinatesAccepted(coordinates: string)
    ensures ParseCoordinates(coordinates).Ok? <==> Count(coordinates, ':') == 2 || Count(coordinates, ':') == 3
    ensures ParseCoordinates(coordinates).Err? ==> ParseCoordinates(coordinates).error == InvalidCoordinates(coordinates)
  {
    SplitCount(coordinates, ':');
  }

  /** `group:name:version` gives those fields back, the group's dots turned into slashes and the extension "jar". */
  lemma CoordinatesRoundTrip(group: string, name: string, version: string)
    requires ':' !in group && ':' !in name && ':' !in version
    ensures ParseCoordinates(group + ":" + name + ":" + version) == Ok(Artifact(GroupPath(group), name, version, "", "jar"))
  {
    SplitThree(group, name, version, ':');
  }

  /** `group:name:version:classifier` gives those fields back, the classifier behind a dash. */
  lemma ClassifiedRoundTrip(group: string, name: string, version: string, classifier: string)
    requires ':' !in group && ':' !in name && ':' !in version && ':' !in classifier
    ensures ParseCoordinates(group + ":" + name + ":" + version + ":" + classifier)
      == Ok(Artifact(GroupPath(group), name, version, "-" + classifier, "jar"))
  {
    var parts := [group, name, version, classifier];
    assert Join(parts, [':']) == group + ":" + name + ":" + version + ":" + classifier by {
      assert Join(parts[3..], [':']) == classifier;
      assert Join(parts[2..], [':']) == version + [':'] + classifier;
      assert Join(parts[1..], [':']) == name + [':'] + (version + [':'] + classifier);
    }
    SplitOfJoin(parts, ':');
  }

  /**
   * An `@extension` suffix is not recognised: it stays in the version and
   * the artifact is looked for as a jar.
   */
  lemma ExtensionSwallowed(group: string, name: string, version: string, extension: string)
    requires ':' !in group && ':' !in name && ':' !in version && ':' !in extension
    ensures ParseCoordinates(group + ":" + name + ":" + version + "@" + extension)
      == Ok(Artifact(GroupPath(group), name, version + "@" + extension, "", "jar"))
  {
    var full := version + "@" + extension;
    assert ':' !in full;
    CoordinatesRoundTrip(group, name, full);
    assert group + ":" + name + ":" + full == group + ":" + name + ":" + version + "@" + extension;
  }

  /**
   * The coordinates with the version and classifier groups written
   * `[^:@]*`, so that an `@extension` suffix is recognised as the regex's
   * `extension` group intends.
   */
  function ParseCoordinatesCorrected(coordinates: string): Result<Artifact, string> {
    var pieces := Split(coordinates, ':');
    if |pieces| != 3 && |pieces| != 4 then Err(InvalidCoordinates(coordinates))
    else
      var last := pieces[|pieces| - 1];
      var body := if '@' in last then last[..IndexOf(last, '@')] else last;
      var extension := if '@' in last then last[IndexOf(last, '@') + 1..] else "jar";
      if |pieces| == 3 then Ok(Artifact(GroupPath(pieces[0]), pieces[1], body, "", extension))
      else if '@' in pieces[2] then Err(InvalidCoordinates(coordinates))
      else Ok(Artifact(GroupPath(pieces[0]), pieces[1], pieces[2], "-" + body, extension))
  }

  /** With the correction, `group:name:version@extension` gives all four fields back. */
  lemma CorrectedExtensionRoundTrip(group: string, name: string, version: string, extension: string)
    requires ':' !in group && ':' !in name && ':' !in version && ':' !in extension && '@' !in version
    ensures ParseCoordinatesCorrected(group + ":" + name + ":" + version + "@" + extension)
      == Ok(Artifact(GroupPath(group), name, version, "", extension))
  {
    var last := version + "@" + extension;
    var coordinates := group + ":" + name + ":" + version + "@" + extension;
    assert coordinates == group + [':'] + name + [':'] + last;
    assert ':' !in last;
    SplitThree(group, name, last, ':');
    AtSuffix(version, extension, last);
  }

  /** The first `@` of `version@extension`, when the version holds none, is the one after the version. */
  lemma AtSuffix(version: string, extension: string, last: string)
    requires last == version + "@" + extension && '@' !in version
    ensures '@' in last && IndexOf(last, '@') == |version|
    ensures last[..|version|] == version && last[|version| + 1..] == extension
  {
    assert last[|version|] == '@' && last[..|version|] == version;
    IndexOfIsFirst(last, '@', |version|);
    assert last[|version| + 1..] == extension;
  }

  /** Without a suffix the correction changes nothing. */
  lemma CorrectedAgreesWithoutSuffix(coordinates: string)
    requires '@' !in coordinates
    ensures ParseCoordinatesCorrected(coordinates) == ParseCoordinates(coordinates)
  {
    var pieces := Split(coordinates, ':');
    SplitJoin(coordinates, ':');
    if |pieces| == 3 || |pieces| == 4 {
      var last := pieces[|pieces| - 1];
      assert '@' !in last by {
        if '@' in last {
          JoinHolds(pieces, [':'], |pieces| - 1, '@');
        }
      }
      if |pieces| == 4 {
        assert '@' !in pieces[2] by {
          if '@' in pieces[2] {
            JoinHolds(pieces, [':'], 2, '@');
          }
        }
      }
    }
  }

  /** A character of one of the joined parts is a character of the join. */
  lemma {:induction false} JoinHolds(parts: seq<string>, sep: string, i: nat, c: char)
    requires i < |parts| && c in parts[i]
    ensures c in Join(parts, sep)
    decreases |parts|
  {
    if |parts| == 1 {
      assert Join(parts, sep) == parts[0];
    } else {
      var first := parts[0];
      var rest := Join(parts[1..], sep);
      assert Join(parts, sep) == first + sep + rest;
      if i > 0 {
        JoinHolds(parts[1..], sep, i - 1, c);
        var k :| 0 <= k < |rest| && rest[k] == c;
        assert (first + sep + rest)[|first + sep| + k] == c;
      } else {
        var k :| 0 <= k < |first| && first[k] == c;
        assert (first + sep + rest)[k] == c;
      }
    }
  }

  // ---- annotations ----

  /** Non-blank coordinates decide the artifact, whatever the fields say. */
  lemma CoordinatesFirst(a: MavenCentral)
    requires !IsBlank(a.coordinates)
    ensures ArtifactOf(a) == ParseCoordinates(a.coordinates)
  {
  }

  /**
   * In field form a blank group, artifact or version fails, checked in that
   * order; otherwise the fields are taken over, a blank classifier giving no
   * classifier part.
   */
  lemma FieldForm(a: MavenCentral)
    requires IsBlank(a.coordinates)
    ensures IsBlank(a.group) ==> ArtifactOf(a) == Err(NoGroup)
    ensures !IsBlank(a.group) && IsBlank(a.artifact) ==> ArtifactOf(a) == Err(NoArtifact)
    ensures !IsBlank(a.group) && !IsBlank(a.artifact) && IsBlank(a.version) ==> ArtifactOf(a) == Err(NoVersion)
    ensures ArtifactOf(a).Ok? <==> !IsBlank(a.group) && !IsBlank(a.artifact) && !IsBlank(a.version)
    ensures ArtifactOf(a).Ok? ==> var d := ArtifactOf(a).value;
      d.name == a.artifact && d.version == a.version && d.extension == a.extension
      && (d.classifierPart == "" <==> IsBlank(a.classifier))
  {
  }

  /** Whichever form names it, a resolved group holds no dots: each dot became a slash. */
  lemma GroupIsPath(a: MavenCentral)
    requires ArtifactOf(a).Ok?
    ensures '.' !in ArtifactOf(a).value.group
    ensures |ArtifactOf(a).value.group| == (if IsBlank(a.coordinates) then |a.group| else |Split(a.coordinates, ':')[0]|)
  {
    var g := ArtifactOf(a).value.group;
    forall i | 0 <= i < |g|
      ensures g[i] != '.'
    {
    }
  }

  /** The URL is Maven Central's followed by the path, and the path ends in the artifact's file name. */
  lemma UrlShape(d: Artifact)
    ensures StartsWith(ArtifactUrl(d), "https://repo1.maven.org/maven2/")
    ensures EndsWith(ArtifactPath(d), "/" + d.name + "-" + d.version + d.classifierPart + "." + d.extension)
  {
    var url := ArtifactUrl(d);
    assert url == "https://repo1.maven.org/maven2/" + ArtifactPath(d);
    var tail := "/" + FileNameOf(d);
    assert ArtifactPath(d) == (d.group + "/" + d.name + "/" + d.version) + tail;
    assert tail == "/" + d.name + "-" + d.version + d.classifierPart + "." + d.extension;
  }

  /**
   * The path's slash-separated segments are the group's, the name, the
   * version and the file name, when none of those holds a slash.
   */
  lemma PathSegments(d: Artifact)
    requires '/' !in d.name && '/' !in d.version && '/' !in FileNameOf(d)
    ensures Split(ArtifactPath(d), '/') == Split(d.group, '/') + [d.name, d.version, FileNameOf(d)]
  {
    var file := FileNameOf(d);
    var rest := d.name + ['/'] + d.version + ['/'] + file;
    assert ArtifactPath(d) == d.group + ['/'] + rest;
    SplitConcat(d.group, '/', rest);
    SplitThree(d.name, d.version, file, '/');
  }

  /** Three pieces joined by a delimiter none of them holds split back into those pieces. */
  lemma SplitThree(x: string, y: string, z: string, c: char)
    requires c !in x && c !in y && c !in z
    ensures Split(x + [c] + y + [c] + z, c) == [x, y, z]
  {
    assert Split(z, c) == [z];
    SplitOfPrefix(y, c, z);
    assert x + [c] + y + [c] + z == x + [c] + (y + [c] + z);
    SplitOfPrefix(x, c, y + [c] + z);
  }

  /** Splitting at a delimiter placed between two strings splits each of them. */
  lemma {:induction false} SplitConcat(a: string, d: char, b: string)
    ensures Split(a + [d] + b, d) == Split(a, d) + Split(b, d)
    decreases |a|
  {
    if d !in a {
      SplitOfPrefix(a, d, b);
    } else {
      var i := IndexOf(a, d);
      var head, tail := a[..i], a[i + 1..];
      SplitConcat(tail, d, b);
      SplitConcatStep(a, d, b, head, tail);
    }
  }

  lemma SplitConcatStep(a: string, d: char, b: string, head: string, tail: string)
    requires d !in head && a == head + [d] + tail
    requires Split(tail + [d] + b, d) == Split(tail, d) + Split(b, d)
    ensures Split(a + [d] + b, d) == Split(a, d) + Split(b, d)
  {
    SplitAround(a, d, b, head, tail);
    PieceRegroup(Split(a + [d] + b, d), Split(a, d), head, Split(tail, d), Split(b, d));
  }

  lemma PieceRegroup<T>(whole: seq<T>, left: seq<T>, head: T, x: seq<T>, y: seq<T>)
    requires whole == [head] + (x + y) && left == [head] + x
    ensures whole == left + y
  {
  }

  /** The first piece of `a` comes off both `a` and `a`, the delimiter, then `b`. */
  lemma SplitAround(a: string, d: char, b: string, head: string, tail: string)
    requires d !in head && a == head + [d] + tail
    ensures Split(a + [d] + b, d) == [head] + Split(tail + [d] + b, d)
    ensures Split(a, d) == [head] + Split(tail, d)
  {
    assert a + [d] + b == head + [d] + (tail + [d] + b);
    SplitOfPrefix(head, d, tail + [d] + b);
    SplitOfPrefix(head, d, tail);
  }

  // ---- the loop ----

  /** The loop succeeds exactly when every annotation resolves. */
  lemma {:induction false} ResolveSucceeds(config: seq<string>, sources: seq<MavenCentral>,
                                          resolve: MavenCentral -> Result<string, string>)
    ensures Resolve(config, sources, resolve).Ok? <==>
      forall i | 0 <= i < |sources| :: resolve(sources[i]).Ok?
    decreases |sources|
  {
    if sources != [] {
      var rest := sources[1..];
      assert forall i | 0 <= i < |rest| :: rest[i] == sources[i + 1];
      var first := resolve(sources[0]);
      if first.Ok? {
        ResolveSucceeds(config + [first.value], rest, resolve);
        assert (forall i | 0 <= i < |sources| :: resolve(sources[i]).Ok?)
          <==> (forall i | 0 <= i < |rest| :: resolve(rest[i]).Ok?);
      }
    }
  }

  /**
   * Each resolved annotation appends its local copy, in order: on success
   * the result is the old dependencies followed by one file per annotation.
   */
  lemma {:induction false} ResolveAppends(config: seq<string>, sources: seq<MavenCentral>,
                                          resolve: MavenCentral -> Result<string, string>)
    requires Resolve(config, sources, resolve).Ok?
    ensures var deps := Resolve(config, sources, resolve).value;
      |deps| == |config| + |sources| && deps[..|config|] == config
      && forall i | 0 <= i < |sources| :: resolve(sources[i]) == Ok(deps[|config| + i])
    decreases |sources|
  {
    if sources != [] {
      var rest := sources[1..];
      var first := resolve(sources[0]);
      var next := config + [first.value];
      assert Resolve(config, sources, resolve) == Resolve(next, rest, resolve);
      ResolveAppends(next, rest, resolve);
      ShiftedContents(config, first.value, Resolve(next, rest, resolve).value, sources, resolve);
    }
  }

  /** The files after the first annotation's, shifted by one. */
  lemma ShiftedContents(config: seq<string>, file: string, deps: seq<string>, sources: seq<MavenCentral>,
                        resolve: MavenCentral -> Result<string, string>)
    requires sources != [] && resolve(sources[0]) == Ok(file)
    requires |deps| == |config| + |sources| && deps[..|config| + 1] == config + [file]
    requires forall i | 0 <= i < |sources| - 1 :: resolve(sources[1..][i]) == Ok(deps[|config| + 1 + i])
    ensures deps[..|config|] == config
    ensures forall i | 0 <= i < |sources| :: resolve(sources[i]) == Ok(deps[|config| + i])
  {
    assert deps[..|config|] == deps[..|config| + 1][..|config|];
    forall i | 0 <= i < |sources|
      ensures resolve(sources[i]) == Ok(deps[|config| + i])
    {
      if i > 0 {
        assert sources[1..][i - 1] == sources[i];
        assert resolve(sources[1..][i - 1]) == Ok(deps[|config| + 1 + (i - 1)]);
      } else {
        assert deps[|config|] == deps[..|config| + 1][|config|];
      }
    }
  }

  /** The loop stops at the first annotation that fails, and reports that failure. */
  lemma {:induction false} ResolveStops(config: seq<string>, sources: seq<MavenCentral>,
                                          resolve: MavenCentral -> Result<string, string>, k: nat)
    requires k < |sources| && resolve(sources[k]).Err?
    requires forall j | 0 <= j < k :: resolve(sources[j]).Ok?
    ensures Resolve(config, sources, resolve) == Err(resolve(sources[k]).error)
    decreases k
  {
    if k > 0 {
      var rest := sources[1..];
      assert forall j | 0 <= j < k - 1 :: rest[j] == sources[j + 1];
      ResolveStops(config + [resolve(sources[0]).value], rest, resolve, k - 1);
    }
  }

  /** Collected annotations of other kinds only, or none collected at all: the configuration is unchanged. */
  lemma {:induction false} NothingToResolve(config: seq<string>, collected: Option<seq<Annotation>>, home: string,
                                           fetched: string -> bool)
    requires collected.Some? ==> forall a | a in collected.value :: a.OtherAnnotation?
    ensures HandleMavenCentral(config, collected, home, fetched) == Ok(config)
  {
    if collected.Some? {
      OthersSkipped(collected.value);
    }
  }

  lemma {:induction false} OthersSkipped(annotations: seq<Annotation>)
    requires forall a | a in annotations :: a.OtherAnnotation?
    ensures MavenOnly(annotations) == []
    decreases |annotations|
  {
    if annotations != [] {
      assert annotations[0] in annotations;
      assert forall a | a in annotations[1..] :: a in annotations;
      OthersSkipped(annotations[1..]);
    }
  }

  /** The annotations resolved are exactly the Maven Central ones: nothing else is, and none of them is skipped. */
  lemma {:induction false} MavenOnlyKeeps(annotations: seq<Annotation>)
    ensures forall m | m in MavenOnly(annotations) :: DependsOnMavenCentral(m) in annotations
    ensures forall a | a in annotations && a.DependsOnMavenCentral? :: a.fields in MavenOnly(annotations)
    decreases |annotations|
  {
    if annotations != [] {
      MavenOnlyKeeps(annotations[1..]);
      assert forall a | a in annotations[1..] :: a in annotations;
      assert forall a | a in annotations :: a == annotations[0] || a in annotations[1..];
    }
  }
}
