/**
 * Dependency.url(): where in a Maven 2 repository the artifact jar of a
 * dependency is fetched from. The repository's maven-metadata.xml is an input
 * here: whatever the network and the XML parser produced, reduced to the
 * `<version>` texts and the `<snapshotVersion>` entries in document order.
 */
module ArtifactLocator {
  import opened Wrappers
  import opened JavaStrings
  import opened Dependencies

  /** One `<snapshotVersion>` element: the text of its first `<extension>` and `<value>`, if present. */
  datatype SnapshotEntry = SnapshotEntry(extension: Option<string>, value: Option<string>)

  /**
   * What reading the metadata gave: nothing, because opening the stream or
   * parsing threw, or the parsed document.
   */
  datatype Metadata =
    | Unavailable
    | Parsed(versions: seq<string>, snapshots: seq<SnapshotEntry>)

  /**
   * NoUsableVersion is the MalformedURLException thrown after the metadata
   * parsed without a usable version; Unresolvable is the RuntimeException
   * thrown when even the fallback URL cannot be built.
   */
  datatype UrlError = NoUsableVersion | Unresolvable

  /** The protocols java.net.URL has a handler for, each with its colon. */
  const Protocols: seq<string> := ["http:", "https:", "ftp:", "file:"]

  /** `new URL(u)` succeeds: `u` names a protocol that has a handler. */
  predicate ParsesAsUrl(u: string)
  {
    exists k :: 0 <= k < |Protocols| && StartsWith(u, Protocols[k])
  }

  /** The repository URL with a '/' appended unless it already ends in one. */
  function RepoBase(repoUrl: string): (r: string)
    ensures EndsWith(r, "/") && StartsWith(r, repoUrl)
    ensures |r| <= |repoUrl| + 1
    ensures EndsWith(repoUrl, "/") ==> r == repoUrl
    ensures !EndsWith(repoUrl, "/") ==> r == repoUrl + "/"
  {
    if EndsWith(repoUrl, "/") then repoUrl else repoUrl + "/"
  }

  /** The group id with every '.' turned into a path separator. */
  function GroupPath(groupId: string): string
  {
    Replace(groupId, '.', '/')
  }

  /** The file name `<artifactId>-<suffix>.jar`. */
  function ArtifactFile(artifactId: string, suffix: string): string
  {
    artifactId + "-" + suffix + ".jar"
  }

  /** `/<artifactId>/<version>/<file>`: a file in the dependency's version directory. */
  function VersionTail(d: Dependency, file: string): string
  {
    "/" + d.artifactId + "/" + d.version + "/" + file
  }

  /** The version-level metadata document, after a doubled slash. */
  function MetadataUrl(d: Dependency): string
  {
    RepoBase(d.repoUrl) + "/" + GroupPath(d.groupId) + VersionTail(d, "maven-metadata.xml")
  }

  /** The snapshot jar named by a `<value>`, in the version directory, after a doubled slash. */
  function SnapshotUrl(d: Dependency, jarValue: string): string
  {
    RepoBase(d.repoUrl) + "/" + GroupPath(d.groupId) + VersionTail(d, ArtifactFile(d.artifactId, jarValue))
  }

  /** The release jar of the first `<version>`: in the artifact directory, with no version directory. */
  function ReleaseUrl(d: Dependency, latest: string): string
  {
    RepoBase(d.repoUrl) + "/" + GroupPath(d.groupId) + "/" + d.artifactId + "/" + ArtifactFile(d.artifactId, latest)
  }

  /** The jar the fallback points at: the dependency's own version, right after the repository. */
  function FallbackUrl(d: Dependency): string
  {
    RepoBase(d.repoUrl) + GroupPath(d.groupId) + VersionTail(d, ArtifactFile(d.artifactId, d.version))
  }

  /**
   * The fallback as the source writes it: the repository text, followed by the
   * pattern, is used as the FORMAT string of String.format, so a '%' inside
   * the repository is read as a conversion.
   */
  function FallbackAsWritten(d: Dependency): Result<string, FormatError>
  {
    Format(RepoBase(d.repoUrl) + "%s/%s/%s/%s-%s.jar",
           [GroupPath(d.groupId), d.artifactId, d.version, d.artifactId, d.version])
  }

  /** The catch block: the fallback URL, or the RuntimeException when it does not parse. */
  function Fallback(d: Dependency): Result<string, UrlError>
  {
    if ParsesAsUrl(FallbackUrl(d)) then Success(FallbackUrl(d)) else Failure(Unresolvable)
  }

  /** How the scan of the snapshot entries ends. */
  datatype SnapshotScan =
    | JarValue(value: string)  // the first "jar" entry and its value
    | NoJar                    // the loop ran out: no entry has extension "jar"
    | MissingNode              // an entry lacked the node read next: NullPointerException

  /** The scan stops at an entry with no extension or with extension "jar". */
  predicate Settles(e: SnapshotEntry)
  {
    e.extension.None? || e.extension == Some("jar")
  }

  /** What the scan gives when it stops at `e`. */
  function SettledAt(e: SnapshotEntry): SnapshotScan
    requires Settles(e)
  {
    if e.extension.None? || e.value.None? then MissingNode else JarValue(e.value.value)
  }

  /** The loop over `<snapshotVersion>` elements, as a function. */
  function FirstJarSnapshot(ss: seq<SnapshotEntry>): SnapshotScan
  {
    if ss == [] then NoJar
    else if Settles(ss[0]) then SettledAt(ss[0])
    else FirstJarSnapshot(ss[1..])
  }

  /** The scan ends at the first entry it settles on, wherever that is. */
  lemma {:induction false} FirstJarSnapshotAt(ss: seq<SnapshotEntry>, k: int)
    requires 0 <= k < |ss| && Settles(ss[k])
    requires forall j :: 0 <= j < k ==> !Settles(ss[j])
    ensures FirstJarSnapshot(ss) == SettledAt(ss[k])
    decreases k
  {
    if k > 0 {
      assert !Settles(ss[0]);
      FirstJarSnapshotAt(ss[1..], k - 1);
    }
  }

  /** The scan runs out exactly when no entry makes it stop. */
  lemma {:induction false} NoJarIffNoneSettles(ss: seq<SnapshotEntry>)
    ensures FirstJarSnapshot(ss) == NoJar <==> forall j :: 0 <= j < |ss| ==> !Settles(ss[j])
    decreases |ss|
  {
    if ss != [] {
      NoJarIffNoneSettles(ss[1..]);
      if !Settles(ss[0]) {
        assert forall j :: 1 <= j < |ss| ==> ss[j] == ss[1..][j - 1];
      }
    }
  }

  /**
   * Dependency.url(): the metadata URL must parse and the metadata must have
   * been read, or the fallback is used; a parsed document without a usable
   * version is an error with no fallback.
   */
  function ArtifactUrl(d: Dependency, m: Metadata): Result<string, UrlError>
  {
    if !ParsesAsUrl(MetadataUrl(d)) then Fallback(d)
    else
      match m
      case Unavailable => Fallback(d)
      case Parsed(versions, snapshots) =>
        if |versions| == 0 then Failure(NoUsableVersion)
        else if EndsWith(versions[0], "-SNAPSHOT") then
          match FirstJarSnapshot(snapshots)
          case JarValue(v) => Success(SnapshotUrl(d, v))
          case NoJar => Failure(NoUsableVersion)
          case MissingNode => Fallback(d)
        else Success(ReleaseUrl(d, versions[0]))
  }

  /** url() with its loop over the snapshot entries, returning at the first entry that decides. */
  method ResolveUrl(d: Dependency, m: Metadata) returns (r: Result<string, UrlError>)
    ensures r == ArtifactUrl(d, m)
  {
    if !ParsesAsUrl(MetadataUrl(d)) {
      return Fallback(d);
    }
    if m.Unavailable? {
      return Fallback(d);
    }
    var versions, snapshots := m.versions, m.snapshots;
    if |versions| == 0 {
      return Failure(NoUsableVersion);
    }
    var latest := versions[0];
    if !EndsWith(latest, "-SNAPSHOT") {
      return Success(ReleaseUrl(d, latest));
    }
    var i := 0;
    while i < |snapshots|
      invariant 0 <= i <= |snapshots|
      invariant FirstJarSnapshot(snapshots[i..]) == FirstJarSnapshot(snapshots)
    {
      var entry := snapshots[i];
      assert snapshots[i..][0] == entry && snapshots[i..][1..] == snapshots[i + 1..];
      if entry.extension.None? {
        return Fallback(d);
      }
      if entry.extension.value == "jar" {
        if entry.value.None? {
          return Fallback(d);
        }
        return Success(SnapshotUrl(d, entry.value.value));
      }
      i := i + 1;
    }
    return Failure(NoUsableVersion);
  }

  /** A prefix ending in '/' decides whether a URL parses: no protocol name holds a '/'. */
  lemma ParsesByBase(base: string, u: string)
    requires EndsWith(base, "/") && StartsWith(u, base)
    ensures ParsesAsUrl(u) <==> ParsesAsUrl(base)
  {
    forall k | 0 <= k < |Protocols|
      ensures StartsWith(u, Protocols[k]) <==> StartsWith(base, Protocols[k])
    {
      var p := Protocols[k];
      assert '/' !in p;
      if |p| <= |base| {
        assert u[..|p|] == base[..|p|];
      } else if |p| <= |u| {
        assert u[|base| - 1] == base[|base| - 1] == '/';
        assert u[..|p|][|base| - 1] != p[|base| - 1];
      }
    }
  }

  /** Every URL url() builds starts with the repository base. */
  lemma UrlsStartWithBase(d: Dependency, x: string)
    ensures StartsWith(MetadataUrl(d), RepoBase(d.repoUrl))
    ensures StartsWith(SnapshotUrl(d, x), RepoBase(d.repoUrl))
    ensures StartsWith(ReleaseUrl(d, x), RepoBase(d.repoUrl))
    ensures StartsWith(FallbackUrl(d), RepoBase(d.repoUrl))
  {
    var b := RepoBase(d.repoUrl);
    var g := GroupPath(d.groupId);
    PrefixOfAppend(b, "/", b);
    PrefixOfAppend(b + "/", g, b);
    PrefixOfAppend(b + "/" + g, VersionTail(d, "maven-metadata.xml"), b);
    PrefixOfAppend(b + "/" + g, VersionTail(d, ArtifactFile(d.artifactId, x)), b);
    PrefixOfAppend(b + "/" + g, "/", b);
    PrefixOfAppend(b + "/" + g + "/", d.artifactId, b);
    PrefixOfAppend(b + "/" + g + "/" + d.artifactId, "/", b);
    PrefixOfAppend(b + "/" + g + "/" + d.artifactId + "/", ArtifactFile(d.artifactId, x), b);
    PrefixOfAppend(b, g, b);
    PrefixOfAppend(b + g, VersionTail(d, ArtifactFile(d.artifactId, d.version)), b);
  }

  /** A prefix of `x` is a prefix of `x + y`. */
  lemma PrefixOfAppend(x: string, y: string, b: string)
    requires StartsWith(x, b)
    ensures StartsWith(x + y, b)
  {
    assert (x + y)[..|b|] == x[..|b|];
  }

  /**
   * url() ends in the RuntimeException exactly when the repository does not
   * name a protocol; the metadata plays no part in that.
   */
  lemma UnresolvableIffRepoUnparsable(d: Dependency, m: Metadata)
    ensures ArtifactUrl(d, m) == Failure(Unresolvable) <==> !ParsesAsUrl(RepoBase(d.repoUrl))
  {
    var b := RepoBase(d.repoUrl);
    UrlsStartWithBase(d, "");
    ParsesByBase(b, MetadataUrl(d));
    ParsesByBase(b, FallbackUrl(d));
  }

  /** Every URL url() returns parses, lies under the repository and names a jar. */
  lemma ResolvedUrlIsJarInRepo(d: Dependency, m: Metadata)
    requires ArtifactUrl(d, m).Success?
    ensures ParsesAsUrl(ArtifactUrl(d, m).value)
    ensures StartsWith(ArtifactUrl(d, m).value, RepoBase(d.repoUrl))
    ensures EndsWith(ArtifactUrl(d, m).value, ".jar")
  {
    var b := RepoBase(d.repoUrl);
    var u := ArtifactUrl(d, m).value;
    var x := if m.Parsed? && |m.versions| > 0 && !EndsWith(m.versions[0], "-SNAPSHOT") then m.versions[0]
             else if m.Parsed? && FirstJarSnapshot(m.snapshots).JarValue? then FirstJarSnapshot(m.snapshots).value
             else "";
    UrlsStartWithBase(d, x);
    ParsesByBase(b, MetadataUrl(d));
    ParsesByBase(b, u);
    JarSuffix(d, x);
  }

  /** The jar URLs end in ".jar". */
  lemma JarSuffix(d: Dependency, x: string)
    ensures EndsWith(SnapshotUrl(d, x), ".jar") && EndsWith(ReleaseUrl(d, x), ".jar")
    ensures EndsWith(FallbackUrl(d), ".jar")
  {
    var b := RepoBase(d.repoUrl);
    var g := GroupPath(d.groupId);
    var file := ArtifactFile(d.artifactId, x);
    var own := ArtifactFile(d.artifactId, d.version);
    var dir := "/" + d.artifactId + "/" + d.version + "/";
    SuffixOfAppend(d.artifactId + "-" + x, ".jar", ".jar");
    SuffixOfAppend(d.artifactId + "-" + d.version, ".jar", ".jar");
    SuffixOfAppend(dir, file, ".jar");
    SuffixOfAppend(dir, own, ".jar");
    SuffixOfAppend(b + "/" + g, VersionTail(d, file), ".jar");
    SuffixOfAppend(b + "/" + g + "/" + d.artifactId + "/", file, ".jar");
    SuffixOfAppend(b + g, VersionTail(d, own), ".jar");
  }

  /** A suffix of `y` is a suffix of `x + y`. */
  lemma SuffixOfAppend(x: string, y: string, e: string)
    requires EndsWith(y, e)
    ensures EndsWith(x + y, e)
  {
    assert (x + y)[|x + y| - |e|..] == y[|y| - |e|..];
  }

  /**
   * url() throws MalformedURLException, with no fallback, exactly when the
   * metadata was read but names no version, or names a snapshot and no
   * snapshot entry has the extension "jar".
   */
  lemma NoUsableVersionIff(d: Dependency, m: Metadata)
    ensures ArtifactUrl(d, m) == Failure(NoUsableVersion) <==>
      ParsesAsUrl(RepoBase(d.repoUrl)) && m.Parsed? &&
      (|m.versions| == 0 ||
       (EndsWith(m.versions[0], "-SNAPSHOT") && forall j :: 0 <= j < |m.snapshots| ==> !Settles(m.snapshots[j])))
  {
    UnresolvableIffRepoUnparsable(d, m);
    UrlsStartWithBase(d, "");
    ParsesByBase(RepoBase(d.repoUrl), MetadataUrl(d));
    if m.Parsed? {
      NoJarIffNoneSettles(m.snapshots);
    }
  }

  /** Without metadata, url() points at the dependency's own version, in its version directory. */
  lemma UnavailableMetadataFallsBack(d: Dependency)
    ensures ArtifactUrl(d, Unavailable).Success? <==> ParsesAsUrl(RepoBase(d.repoUrl))
    ensures ArtifactUrl(d, Unavailable).Success? ==>
      EndsWith(ArtifactUrl(d, Unavailable).value, VersionTail(d, ArtifactFile(d.artifactId, d.version)))
  {
    UnresolvableIffRepoUnparsable(d, Unavailable);
    var b := RepoBase(d.repoUrl);
    SuffixOfAppend(b + GroupPath(d.groupId), VersionTail(d, ArtifactFile(d.artifactId, d.version)),
                   VersionTail(d, ArtifactFile(d.artifactId, d.version)));
  }

  /**
   * For a snapshot, url() takes the value of the first entry whose extension
   * is "jar", provided every entry before it has an extension, and names that
   * jar in the dependency's version directory.
   */
  lemma SnapshotUsesFirstJarEntry(d: Dependency, versions: seq<string>, snapshots: seq<SnapshotEntry>, k: int)
    requires ParsesAsUrl(RepoBase(d.repoUrl))
    requires |versions| > 0 && EndsWith(versions[0], "-SNAPSHOT")
    requires 0 <= k < |snapshots| && snapshots[k].extension == Some("jar") && snapshots[k].value.Some?
    requires forall j :: 0 <= j < k ==> snapshots[j].extension.Some? && snapshots[j].extension.value != "jar"
    ensures ArtifactUrl(d, Parsed(versions, snapshots)) == Success(SnapshotUrl(d, snapshots[k].value.value))
    ensures EndsWith(SnapshotUrl(d, snapshots[k].value.value), VersionTail(d, ArtifactFile(d.artifactId, snapshots[k].value.value)))
  {
    FirstJarSnapshotAt(snapshots, k);
    UrlsStartWithBase(d, "");
    ParsesByBase(RepoBase(d.repoUrl), MetadataUrl(d));
    var t := VersionTail(d, ArtifactFile(d.artifactId, snapshots[k].value.value));
    SuffixOfAppend(RepoBase(d.repoUrl) + "/" + GroupPath(d.groupId), t, t);
  }

  /**
   * For a release, url() names the jar of the first `<version>` directly in
   * the artifact directory: there is no version directory in between.
   */
  lemma ReleaseSkipsVersionDirectory(d: Dependency, versions: seq<string>, snapshots: seq<SnapshotEntry>)
    requires ParsesAsUrl(RepoBase(d.repoUrl))
    requires |versions| > 0 && !EndsWith(versions[0], "-SNAPSHOT")
    ensures ArtifactUrl(d, Parsed(versions, snapshots)).Success?
    ensures EndsWith(ArtifactUrl(d, Parsed(versions, snapshots)).value,
                     "/" + d.artifactId + "/" + ArtifactFile(d.artifactId, versions[0]))
  {
    assert ParsesAsUrl(MetadataUrl(d)) by {
      UrlsStartWithBase(d, "");
      ParsesByBase(RepoBase(d.repoUrl), MetadataUrl(d));
    }
    var g := RepoBase(d.repoUrl) + "/" + GroupPath(d.groupId);
    var tail := "/" + d.artifactId + "/" + ArtifactFile(d.artifactId, versions[0]);
    assert ReleaseUrl(d, versions[0]) == g + tail by {
      AssocFour(g, "/", d.artifactId, "/", ArtifactFile(d.artifactId, versions[0]));
    }
    assert EndsWith(tail, tail);
    SuffixOfAppend(g, tail, tail);
  }

  /**
   * The URLs built from the metadata put "/" after a repository base that
   * already ends in '/', so a doubled slash follows the repository; the
   * fallback goes on with the group path straight away.
   */
  lemma DoubledSlashAfterRepo(d: Dependency, x: string)
    ensures MetadataUrl(d)[|RepoBase(d.repoUrl)| - 1] == MetadataUrl(d)[|RepoBase(d.repoUrl)|] == '/'
    ensures SnapshotUrl(d, x)[|RepoBase(d.repoUrl)| - 1] == SnapshotUrl(d, x)[|RepoBase(d.repoUrl)|] == '/'
    ensures ReleaseUrl(d, x)[|RepoBase(d.repoUrl)| - 1] == ReleaseUrl(d, x)[|RepoBase(d.repoUrl)|] == '/'
    ensures d.groupId != [] ==> FallbackUrl(d)[|RepoBase(d.repoUrl)|] == GroupPath(d.groupId)[0]
  {
    var b := RepoBase(d.repoUrl);
    assert b[|b| - 1] == '/';
  }

  /**
   * The fallback as written agrees with the corrected one for every
   * repository without a '%'.
   */
  lemma FallbackAsWrittenWithoutPercent(d: Dependency)
    requires '%' !in d.repoUrl
    ensures FallbackAsWritten(d) == Success(FallbackUrl(d))
  {
    var b := RepoBase(d.repoUrl);
    assert '%' !in b by {
      if !EndsWith(d.repoUrl, "/") {
        assert b == d.repoUrl + "/";
      }
    }
    var g, a, v := GroupPath(d.groupId), d.artifactId, d.version;
    FormatLiteralPrefix(b, "%s/%s/%s/%s-%s.jar", [g, a, v, a, v]);
    FallbackPattern(g, a, v);
    Assoc(b, g, VersionTail(d, ArtifactFile(a, v)));
  }

  /** The fallback pattern filled in with its five arguments. */
  lemma FallbackPattern(g: string, a: string, v: string)
    ensures Format("%s/%s/%s/%s-%s.jar", [g, a, v, a, v]) ==
      Success(g + ("/" + a + "/" + v + "/" + (a + "-" + v + ".jar")))
  {
    assert "%s/%s/%s/%s-%s.jar" == "%s" + ("/" + ("%s" + ("/" + ("%s" + ("/" + ("%s" + ("-" + ("%s" + ".jar"))))))));
    FallbackPatternHead(g, a, v);
    FallbackTailShape(a, v, "/" + a + "/" + v + "/" + (a + "-" + v + ".jar"));
  }

  lemma FallbackPatternHead(g: string, a: string, v: string)
    ensures Format("%s" + ("/" + ("%s" + ("/" + ("%s" + ("/" + ("%s" + ("-" + ("%s" + ".jar")))))))), [g, a, v, a, v]) ==
      Success(g + ("/" + (a + ("/" + (v + ("/" + (a + ("-" + (v + ".jar")))))))))
  {
    var p1 := "/" + ("%s" + ("-" + ("%s" + ".jar")));
    FallbackPatternFile(a, v);
    var q3 := "%s" + p1;
    var q2 := "/" + q3;
    var q1 := "%s" + q2;
    var r2 := "/" + q1;
    FormatArgument(p1, v, [a, v]);
    FormatLiteralPrefix("/", q3, [v, a, v]);
    FormatArgument(q2, a, [v, a, v]);
    FormatLiteralPrefix("/", q1, [a, v, a, v]);
    FormatArgument(r2, g, [a, v, a, v]);
  }

  lemma FallbackPatternFile(a: string, v: string)
    ensures Format("/" + ("%s" + ("-" + ("%s" + ".jar"))), [a, v]) == Success("/" + (a + ("-" + (v + ".jar"))))
  {
    FormatTwoArguments("/", "-", ".jar", a, v);
  }

  /** A pattern of literal text and two "%s" conversions takes its two arguments in order. */
  lemma FormatTwoArguments(x: string, y: string, z: string, a: string, v: string)
    requires '%' !in x && '%' !in y && '%' !in z
    ensures Format(x + ("%s" + (y + ("%s" + z))), [a, v]) == Success(x + (a + (y + (v + z))))
  {
    var p4 := "%s" + z;
    var p3 := y + p4;
    var p2 := "%s" + p3;
    assert Format(z, []) == Success(z) by {
      FormatLiteralPrefix(z, "", []);
      assert z + "" == z;
    }
    assert Format(p4, [v]) == Success(v + z) by {
      FormatArgument(z, v, []);
      assert [v] + [] == [v];
    }
    assert Format(p3, [v]) == Success(y + (v + z)) by {
      FormatLiteralPrefix(y, p4, [v]);
    }
    assert Format(p2, [a, v]) == Success(a + (y + (v + z))) by {
      FormatArgument(p3, a, [v]);
      assert [a] + [v] == [a, v];
    }
    FormatLiteralPrefix(x, p2, [a, v]);
  }

  /** The nested text the pattern produces is the path of the fallback jar. */
  lemma FallbackTailShape(a: string, v: string, t: string)
    requires t == "/" + a + "/" + v + "/" + (a + "-" + v + ".jar")
    ensures t == "/" + (a + ("/" + (v + ("/" + (a + ("-" + (v + ".jar")))))))
  {
  }

  /** A repository URL that starts with a known protocol gives a fallback URL that parses. */
  lemma ProtocolRepoParses(d: Dependency, k: nat)
    requires k < |Protocols| && StartsWith(d.repoUrl, Protocols[k])
    ensures ParsesAsUrl(FallbackUrl(d))
  {
    UrlsStartWithBase(d, "");
    var p := Protocols[k];
    assert FallbackUrl(d)[..|p|] == RepoBase(d.repoUrl)[..|p|] == d.repoUrl[..|p|];
  }

  /** "%2" after text without '%' is a conversion Format does not know. */
  lemma FormatFailsAtPercentDigit(head: string, tail: string, args: seq<string>)
    requires '%' !in head
    ensures Format(head + ("%2" + tail), args).Failure?
  {
    var f := "%2" + tail;
    FormatLiteralPrefix(head, f, args);
    assert f[0] == '%' && f[1] == '2';
  }

  /** A `%s` takes the next argument. */
  lemma FormatArgument(rest: string, arg: string, args: seq<string>)
    ensures Format("%s" + rest, [arg] + args) == Prepend(arg, Format(rest, args))
  {
    var f := "%s" + rest;
    assert f[0] == '%' && f[1] == 's' && f[2..] == rest;
    assert ([arg] + args)[0] == arg && ([arg] + args)[1..] == args;
  }

  /**
   * A percent-encoded repository path breaks the fallback as written: "%20r"
   * is read as a conversion 'r' of width 20, String.format throws, and url()
   * ends in the RuntimeException although the fallback URL itself is fine.
   */
  lemma PercentInRepoBreaksFallback()
    ensures FallbackAsWritten(Plain("g", "a", "1", "https://example.org/my%20repo")).Failure?
    ensures ParsesAsUrl(FallbackUrl(Plain("g", "a", "1", "https://example.org/my%20repo")))
    ensures Fallback(Plain("g", "a", "1", "https://example.org/my%20repo")).Success?
  {
    var d := Plain("g", "a", "1", "https://example.org/my%20repo");
    var pattern := "%s/%s/%s/%s-%s.jar";
    var args := [GroupPath(d.groupId), d.artifactId, d.version, d.artifactId, d.version];
    var head := "https://example.org/my";
    var tail := "0repo" + ("/" + pattern);
    assert RepoBase(d.repoUrl) + pattern == head + ("%2" + tail) by {
      assert d.repoUrl == head + ("%2" + "0repo") && d.repoUrl[|d.repoUrl| - 1] == 'o';
      assert RepoBase(d.repoUrl) == d.repoUrl + "/";
      Regroup5(head, "%2", "0repo", "/", pattern);
    }
    assert FallbackAsWritten(d).Failure? by {
      assert '%' !in head;
      FormatFailsAtPercentDigit(head, tail, args);
    }
    assert ParsesAsUrl(FallbackUrl(d)) by {
      assert StartsWith(d.repoUrl, Protocols[1]);
      ProtocolRepoParses(d, 1);
    }
  }
}
