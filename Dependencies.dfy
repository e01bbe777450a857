/**
 * LibraryLoader.Dependency and LibraryLoader.RelocatedDependency: the
 * coordinates of an artifact, Java equality over those coordinates, and the
 * toString/fromString text form.
 */
module Dependencies {
  import opened Wrappers
  import opened JavaStrings

  /**
   * A rule handed to the external jar relocator. The model never looks inside
   * it; it is carried only so that a relocated dependency is a different value.
   */
  datatype Relocation = Relocation(pattern: string, relocatedPattern: string, includes: seq<string>, excludes: seq<string>)

  /**
   * A dependency: Maven coordinates and the repository to fetch from. `Relocated`
   * is the subclass RelocatedDependency, which also carries relocation rules.
   */
  datatype Dependency =
    | Plain(groupId: string, artifactId: string, version: string, repoUrl: string)
    | Relocated(groupId: string, artifactId: string, version: string, repoUrl: string, relocations: seq<Relocation>)

  /** The IllegalArgumentException of notNull: "<name> can not be null". */
  datatype ConstructionError = NullArgument(name: string)

  /** The Dependency constructor: each argument in turn must not be null; empty strings are accepted. */
  function NewDependency(groupId: Option<string>, artifactId: Option<string>, version: Option<string>, repoUrl: Option<string>)
    : (r: Result<Dependency, ConstructionError>)
    ensures r.Success? <==> groupId.Some? && artifactId.Some? && version.Some? && repoUrl.Some?
    ensures r.Success? ==> r.value == Plain(groupId.value, artifactId.value, version.value, repoUrl.value)
    ensures groupId.None? ==> r == Failure(NullArgument("groupId"))
    ensures groupId.Some? && artifactId.None? ==> r == Failure(NullArgument("artifactId"))
    ensures groupId.Some? && artifactId.Some? && version.None? ==> r == Failure(NullArgument("version"))
    ensures groupId.Some? && artifactId.Some? && version.Some? && repoUrl.None? ==> r == Failure(NullArgument("repoUrl"))
  {
    if groupId.None? then Failure(NullArgument("groupId"))
    else if artifactId.None? then Failure(NullArgument("artifactId"))
    else if version.None? then Failure(NullArgument("version"))
    else if repoUrl.None? then Failure(NullArgument("repoUrl"))
    else Success(Plain(groupId.value, artifactId.value, version.value, repoUrl.value))
  }

  /** The RelocatedDependency constructor: the four coordinates first, then the relocation list. */
  function NewRelocated(groupId: Option<string>, artifactId: Option<string>, version: Option<string>, repoUrl: Option<string>,
                        relocations: Option<seq<Relocation>>)
    : (r: Result<Dependency, ConstructionError>)
    ensures r.Success? <==> NewDependency(groupId, artifactId, version, repoUrl).Success? && relocations.Some?
    ensures r.Success? ==> r.value.Relocated? && r.value.relocations == relocations.value
    ensures r.Success? ==> Equals(r.value, NewDependency(groupId, artifactId, version, repoUrl).value)
    ensures NewDependency(groupId, artifactId, version, repoUrl).Failure? ==> r == NewDependency(groupId, artifactId, version, repoUrl)
    ensures NewDependency(groupId, artifactId, version, repoUrl).Success? && relocations.None? ==>
      r == Failure(NullArgument("relocations"))
  {
    match NewDependency(groupId, artifactId, version, repoUrl)
    case Failure(e) => Failure(e)
    case Success(d) =>
      if relocations.None? then Failure(NullArgument("relocations"))
      else Success(Relocated(d.groupId, d.artifactId, d.version, d.repoUrl, relocations.value))
  }

  /** Dependency.equals: the four coordinates, never the relocations. */
  predicate Equals(a: Dependency, b: Dependency)
  {
    a.groupId == b.groupId && a.artifactId == b.artifactId && a.version == b.version && a.repoUrl == b.repoUrl
  }

  lemma EqualsIsEquivalence(a: Dependency, b: Dependency, c: Dependency)
    ensures Equals(a, a)
    ensures Equals(a, b) <==> Equals(b, a)
    ensures Equals(a, b) && Equals(b, c) ==> Equals(a, c)
  {
  }

  /** A relocated dependency equals the plain one with its coordinates, whatever its rules. */
  lemma RelocationsIgnored(d: Dependency, rules: seq<Relocation>)
    ensures Equals(Relocated(d.groupId, d.artifactId, d.version, d.repoUrl, rules), d)
    ensures Equals(d, Plain(d.groupId, d.artifactId, d.version, d.repoUrl))
  {
  }

  const FieldSeparator := ", "

  /** Dependency.toString (RelocatedDependency inherits it, so the rules are not shown). */
  function ToString(d: Dependency): string
  {
    "LibraryLoader.Dependency(" +
    "groupId=" + d.groupId + ", " +
    "artifactId=" + d.artifactId + ", " +
    "version=" + d.version + ", " +
    "repoUrl=" + d.repoUrl + ")"
  }

  /** The unchecked exceptions fromString can throw on text it was not made for. */
  datatype ParseError = ArrayIndexOutOfBounds | StringIndexOutOfBounds

  /**
   * Dependency.fromString: split on ", ", keep what follows the first '=' of each
   * of the first four pieces, and cut the fourth at its last ')'.
   */
  function FromString(text: string): (r: Result<Dependency, ParseError>)
    ensures r.Success? ==> r.value.Plain?
    ensures r.Success? ==> |Split(text, FieldSeparator)| >= 4
  {
    var arguments := Split(text, FieldSeparator);
    if |arguments| < 4 then Failure(ArrayIndexOutOfBounds)
    else
      var groupId := arguments[0][IndexOf(arguments[0], "=") + 1..];
      var artifactId := arguments[1][IndexOf(arguments[1], "=") + 1..];
      var version := arguments[2][IndexOf(arguments[2], "=") + 1..];
      match Substring(arguments[3], IndexOf(arguments[3], "=") + 1, LastIndexOf(arguments[3], ')'))
      case None => Failure(StringIndexOutOfBounds)
      case Some(repoUrl) => Success(Plain(groupId, artifactId, version, repoUrl))
  }

  /** No coordinate contains the separator ", ". */
  predicate FieldsWithoutSeparator(d: Dependency)
  {
    IndexOf(d.groupId, FieldSeparator) < 0 && IndexOf(d.artifactId, FieldSeparator) < 0 &&
    IndexOf(d.version, FieldSeparator) < 0 && IndexOf(d.repoUrl, FieldSeparator) < 0
  }

  /**
   * The text round trip: parsing the text form gives back a plain dependency
   * with the same four coordinates whenever no coordinate contains ", ". A '='
   * or a ')' inside a coordinate does no harm.
   */
  lemma {:induction false} FromStringInvertsToString(d: Dependency)
    requires FieldsWithoutSeparator(d)
    ensures FromString(ToString(d)) == Success(Plain(d.groupId, d.artifactId, d.version, d.repoUrl))
    ensures Equals(FromString(ToString(d)).value, d)
  {
    ToStringSplits(d);
    FieldNamesWithoutEquals();
    var parts := Split(ToString(d), FieldSeparator);
    ValueAfterEquals(parts[0], "LibraryLoader.Dependency(groupId", d.groupId);
    ValueAfterEquals(parts[1], "artifactId", d.artifactId);
    ValueAfterEquals(parts[2], "version", d.version);
    RepoUrlPiece(parts[3], d.repoUrl);
  }

  /** What follows the first '=' of `name=value` is `value` when `name` has no '='. */
  lemma ValueAfterEquals(piece: string, name: string, value: string)
    requires piece == name + "=" + value
    requires '=' !in name
    ensures 0 <= IndexOf(piece, "=") && piece[IndexOf(piece, "=") + 1..] == value
  {
    FirstEqualsSign(name, value);
  }

  /** The last piece `repoUrl=<url>)` gives back the url, whatever '=' or ')' it holds. */
  lemma RepoUrlPiece(piece: string, url: string)
    requires piece == "repoUrl" + "=" + (url + ")")
    ensures Substring(piece, IndexOf(piece, "=") + 1, LastIndexOf(piece, ')')) == Some(url)
  {
    FirstEqualsSign("repoUrl", url + ")");
    assert LastIndexOf(piece, ')') == |piece| - 1;
    assert piece[8..|piece| - 1] == url;
  }

  /** The text form splits on ", " into exactly its four "name=value" pieces. */
  lemma ToStringSplits(d: Dependency)
    requires FieldsWithoutSeparator(d)
    ensures Split(ToString(d), FieldSeparator) ==
      ["LibraryLoader.Dependency(groupId" + "=" + d.groupId, "artifactId" + "=" + d.artifactId,
       "version" + "=" + d.version, "repoUrl" + "=" + (d.repoUrl + ")")]
  {
    ToStringNested(d);
    FieldNamesPlain();
    SplitFields("LibraryLoader.Dependency(groupId" + "=", "artifactId" + "=", "version" + "=", "repoUrl" + "=",
      d.groupId, d.artifactId, d.version, d.repoUrl);
  }

  /** Four `name=value` fields joined by ", " split back into those fields when no value holds ", ". */
  lemma SplitFields(k0: string, k1: string, k2: string, k3: string, f0: string, f1: string, f2: string, f3: string)
    requires NoBlankOrComma(k0) && NoBlankOrComma(k1) && NoBlankOrComma(k2) && NoBlankOrComma(k3)
    requires IndexOf(f0, FieldSeparator) < 0 && IndexOf(f1, FieldSeparator) < 0
    requires IndexOf(f2, FieldSeparator) < 0 && IndexOf(f3, FieldSeparator) < 0
    ensures Split((k0 + f0) + FieldSeparator + ((k1 + f1) + FieldSeparator + ((k2 + f2) + FieldSeparator + (k3 + (f3 + ")")))), FieldSeparator) ==
      [k0 + f0, k1 + f1, k2 + f2, k3 + (f3 + ")")]
  {
    var p3 := k3 + (f3 + ")");
    var s2 := (k2 + f2) + FieldSeparator + p3;
    var s1 := (k1 + f1) + FieldSeparator + s2;
    NoSeparatorAfter(k0, f0);
    NoSeparatorAfter(k1, f1);
    NoSeparatorAfter(k2, f2);
    assert IndexOf(p3, FieldSeparator) < 0 by {
      NoSeparatorAfter(k3, f3);
      NoSeparatorBefore(k3 + f3, ")");
      Assoc(k3, f3, ")");
    }
    SplitFour((k0 + f0) + FieldSeparator + s1, s1, s2, k0 + f0, k1 + f1, k2 + f2, p3);
  }

  /** The text form as its first piece, ", ", and the rest, each field's name apart from its '='. */
  lemma ToStringNested(d: Dependency)
    ensures ToString(d) ==
      ("LibraryLoader.Dependency(groupId" + "=" + d.groupId) + FieldSeparator +
      (("artifactId" + "=" + d.artifactId) + FieldSeparator +
      (("version" + "=" + d.version) + FieldSeparator + ("repoUrl" + "=" + (d.repoUrl + ")"))))
  {
    FieldNames();
    Regroup("LibraryLoader.Dependency(", "groupId=", d.groupId, FieldSeparator, "artifactId=", d.artifactId,
      "version=", d.version, "repoUrl=", d.repoUrl, ")",
      "LibraryLoader.Dependency(groupId", "artifactId", "version", "repoUrl", "=");
  }

  /** Each field's literal in the text form is its name followed by '='. */
  lemma FieldNames()
    ensures "LibraryLoader.Dependency(" + "groupId=" == "LibraryLoader.Dependency(groupId" + "="
    ensures "artifactId=" == "artifactId" + "=" && "version=" == "version" + "=" && "repoUrl=" == "repoUrl" + "="
  {
  }

  /** No field's `name=` holds a blank or a comma. */
  lemma FieldNamesPlain()
    ensures NoBlankOrComma("LibraryLoader.Dependency(groupId" + "=")
    ensures NoBlankOrComma("artifactId" + "=") && NoBlankOrComma("version" + "=") && NoBlankOrComma("repoUrl" + "=")
  {
    assert NoBlankOrComma("LibraryLoader.Dependency(groupId" + "=") by {
      LiteralWithoutBlankOrComma("LibraryLoader.Dependency(groupId" + "=");
    }
    LiteralWithoutBlankOrComma("artifactId" + "=");
    LiteralWithoutBlankOrComma("version" + "=");
    LiteralWithoutBlankOrComma("repoUrl" + "=");
  }

  /** No field's name holds a '=' of its own. */
  lemma FieldNamesWithoutEquals()
    ensures '=' !in "LibraryLoader.Dependency(groupId"
    ensures '=' !in "artifactId" && '=' !in "version" && '=' !in "repoUrl"
  {
  }

  /** Text with neither a blank nor a comma, so no ", " can start inside it. */
  predicate NoBlankOrComma(s: string)
  {
    ' ' !in s && ',' !in s
  }

  /** Letters, '.', '(' and '=' are neither blanks nor commas. */
  lemma LiteralWithoutBlankOrComma(s: string)
    requires forall i :: 0 <= i < |s| ==> s[i] == '.' || s[i] == '(' || s[i] == '=' || 'a' <= s[i] <= 'z' || 'A' <= s[i] <= 'Z'
    ensures NoBlankOrComma(s)
  {
  }

  /** Eleven pieces concatenated from the left, regrouped as four `name=value` fields around their separators. */
  lemma Regroup<T>(a: seq<T>, b: seq<T>, f0: seq<T>, sep: seq<T>, c: seq<T>, f1: seq<T>, e: seq<T>, f2: seq<T>,
                   g: seq<T>, f3: seq<T>, z: seq<T>, k0: seq<T>, k1: seq<T>, k2: seq<T>, k3: seq<T>, eq: seq<T>)
    requires a + b == k0 + eq && c == k1 + eq && e == k2 + eq && g == k3 + eq
    ensures a + b + f0 + sep + c + f1 + sep + e + f2 + sep + g + f3 + z ==
      (k0 + eq + f0) + sep + ((k1 + eq + f1) + sep + ((k2 + eq + f2) + sep + (k3 + eq + (f3 + z))))
  {
  }

  /** Four pieces without ", " joined by ", " split back into those four pieces. */
  lemma SplitFour(s: string, s1: string, s2: string, p0: string, p1: string, p2: string, p3: string)
    requires s == p0 + FieldSeparator + s1 && s1 == p1 + FieldSeparator + s2 && s2 == p2 + FieldSeparator + p3
    requires IndexOf(p0, FieldSeparator) < 0 && IndexOf(p1, FieldSeparator) < 0
    requires IndexOf(p2, FieldSeparator) < 0 && IndexOf(p3, FieldSeparator) < 0
    requires p3 != ""
    ensures Split(s, FieldSeparator) == [p0, p1, p2, p3]
  {
    assert SplitAtEvery(p3, FieldSeparator) == [p3];
    SplitAfterPiece(s2, p2, p3);
    SplitAfterPiece(s1, p1, s2);
    SplitAfterPiece(s, p0, s1);
    assert SplitAtEvery(s, FieldSeparator) == [p0, p1, p2, p3];
    assert DropTrailingEmpty([p0, p1, p2, p3]) == [p0, p1, p2, p3];
  }

  /** Splitting `p + ", " + rest` yields `p` and then the pieces of `rest`. */
  lemma SplitAfterPiece(s: string, p: string, rest: string)
    requires s == p + FieldSeparator + rest
    requires IndexOf(p, FieldSeparator) < 0
    ensures IndexOf(s, FieldSeparator) == |p|
    ensures SplitAtEvery(s, FieldSeparator) == [p] + SplitAtEvery(rest, FieldSeparator)
  {
    SplitAtFirstSeparator(s, p, rest);
  }

  /** The first ", " of `p + ", " + rest` is the one after `p` when `p` has none. */
  lemma SplitAtFirstSeparator(s: string, p: string, rest: string)
    requires s == p + FieldSeparator + rest
    requires IndexOf(p, FieldSeparator) < 0
    ensures IndexOf(s, FieldSeparator) == |p|
    ensures s[..|p|] == p
    ensures s[|p| + 2..] == rest
  {
    IndexOfFinds(p, FieldSeparator);
    assert s[|p|..|p| + 2] == FieldSeparator;
    forall j | 0 <= j < |p| ensures !OccursAt(s, FieldSeparator, j) {
      if j + 2 <= |p| {
        assert s[j..j + 2] == p[j..j + 2];
        assert !OccursAt(p, FieldSeparator, j);
      } else {
        assert s[j..j + 2][1] == s[|p|] == ',';
      }
    }
    IndexOfIs(s, FieldSeparator, |p|);
  }

  /** A literal with no ',' and no blank, then a field without ", ", contains no ", ". */
  lemma NoSeparatorAfter(literal: string, field: string)
    requires ' ' !in literal && ',' !in literal
    requires IndexOf(field, FieldSeparator) < 0
    ensures IndexOf(literal + field, FieldSeparator) < 0
  {
    var s := literal + field;
    IndexOfFinds(field, FieldSeparator);
    forall j | 0 <= j ensures !OccursAt(s, FieldSeparator, j) {
      if j + 2 <= |s| {
        if j < |literal| {
          assert s[j..j + 2][0] == literal[j] != ',';
        } else {
          assert s[j..j + 2] == field[j - |literal|..j - |literal| + 2];
          assert !OccursAt(field, FieldSeparator, j - |literal|);
        }
      }
    }
    IndexOfAbsent(s, FieldSeparator);
  }

  /** Appending text without a blank to text without ", " adds no ", ". */
  lemma NoSeparatorBefore(s: string, tail: string)
    requires IndexOf(s, FieldSeparator) < 0
    requires ' ' !in tail
    ensures IndexOf(s + tail, FieldSeparator) < 0
  {
    var t := s + tail;
    IndexOfFinds(s, FieldSeparator);
    forall j | 0 <= j ensures !OccursAt(t, FieldSeparator, j) {
      if j + 2 <= |t| {
        if j + 2 <= |s| {
          assert t[j..j + 2] == s[j..j + 2];
          assert !OccursAt(s, FieldSeparator, j);
        } else {
          assert t[j..j + 2][1] == tail[j + 1 - |s|] != ' ';
        }
      }
    }
    IndexOfAbsent(t, FieldSeparator);
  }

  /** The first '=' of `name + "=" + value` is the one after `name` when `name` has none. */
  lemma FirstEqualsSign(name: string, value: string)
    requires '=' !in name
    ensures IndexOf(name + "=" + value, "=") == |name|
    ensures (name + "=" + value)[|name| + 1..] == value
  {
    var s := name + "=" + value;
    assert s[|name|..|name| + 1] == "=";
    forall j | 0 <= j < |name| ensures !OccursAt(s, "=", j) {
      assert s[j..j + 1] == [name[j]];
    }
    IndexOfIs(s, "=", |name|);
  }

  /**
   * The text form cannot carry ", " inside a coordinate: the version "1, 2"
   * splits into two pieces, the fourth piece becomes "2", which has neither '='
   * nor ')', and substring(0, -1) throws.
   */
  lemma SeparatorInFieldBreaksRoundTrip()
    ensures FromString(ToString(Plain("g", "a", "1, 2", "r"))) == Failure(StringIndexOutOfBounds)
  {
    var parts := ["LibraryLoader.Dependency(groupId=g", "artifactId=a", "version=1", "2", "repoUrl=r)"];
    assert Split(ToString(Plain("g", "a", "1, 2", "r")), FieldSeparator) == parts by {
      SplitWithSeparatorInVersion();
    }
    CharAbsent(parts[3], '=');
    assert LastIndexOf(parts[3], ')') == -1;
  }

  /** The text of the dependency with version "1, 2" splits into five pieces. */
  lemma SplitWithSeparatorInVersion()
    ensures Split(ToString(Plain("g", "a", "1, 2", "r")), FieldSeparator) ==
      ["LibraryLoader.Dependency(groupId=g", "artifactId=a", "version=1", "2", "repoUrl=r)"]
  {
    VersionWithSeparatorText();
    BlankFreePiecesSplit(ToString(Plain("g", "a", "1, 2", "r")),
      "LibraryLoader.Dependency(groupId=g", "artifactId=a", "version=1", "2", "repoUrl=r)");
  }

  /** Five pieces without a blank, joined by ", ", split back into those pieces. */
  lemma BlankFreePiecesSplit(s: string, p0: string, p1: string, p2: string, p3: string, p4: string)
    requires s == p0 + FieldSeparator + (p1 + FieldSeparator + (p2 + FieldSeparator + (p3 + FieldSeparator + p4)))
    requires ' ' !in p0 && ' ' !in p1 && ' ' !in p2 && ' ' !in p3 && ' ' !in p4
    requires p4 != ""
    ensures Split(s, FieldSeparator) == [p0, p1, p2, p3, p4]
  {
    NoSeparatorIn(p0);
    NoSeparatorIn(p1);
    NoSeparatorIn(p2);
    NoSeparatorIn(p3);
    NoSeparatorIn(p4);
    var s3 := p3 + FieldSeparator + p4;
    var s2 := p2 + FieldSeparator + s3;
    SplitFive(s, p1 + FieldSeparator + s2, s2, s3, p0, p1, p2, p3, p4);
  }

  lemma VersionWithSeparatorText()
    ensures ToString(Plain("g", "a", "1, 2", "r")) ==
      "LibraryLoader.Dependency(groupId=g" + FieldSeparator + ("artifactId=a" + FieldSeparator +
      ("version=1" + FieldSeparator + ("2" + FieldSeparator + "repoUrl=r)")))
  {
  }

  /** Five pieces without ", " joined by ", " split back into those five pieces. */
  lemma SplitFive(s: string, s1: string, s2: string, s3: string, p0: string, p1: string, p2: string, p3: string, p4: string)
    requires s == p0 + FieldSeparator + s1 && s1 == p1 + FieldSeparator + s2
    requires s2 == p2 + FieldSeparator + s3 && s3 == p3 + FieldSeparator + p4
    requires IndexOf(p0, FieldSeparator) < 0 && IndexOf(p1, FieldSeparator) < 0 && IndexOf(p2, FieldSeparator) < 0
    requires IndexOf(p3, FieldSeparator) < 0 && IndexOf(p4, FieldSeparator) < 0
    requires p4 != ""
    ensures Split(s, FieldSeparator) == [p0, p1, p2, p3, p4]
  {
    assert SplitAtEvery(p4, FieldSeparator) == [p4];
    SplitAfterPiece(s3, p3, p4);
    SplitAfterPiece(s2, p2, s3);
    SplitAfterPiece(s1, p1, s2);
    SplitAfterPiece(s, p0, s1);
    assert SplitAtEvery(s, FieldSeparator) == [p0, p1, p2, p3, p4];
    assert DropTrailingEmpty([p0, p1, p2, p3, p4]) == [p0, p1, p2, p3, p4];
  }

  /** A string without a blank has no ", ". */
  lemma NoSeparatorIn(s: string)
    requires ' ' !in s
    ensures IndexOf(s, FieldSeparator) < 0
  {
    forall j | 0 <= j ensures !OccursAt(s, FieldSeparator, j) {
      if j + 2 <= |s| {
        assert s[j..j + 2][1] == s[j + 1] != ' ';
      }
    }
    IndexOfAbsent(s, FieldSeparator);
  }
}
