/**
 * LibraryLoader: keeps the list of loaded dependencies, downloads each one's
 * jar into a cache under the data folder, and puts the cached jar on the class
 * loader's search path through the port.
 *
 * The network is one `Response` per load: the metadata url() reads and how the
 * transfer of the jar into the cache ends. The disk is the set of paths that
 * exist.
 */
module LibraryLoader {
  import opened Wrappers
  import opened JavaStrings
  import opened Dependencies
  import opened ArtifactLocator
  import opened ClassLoaderAccess

  /**
   * InvalidDependencyException, UnknownDependencyException, and an unchecked
   * exception that load does not catch (the RuntimeException of url(), an
   * IllegalArgumentException, an ArrayIndexOutOfBoundsException).
   */
  datatype LoadError = InvalidDependency | UnknownDependency | Unchecked

  /** How copying the downloaded jar (through the relocator, for a relocated dependency) ends. */
  datatype Transfer =
    | Stored         // the jar is now in the cache
    | Failed         // an IOException while opening, copying or relocating
    | NothingStored  // the copy returned, yet no file is at the cache path

  datatype Response = Response(metadata: Metadata, transfer: Transfer)

  /* ---- The registry: an ArrayList compared with Dependency.equals ---- */

  /** ArrayList.indexOf from `from` on: the first dependency equal to `d`, or -1. */
  function IndexOfDependency(registry: seq<Dependency>, d: Dependency, from: nat): (r: int)
    ensures r == -1 || (from <= r < |registry| && Equals(registry[r], d))
    ensures forall j :: from <= j < |registry| && (r < 0 || j < r) ==> !Equals(registry[j], d)
    decreases |registry| - from
  {
    if from >= |registry| then -1
    else if Equals(registry[from], d) then from
    else IndexOfDependency(registry, d, from + 1)
  }

  /** ArrayList.contains: some registered dependency equals `d`. */
  predicate IsRegistered(registry: seq<Dependency>, d: Dependency)
  {
    IndexOfDependency(registry, d, 0) >= 0
  }

  /** ArrayList.remove(Object): drop the first dependency equal to `d`, if any. */
  function Unregister(registry: seq<Dependency>, d: Dependency): seq<Dependency>
  {
    var i := IndexOfDependency(registry, d, 0);
    if i < 0 then registry else registry[..i] + registry[i + 1..]
  }

  /** No two registered dependencies are equal. */
  predicate NoDuplicates(registry: seq<Dependency>)
  {
    forall i, j :: 0 <= i < j < |registry| ==> !Equals(registry[i], registry[j])
  }

  /** contains(d) holds exactly when an equal dependency is in the list. */
  lemma RegisteredIffEqualMember(registry: seq<Dependency>, d: Dependency)
    ensures IsRegistered(registry, d) <==> exists x :: x in registry && Equals(x, d)
  {
    if x :| x in registry && Equals(x, d) {
      var j :| 0 <= j < |registry| && registry[j] == x;
      assert Equals(registry[j], d);
    }
  }

  /** After appending `d`, contains(d) holds. */
  lemma AppendRegisters(registry: seq<Dependency>, d: Dependency)
    ensures IsRegistered(registry + [d], d)
  {
    assert Equals((registry + [d])[|registry|], d);
  }

  /** A dependency registered in a list stays registered when the list grows at its end. */
  lemma RegisteredInLonger(registry: seq<Dependency>, longer: seq<Dependency>, d: Dependency)
    requires registry <= longer && IsRegistered(registry, d)
    ensures IsRegistered(longer, d)
  {
    RegisteredIffEqualMember(registry, d);
    RegisteredIffEqualMember(longer, d);
    var x :| x in registry && Equals(x, d);
    assert x in longer;
  }

  /** Appending an unregistered dependency keeps the list free of duplicates and registers it. */
  lemma NoDuplicatesAppend(registry: seq<Dependency>, d: Dependency)
    requires NoDuplicates(registry) && !IsRegistered(registry, d)
    ensures NoDuplicates(registry + [d])
    ensures IsRegistered(registry + [d], d)
  {
    var r := registry + [d];
    forall i, j | 0 <= i < j < |r| ensures !Equals(r[i], r[j]) {
      if j == |registry| {
        assert r[i] == registry[i] && !Equals(registry[i], d);
      } else {
        assert r[i] == registry[i] && r[j] == registry[j];
      }
    }
    assert Equals(r[|registry|], d);
  }

  /** Appending `d` and then removing it gives the list back. */
  lemma UnregisterUndoesAppend(registry: seq<Dependency>, d: Dependency)
    requires !IsRegistered(registry, d)
    ensures Unregister(registry + [d], d) == registry
  {
    var r := registry + [d];
    assert forall j :: 0 <= j < |registry| ==> r[j] == registry[j];
    assert Equals(r[|registry|], d);
    assert r[..|registry|] == registry;
  }

  /** The registry after a load of `d` that passes: `d` is appended unless an equal one is registered. */
  function RegisterOne(registry: seq<Dependency>, d: Dependency): (r: seq<Dependency>)
    ensures registry <= r && |r| <= |registry| + 1
    ensures IsRegistered(r, d)
  {
    if IsRegistered(registry, d) then registry
    else
      AppendRegisters(registry, d);
      registry + [d]
  }

  /** The registry after loading each of `ds` in turn, every load passing. */
  function RegisterAll(registry: seq<Dependency>, ds: seq<Dependency>): (r: seq<Dependency>)
    ensures registry <= r && |r| <= |registry| + |ds|
    decreases |ds|
  {
    if ds == [] then registry
    else RegisterOne(RegisterAll(registry, ds[..|ds| - 1]), ds[|ds| - 1])
  }

  /**
   * After RegisterAll every dependency of `ds` is registered, and every
   * element it added is one of `ds`.
   */
  lemma {:induction false} RegisterAllMembers(registry: seq<Dependency>, ds: seq<Dependency>)
    ensures forall k :: 0 <= k < |ds| ==> IsRegistered(RegisterAll(registry, ds), ds[k])
    ensures forall j :: |registry| <= j < |RegisterAll(registry, ds)| ==>
      exists k :: 0 <= k < |ds| && RegisterAll(registry, ds)[j] == ds[k]
    decreases |ds|
  {
    if ds != [] {
      var init := ds[..|ds| - 1];
      var r0, r := RegisterAll(registry, init), RegisterAll(registry, ds);
      RegisterAllMembers(registry, init);
      forall k | 0 <= k < |init| ensures IsRegistered(r, ds[k]) {
        assert init[k] == ds[k];
        RegisteredInLonger(r0, r, ds[k]);
      }
      assert r == RegisterOne(r0, ds[|ds| - 1]);
      forall j | |registry| <= j < |r| ensures exists k :: 0 <= k < |ds| && r[j] == ds[k] {
        if j < |r0| {
          var k :| 0 <= k < |init| && r0[j] == init[k];
          assert r[j] == ds[k];
        } else {
          assert r == r0 + [ds[|ds| - 1]];
          assert r[j] == ds[|ds| - 1];
        }
      }
    } else {
      assert RegisterAll(registry, ds) == registry;
    }
  }

  /** RegisterAll over the first n dependencies registers each of them and adds only some of them. */
  lemma RegisterAllPrefix(registry: seq<Dependency>, ds: seq<Dependency>, n: nat)
    requires n <= |ds|
    ensures forall k :: 0 <= k < n ==> IsRegistered(RegisterAll(registry, ds[..n]), ds[k])
    ensures forall j :: |registry| <= j < |RegisterAll(registry, ds[..n])| ==>
      exists k :: 0 <= k < n && RegisterAll(registry, ds[..n])[j] == ds[k]
  {
    var r := RegisterAll(registry, ds[..n]);
    RegisterAllMembers(registry, ds[..n]);
    forall j | |registry| <= j < |r| ensures exists k :: 0 <= k < n && r[j] == ds[k] {
      var k :| 0 <= k < n && r[j] == ds[..n][k];
      assert ds[..n][k] == ds[k];
    }
    forall k | 0 <= k < n ensures IsRegistered(r, ds[k]) {
      assert ds[..n][k] == ds[k];
    }
  }

  /** Removing the first element's equal removes the first element. */
  lemma UnregisterHead(registry: seq<Dependency>)
    requires registry != []
    ensures Unregister(registry, registry[0]) == registry[1..]
  {
    assert Equals(registry[0], registry[0]);
  }

  /** remove(d) takes out the element at the first index equal to `d`; the rest keep their order. */
  lemma UnregisterShape(registry: seq<Dependency>, d: Dependency)
    ensures var i := IndexOfDependency(registry, d, 0);
      i >= 0 ==> (|Unregister(registry, d)| == |registry| - 1 &&
                  forall a :: 0 <= a < |registry| - 1 ==> Unregister(registry, d)[a] == registry[if a < i then a else a + 1])
    ensures IndexOfDependency(registry, d, 0) < 0 ==> Unregister(registry, d) == registry
  {
    var i := IndexOfDependency(registry, d, 0);
    if i >= 0 {
      var r := registry[..i] + registry[i + 1..];
      forall a | 0 <= a < |registry| - 1 ensures r[a] == registry[if a < i then a else a + 1] {
      }
    }
  }

  /**
   * On a list without duplicates, remove(d) leaves no dependency equal to `d`,
   * keeps every other element, adds nothing and keeps the list free of duplicates.
   */
  lemma UnregisterRemovesOnlyEquals(registry: seq<Dependency>, d: Dependency)
    requires NoDuplicates(registry)
    ensures NoDuplicates(Unregister(registry, d))
    ensures !IsRegistered(Unregister(registry, d), d)
    ensures forall x :: x in Unregister(registry, d) ==> x in registry
    ensures forall x :: x in registry && !Equals(x, d) ==> x in Unregister(registry, d)
    ensures IsRegistered(registry, d) ==> |Unregister(registry, d)| == |registry| - 1
  {
    UnregisterShape(registry, d);
    var i := IndexOfDependency(registry, d, 0);
    if i >= 0 {
      var r := Unregister(registry, d);
      UnregisterNoEquals(registry, d, i, r);
      UnregisterMembers(registry, d, i, r);
    }
  }

  /** The list left by remove(d) holds exactly the elements not equal to `d`. */
  lemma UnregisterMembers(registry: seq<Dependency>, d: Dependency, i: int, r: seq<Dependency>)
    requires NoDuplicates(registry)
    requires 0 <= i < |registry| && Equals(registry[i], d) && |r| == |registry| - 1
    requires forall a :: 0 <= a < |registry| - 1 ==> r[a] == registry[if a < i then a else a + 1]
    ensures forall x :: x in r ==> x in registry
    ensures forall x :: x in registry && !Equals(x, d) ==> x in r
  {
    forall x | x in r ensures x in registry {
      var a :| 0 <= a < |r| && r[a] == x;
      assert registry[if a < i then a else a + 1] == x;
    }
    forall x | x in registry && !Equals(x, d) ensures x in r {
      var k :| 0 <= k < |registry| && registry[k] == x;
      assert k != i;
      assert r[if k < i then k else k - 1] == x;
    }
  }

  /** The list left by remove(d) has no element equal to `d` and no two equal elements. */
  lemma UnregisterNoEquals(registry: seq<Dependency>, d: Dependency, i: int, r: seq<Dependency>)
    requires NoDuplicates(registry)
    requires 0 <= i < |registry| && Equals(registry[i], d) && |r| == |registry| - 1
    requires forall a :: 0 <= a < |registry| - 1 ==> r[a] == registry[if a < i then a else a + 1]
    ensures NoDuplicates(r) && !IsRegistered(r, d)
  {
    forall a, b | 0 <= a < b < |r| ensures !Equals(r[a], r[b]) {
      assert r[a] == registry[if a < i then a else a + 1];
      assert r[b] == registry[if b < i then b else b + 1];
    }
    forall a | 0 <= a < |r| ensures !Equals(r[a], d) {
      var a' := if a < i then a else a + 1;
      assert r[a] == registry[a'];
      if a' < i {
        assert !Equals(registry[a'], registry[i]);
      } else {
        assert !Equals(registry[i], registry[a']);
      }
    }
  }

  /* ---- The cache on disk ---- */

  /** getLibFolder: the folder "libraries" inside the data folder. */
  function LibraryRoot(dataFolder: string): string
  {
    dataFolder + "/libraries"
  }

  /**
   * What `new File(parent, child)` puts after the parent path on a Unix file
   * system: a '/' before each non-empty segment of the child, so that runs
   * of '/' collapse and a trailing '/' is dropped. `pending` says that a
   * separator is due before the next segment.
   */
  function ChildPath(child: string, pending: bool): string
  {
    if child == [] then []
    else if child[0] == '/' then ChildPath(child[1..], true)
    else (if pending then "/" else "") + [child[0]] + ChildPath(child[1..], false)
  }

  /** new File(parent, child): the parent path, then the child's segments. */
  function Resolve(parent: string, child: string): string
  {
    parent + ChildPath(child, true)
  }

  /** A resolved path extends its parent, strictly when the child has a segment. */
  lemma ResolveExtends(parent: string, child: string, i: int)
    requires 0 <= i < |child| && child[i] != '/'
    ensures StartsWith(Resolve(parent, child), parent) && |Resolve(parent, child)| > |parent|
  {
    ChildPathNotEmpty(child, true, i);
    assert Resolve(parent, child)[..|parent|] == parent;
  }

  /** A child with a character other than '/' adds something to the parent path. */
  lemma {:induction false} ChildPathNotEmpty(child: string, pending: bool, i: int)
    requires 0 <= i < |child| && child[i] != '/'
    ensures ChildPath(child, pending) != []
    decreases i
  {
    if child[0] == '/' {
      ChildPathNotEmpty(child[1..], true, i - 1);
    }
  }

  /** A doubled '/' in the child names the same path as a single one. */
  lemma {:induction false} DoubledSlashCollapses(a: string, b: string, pending: bool)
    ensures ChildPath(a + "//" + b, pending) == ChildPath(a + "/" + b, pending)
    decreases |a|
  {
    if a == [] {
      assert a + "//" + b == "//" + b && ("//" + b)[1..] == "/" + b;
      assert a + "/" + b == "/" + b && ("/" + b)[1..] == b;
    } else {
      assert (a + "//" + b)[0] == a[0] && (a + "//" + b)[1..] == a[1..] + "//" + b;
      assert (a + "/" + b)[0] == a[0] && (a + "/" + b)[1..] == a[1..] + "/" + b;
      DoubledSlashCollapses(a[1..], b, if a[0] == '/' then true else false);
    }
  }

  /** Non-empty segments, each after a single '/', with no '/' at either end. */
  predicate SlashSeparated(s: string)
  {
    s != [] && s[0] != '/' && s[|s| - 1] != '/' &&
    forall i :: 0 < i < |s| && s[i] == '/' ==> s[i - 1] != '/'
  }

  /** A child already in normal form is put after the parent as it is. */
  lemma {:induction false} SlashSeparatedChild(s: string, pending: bool)
    requires SlashSeparated(s)
    ensures ChildPath(s, pending) == (if pending then "/" else "") + s
    decreases |s|
  {
    if |s| > 1 {
      if s[1] != '/' {
        SlashSeparatedSuffix(s, 1);
        SlashSeparatedChild(s[1..], false);
      } else {
        assert |s| > 2 && s[2] != '/';
        SlashSeparatedSuffix(s, 2);
        assert s[1..][0] == '/' && s[1..][1..] == s[2..];
        SlashSeparatedChild(s[2..], true);
      }
    }
  }

  /** What follows a character other than '/' in a normal form is in normal form. */
  lemma SlashSeparatedSuffix(s: string, k: int)
    requires SlashSeparated(s) && 0 < k < |s| && s[k] != '/'
    ensures SlashSeparated(s[k..])
  {
    var t := s[k..];
    forall i | 0 < i < |t| ensures t[i] == '/' ==> t[i - 1] != '/' {
      assert t[i] == s[k + i] && t[i - 1] == s[k + i - 1];
    }
  }

  /** Two children in normal form joined by one '/' are in normal form. */
  lemma SlashSeparatedJoin(x: string, y: string)
    requires SlashSeparated(x) && SlashSeparated(y)
    ensures SlashSeparated(x + "/" + y)
  {
    var s := x + "/" + y;
    forall i | 0 < i < |s| ensures s[i] == '/' ==> s[i - 1] != '/' {
      if i < |x| {
        assert s[i] == x[i] && s[i - 1] == x[i - 1];
      } else if i == |x| {
        assert s[i - 1] == x[|x| - 1];
      } else if i == |x| + 1 {
        assert s[i] == y[0];
      } else {
        assert s[i] == y[i - |x| - 1] && s[i - 1] == y[i - |x| - 2];
      }
    }
    assert s[|s| - 1] == y[|y| - 1];
  }

  /** The directories of a dependency: group and artifact with '.' as '/', then the version. */
  function CacheChild(d: Dependency): string
  {
    Replace(d.groupId, '.', '/') + "/" + Replace(d.artifactId, '.', '/') + "/" + d.version
  }

  /** The cache directory under the library folder. */
  function CacheDir(root: string, d: Dependency): string
  {
    Resolve(root, CacheChild(d))
  }

  /** The cached jar `<artifactId>-<version>.jar` in the cache directory. */
  function CacheFile(root: string, d: Dependency): string
  {
    Resolve(CacheDir(root, d), d.artifactId + "-" + d.version + ".jar")
  }

  /** The URL of the cached jar, as File.toURI().toURL() spells it. */
  function CacheUrl(root: string, d: Dependency): string
  {
    "file:" + CacheFile(root, d)
  }

  /** Equal dependencies share their cache paths, so load and unload agree on them. */
  lemma EqualsSharesCache(root: string, x: Dependency, y: Dependency)
    requires Equals(x, y)
    ensures CacheDir(root, x) == CacheDir(root, y) && CacheFile(root, x) == CacheFile(root, y)
    ensures CacheUrl(root, x) == CacheUrl(root, y)
  {
  }

  /** Two dependencies have one jar URL exactly when they have one cached jar. */
  lemma CacheUrlIffCacheFile(root: string, x: Dependency, y: Dependency)
    ensures CacheUrl(root, x) == CacheUrl(root, y) <==> CacheFile(root, x) == CacheFile(root, y)
  {
    if CacheUrl(root, x) == CacheUrl(root, y) {
      assert CacheUrl(root, x)[5..] == CacheFile(root, x);
      assert CacheUrl(root, y)[5..] == CacheFile(root, y);
    }
  }

  /**
   * For coordinates whose directories are already in normal form, the cached
   * jar is the plain concatenation
   * `<root>/<group dirs>/<artifact dirs>/<version>/<artifactId>-<version>.jar`.
   */
  lemma PlainCachePath(root: string, d: Dependency)
    requires SlashSeparated(Replace(d.groupId, '.', '/')) && SlashSeparated(Replace(d.artifactId, '.', '/'))
    requires SlashSeparated(d.version) && SlashSeparated(d.artifactId + "-" + d.version + ".jar")
    ensures CacheDir(root, d) == root + "/" + CacheChild(d)
    ensures CacheFile(root, d) == root + "/" + CacheChild(d) + "/" + (d.artifactId + "-" + d.version + ".jar")
  {
    var g, a := Replace(d.groupId, '.', '/'), Replace(d.artifactId, '.', '/');
    SlashSeparatedJoin(g, a);
    SlashSeparatedJoin(g + "/" + a, d.version);
    SlashSeparatedChild(CacheChild(d), true);
    SlashSeparatedChild(d.artifactId + "-" + d.version + ".jar", true);
  }

  /**
   * A group with a trailing '.' names the same directories: "org." becomes
   * "org/", and the doubled '/' collapses. The two dependencies are not
   * equal, yet they share one cached jar and one URL.
   */
  lemma TrailingDotSharesCache(root: string, g: string, a: string, v: string, repo: string)
    ensures !Equals(Plain(g, a, v, repo), Plain(g + ".", a, v, repo))
    ensures CacheUrl(root, Plain(g, a, v, repo)) == CacheUrl(root, Plain(g + ".", a, v, repo))
  {
    var x, y := Plain(g, a, v, repo), Plain(g + ".", a, v, repo);
    assert |x.groupId| != |y.groupId|;
    var rg, ra := Replace(g, '.', '/'), Replace(a, '.', '/');
    TrailingDotReplaced(g);
    assert CacheChild(y) == rg + "//" + (ra + "/" + v) by {
      SlashPair();
      Regroup6(rg, "/", "/", ra, "/", v);
    }
    assert CacheChild(x) == rg + "/" + (ra + "/" + v) by {
      AssocFour(rg, "/", ra, "/", v);
    }
    DoubledSlashCollapses(rg, ra + "/" + v, true);
  }

  /** A trailing '.' is replaced by a trailing '/'. */
  lemma TrailingDotReplaced(g: string)
    ensures Replace(g + ".", '.', '/') == Replace(g, '.', '/') + "/"
  {
    ReplaceConcat(g, ".", '.', '/');
    assert Replace(".", '.', '/') == "/";
  }

  lemma SlashPair()
    ensures "/" + "/" == "//"
  {
  }

  /** Regrouping six pieces around a doubled middle. */
  lemma Regroup6<T>(r: seq<T>, p: seq<T>, q: seq<T>, a: seq<T>, w: seq<T>, v: seq<T>)
    ensures r + p + q + a + w + v == r + (p + q) + (a + w + v)
  {
  }

  /**
   * With every coordinate empty the cache "directory" is the library folder
   * itself: the child "//" has no segment.
   */
  lemma EmptyCoordinatesUseLibraryFolder(root: string, repo: string)
    ensures CacheDir(root, Plain("", "", "", repo)) == root
  {
    assert Replace("", '.', '/') == "";
    assert CacheChild(Plain("", "", "", repo)) == "//";
    assert ChildPath("//", true) == ChildPath("/", true) == ChildPath("", true) == "";
  }

  /** The dotted group "org.example" becomes the directories "org/example". */
  lemma DottedGroupDirs()
    ensures Replace("org.example", '.', '/') == "org/example"
  {
    assert "org.example" == "org" + ['.'] + "example";
    assert "org/example" == "org" + ['/'] + "example";
    ReplaceOnce("org", "example", '.', '/');
  }

  /**
   * The worked example: org.example:lib:1.0.0 is cached as
   * libraries/org/example/lib/1.0.0/lib-1.0.0.jar under the data folder.
   */
  lemma ExampleCachePath(dataFolder: string, repo: string)
    ensures CacheFile(LibraryRoot(dataFolder), Plain("org.example", "lib", "1.0.0", repo)) ==
            dataFolder + "/libraries/org/example/lib/1.0.0/lib-1.0.0.jar"
  {
    ExampleSegments();
    ExampleChild(repo);
    NameSpelling();
    ExampleSpelling();
    CacheFileSpelled(dataFolder, Plain("org.example", "lib", "1.0.0", repo), "org/example/lib/1.0.0", "lib-1.0.0.jar",
                     "/libraries/org/example/lib/1.0.0/lib-1.0.0.jar");
  }

  /** The cached jar of a dependency whose directories and jar name are already in normal form. */
  lemma CacheFileSpelled(dataFolder: string, d: Dependency, child: string, name: string, spelled: string)
    requires CacheChild(d) == child && d.artifactId + "-" + d.version + ".jar" == name
    requires SlashSeparated(child) && SlashSeparated(name)
    requires "/libraries" + "/" + child + "/" + name == spelled
    ensures CacheFile(LibraryRoot(dataFolder), d) == dataFolder + spelled
  {
    SlashSeparatedChild(child, true);
    SlashSeparatedChild(name, true);
    AssocFour(dataFolder, "/libraries", "/", child, "/");
    Assoc(dataFolder, "/libraries" + "/" + child + "/", name);
  }

  /** The directories and the jar name of the worked example are in normal form. */
  lemma ExampleSegments()
    ensures SlashSeparated("org/example/lib/1.0.0") && SlashSeparated("lib-1.0.0.jar")
  {
    var c := "org/example/lib/1.0.0";
    assert forall i :: 0 < i < |c| && c[i] == '/' ==> i == 3 || i == 11 || i == 15;
    assert forall i :: 0 <= i < 13 ==> "lib-1.0.0.jar"[i] != '/';
  }

  /** The directories of the worked example. */
  lemma ExampleChild(repo: string)
    ensures CacheChild(Plain("org.example", "lib", "1.0.0", repo)) == "org/example/lib/1.0.0"
  {
    DottedGroupDirs();
    ReplaceAbsent("lib", '.', '/');
    ChildSpelling();
  }

  lemma NameSpelling()
    ensures "lib" + "-" + "1.0.0" + ".jar" == "lib-1.0.0.jar"
  {
  }

  lemma ChildSpelling()
    ensures "org/example" + "/" + "lib" + "/" + "1.0.0" == "org/example/lib/1.0.0"
  {
  }

  lemma ExampleSpelling()
    ensures "/libraries" + "/" + "org/example/lib/1.0.0" + "/" + "lib-1.0.0.jar" == "/libraries/org/example/lib/1.0.0/lib-1.0.0.jar"
  {
  }

  /** A group already written with slashes is left as it is. */
  lemma SlashedGroupDirs()
    ensures Replace("org/example", '.', '/') == "org/example"
  {
    ReplaceAbsent("org/example", '.', '/');
  }

  /**
   * The cache path does not tell "org.example" from "org/example": two
   * dependencies that are not equal can share one cached jar and one URL.
   */
  lemma CacheFileCollision(root: string, repo: string)
    ensures !Equals(Plain("org.example", "lib", "1", repo), Plain("org/example", "lib", "1", repo))
    ensures CacheUrl(root, Plain("org.example", "lib", "1", repo)) == CacheUrl(root, Plain("org/example", "lib", "1", repo))
  {
    var x := Plain("org.example", "lib", "1", repo);
    var y := Plain("org/example", "lib", "1", repo);
    assert x.groupId != y.groupId by {
      assert "org.example"[3] != "org/example"[3];
    }
    assert Replace(x.groupId, '.', '/') == Replace(y.groupId, '.', '/') by {
      DottedGroupDirs();
      SlashedGroupDirs();
    }
    SameDirsSameCache(root, x, y);
  }

  /** Two dependencies whose group and artifact map to the same directories share their cached jar. */
  lemma SameDirsSameCache(root: string, x: Dependency, y: Dependency)
    requires Replace(x.groupId, '.', '/') == Replace(y.groupId, '.', '/')
    requires x.artifactId == y.artifactId && x.version == y.version
    ensures CacheUrl(root, x) == CacheUrl(root, y)
  {
  }

  /* ---- The @MavenLibrary annotation ---- */

  const DefaultRepository := "https://repo1.maven.org/maven2"

  /** One @MavenLibrary: a composite "group:artifact:version:repo" or the explicit fields. */
  datatype MavenLibrary = MavenLibrary(value: string, groupId: string, artifactId: string, version: string, repo: string)

  /** An annotation with every element left at its default. */
  function DefaultLibrary(): (r: MavenLibrary)
    ensures r.value == r.groupId == r.artifactId == r.version == "" && r.repo == DefaultRepository
  {
    MavenLibrary("", "", "", "", DefaultRepository)
  }

  /**
   * The decoding in loadAll: the explicit fields and the repo when any of the
   * three is non-empty; otherwise the value cut on ':' into at most four
   * parts, of which there must be four.
   */
  function Decode(lib: MavenLibrary): (r: Result<Dependency, LoadError>)
    ensures r.Success? ==> r.value.Plain?
    ensures r.Failure? ==> r.error == Unchecked && lib.groupId == lib.artifactId == lib.version == ""
  {
    if lib.groupId != "" || lib.artifactId != "" || lib.version != "" then
      Success(Plain(lib.groupId, lib.artifactId, lib.version, lib.repo))
    else
      var parts := SplitLimit(lib.value, ":", 4);
      if |parts| < 4 then Failure(Unchecked) else Success(Plain(parts[0], parts[1], parts[2], parts[3]))
  }

  /**
   * A composite value "g:a:v:repo" decodes to its four coordinates whenever
   * g, a and v hold no ':'; the repository keeps its own colons, and the
   * annotation's repo element is not used.
   */
  lemma DecodeComposite(g: string, a: string, v: string, repoUrl: string, repo: string)
    requires ':' !in g && ':' !in a && ':' !in v
    ensures Decode(MavenLibrary(g + ":" + a + ":" + v + ":" + repoUrl, "", "", "", repo)) == Success(Plain(g, a, v, repoUrl))
  {
    var s2 := v + ":" + repoUrl;
    var s1 := a + ":" + s2;
    var s := g + ":" + s1;
    assert g + ":" + a + ":" + v + ":" + repoUrl == s;
    SplitLimitAtChar(s2, ':', v, repoUrl, 2);
    SplitLimitAtChar(s1, ':', a, s2, 3);
    SplitLimitAtChar(s, ':', g, s1, 4);
  }

  /**
   * Every decoded composite value is its four parts joined by ':', and its
   * first three parts hold no ':'.
   */
  lemma DecodedCompositeJoins(lib: MavenLibrary)
    requires lib.groupId == "" && lib.artifactId == "" && lib.version == ""
    requires Decode(lib).Success?
    ensures var d := Decode(lib).value;
      lib.value == d.groupId + ":" + (d.artifactId + ":" + (d.version + ":" + d.repoUrl)) &&
      IndexOf(d.groupId, ":") < 0 && IndexOf(d.artifactId, ":") < 0 && IndexOf(d.version, ":") < 0
  {
    var parts := SplitLimit(lib.value, ":", 4);
    SplitLimitJoins(lib.value, ":", 4);
    JoinFour(parts, ":");
  }

  /**
   * A composite value with only three parts is not given the default
   * repository: split leaves three parts and reading the fourth throws.
   */
  lemma ThreePartCompositeFails(g: string, a: string, v: string, repo: string)
    requires ':' !in g && ':' !in a && ':' !in v
    ensures Decode(MavenLibrary(g + ":" + a + ":" + v, "", "", "", repo)) == Failure(Unchecked)
  {
    var s1 := a + ":" + v;
    var s := g + ":" + s1;
    assert g + ":" + a + ":" + v == s;
    assert SplitLimit(v, ":", 2) == [v] by {
      CharAbsent(v, ':');
    }
    SplitLimitAtChar(s1, ':', a, v, 3);
    SplitLimitAtChar(s, ':', g, s1, 4);
  }

  /** Any explicit coordinate makes the explicit fields and the repo win over the value. */
  lemma ExplicitFieldsWin(lib: MavenLibrary)
    requires lib.groupId != "" || lib.artifactId != "" || lib.version != ""
    ensures Decode(lib).Success?
    ensures Equals(Decode(lib).value, Plain(lib.groupId, lib.artifactId, lib.version, lib.repo))
  {
  }

  /**
   * An annotation that sets only explicit coordinates keeps the default
   * repository, Maven Central.
   */
  lemma DefaultRepositoryApplies(g: string, a: string, v: string)
    requires g != "" || a != "" || v != ""
    ensures Decode(DefaultLibrary().(groupId := g, artifactId := a, version := v)) == Success(Plain(g, a, v, DefaultRepository))
  {
  }

  /** An annotation left entirely at its defaults has an empty value, which is one part, not four. */
  lemma DefaultLibraryFails()
    ensures Decode(DefaultLibrary()) == Failure(Unchecked)
  {
    CharAbsent("", ':');
    assert SplitLimit("", ":", 4) == [""];
  }

  /* ---- The loader ---- */

  /** A dependency whose jar url() locates and the transfer stores. */
  predicate Fetched(d: Dependency, response: Response)
  {
    ArtifactUrl(d, response.metadata).Success? && response.transfer == Stored
  }

  /** The jar URLs of a list of dependencies, in order. */
  function CacheUrls(root: string, ds: seq<Dependency>): (r: seq<Url>)
    ensures |r| == |ds| && forall k :: 0 <= k < |ds| ==> r[k] == CacheUrl(root, ds[k])
  {
    seq(|ds|, k requires 0 <= k < |ds| => CacheUrl(root, ds[k]))
  }

  /** The jar URLs of the first i + 1 dependencies: those of the first i, then one more. */
  lemma CacheUrlsTake(root: string, ds: seq<Dependency>, i: nat)
    requires i < |ds|
    ensures CacheUrls(root, ds[..i + 1]) == CacheUrls(root, ds[..i]) + [CacheUrl(root, ds[i])]
  {
    var r, s := CacheUrls(root, ds[..i + 1]), CacheUrls(root, ds[..i]) + [CacheUrl(root, ds[i])];
    assert |r| == |s|;
    forall k | 0 <= k < |r| ensures r[k] == s[k] {
      assert ds[..i + 1][k] == ds[k];
    }
  }

  /** The jar URLs of two lists one after the other. */
  lemma CacheUrlsAppend(root: string, a: seq<Dependency>, b: seq<Dependency>)
    ensures CacheUrls(root, a + b) == CacheUrls(root, a) + CacheUrls(root, b)
  {
    var r, s := CacheUrls(root, a + b), CacheUrls(root, a) + CacheUrls(root, b);
    forall k | 0 <= k < |r| ensures r[k] == s[k] {
      if k < |a| {
        assert (a + b)[k] == a[k];
      } else {
        assert (a + b)[k] == b[k - |a|];
      }
    }
  }

  /** The jar URLs of the first i dependencies are the first i jar URLs. */
  lemma CacheUrlsPrefix(root: string, ds: seq<Dependency>, i: nat)
    requires i <= |ds|
    ensures CacheUrls(root, ds[..i]) == CacheUrls(root, ds)[..i]
  {
    var r, s := CacheUrls(root, ds[..i]), CacheUrls(root, ds)[..i];
    forall k | 0 <= k < i ensures r[k] == s[k] {
      assert ds[..i][k] == ds[k];
    }
  }

  /**
   * The URLs appended by a run of loads, one load more: what the registry
   * gained from r0 to r2 is what it gained to r1 and then from r1 to r2.
   */
  lemma UrlsGrow(root: string, u0: seq<Url>, r0: seq<Dependency>, r1: seq<Dependency>, r2: seq<Dependency>)
    requires r0 <= r1 <= r2
    ensures u0 + CacheUrls(root, r1[|r0|..]) + CacheUrls(root, r2[|r1|..]) == u0 + CacheUrls(root, r2[|r0|..])
  {
    assert r2[|r0|..] == r1[|r0|..] + r2[|r1|..];
    CacheUrlsAppend(root, r1[|r0|..], r2[|r1|..]);
  }

  /** The paths one load can create: the library folder, the cache directory and the jar. */
  function StagedFor(root: string, d: Dependency): set<string>
  {
    {root, CacheDir(root, d), CacheFile(root, d)}
  }

  /** The paths loads of each of `ds` can create. */
  function StagedPaths(root: string, ds: seq<Dependency>): set<string>
    decreases |ds|
  {
    if ds == [] then {} else StagedPaths(root, ds[..|ds| - 1]) + StagedFor(root, ds[|ds| - 1])
  }

  /** The paths for the first i + 1 dependencies: those for the first i, and one more load's. */
  lemma StagedPathsTake(root: string, ds: seq<Dependency>, i: nat)
    requires i < |ds|
    ensures StagedPaths(root, ds[..i + 1]) == StagedPaths(root, ds[..i]) + StagedFor(root, ds[i])
  {
    assert ds[..i + 1][..i] == ds[..i];
  }

  /** The dependencies of the annotations that decode, in order. */
  function DecodedAll(libs: seq<MavenLibrary>): (ds: seq<Dependency>)
    ensures |ds| <= |libs|
    decreases |libs|
  {
    if libs == [] then []
    else
      var init := DecodedAll(libs[..|libs| - 1]);
      match Decode(libs[|libs| - 1])
      case Success(d) => init + [d]
      case Failure(_) => init
  }

  /**
   * When there are as many dependencies as annotations, every annotation
   * decodes and the k-th dependency is the k-th annotation's.
   */
  lemma {:induction false} DecodedAllIndex(libs: seq<MavenLibrary>)
    requires |DecodedAll(libs)| == |libs|
    ensures forall k :: 0 <= k < |libs| ==> Decode(libs[k]).Success? && DecodedAll(libs)[k] == Decode(libs[k]).value
    decreases |libs|
  {
    if libs != [] {
      var init := libs[..|libs| - 1];
      assert Decode(libs[|libs| - 1]).Success? && |DecodedAll(init)| == |init|;
      DecodedAllIndex(init);
      forall k | 0 <= k < |libs| ensures Decode(libs[k]).Success? && DecodedAll(libs)[k] == Decode(libs[k]).value {
        if k < |init| {
          assert init[k] == libs[k];
        }
      }
    }
  }

  /** Decoding one more annotation that decodes: the list grows by its dependency. */
  lemma DecodedAllTake(libs: seq<MavenLibrary>, i: nat)
    requires i < |libs| && Decode(libs[i]).Success?
    ensures DecodedAll(libs[..i + 1]) == DecodedAll(libs[..i]) + [Decode(libs[i]).value]
  {
    assert libs[..i + 1][..i] == libs[..i];
  }

  /** RegisterAll over the first n decoded annotations registers each of them and adds only some of them. */
  lemma RegisterAllDecoded(registry: seq<Dependency>, libs: seq<MavenLibrary>, n: nat)
    requires n <= |libs| && |DecodedAll(libs[..n])| == n
    ensures forall k :: 0 <= k < n ==> Decode(libs[k]).Success? && IsRegistered(RegisterAll(registry, DecodedAll(libs[..n])), Decode(libs[k]).value)
    ensures forall j :: |registry| <= j < |RegisterAll(registry, DecodedAll(libs[..n]))| ==>
      exists k :: 0 <= k < n && RegisterAll(registry, DecodedAll(libs[..n]))[j] == Decode(libs[k]).value
  {
    var ds := DecodedAll(libs[..n]);
    DecodedPrefixIndex(libs, n);
    RegisterAllMembers(registry, ds);
    var r := RegisterAll(registry, ds);
    forall j | |registry| <= j < |r| ensures exists k :: 0 <= k < n && r[j] == Decode(libs[k]).value {
      var k :| 0 <= k < n && r[j] == ds[k];
    }
  }

  /** The k-th of the first n decoded dependencies is the k-th annotation's. */
  lemma DecodedPrefixIndex(libs: seq<MavenLibrary>, n: nat)
    requires n <= |libs| && |DecodedAll(libs[..n])| == n
    ensures forall k :: 0 <= k < n ==> Decode(libs[k]).Success? && DecodedAll(libs[..n])[k] == Decode(libs[k]).value
  {
    DecodedAllIndex(libs[..n]);
    forall k | 0 <= k < n ensures libs[..n][k] == libs[k] {
    }
  }

  /** None of the URLs `us` is in either collection of the port. */
  predicate NoneOnPath(us: seq<Url>, unopened: seq<Url>, path: seq<Url>)
  {
    forall k :: 0 <= k < |us| ==> us[k] !in unopened && us[k] !in path
  }

  /** When no jar URL of `ds` is in the port, no member of `ds` has its jar URL there. */
  lemma NoneOnPathMembers(root: string, ds: seq<Dependency>, unopened: seq<Url>, path: seq<Url>)
    requires NoneOnPath(CacheUrls(root, ds), unopened, path)
    ensures forall x :: x in ds ==> CacheUrl(root, x) !in unopened && CacheUrl(root, x) !in path
  {
    forall x | x in ds ensures CacheUrl(root, x) !in unopened && CacheUrl(root, x) !in path {
      var k :| 0 <= k < |ds| && ds[k] == x;
      assert CacheUrls(root, ds)[k] == CacheUrl(root, x);
    }
  }

  /**
   * After unloadAll from a coherent state, no jar URL of the old registry is
   * left in the port, and the library folder was already on disk.
   */
  lemma UnloadedAllCoherent(root: string, snapshot: seq<Dependency>, disk0: set<string>, unopened0: seq<Url>, path0: seq<Url>,
                            unopened: seq<Url>, path: seq<Url>)
    requires Coherent(root, snapshot, disk0, unopened0, path0)
    requires NoneOnPath(CacheUrls(root, snapshot), unopened, path)
    ensures forall x :: x in snapshot ==> CacheUrl(root, x) !in unopened && CacheUrl(root, x) !in path
    ensures snapshot != [] ==> disk0 + {root} == disk0
  {
    NoneOnPathMembers(root, snapshot, unopened, path);
    if snapshot != [] {
      RegisteredOnDisk(root, snapshot, disk0, unopened0, path0, snapshot[0]);
    }
  }

  /**
   * One more step of unloadAll on the port's collections: removing `u` after
   * the URLs `us` is removing `us + [u]`, and URLs already gone stay gone.
   */
  lemma RemoveStep(unopened: seq<Url>, path: seq<Url>, us: seq<Url>, u: Url)
    ensures RemoveFirst(RemoveEach(unopened, us), u) == RemoveEach(unopened, us + [u])
    ensures RemoveFirst(RemoveEach(path, us), u) == RemoveEach(path, us + [u])
    ensures NoneOnPath(us, RemoveEach(unopened, us), RemoveEach(path, us)) &&
            u !in RemoveFirst(RemoveEach(unopened, us), u) && u !in RemoveFirst(RemoveEach(path, us), u) ==>
            NoneOnPath(us + [u], RemoveEach(unopened, us + [u]), RemoveEach(path, us + [u]))
  {
    RemoveEachSnoc(unopened, us, u);
    RemoveEachSnoc(path, us, u);
    var un, pa := RemoveEach(unopened, us), RemoveEach(path, us);
    forall k | 0 <= k < |us|
      ensures us[k] !in un ==> us[k] !in RemoveFirst(un, u)
      ensures us[k] !in pa ==> us[k] !in RemoveFirst(pa, u)
    {
      RemoveFirstMembers(un, u, us[k]);
      RemoveFirstMembers(pa, u, us[k]);
    }
  }

  /**
   * The jar is neither the library folder nor its own directory, and the
   * directory lies under the library folder (it is the folder itself when
   * the coordinates name no directory).
   */
  lemma CachePathsDiffer(root: string, d: Dependency)
    ensures root != CacheFile(root, d) && CacheDir(root, d) != CacheFile(root, d)
    ensures StartsWith(CacheDir(root, d), root) && StartsWith(CacheFile(root, d), root)
  {
    var name := d.artifactId + "-" + d.version + ".jar";
    assert name[|d.artifactId|] == '-';
    ResolveExtends(CacheDir(root, d), name, |d.artifactId|);
    assert StartsWith(CacheDir(root, d), root) by {
      assert CacheDir(root, d)[..|root|] == root;
    }
    assert CacheFile(root, d)[..|root|] == CacheDir(root, d)[..|root|];
  }

  /**
   * What the loader keeps in step, on plain values: neither port collection
   * repeats a URL; every registered dependency has its cache directory and
   * jar on disk and its jar URL in the port; registered dependencies that
   * share a jar URL are equal; and no dependency is registered twice.
   */
  ghost predicate Coherent(root: string, registry: seq<Dependency>, disk: set<string>, unopened: seq<Url>, path: seq<Url>)
  {
    Distinct(unopened) && Distinct(path) && NoDuplicates(registry) &&
    (forall x :: x in registry ==>
       root in disk && CacheDir(root, x) in disk && CacheFile(root, x) in disk &&
       (CacheUrl(root, x) in unopened || CacheUrl(root, x) in path)) &&
    (forall x, y :: x in registry && y in registry && CacheUrl(root, x) == CacheUrl(root, y) ==> Equals(x, y))
  }

  /** In a coherent state, a registered dependency has its folder, cache directory and jar on disk. */
  lemma RegisteredOnDisk(root: string, registry: seq<Dependency>, disk: set<string>,
                         unopened: seq<Url>, path: seq<Url>, d: Dependency)
    requires Coherent(root, registry, disk, unopened, path) && IsRegistered(registry, d)
    ensures root in disk && CacheDir(root, d) in disk && CacheFile(root, d) in disk
    ensures disk + {root} == disk
  {
    RegisteredIffEqualMember(registry, d);
    var x :| x in registry && Equals(x, d);
    EqualsSharesCache(root, x, d);
  }

  /** New paths on disk never break coherence. */
  lemma CoherentDiskGrows(root: string, registry: seq<Dependency>, disk: set<string>, disk': set<string>,
                          unopened: seq<Url>, path: seq<Url>)
    requires Coherent(root, registry, disk, unopened, path) && disk <= disk'
    ensures Coherent(root, registry, disk', unopened, path)
  {
  }

  /**
   * A successful load keeps coherence: the new dependency was not registered,
   * its jar URL was in neither collection, and its paths are on disk.
   */
  lemma CoherentAfterLoad(root: string, registry: seq<Dependency>, disk: set<string>,
                          unopened: seq<Url>, path: seq<Url>, d: Dependency)
    requires Coherent(root, registry, disk, unopened, path)
    requires !IsRegistered(registry, d)
    requires CacheUrl(root, d) !in unopened && CacheUrl(root, d) !in path
    requires root in disk && CacheDir(root, d) in disk && CacheFile(root, d) in disk
    ensures Coherent(root, registry + [d], disk, unopened + [CacheUrl(root, d)], path + [CacheUrl(root, d)])
  {
    var url := CacheUrl(root, d);
    NoDuplicatesAppend(registry, d);
    DistinctAppend(unopened, url);
    DistinctAppend(path, url);
    forall x | x in registry ensures CacheUrl(root, x) != url {
    }
  }

  /**
   * A successful unload keeps coherence, and the jar URL of the unloaded
   * dependency is then in neither collection.
   */
  lemma CoherentAfterUnload(root: string, registry: seq<Dependency>, disk: set<string>,
                            unopened: seq<Url>, path: seq<Url>, d: Dependency)
    requires Coherent(root, registry, disk, unopened, path)
    requires IsRegistered(registry, d)
    ensures Coherent(root, Unregister(registry, d), disk,
                     RemoveFirst(unopened, CacheUrl(root, d)), RemoveFirst(path, CacheUrl(root, d)))
    ensures CacheUrl(root, d) !in RemoveFirst(unopened, CacheUrl(root, d))
    ensures CacheUrl(root, d) !in RemoveFirst(path, CacheUrl(root, d))
  {
    var url := CacheUrl(root, d);
    var rest := Unregister(registry, d);
    UnregisterRemovesOnlyEquals(registry, d);
    DistinctRemoveFirst(unopened, url);
    DistinctRemoveFirst(path, url);
    var k := IndexOfDependency(registry, d, 0);
    var kept := registry[k];
    assert kept in registry && Equals(kept, d);
    EqualsSharesCache(root, kept, d);
    forall x | x in rest
      ensures CacheUrl(root, x) in RemoveFirst(unopened, url) || CacheUrl(root, x) in RemoveFirst(path, url)
    {
      assert x in registry;
      assert !Equals(x, d) by {
        RegisteredIffEqualMember(rest, d);
      }
      assert CacheUrl(root, x) != url;
      RemoveFirstMembers(unopened, url, CacheUrl(root, x));
      RemoveFirstMembers(path, url, CacheUrl(root, x));
    }
  }

  class Loader {
    const port: Port
    const root: string
    var registry: seq<Dependency>
    var disk: set<string>

    /** A loader over a port, a data folder, and the paths already on disk. */
    constructor (p: Port, dataFolder: string, files: set<string>)
      ensures port == p && root == LibraryRoot(dataFolder)
      ensures registry == [] && disk == files
      ensures p.Valid() ==> Consistent()
    {
      port := p;
      root := LibraryRoot(dataFolder);
      registry := [];
      disk := files;
    }

    /** No dependency is registered twice. */
    predicate Valid()
      reads this
    {
      NoDuplicates(registry)
    }

    /** The loader's state is coherent. */
    ghost predicate Consistent()
      reads this, port
    {
      Coherent(root, registry, disk, port.unopened, port.path)
    }

    /** getDependencyList: a read-only view of the registry. */
    method GetDependencyList() returns (list: seq<Dependency>)
      ensures list == registry
      ensures Valid() ==> NoDuplicates(list)
    {
      list := registry;
    }

    /**
     * The first half of load: make the cache directory (and the library
     * folder above it), then, unless the jar is already cached, locate it
     * with url() and store it. `failure` is the exception that ends load
     * here; None means the jar is on disk. Only the disk changes.
     */
    method StageJar(d: Dependency, response: Response) returns (failure: Option<LoadError>)
      modifies this
      ensures registry == old(registry)
      ensures disk == old(disk) + {root, CacheDir(root, d)} +
                      (if CacheFile(root, d) !in old(disk) && Fetched(d, response) then {CacheFile(root, d)} else {})
      ensures failure.None? <==> CacheFile(root, d) in old(disk) || Fetched(d, response)
      ensures failure.None? ==> CacheFile(root, d) in disk
      ensures CacheFile(root, d) !in old(disk) ==>
        (ArtifactUrl(d, response.metadata) == Failure(Unresolvable) ==> failure == Some(Unchecked)) &&
        (ArtifactUrl(d, response.metadata) == Failure(NoUsableVersion) ==> failure == Some(UnknownDependency)) &&
        (ArtifactUrl(d, response.metadata).Success? && response.transfer != Stored ==> failure == Some(UnknownDependency))
      ensures old(Consistent()) ==> Consistent()
    {
      CachePathsDiffer(root, d);
      var folder := GetLibFolder();
      var dir, file := CacheDir(folder, d), CacheFile(folder, d);
      var disk0 := disk;
      disk := disk + {dir};
      if file in disk {
        failure := None;
      } else {
        var located := ResolveUrl(d, response.metadata);
        if located == Failure(Unresolvable) {
          failure := Some(Unchecked);
        } else if located.Failure? {
          failure := Some(UnknownDependency);
        } else if response.transfer == Stored {
          disk := disk + {file};
          failure := None;
        } else {
          // a failed copy throws; a copy that leaves no file fails the existence test after it
          failure := Some(UnknownDependency);
        }
      }
      if old(Consistent()) {
        CoherentDiskGrows(root, registry, disk0, disk, port.unopened, port.path);
      }
    }

    /**
     * load(d, pathCheck). An already registered dependency is left alone.
     * Otherwise the cache directory is made, the jar is fetched unless it is
     * cached, and the jar URL is added to the port; only then is `d`
     * registered. A failure leaves the registry and the port as they were.
     *
     * The source also refuses when the port "contains d"; the port only
     * answers for URLs, so that half of the test is left out. What remains,
     * the URL test, is exactly what add refuses anyway: the outcome below
     * does not depend on pathCheck.
     */
    method Load(d: Dependency, pathCheck: bool, response: Response) returns (outcome: Outcome<LoadError>)
      modifies this, port
      ensures old(IsRegistered(registry, d)) ==>
        outcome == Pass && registry == old(registry) && disk == old(disk) &&
        port.unopened == old(port.unopened) && port.path == old(port.path)
      ensures !old(IsRegistered(registry, d)) ==>
        disk == old(disk) + {root, CacheDir(root, d)} +
                (if CacheFile(root, d) !in old(disk) && Fetched(d, response) then {CacheFile(root, d)} else {})
      ensures !old(IsRegistered(registry, d)) && CacheFile(root, d) !in old(disk) ==>
        (ArtifactUrl(d, response.metadata) == Failure(Unresolvable) ==> outcome == Fail(Unchecked)) &&
        (ArtifactUrl(d, response.metadata) == Failure(NoUsableVersion) ==> outcome == Fail(UnknownDependency)) &&
        (ArtifactUrl(d, response.metadata).Success? && response.transfer != Stored ==> outcome == Fail(UnknownDependency))
      ensures !old(IsRegistered(registry, d)) && (CacheFile(root, d) in old(disk) || Fetched(d, response)) ==>
        if old(port.Contains(CacheUrl(root, d))) then outcome == Fail(InvalidDependency)
        else outcome == Pass && registry == old(registry) + [d] &&
             port.unopened == old(port.unopened) + [CacheUrl(root, d)] && port.path == old(port.path) + [CacheUrl(root, d)]
      ensures outcome.Fail? ==>
        registry == old(registry) && port.unopened == old(port.unopened) && port.path == old(port.path)
      ensures outcome.Pass? <==> IsRegistered(registry, d)
      ensures registry == old(registry) || registry == old(registry) + [d]
      ensures outcome.Pass? ==>
        registry == RegisterOne(old(registry), d) &&
        port.unopened == old(port.unopened) + CacheUrls(root, registry[|old(registry)|..]) &&
        port.path == old(port.path) + CacheUrls(root, registry[|old(registry)|..])
      ensures outcome.Pass? && !old(IsRegistered(registry, d)) ==>
        CacheDir(root, d) in disk && CacheFile(root, d) in disk && !old(port.Contains(CacheUrl(root, d))) &&
        registry == old(registry) + [d] &&
        port.unopened == old(port.unopened) + [CacheUrl(root, d)] && port.path == old(port.path) + [CacheUrl(root, d)]
      ensures old(disk) <= disk <= old(disk) + StagedFor(root, d)
      ensures old(Valid()) ==> Valid()
      ensures old(Consistent()) ==> Consistent()
    {
      if IsRegistered(registry, d) {
        assert registry[|registry|..] == [];
        return Pass;
      }
      var failure := StageJar(d, response);
      if failure.Some? {
        return Fail(failure.value);
      }
      var url := CacheUrl(root, d);
      if pathCheck && port.Contains(url) {
        return Fail(InvalidDependency);
      }
      var added := port.Add(url);
      if added.Fail? {
        return Fail(InvalidDependency);
      }
      AppendRegisters(registry, d);
      if NoDuplicates(registry) {
        NoDuplicatesAppend(registry, d);
      }
      if old(Consistent()) {
        CoherentAfterLoad(root, registry, disk, old(port.unopened), old(port.path), d);
      }
      registry := registry + [d];
      assert registry[|old(registry)|..] == [d];
      assert CacheUrls(root, [d]) == [url];
      return Pass;
    }

    /**
     * load(groupId, artifactId, version, repoUrl, pathCheck): build the
     * dependency, whose constructor refuses a null argument, and load it.
     */
    method LoadCoordinates(groupId: Option<string>, artifactId: Option<string>, version: Option<string>,
                           repoUrl: Option<string>, pathCheck: bool, response: Response)
      returns (outcome: Outcome<LoadError>)
      modifies this, port
      ensures NewDependency(groupId, artifactId, version, repoUrl).Failure? ==>
        outcome == Fail(Unchecked) && registry == old(registry) && disk == old(disk) &&
        port.unopened == old(port.unopened) && port.path == old(port.path)
      ensures NewDependency(groupId, artifactId, version, repoUrl).Success? ==>
        (outcome.Pass? <==> IsRegistered(registry, NewDependency(groupId, artifactId, version, repoUrl).value))
      ensures NewDependency(groupId, artifactId, version, repoUrl).Success? ==>
        var d := NewDependency(groupId, artifactId, version, repoUrl).value;
        (registry == old(registry) || registry == old(registry) + [d]) &&
        (outcome.Fail? ==> registry == old(registry) && port.unopened == old(port.unopened) && port.path == old(port.path)) &&
        (outcome.Pass? ==>
           registry == RegisterOne(old(registry), d) &&
           port.unopened == old(port.unopened) + CacheUrls(root, registry[|old(registry)|..]) &&
           port.path == old(port.path) + CacheUrls(root, registry[|old(registry)|..])) &&
        old(disk) <= disk <= old(disk) + StagedFor(root, d)
      ensures old(Valid()) ==> Valid()
      ensures old(Consistent()) ==> Consistent()
    {
      var built := NewDependency(groupId, artifactId, version, repoUrl);
      if built.Failure? {
        return Fail(Unchecked);
      }
      outcome := Load(built.value, pathCheck, response);
    }

    /**
     * load(List, pathCheck): each dependency in turn, stopping at the first
     * failure. `net` answers the network for each dependency; `loaded` counts
     * the loads that passed.
     */
    method LoadList(deps: seq<Dependency>, pathCheck: bool, net: Dependency -> Response)
      returns (outcome: Outcome<LoadError>, loaded: nat)
      modifies this, port
      ensures loaded <= |deps|
      ensures outcome.Pass? <==> loaded == |deps|
      ensures forall k :: 0 <= k < loaded ==> IsRegistered(registry, deps[k])
      ensures outcome.Fail? ==> !IsRegistered(registry, deps[loaded])
      ensures registry == RegisterAll(old(registry), deps[..loaded])
      ensures forall j :: |old(registry)| <= j < |registry| ==> exists k :: 0 <= k < loaded && registry[j] == deps[k]
      ensures port.unopened == old(port.unopened) + CacheUrls(root, registry[|old(registry)|..])
      ensures port.path == old(port.path) + CacheUrls(root, registry[|old(registry)|..])
      ensures old(disk) <= disk <= old(disk) + StagedPaths(root, deps[..loaded]) +
        (if loaded < |deps| then StagedFor(root, deps[loaded]) else {})
      ensures old(Valid()) ==> Valid()
      ensures old(Consistent()) ==> Consistent()
    {
      ghost var registry0, unopened0, path0, disk0 := registry, port.unopened, port.path, disk;
      loaded := 0;
      while loaded < |deps|
        invariant loaded <= |deps|
        invariant LoadedSince(registry0, unopened0, path0, disk0, deps[..loaded], {})
        invariant old(Valid()) ==> Valid()
        invariant old(Consistent()) ==> Consistent()
      {
        RegisterAllPrefix(registry0, deps, loaded);
        outcome := LoadNext(registry0, unopened0, path0, disk0, deps[..loaded],
                            deps[loaded], pathCheck, net(deps[loaded]));
        if outcome.Fail? {
          return;
        }
        TakeOneMore(deps, loaded);
        loaded := loaded + 1;
      }
      RegisterAllPrefix(registry0, deps, loaded);
      outcome := Pass;
    }

    /**
     * loadAll(clazz, pathCheck): every @MavenLibrary of the class in turn,
     * decoded and loaded, stopping at the first failure; a composite value
     * with fewer than four parts throws an unchecked exception.
     */
    method LoadAll(libs: seq<MavenLibrary>, pathCheck: bool, net: Dependency -> Response)
      returns (outcome: Outcome<LoadError>, loaded: nat)
      modifies this, port
      ensures loaded <= |libs|
      ensures outcome.Pass? <==> loaded == |libs|
      ensures forall k :: 0 <= k < loaded ==> Decode(libs[k]).Success? && IsRegistered(registry, Decode(libs[k]).value)
      ensures outcome.Fail? && Decode(libs[loaded]).Failure? ==> outcome == Fail(Unchecked)
      ensures outcome.Fail? && Decode(libs[loaded]).Success? ==> !IsRegistered(registry, Decode(libs[loaded]).value)
      ensures registry == RegisterAll(old(registry), DecodedAll(libs[..loaded]))
      ensures forall j :: |old(registry)| <= j < |registry| ==>
        exists k :: 0 <= k < loaded && registry[j] == Decode(libs[k]).value
      ensures port.unopened == old(port.unopened) + CacheUrls(root, registry[|old(registry)|..])
      ensures port.path == old(port.path) + CacheUrls(root, registry[|old(registry)|..])
      ensures old(disk) <= disk <= old(disk) + StagedPaths(root, DecodedAll(libs[..loaded])) +
        (if loaded < |libs| && Decode(libs[loaded]).Success? then StagedFor(root, Decode(libs[loaded]).value) else {})
      ensures old(Valid()) ==> Valid()
      ensures old(Consistent()) ==> Consistent()
    {
      ghost var registry0 := registry;
      outcome, loaded := LoadAnnotations(libs, pathCheck, net);
      RegisterAllDecoded(registry0, libs, loaded);
    }

    /**
     * The loop of loadAll: the annotations in turn until one fails. What it
     * leaves is stated through LoadedSince over the decoded dependencies.
     */
    method LoadAnnotations(libs: seq<MavenLibrary>, pathCheck: bool, net: Dependency -> Response)
      returns (outcome: Outcome<LoadError>, loaded: nat)
      modifies this, port
      ensures loaded <= |libs| && (outcome.Pass? <==> loaded == |libs|)
      ensures |DecodedAll(libs[..loaded])| == loaded
      ensures outcome.Pass? ==> LoadedSince(old(registry), old(port.unopened), old(port.path), old(disk), DecodedAll(libs[..loaded]), {})
      ensures outcome.Fail? ==>
        LoadedSince(old(registry), old(port.unopened), old(port.path), old(disk), DecodedAll(libs[..loaded]),
                    if Decode(libs[loaded]).Success? then StagedFor(root, Decode(libs[loaded]).value) else {})
      ensures outcome.Fail? && Decode(libs[loaded]).Failure? ==> outcome == Fail(Unchecked)
      ensures outcome.Fail? && Decode(libs[loaded]).Success? ==> !IsRegistered(registry, Decode(libs[loaded]).value)
      ensures old(Valid()) ==> Valid()
      ensures old(Consistent()) ==> Consistent()
    {
      ghost var registry0, unopened0, path0, disk0 := registry, port.unopened, port.path, disk;
      loaded := 0;
      while loaded < |libs|
        invariant loaded <= |libs|
        invariant |DecodedAll(libs[..loaded])| == loaded
        invariant LoadedSince(registry0, unopened0, path0, disk0, DecodedAll(libs[..loaded]), {})
        invariant old(Valid()) ==> Valid()
        invariant old(Consistent()) ==> Consistent()
      {
        outcome := LoadAnnotation(registry0, unopened0, path0, disk0, libs, loaded, libs[loaded], pathCheck, net);
        if outcome.Fail? {
          return;
        }
        loaded := loaded + 1;
      }
      outcome := Pass;
    }

    /**
     * One annotation of loadAll: the first n annotations decoded and their
     * loads passed; decode `lib`, the next one, and load its dependency.
     */
    method LoadAnnotation(ghost registry0: seq<Dependency>, ghost unopened0: seq<Url>, ghost path0: seq<Url>,
                          ghost disk0: set<string>, ghost libs: seq<MavenLibrary>, ghost n: nat,
                          lib: MavenLibrary, pathCheck: bool, net: Dependency -> Response)
      returns (outcome: Outcome<LoadError>)
      requires n < |libs| && libs[n] == lib && |DecodedAll(libs[..n])| == n
      requires LoadedSince(registry0, unopened0, path0, disk0, DecodedAll(libs[..n]), {})
      modifies this, port
      ensures outcome.Pass? ==>
        |DecodedAll(libs[..n + 1])| == n + 1 && LoadedSince(registry0, unopened0, path0, disk0, DecodedAll(libs[..n + 1]), {})
      ensures outcome.Fail? ==>
        LoadedSince(registry0, unopened0, path0, disk0, DecodedAll(libs[..n]),
                    if Decode(lib).Success? then StagedFor(root, Decode(lib).value) else {})
      ensures outcome.Fail? && Decode(lib).Failure? ==> outcome == Fail(Unchecked)
      ensures outcome.Fail? && Decode(lib).Success? ==> !IsRegistered(registry, Decode(lib).value)
      ensures old(Valid()) ==> Valid()
      ensures old(Consistent()) ==> Consistent()
    {
      var decoded := Decode(lib);
      if decoded.Failure? {
        return Fail(Unchecked);
      }
      outcome := LoadNext(registry0, unopened0, path0, disk0, DecodedAll(libs[..n]),
                          decoded.value, pathCheck, net(decoded.value));
      if outcome.Pass? {
        DecodedAllTake(libs, n);
      }
    }

    /**
     * The state after loads of each of `ds` that all passed, from the registry
     * `registry0`, the port collections `unopened0` and `path0` and the disk
     * `disk0`; `extra` is what a load that failed after them may have added
     * to the disk.
     */
    ghost predicate LoadedSince(registry0: seq<Dependency>, unopened0: seq<Url>, path0: seq<Url>, disk0: set<string>,
                                ds: seq<Dependency>, extra: set<string>)
      reads this, port
    {
      registry == RegisterAll(registry0, ds) &&
      port.unopened == unopened0 + CacheUrls(root, registry[|registry0|..]) &&
      port.path == path0 + CacheUrls(root, registry[|registry0|..]) &&
      disk0 <= disk <= disk0 + StagedPaths(root, ds) + extra
    }

    /**
     * One load of a run (load(List) and loadAll): the loads of `ds` passed;
     * load `d`. A pass extends the run; a failure leaves the registry and the
     * port as they were.
     */
    method LoadNext(ghost registry0: seq<Dependency>, ghost unopened0: seq<Url>, ghost path0: seq<Url>,
                    ghost disk0: set<string>, ghost ds: seq<Dependency>,
                    d: Dependency, pathCheck: bool, response: Response)
      returns (outcome: Outcome<LoadError>)
      requires LoadedSince(registry0, unopened0, path0, disk0, ds, {})
      modifies this, port
      ensures outcome.Pass? ==> LoadedSince(registry0, unopened0, path0, disk0, ds + [d], {}) && old(registry) <= registry
      ensures outcome.Fail? ==> LoadedSince(registry0, unopened0, path0, disk0, ds, StagedFor(root, d))
      ensures outcome.Pass? <==> IsRegistered(registry, d)
      ensures old(Valid()) ==> Valid()
      ensures old(Consistent()) ==> Consistent()
    {
      ghost var before := registry;
      outcome := Load(d, pathCheck, response);
      if outcome.Pass? {
        assert (ds + [d])[..|ds|] == ds;
        UrlsGrow(root, unopened0, registry0, before, registry);
        UrlsGrow(root, path0, registry0, before, registry);
      }
    }

    /** getLibFolder(): the library folder, made when it is missing. */
    method GetLibFolder() returns (folder: string)
      modifies this
      ensures folder == root
      ensures registry == old(registry) && disk == old(disk) + {root}
      ensures old(Consistent()) ==> Consistent()
    {
      if old(Consistent()) {
        CoherentDiskGrows(root, registry, disk, disk + {root}, port.unopened, port.path);
      }
      disk := disk + {root};
      return root;
    }

    /**
     * unload(d). An unregistered dependency is left alone. Otherwise the
     * library folder is made; a missing cache directory or jar is refused;
     * else the jar URL leaves the port and `d` the registry.
     */
    method Unload(d: Dependency) returns (outcome: Outcome<LoadError>)
      modifies this, port
      ensures !old(IsRegistered(registry, d)) ==>
        outcome == Pass && registry == old(registry) && disk == old(disk) &&
        port.unopened == old(port.unopened) && port.path == old(port.path)
      ensures old(IsRegistered(registry, d)) ==> disk == old(disk) + {root}
      ensures old(IsRegistered(registry, d)) && (CacheDir(root, d) !in old(disk) + {root} || CacheFile(root, d) !in old(disk)) ==>
        outcome == Fail(InvalidDependency) && registry == old(registry) &&
        port.unopened == old(port.unopened) && port.path == old(port.path)
      ensures old(IsRegistered(registry, d)) && CacheDir(root, d) in old(disk) + {root} && CacheFile(root, d) in old(disk) ==>
        outcome == Pass && registry == Unregister(old(registry), d) &&
        port.unopened == RemoveFirst(old(port.unopened), CacheUrl(root, d)) &&
        port.path == RemoveFirst(old(port.path), CacheUrl(root, d))
      ensures old(Valid()) ==> Valid() && (outcome.Pass? ==> !IsRegistered(registry, d))
      ensures old(Consistent()) ==> Consistent() && disk == old(disk)
      ensures old(Consistent()) && old(IsRegistered(registry, d)) ==> outcome == Pass && !port.Contains(CacheUrl(root, d))
    {
      if !IsRegistered(registry, d) {
        return Pass;
      }
      outcome := UnloadRegistered(d);
    }

    /** unload(d) past its first test: `d` is registered. */
    method UnloadRegistered(d: Dependency) returns (outcome: Outcome<LoadError>)
      requires IsRegistered(registry, d)
      modifies this, port
      ensures disk == old(disk) + {root}
      ensures CacheDir(root, d) !in old(disk) + {root} || CacheFile(root, d) !in old(disk) ==>
        outcome == Fail(InvalidDependency) && registry == old(registry) &&
        port.unopened == old(port.unopened) && port.path == old(port.path)
      ensures CacheDir(root, d) in old(disk) + {root} && CacheFile(root, d) in old(disk) ==>
        outcome == Pass && registry == Unregister(old(registry), d) &&
        port.unopened == RemoveFirst(old(port.unopened), CacheUrl(root, d)) &&
        port.path == RemoveFirst(old(port.path), CacheUrl(root, d))
      ensures old(Valid()) ==> Valid() && (outcome.Pass? ==> !IsRegistered(registry, d))
      ensures old(Consistent()) ==>
        outcome == Pass && Consistent() && disk == old(disk) && !port.Contains(CacheUrl(root, d))
    {
      CachePathsDiffer(root, d);
      if old(Consistent()) {
        RegisteredOnDisk(root, registry, disk, port.unopened, port.path, d);
      }
      var folder := GetLibFolder();
      if CacheDir(folder, d) !in disk || CacheFile(folder, d) !in disk {
        return Fail(InvalidDependency);
      }
      Detach(d);
      return Pass;
    }

    /** The last step of unload: the jar URL leaves the port, then `d` the registry. */
    method Detach(d: Dependency)
      requires IsRegistered(registry, d)
      modifies this, port
      ensures registry == Unregister(old(registry), d) && disk == old(disk)
      ensures port.unopened == RemoveFirst(old(port.unopened), CacheUrl(root, d))
      ensures port.path == RemoveFirst(old(port.path), CacheUrl(root, d))
      ensures old(Valid()) ==> Valid() && !IsRegistered(registry, d)
      ensures old(Consistent()) ==> Consistent() && !port.Contains(CacheUrl(root, d))
    {
      if NoDuplicates(registry) {
        UnregisterRemovesOnlyEquals(registry, d);
      }
      if old(Consistent()) {
        CoherentAfterUnload(root, registry, disk, port.unopened, port.path, d);
      }
      port.Remove(CacheUrl(root, d));
      registry := Unregister(registry, d);
    }

    /**
     * The first i dependencies of `snapshot`, whose jar URLs are `urls`, are
     * unloaded: the registry is the rest, and their URLs have left the
     * port's collections, which were `unopened0` and `path0`.
     */
    ghost predicate UnloadedUpTo(snapshot: seq<Dependency>, urls: seq<Url>, i: nat,
                                 unopened0: seq<Url>, path0: seq<Url>)
      reads this, port
    {
      i <= |snapshot| == |urls| && registry == snapshot[i..] &&
      port.unopened == RemoveEach(unopened0, urls[..i]) && port.path == RemoveEach(path0, urls[..i])
    }

    /** The state is coherent and none of the first i URLs of `urls` is in the port. */
    ghost predicate Cleared(urls: seq<Url>, i: nat)
      reads this, port
    {
      i <= |urls| && Consistent() && NoneOnPath(urls[..i], port.unopened, port.path)
    }

    /** One step of unloadAll over the copy `snapshot` of the registry: unload the next. */
    method UnloadNext(ghost snapshot: seq<Dependency>, ghost urls: seq<Url>, ghost i: nat,
                      ghost unopened0: seq<Url>, ghost path0: seq<Url>)
      returns (outcome: Outcome<LoadError>)
      requires i < |snapshot| && urls == CacheUrls(root, snapshot)
      requires UnloadedUpTo(snapshot, urls, i, unopened0, path0)
      modifies this, port
      ensures outcome.Pass? ==> UnloadedUpTo(snapshot, urls, i + 1, unopened0, path0)
      ensures outcome.Fail? ==>
        registry == old(registry) && port.unopened == old(port.unopened) && port.path == old(port.path)
      ensures disk == old(disk) + {root}
      ensures old(Valid()) ==> Valid()
      ensures old(Cleared(urls, i)) ==> outcome == Pass && disk == old(disk) && Cleared(urls, i + 1)
    {
      var d := registry[0];
      assert d == snapshot[i] && urls[i] == CacheUrl(root, d);
      assert IsRegistered(registry, d);
      UnregisterHead(registry);
      outcome := Unload(d);
      TakeOneMore(urls, i);
      RemoveStep(unopened0, path0, urls[..i], urls[i]);
    }

    /**
     * unloadAll(): unload each dependency of a copy of the registry, stopping
     * at the first failure. Each one unloaded is the head of what is left,
     * so a run without failure empties the registry and removes the jar URLs
     * in registry order.
     */
    method UnloadAll() returns (outcome: Outcome<LoadError>)
      modifies this, port
      ensures outcome.Pass? ==>
        registry == [] &&
        port.unopened == RemoveEach(old(port.unopened), CacheUrls(root, old(registry))) &&
        port.path == RemoveEach(old(port.path), CacheUrls(root, old(registry)))
      ensures outcome.Fail? ==>
        registry != [] && |registry| <= |old(registry)| && registry == old(registry)[|old(registry)| - |registry|..] &&
        port.unopened == RemoveEach(old(port.unopened), CacheUrls(root, old(registry)[..|old(registry)| - |registry|])) &&
        port.path == RemoveEach(old(port.path), CacheUrls(root, old(registry)[..|old(registry)| - |registry|]))
      ensures disk == old(disk) + (if old(registry) == [] then {} else {root})
      ensures old(Valid()) ==> Valid()
      ensures old(Consistent()) ==>
        outcome == Pass && Consistent() && disk == old(disk) &&
        NoneOnPath(CacheUrls(root, old(registry)), port.unopened, port.path) &&
        forall x :: x in old(registry) ==> CacheUrl(root, x) !in port.unopened && CacheUrl(root, x) !in port.path
    {
      var snapshot := registry;
      var i;
      outcome, i := UnloadSnapshot(snapshot);
      if outcome.Pass? {
        assert snapshot[..i] == snapshot;
        if old(Consistent()) {
          UnloadedAllCoherent(root, snapshot, old(disk), old(port.unopened), old(port.path), port.unopened, port.path);
        }
      }
    }

    /**
     * The loop of unloadAll over `snapshot`, the copy of the registry: each
     * dependency in turn until one fails; `i` counts those unloaded.
     */
    method UnloadSnapshot(snapshot: seq<Dependency>) returns (outcome: Outcome<LoadError>, i: nat)
      requires registry == snapshot
      modifies this, port
      ensures i <= |snapshot| && (outcome.Pass? <==> i == |snapshot|) && i == |snapshot| - |registry|
      ensures registry == snapshot[i..]
      ensures port.unopened == RemoveEach(old(port.unopened), CacheUrls(root, snapshot[..i]))
      ensures port.path == RemoveEach(old(port.path), CacheUrls(root, snapshot[..i]))
      ensures disk == old(disk) + (if snapshot == [] then {} else {root})
      ensures old(Valid()) ==> Valid()
      ensures old(Consistent()) ==>
        outcome.Pass? && Consistent() && NoneOnPath(CacheUrls(root, snapshot[..i]), port.unopened, port.path)
    {
      ghost var urls := CacheUrls(root, snapshot);
      ghost var unopened0, path0 := port.unopened, port.path;
      i := 0;
      while i < |snapshot|
        invariant UnloadedUpTo(snapshot, urls, i, unopened0, path0)
        invariant disk == old(disk) + (if i == 0 then {} else {root})
        invariant old(Valid()) ==> Valid()
        invariant old(Consistent()) ==> Cleared(urls, i)
      {
        outcome := UnloadNext(snapshot, urls, i, unopened0, path0);
        if outcome.Fail? {
          CacheUrlsPrefix(root, snapshot, i);
          return;
        }
        i := i + 1;
      }
      CacheUrlsPrefix(root, snapshot, i);
      outcome := Pass;
    }

    /**
     * load(d) and then unload(d), for a dependency not yet registered: the
     * unload passes whatever the load did, and the registry and both port
     * collections end as they began; only the disk may have grown.
     */
    method LoadThenUnload(d: Dependency, pathCheck: bool, response: Response)
      returns (loaded: Outcome<LoadError>, unloaded: Outcome<LoadError>)
      requires !IsRegistered(registry, d)
      modifies this, port
      ensures unloaded == Pass
      ensures registry == old(registry)
      ensures port.unopened == old(port.unopened) && port.path == old(port.path)
      ensures old(disk) <= disk <= old(disk) + StagedFor(root, d)
    {
      loaded := Load(d, pathCheck, response);
      if loaded.Pass? {
        var url := CacheUrl(root, d);
        AppendRegisters(old(registry), d);
        UnregisterUndoesAppend(old(registry), d);
        RemoveFirstUndoesAppend(old(port.unopened), url);
        RemoveFirstUndoesAppend(old(port.path), url);
      }
      unloaded := Unload(d);
    }
  }
}
