# LibraryLoader, modelled in Dafny

LibraryLoader fetches Maven artifacts at run time and puts their jars on the
search path of a class loader that is already running. This project models
that pipeline:

- **Dependencies.dfy** covers `LibraryLoader.Dependency` and
  `RelocatedDependency`: construction with its null checks, Java equality over
  the four coordinates, and the `toString`/`fromString` text form.
- **ArtifactLocator.dfy** covers `Dependency.url()`, which turns a dependency
  and the repository's `maven-metadata.xml` into the URL of its jar. It
  covers release and snapshot versions, the fallback URL, and the two
  exceptions url() can end in. The snapshot scan is a `method` with its loop,
  proved equal to the function `ArtifactUrl`.
- **ClassLoaderAccess.dfy** covers the `Port` class. It holds the class
  loader's two URL collections (`unopenedURLs` and `pathURLs`) and provides
  `add`, `remove` and `contains`.
- **LibraryLoader.dfy** covers the `Loader` class. It holds the registry (the
  `dependencyList` ArrayList), the disk (the set of paths that exist) and the
  port. It models `load` in its three overloads, `loadAll` with the decoding
  of `@MavenLibrary` annotations, `unload`, `unloadAll`, `getLibFolder` and
  `getDependencyList`.
- **JavaStrings.dfy** models the parts of `java.lang.String` the loader
  relies on: `indexOf`, `lastIndexOf`, `substring`, `replace`, `split` with
  and without a limit, and the `%s`/`%%`/`%n` subset of `String.format`.
- **Wrappers.dfy** defines `Option`, `Result` and `Outcome`. Java exceptions
  become the `Failure`/`Fail` cases of these types.

Every load and unload keeps the loader *coherent* (`LibraryLoader.Coherent`):

- neither port collection repeats a URL;
- no dependency is registered twice;
- every registered dependency has its cache directory and jar on disk and its
  jar URL on the port;
- registered dependencies that share a jar URL are equal.

The network is a parameter. Each load gets a `Response`: the metadata that
url() read (or `Unavailable`) and how the copy of the jar into the cache
ended.

The model follows the code, with one exception: the fallback URL of a
repository containing '%' is built as intended rather than as written (see
"## Findings"). Points worth knowing about the code:

- A composite annotation value with three parts (`"g:a:v"`) is not given a
  repository. `split(":", 4)` gives three parts, and reading the fourth
  throws (`ThreePartCompositeFails`).
- A `)` inside a coordinate does not break the text round trip, because
  `fromString` cuts at the *last* `)` (`FromStringInvertsToString`). Only
  `", "` inside a coordinate breaks it (`SeparatorInFieldBreaksRoundTrip`).
- The constructor accepts empty strings. It refuses only `null`.
- `Dependency` defines `equals` but no `hashCode`.
- The release URL has no version directory:
  `{repo}/{group}/{artifact}/{artifact}-{latest}.jar`
  (`ReleaseSkipsVersionDirectory`).
- The URLs built from the metadata put a doubled slash after the repository
  (`DoubledSlashAfterRepo`).
- Cache paths are built the way `java.io.File` builds them on a Unix file
  system: runs of '/' in the child collapse and a trailing '/' is dropped. So
  the groups "org", "org." and "org/" name one cache directory, and a second
  dependency that differs only in that way is refused by the port
  (`TrailingDotSharesCache`, `CacheFileCollision`).

## Model

Source paths are relative to the repository root.

| member | source | states |
|---|---|---|
| Dependencies.NewDependency | src/main/java/com/georgev22/api/libraryloader/LibraryLoader.java:400-405 | construction succeeds iff no argument is null, and then holds exactly the four arguments; otherwise the first null argument, in declaration order, is named in the error |
| Dependencies.NewRelocated | src/main/java/com/georgev22/api/libraryloader/LibraryLoader.java:532-535 | the four coordinates are checked first, with their error passed on; then a null relocation list is the error naming "relocations"; the result carries the rules and equals the plain dependency with those coordinates |
| Dependencies.EqualsIsEquivalence | src/main/java/com/georgev22/api/libraryloader/LibraryLoader.java:470-475 | Dependency.equals is reflexive, symmetric and transitive |
| Dependencies.RelocationsIgnored | src/main/java/com/georgev22/api/libraryloader/LibraryLoader.java:470-475 | a relocated dependency equals the plain one with the same coordinates, whatever its relocation rules |
| Dependencies.FromString | src/main/java/com/georgev22/api/libraryloader/LibraryLoader.java:498-507 | a successful parse yields a plain dependency and needs at least four pieces after splitting on ", " |
| Dependencies.FromStringInvertsToString | src/main/java/com/georgev22/api/libraryloader/LibraryLoader.java:483-507 | fromString(toString(d)) gives back d's four coordinates whenever no coordinate contains ", "; '=' and ')' inside a coordinate do no harm |
| Dependencies.ToStringSplits | src/main/java/com/georgev22/api/libraryloader/LibraryLoader.java:483-489 | the text form splits on ", " into exactly its four "name=value" pieces |
| Dependencies.ValueAfterEquals | src/main/java/com/georgev22/api/libraryloader/LibraryLoader.java:501-503 | what follows the first '=' of a piece "name=value" is the value, when the name has no '=' |
| Dependencies.RepoUrlPiece | src/main/java/com/georgev22/api/libraryloader/LibraryLoader.java:504 | the last piece "repoUrl=<url>)" gives back the url, even when the url contains '=' or ')' |
| Dependencies.SeparatorInFieldBreaksRoundTrip | src/main/java/com/georgev22/api/libraryloader/LibraryLoader.java:499-504 | version "1, 2" makes the fourth piece "2", and fromString throws StringIndexOutOfBounds on it |
| Dependencies.BlankFreePiecesSplit | src/main/java/com/georgev22/api/libraryloader/LibraryLoader.java:499 | five blank-free pieces joined by ", " split back into exactly those pieces |
| ArtifactLocator.RepoBase | src/main/java/com/georgev22/api/libraryloader/LibraryLoader.java:415-418 | the repository base is the repository URL when it already ends in '/', and otherwise that URL with one '/' appended |
| ArtifactLocator.FirstJarSnapshotAt | src/main/java/com/georgev22/api/libraryloader/LibraryLoader.java:434-443 | the snapshot scan ends at the first entry that has no extension or has extension "jar", wherever that entry is |
| ArtifactLocator.NoJarIffNoneSettles | src/main/java/com/georgev22/api/libraryloader/LibraryLoader.java:434-443 | the scan runs out exactly when every entry has an extension other than "jar" |
| ArtifactLocator.ResolveUrl | src/main/java/com/georgev22/api/libraryloader/LibraryLoader.java:414-461 | url() with its loop over the snapshot entries returns exactly what ArtifactUrl specifies |
| ArtifactLocator.ParsesByBase | src/main/java/com/georgev22/api/libraryloader/LibraryLoader.java:421-454 | a URL that starts with a prefix ending in '/' parses iff that prefix parses |
| ArtifactLocator.UrlsStartWithBase | src/main/java/com/georgev22/api/libraryloader/LibraryLoader.java:419-453 | the metadata, snapshot, release and fallback URLs all start with the repository base |
| ArtifactLocator.UnresolvableIffRepoUnparsable | src/main/java/com/georgev22/api/libraryloader/LibraryLoader.java:449-457 | url() ends in the RuntimeException iff the repository base names no known protocol, whatever the metadata |
| ArtifactLocator.ResolvedUrlIsJarInRepo | src/main/java/com/georgev22/api/libraryloader/LibraryLoader.java:414-461 | every URL url() returns parses, lies under the repository base and ends in ".jar" |
| ArtifactLocator.JarSuffix | src/main/java/com/georgev22/api/libraryloader/LibraryLoader.java:440-453 | the snapshot, release and fallback URLs end in ".jar" |
| ArtifactLocator.NoUsableVersionIff | src/main/java/com/georgev22/api/libraryloader/LibraryLoader.java:426-460 | url() throws MalformedURLException iff the repository parses and the metadata was read, but it has no version, or it names a snapshot and no entry has extension "jar" |
| ArtifactLocator.UnavailableMetadataFallsBack | src/main/java/com/georgev22/api/libraryloader/LibraryLoader.java:449-454 | without metadata, url() succeeds iff the repository parses, and then names the dependency's own version in its version directory |
| ArtifactLocator.SnapshotUsesFirstJarEntry | src/main/java/com/georgev22/api/libraryloader/LibraryLoader.java:431-442 | for a snapshot, url() names the value of the first "jar" entry in the version directory, provided every earlier entry has an extension |
| ArtifactLocator.ReleaseSkipsVersionDirectory | src/main/java/com/georgev22/api/libraryloader/LibraryLoader.java:444-446 | for a release, url() names the jar of the first version directly in the artifact directory |
| ArtifactLocator.DoubledSlashAfterRepo | src/main/java/com/georgev22/api/libraryloader/LibraryLoader.java:415-453 | the metadata, snapshot and release URLs have "//" right after the repository URL; the fallback continues with the group path |
| ArtifactLocator.FallbackPattern | src/main/java/com/georgev22/api/libraryloader/LibraryLoader.java:451-453 | the pattern "%s/%s/%s/%s-%s.jar" formats to group/artifact/version/artifact-version.jar |
| ArtifactLocator.FallbackAsWrittenWithoutPercent | src/main/java/com/georgev22/api/libraryloader/LibraryLoader.java:450-454 | for a repository without '%', the fallback as written formats to exactly the fallback URL |
| ArtifactLocator.PercentInRepoBreaksFallback | src/main/java/com/georgev22/api/libraryloader/LibraryLoader.java:451-456 | for the repository "https://example.org/my%20repo", the fallback as written throws, although the fallback URL parses |
| ClassLoaderAccess.FirstIndex | src/main/java/com/georgev22/api/libraryloader/ClassLoaderAccess.java:142-146 | the first index holding the URL, or -1 exactly when the URL is absent |
| ClassLoaderAccess.RemoveFirstCount | src/main/java/com/georgev22/api/libraryloader/ClassLoaderAccess.java:123-126 | Collection.remove takes out exactly one copy of the URL when there is one (as multisets), and otherwise changes nothing |
| ClassLoaderAccess.RemoveFirstMembers | src/main/java/com/georgev22/api/libraryloader/ClassLoaderAccess.java:123-126 | remove adds no URL and keeps every URL other than the one removed |
| ClassLoaderAccess.RemoveFirstUndoesAppend | src/main/java/com/georgev22/api/libraryloader/ClassLoaderAccess.java:110-126 | removing a URL just appended to a collection that lacked it gives the collection back |
| ClassLoaderAccess.DistinctAppend | src/main/java/com/georgev22/api/libraryloader/ClassLoaderAccess.java:110-116 | appending a URL a collection lacks keeps it free of repeats |
| ClassLoaderAccess.DistinctRemoveFirst | src/main/java/com/georgev22/api/libraryloader/ClassLoaderAccess.java:123-126 | removing from a collection without repeats keeps it so and leaves no copy of the URL |
| ClassLoaderAccess.DistinctAppendBoth | src/main/java/com/georgev22/api/libraryloader/ClassLoaderAccess.java:114-115 | appending a URL neither collection holds keeps each of them free of repeats |
| ClassLoaderAccess.RemoveEachSnoc | src/main/java/com/georgev22/api/libraryloader/LibraryLoader.java:313-318 | removing the URLs of a list and then one more is removing the longer list |
| ClassLoaderAccess.Port.constructor | src/main/java/com/georgev22/api/libraryloader/ClassLoaderAccess.java:72-73 | the port holds the two collections found in the class loader |
| ClassLoaderAccess.Port.Contains | src/main/java/com/georgev22/api/libraryloader/ClassLoaderAccess.java:142-146 | contains holds iff the URL is in the unopened queue or in the path |
| ClassLoaderAccess.Port.Add | src/main/java/com/georgev22/api/libraryloader/ClassLoaderAccess.java:110-116 | a URL already present is refused and nothing changes; otherwise it is appended to both collections; absence of repeats is kept |
| ClassLoaderAccess.Port.Remove | src/main/java/com/georgev22/api/libraryloader/ClassLoaderAccess.java:123-126 | the first copy leaves each collection; an absent URL changes nothing; afterwards, with no repeats, the URL is gone |
| ClassLoaderAccess.AddThenRemove | src/main/java/com/georgev22/api/libraryloader/ClassLoaderAccess.java:110-126 | add then remove of a URL the port lacks restores both collections |
| JavaStrings.Replace | src/main/java/com/georgev22/api/libraryloader/LibraryLoader.java:248 | String.replace keeps the length and turns exactly the occurrences of one character into the other |
| JavaStrings.ReplaceConcat | src/main/java/com/georgev22/api/libraryloader/LibraryLoader.java:248 | replace of a concatenation is the concatenation of the replaces |
| JavaStrings.IndexOfFinds | src/main/java/com/georgev22/api/libraryloader/LibraryLoader.java:501-504 | indexOf finds an occurrence, and none lies before it; -1 means none anywhere |
| JavaStrings.LastIndexOf | src/main/java/com/georgev22/api/libraryloader/LibraryLoader.java:504 | lastIndexOf returns an index holding the character with none after it, or -1 |
| JavaStrings.Substring | src/main/java/com/georgev22/api/libraryloader/LibraryLoader.java:504 | substring(begin, end) succeeds iff 0 <= begin <= end <= length, with end - begin characters |
| JavaStrings.DropTrailingEmpty | src/main/java/com/georgev22/api/libraryloader/LibraryLoader.java:499 | split drops exactly the empty strings at the end of the pieces |
| JavaStrings.SplitAtEveryJoins | src/main/java/com/georgev22/api/libraryloader/LibraryLoader.java:499 | joining the pieces with the separator restores the string, and no piece holds the separator |
| JavaStrings.SplitLimitJoins | src/main/java/com/georgev22/api/libraryloader/LibraryLoader.java:195 | split(sep, limit) gives at most `limit` pieces that join back to the string; only the last piece can hold the separator, and only when the limit is reached |
| JavaStrings.SplitLimitAtChar | src/main/java/com/georgev22/api/libraryloader/LibraryLoader.java:195 | split with a limit cuts at the first occurrence of the character and goes on with one piece fewer |
| JavaStrings.SplitLimit | src/main/java/com/georgev22/api/libraryloader/LibraryLoader.java:195 | split(sep, limit) gives at least one and at most `limit` pieces |
| JavaStrings.FormatLiteralPrefix | src/main/java/com/georgev22/api/libraryloader/LibraryLoader.java:453 | text without '%' at the head of a format string is copied unchanged |
| LibraryLoader.IndexOfDependency | src/main/java/com/georgev22/api/libraryloader/LibraryLoader.java:239 | ArrayList.indexOf compares with equals: the first equal element, with no equal element before it |
| LibraryLoader.RegisteredIffEqualMember | src/main/java/com/georgev22/api/libraryloader/LibraryLoader.java:239 | dependencyList.contains(d) holds iff some element equals d |
| LibraryLoader.AppendRegisters | src/main/java/com/georgev22/api/libraryloader/LibraryLoader.java:305 | after dependencyList.add(d), contains(d) holds |
| LibraryLoader.RegisteredInLonger | src/main/java/com/georgev22/api/libraryloader/LibraryLoader.java:224-228 | a registered dependency stays registered when the list grows at its end |
| LibraryLoader.NoDuplicatesAppend | src/main/java/com/georgev22/api/libraryloader/LibraryLoader.java:239-305 | adding a dependency that was not registered keeps the list free of equal pairs and registers it |
| LibraryLoader.UnregisterUndoesAppend | src/main/java/com/georgev22/api/libraryloader/LibraryLoader.java:355 | remove(d) right after add(d) of an unregistered d gives the list back |
| LibraryLoader.UnregisterHead | src/main/java/com/georgev22/api/libraryloader/LibraryLoader.java:313-318 | removing the first element's equal removes the first element |
| LibraryLoader.UnregisterShape | src/main/java/com/georgev22/api/libraryloader/LibraryLoader.java:355 | remove(d) takes out the element at the first equal index and keeps the order of the rest |
| LibraryLoader.UnregisterRemovesOnlyEquals | src/main/java/com/georgev22/api/libraryloader/LibraryLoader.java:355 | on a list without equal pairs, remove(d) leaves nothing equal to d, keeps every other element, adds nothing and shortens the list by one |
| LibraryLoader.RegisterOne | src/main/java/com/georgev22/api/libraryloader/LibraryLoader.java:238-305 | what a passing load does to the registry: it grows by at most one entry at its end and then contains d |
| LibraryLoader.RegisterAll | src/main/java/com/georgev22/api/libraryloader/LibraryLoader.java:224-228 | registering a list in turn only appends, at most one entry per dependency |
| LibraryLoader.RegisterAllMembers | src/main/java/com/georgev22/api/libraryloader/LibraryLoader.java:224-228 | after registering a list in turn, every dependency of the list is registered and every new entry is one of them |
| LibraryLoader.EqualsSharesCache | src/main/java/com/georgev22/api/libraryloader/LibraryLoader.java:248-257 | equal dependencies have the same cache directory, jar and URL |
| LibraryLoader.DottedGroupDirs | src/main/java/com/georgev22/api/libraryloader/LibraryLoader.java:248 | the group "org.example" becomes the directories "org/example" |
| LibraryLoader.SlashedGroupDirs | src/main/java/com/georgev22/api/libraryloader/LibraryLoader.java:248 | a group already written "org/example" is left as it is |
| LibraryLoader.SameDirsSameCache | src/main/java/com/georgev22/api/libraryloader/LibraryLoader.java:248-257 | dependencies whose group and artifact map to the same directories, with the same artifact and version, share their jar URL |
| LibraryLoader.DoubledSlashCollapses | src/main/java/com/georgev22/api/libraryloader/LibraryLoader.java:248 | a doubled '/' in the child of new File(parent, child) names the same path as a single one |
| LibraryLoader.SlashSeparatedChild | src/main/java/com/georgev22/api/libraryloader/LibraryLoader.java:248-257 | a child whose segments are non-empty and separated by single '/' is put after the parent exactly as written, after one '/' |
| LibraryLoader.PlainCachePath | src/main/java/com/georgev22/api/libraryloader/LibraryLoader.java:248-257 | for coordinates whose directories are already in normal form, the cache directory and jar are the plain concatenations root/group/artifact/version and .../artifact-version.jar |
| LibraryLoader.ExampleCachePath | src/main/java/com/georgev22/api/libraryloader/LibraryLoader.java:248-257 | org.example:lib:1.0.0 is cached as <dataFolder>/libraries/org/example/lib/1.0.0/lib-1.0.0.jar |
| LibraryLoader.TrailingDotSharesCache | src/main/java/com/georgev22/api/libraryloader/LibraryLoader.java:248-257 | a group with a trailing '.' gives a dependency that is not equal to the one without it, yet has the same cached jar and URL |
| LibraryLoader.EmptyCoordinatesUseLibraryFolder | src/main/java/com/georgev22/api/libraryloader/LibraryLoader.java:248 | when every coordinate is empty, the cache directory is the library folder itself |
| LibraryLoader.CacheUrlIffCacheFile | src/main/java/com/georgev22/api/libraryloader/LibraryLoader.java:296-299 | two dependencies have the same jar URL exactly when they have the same cached jar |
| LibraryLoader.CacheFileCollision | src/main/java/com/georgev22/api/libraryloader/LibraryLoader.java:248-257 | the groups "org.example" and "org/example" give dependencies that are not equal but share one cached jar URL |
| LibraryLoader.CachePathsDiffer | src/main/java/com/georgev22/api/libraryloader/LibraryLoader.java:248-257 | the jar is neither the library folder nor its cache directory, and both lie under the library folder; when the coordinates name no directory, the cache directory is the folder itself (see EmptyCoordinatesUseLibraryFolder) |
| LibraryLoader.Decode | src/main/java/com/georgev22/api/libraryloader/LibraryLoader.java:188-196 | decoding an annotation gives a plain dependency or fails, and it fails only with an unchecked exception and only when all three explicit coordinates are empty |
| LibraryLoader.DefaultRepositoryApplies | src/main/java/com/georgev22/api/libraryloader/annotations/MavenLibrary.java:42-74 | an annotation that sets only explicit coordinates decodes to them with the default repository https://repo1.maven.org/maven2 |
| LibraryLoader.DefaultLibraryFails | src/main/java/com/georgev22/api/libraryloader/LibraryLoader.java:194-196 | an annotation left entirely at its defaults throws an unchecked exception: its empty value splits into one part, not four |
| LibraryLoader.DecodeComposite | src/main/java/com/georgev22/api/libraryloader/LibraryLoader.java:194-196 | a value "g:a:v:repo" with no ':' in g, a or v decodes to those coordinates; the repository keeps its own colons and the repo element is ignored |
| LibraryLoader.DecodedCompositeJoins | src/main/java/com/georgev22/api/libraryloader/LibraryLoader.java:195 | every decoded composite value is its four coordinates joined by ':', and the first three hold no ':' |
| LibraryLoader.ThreePartCompositeFails | src/main/java/com/georgev22/api/libraryloader/LibraryLoader.java:195-196 | a three-part value "g:a:v" throws an unchecked exception instead of using a default repository |
| LibraryLoader.ExplicitFieldsWin | src/main/java/com/georgev22/api/libraryloader/LibraryLoader.java:188-193 | any non-empty explicit coordinate makes the explicit fields and the repo element win over the value |
| LibraryLoader.NoneOnPathMembers | src/main/java/com/georgev22/api/libraryloader/LibraryLoader.java:313-318 | when no jar URL of a list is on the port, no member of the list has its jar URL there |
| LibraryLoader.UnloadedAllCoherent | src/main/java/com/georgev22/api/libraryloader/LibraryLoader.java:313-318 | after unloadAll from a coherent state, no jar URL of the old registry is in either collection, and the library folder was already on disk |
| LibraryLoader.RemoveStep | src/main/java/com/georgev22/api/libraryloader/LibraryLoader.java:315-316 | one more unload step removes one more URL from each collection, and URLs already gone stay gone |
| LibraryLoader.RegisteredOnDisk | src/main/java/com/georgev22/api/libraryloader/LibraryLoader.java:337-346 | in a coherent state, a registered dependency has its library folder, cache directory and jar on disk, so unload's existence checks pass |
| LibraryLoader.CoherentDiskGrows | src/main/java/com/georgev22/api/libraryloader/LibraryLoader.java:250-255 | making directories or files never breaks coherence |
| LibraryLoader.CoherentAfterLoad | src/main/java/com/georgev22/api/libraryloader/LibraryLoader.java:294-305 | registering a new dependency whose jar is on disk and whose URL is new to the port keeps coherence |
| LibraryLoader.CoherentAfterUnload | src/main/java/com/georgev22/api/libraryloader/LibraryLoader.java:348-355 | unloading a registered dependency keeps coherence and leaves its jar URL in neither collection |
| LibraryLoader.Loader.constructor | src/main/java/com/georgev22/api/libraryloader/LibraryLoader.java:94-161 | a new loader has an empty registry, the port, and "<dataFolder>/libraries" as its library folder; over a port without repeated URLs it starts coherent |
| LibraryLoader.Loader.GetDependencyList | src/main/java/com/georgev22/api/libraryloader/LibraryLoader.java:377-379 | the registry as it is at the call, which has no equal pair when the loader is valid (see the line on GetDependencyList under Left out) |
| LibraryLoader.Loader.GetLibFolder | src/main/java/com/georgev22/api/libraryloader/LibraryLoader.java:363-369 | returns the library folder and makes it exist; nothing else changes and coherence is kept |
| LibraryLoader.Loader.StageJar | src/main/java/com/georgev22/api/libraryloader/LibraryLoader.java:248-293 | makes the folder and the cache directory; an uncached jar is fetched; the outcome maps RuntimeException to an unchecked error and MalformedURLException, IOException or a missing file to UnknownDependency |
| LibraryLoader.Loader.Load | src/main/java/com/georgev22/api/libraryloader/LibraryLoader.java:238-306 | a registered dependency is left alone; otherwise the new disk, the error for each failure, the refusal of a URL already on the port, and on success one more registry entry and one more URL in each collection; a failure leaves the registry and port unchanged; success iff registered; validity and coherence kept |
| LibraryLoader.Loader.LoadCoordinates | src/main/java/com/georgev22/api/libraryloader/LibraryLoader.java:212-214 | a null coordinate throws before anything changes; otherwise it is load of the built dependency: a failure leaves the registry and the port unchanged; a pass registers it, appending it and its jar URL to both collections when it was new; the disk gains at most its folder, cache directory and jar |
| LibraryLoader.Loader.LoadList | src/main/java/com/georgev22/api/libraryloader/LibraryLoader.java:224-228 | loads in order and stops at the first failure: the registry is what registering the loaded prefix in turn gives, every new entry is one of that prefix, and the failing dependency is not registered; each port collection gains exactly the jar URLs of the new entries, in order; the disk gains at most the paths of the loaded prefix and of the failing one |
| LibraryLoader.Loader.LoadNext | src/main/java/com/georgev22/api/libraryloader/LibraryLoader.java:225-227 | one load of a run: a pass extends the run by d and registers it; a failure leaves the registry and the port as the run left them, and the disk gains at most d's paths |
| LibraryLoader.Loader.LoadAll | src/main/java/com/georgev22/api/libraryloader/LibraryLoader.java:184-199 | decodes and loads each annotation in order and stops at the first failure; a bad composite value is an unchecked error; the registry is what registering the decoded prefix gives, every new entry is one of those dependencies, the port gains exactly their jar URLs and the disk at most their paths and those of the failing one |
| LibraryLoader.Loader.LoadAnnotations | src/main/java/com/georgev22/api/libraryloader/LibraryLoader.java:186-198 | the loop of loadAll: every annotation before the failing one decoded, and the state is that of their loads in turn; a decoding failure is an unchecked error, and a failing load leaves its dependency unregistered |
| LibraryLoader.Loader.LoadAnnotation | src/main/java/com/georgev22/api/libraryloader/LibraryLoader.java:187-197 | one iteration of loadAll: decode the annotation and load the result; a bad composite is an unchecked error and leaves the state as the earlier loads left it |
| LibraryLoader.Loader.Unload | src/main/java/com/georgev22/api/libraryloader/LibraryLoader.java:326-356 | an unregistered dependency is left alone; a missing cache directory or jar is refused with nothing changed; otherwise the jar URL leaves the port and d leaves the registry; in a coherent state unload always succeeds and keeps coherence |
| LibraryLoader.Loader.UnloadRegistered | src/main/java/com/georgev22/api/libraryloader/LibraryLoader.java:332-356 | unload past its first test: the same outcomes for a registered dependency |
| LibraryLoader.Loader.Detach | src/main/java/com/georgev22/api/libraryloader/LibraryLoader.java:348-355 | the jar URL leaves both collections and d leaves the registry; coherence is kept and the URL is then off the port |
| LibraryLoader.Loader.UnloadNext | src/main/java/com/georgev22/api/libraryloader/LibraryLoader.java:315-317 | one iteration of unloadAll: the head of what is left is unloaded and its URL removed |
| LibraryLoader.Loader.UnloadAll | src/main/java/com/georgev22/api/libraryloader/LibraryLoader.java:313-318 | on success the registry is empty and the jar URLs were removed in registry order; a failure leaves a non-empty suffix of the registry, and the port has lost exactly the jar URLs of the prefix unloaded before it; from a coherent state it always succeeds, keeps coherence, and leaves no jar URL of the old registry on the port |
| LibraryLoader.Loader.UnloadSnapshot | src/main/java/com/georgev22/api/libraryloader/LibraryLoader.java:313-318 | the loop of unloadAll over a copy of the registry: the first i entries are unloaded in order, the registry is the rest, and the port has lost exactly their jar URLs; from a coherent state every step passes |
| LibraryLoader.Loader.LoadThenUnload | src/main/java/com/georgev22/api/libraryloader/LibraryLoader.java:238-356 | load(d) and then unload(d) of a dependency not yet registered: the unload passes, and the registry and both port collections end as they began; only the disk may have grown, by d's paths |

## Left out

- Logging: every `logger` call and `registerLogger` are left out. They change nothing the model observes.
- The network, XML parsing and `url.openStream()` become inputs. `Response.metadata` is what url() read, and `Response.transfer` is how the copy into the cache ended.
- Temporary files and `JarRelocator`: relocating a jar is one `Transfer` outcome. Whether the relocator rewrites classes correctly is not modelled.
- JavaStrings.Format: only the `%s`, `%%` and `%n` conversions are modelled. Any other conversion is the UnknownFormatConversion error. Java agrees for an unknown conversion such as `%20r`, but it formats valid flags, widths, precisions and explicit indices, such as `%20s` or `%1$s`, which the model refuses.
- `File.mkdirs` makes every missing parent. The disk records only the library folder, the cache directory and the jar.
- A partly written jar after a failed copy is not modelled. A failed copy leaves no file.
- LibraryLoader.Loader.Load: the second half of the `pathCheck` test, `contains(d)`, has no counterpart: `ClassLoaderAccess` only answers for URLs. What remains is the URL test, which `add` repeats, so `pathCheck` does not change the outcome.
- `Dependency` has no `hashCode`, so none is modelled. `LibraryLoader`'s own `toString`, `equals` and `hashCode` are left out as well.
- `loadAll(Object)` only forwards to `loadAll(object.getClass())` and is not modelled separately. Reading annotations by reflection becomes the `libs` parameter.
- The `ClassLoaderAccess` constructors reach into the class loader by reflection and `Unsafe`, and `fetchField` is left out. The port starts from the two collections it found. The case where both lookups fail leaves null collections; that case is not modelled.
- `getPathURLs` and `getUnopenedURLs` only return the fields. The model reads `Port.unopened` and `Port.path` directly.
- Concurrency is not modelled: nothing in the core is synchronized, and the model is sequential.
- URLs are compared by their text. `java.net.URL.equals`, which can resolve host names, is not modelled.
- LibraryLoader.Loader.GetDependencyList: Java returns a live unmodifiable view of the list, whose contents follow later loads and unloads. The model returns the registry's contents at the time of the call; the aliasing is not modelled.
- LibraryLoader.CacheUrl: `File.toURI()` makes the path absolute, percent-encodes characters such as spaces, and adds a trailing '/' for a directory. The model writes "file:" before the path. This agrees with Java for an absolute data folder and paths without such characters.
- LibraryLoader.LibraryRoot: the data folder is taken as a normalised path, not empty and with no trailing '/'. `File.separator` is '/', as on Unix.
- LibraryLoader.CacheDir: when the child of `new File` has no segment at all (every coordinate empty, or made only of '.' and '/'), Java's path text ends in one extra '/'. The model gives the library folder itself. Both name the same directory on disk; only the text of the jar URL differs.
- ArtifactLocator.ResolveUrl and LibraryLoader.Loader.Load use the corrected fallback. For a repository containing '%' with the metadata unavailable, they locate and fetch the jar at the fallback URL. The code as written either throws, ending in a RuntimeException (e.g. `%20r`, src/main/java/com/georgev22/api/libraryloader/LibraryLoader.java:451-456), or builds a different URL: `%` for `%%`, a line separator for `%n`, or the formatted argument for a conversion such as `%1$s`. FallbackAsWritten and PercentInRepoBreaksFallback model the code as written.
- ArtifactLocator.ParsesAsUrl differs from `new URL(u)` in both directions. It is narrower: the JDK also has jar, mailto and jrt handlers, matches the protocol without regard to case, trims leading and trailing spaces, and accepts a leading "url:". The model knows only http, https, ftp and file, in lower case and untrimmed. It is also wider: `new URL` rejects a known protocol with a bad authority, such as a non-numeric port ("http://repo.example:abc/maven2") or an unclosed IPv6 bracket ("http://[::1/maven2"), which the model accepts. For such a repository Java's url() ends in a RuntimeException (src/main/java/com/georgev22/api/libraryloader/LibraryLoader.java:421-456), while the model returns the fallback URL and a load can pass.
- ArtifactLocator.UnresolvableIffRepoUnparsable: inherits that gap. "Unparsable" means failing the model's protocol test, not `new URL`'s, so a repository with a bad authority is not covered.
- ArtifactLocator.UnavailableMetadataFallsBack: inherits that gap. The fallback succeeds for a repository with a bad authority, where Java throws.
- ArtifactLocator.NoUsableVersionIff: inherits that gap. Its condition "the repository parses" is the model's protocol test.
- ArtifactLocator.ResolvedUrlIsJarInRepo: inherits that gap. "Every returned URL parses" is stated for the model's protocol test, not for `new URL`.
- LibraryLoader.Loader.GetLibFolder: `mkdirs` can fail and return false, and the code only logs the outcome. The model always adds the library folder to the disk.
- LibraryLoader.Loader.StageJar: likewise, a failed `mkdirs` of the cache directory is not modelled. The model always adds the cache directory to the disk.

## Findings

| source | as written | input that shows it | evidently intended | confidence | as-written member | corrected member |
|---|---|---|---|---|---|---|
| src/main/java/com/georgev22/api/libraryloader/LibraryLoader.java:451-453 | the fallback appends the pattern to the repository URL and uses the result as the format string of String.format, so a '%' in the repository is read as a conversion | repository "https://example.org/my%20repo" with metadata unavailable: "%20r" is an unknown conversion, String.format throws, and url() ends in RuntimeException although the fallback URL is well formed | the repository text is copied literally in front of the formatted path, as MetadataUrl does; ArtifactLocator.Fallback is that definition, and ArtifactUrl uses it | not executed | ArtifactLocator.PercentInRepoBreaksFallback | ArtifactLocator.UnresolvableIffRepoUnparsable |
