# espresso build core, modelled in Dafny

espresso is a build tool for Java projects. A project is described by a configuration
(`espresso.yml`): a name, a base package, a version, a toolchain path, the registries to
search and the dependencies to use. The Go implementation (`core/`):

- caches registries: it downloads each registry as a zip archive into
  `~/.espresso/registries/<name>` and unzips it behind a zip-slip guard;
- reads the package declarations of a cached registry and searches them for a query term;
- resolves each dependency against the registries in priority order, and caches the
  resolved artifact under a SHA-256 signature of its coordinates;
- discovers the `.java` sources and compiles each one with `javac`;
- writes `MANIFEST.MF`, with its `Class-Path` header split into lines of at most 72 bytes,
  and packages the classes with `jar`;
- writes the example code and persists the configuration.

The Rust revision (`src/`) has its own helpers:

- the toolchain context, compilation, manifest, `build_jar` and `extract_jar`;
- project initialisation;
- directory walks;
- the SHA-512 integrity check and the parent path of a file;
- the `MANIFEST.MF` parser.

The model has one module per concern:

- Values such as configurations, packages and versions are datatypes (`Records`).
- The disk is the class `Files.Disk`, whose `nodes` map paths to files and directories. The
  operations that change it are methods with `modifies disk`, each specified by a
  function (`MkdirAllOn`, `WriteOn`, `UnzipOn`, …) about which the properties are proved.
- Directory trees seen by walks are values (`Walks.Tree`).
- The network, the environment, hashing, YAML/TOML (de)serialisation and the
  process runner are parameters.
- The loops of the source are `while` loops in methods, each proved against a function that
  states what it computes.

## Model

| member | source | states |
|---|---|---|
| Environment.IsDebugMode | core/util/context.go:10-16 | debug mode is on exactly when `ESPRESSO_DEBUG` is set to `1` |
| Environment.DebugOnlyForOne | core/util/context.go:10-16 | any other value of `ESPRESSO_DEBUG` (`true`, `01`) leaves debug mode off |
| Environment.GetJavaHome | core/util/context.go:19-25 | an error exactly when `JAVA_HOME` is unset, otherwise its value |
| Environment.DoesPathExist | core/util/context.go:27-31 | the path counts as present unless the stat says it does not exist; the error result is always nil |
| Environment.StatFailureCountsAsPresent | core/util/context.go:27-31 | a stat failing for another reason (e.g. permission) reports the path as existing |
| Files.MkdirAllOn | core/registry/implementation.go:91-94 | `os.MkdirAll`: existing entries are kept, every new entry is a directory on the way to `path`, and success leaves `path` a directory |
| Files.RemoveAllOn | core/registry/implementation.go:69 | `os.RemoveAll`: fails exactly on a path that cannot be inspected; otherwise exactly the entries at or below `path` are gone and the rest are unchanged |
| Files.WriteOn | core/util/fs.go:43-59 | create/truncate then write: fails exactly on a failing path, a directory, or a missing parent; otherwise the file holds exactly the data |
| Files.ReadOn | core/registry/implementation.go:139-142 | a read succeeds exactly on a readable existing file and gives its bytes |
| Files.StatOn | core/util/context.go:27-31 | the stat reports absence exactly for a missing inspectable path, and presence exactly for an existing one |
| Files.DownloadOn | core/util/net.go:13-40 | the file is created first; a transport error leaves it empty and is returned; any status is success, and the file holds the body only for 200; nothing else changes |
| Files.Disk.constructor | core/util/net.go:13-40 | a disk starts with the given entries and failing paths and no fetched URL |
| Files.Disk.MkdirAll | core/registry/implementation.go:91-94 | the new disk and error are those of `MkdirAllOn` |
| Files.Disk.RemoveAll | core/registry/implementation.go:69 | the new disk is `RemoveAllOn`'s, or unchanged with its error |
| Files.Disk.WriteFile | core/util/fs.go:43-59 | the new disk is `WriteOn`'s, or unchanged with its error |
| Files.Disk.Download | core/util/net.go:13-40 | the new disk and error are `DownloadOn`'s; the URL is fetched only once the file was created |
| Files.MkdirAllIdempotent | core/registry/implementation.go:91-94 | making a directory twice is making it once |
| Files.MkdirAllUnderFile | core/util/fs.go:38-40 | `MkdirAll` below an existing file fails |
| Walks.ReadText | core/project/source_discovery.go:38-41 | a file gives its stored read result; any other entry is an error |
| Walks.Base | core/registry/path.go:45 | the last element with trailing slashes dropped; it holds a `/` only when it is `/` itself |
| Walks.BaseOfChild | core/registry/path.go:45 | the base of `dir/x` is `x` for a plain name |
| Walks.ListingError | core/registry/path.go:41-52 | a listing has no error exactly when none of its entries is broken |
| Walks.GoWalk | core/registry/path.go:41-52 | at least one call is made, and the first call is for the start path itself |
| Walks.VisitsAreEntries | core/registry/path.go:41-52 | a walk visits only files and directories; anything else is reported as a failure |
| Walks.CollectedSpec | core/registry/path.go:41-55 | a walk succeeds exactly when no call fails, and then holds exactly what the calls kept; otherwise it returns the first failure |
| Walks.Walk | core/registry/path.go:41-55 | the callback loop returns exactly `Collected(GoWalk(root))` |
| Lexical.CleanIdempotent | core/util/fs.go:25-28 | `filepath.Clean` is idempotent and yields a rendered normal element stack |
| Lexical.CleanShape | core/util/fs.go:28 | a cleaned path never begins with `./` or `//` |
| Lexical.JoinElements | core/util/fs.go:25 | the elements of `Join(dir, name)` are those of `name` applied on top of those of `dir` |
| Lexical.CleanTrailingSlash | core/util/fs.go:28 | a trailing slash on a clean path cleans away |
| Lexical.DirOfRender | core/util/fs.go:38 | `filepath.Dir` of a clean path with two or more elements drops the last element |
| Lexical.CleanLast | core/util/fs.go:38 | a clean path with an inner `/` is a directory part, `/` and a last element, and `Dir` gives the directory part |
| Lexical.AllowedDestNonEmpty | core/util/fs.go:28-30 | the prefix guard refuses every entry of an empty destination |
| Lexical.AllowedExtends | core/util/fs.go:28-30 | an entry the prefix guard accepts has the destination's elements followed by at least one more |
| Lexical.EntryInsideExtends | core/util/fs.go:28-30 | the corrected guard accepts only paths that are the destination's elements followed by at least one more, none of them `..` |
| Lexical.RootedGuardAgrees | core/util/fs.go:28-30 | on a rooted destination the corrected guard and the prefix guard accept the same entries |
| Lexical.VanishingNameRefused | core/util/fs.go:28-30 | names that clean away (`""`, `.`, `a/..`) join to the destination itself and are refused |
| Lexical.DegenerateDestRefusesAll | core/util/fs.go:28-30 | destinations `/` and `.` refuse every entry |
| Lexical.AcceptedDir | core/util/fs.go:28-40 | the directory made for an accepted entry is the cleaned destination or lies below it |
| Lexical.ParentDestEscapes | core/util/fs.go:28-30 | with destination `..` the guard as written accepts `../x`, which lands outside `..` |
| Lexical.SiblingPrefixRefused | core/util/fs.go:28-30 | the trailing `/` in the guard refuses a sibling sharing the destination's name as a prefix (`/a/b`, `../bc/x`) |
| Extract.MkdirAllInside | core/util/fs.go:32-40 | `MkdirAll` of the destination or a path below it changes nothing outside the destination |
| Extract.ExtractEntry | core/util/fs.go:24-60 | one entry, under guard `g`: every path it creates or changes begins with the cleaned destination and `/` (or is a directory leading up to it), and an entry processed without error passed `g`; a copy failure after the create is returned after its bytes are written |
| Extract.ExtractAll | core/util/fs.go:24-60 | the whole loop, under guard `g`, changes only paths that begin with the cleaned destination and `/`, and directories leading up to it |
| Extract.UnzipOn | core/util/fs.go:17-62 | `Unzip` under guard `g` (the source's is the prefix test) changes only paths that begin with the cleaned destination and `/` |
| Extract.Unzip | core/util/fs.go:17-62 | the loop, running the string-prefix guard as written and returning a copy failure after its bytes, has exactly `UnzipOn`'s disk and error with that guard; nothing outside the destination's string prefix changes |
| Extract.ExtractAppend | core/util/fs.go:24-60 | extracting `a + b` is extracting `a` and then, unless that failed, `b` |
| Extract.CompletedEntriesInside | core/util/fs.go:28-30 | an extraction that completes accepted only entries its guard admits; with the corrected guard, only entries that stay inside the destination |
| Extract.RefusedEntryStops | core/util/fs.go:28-30 | an entry its guard refuses keeps what earlier entries did, reports `illegal file path` with its joined path, and no later entry is looked at |
| Extract.EntryWritten | core/util/fs.go:43-59 | a file entry extracted without error passed the guard, its copy did not fail, and its path holds exactly its bytes |
| Extract.FailedCopyKeepsFile | core/util/fs.go:49-59 | a copy that fails after the create returns its error, and the file keeps the bytes delivered before it |
| Extract.ParentDestUnzipEscapes | core/util/fs.go:17-62 | with destination `..`, the archive entry `../x` passes the guard as written and `Unzip` writes `../../x`, a path that adds a `..` to the destination; the corrected guard refuses it and changes nothing |
| Extract.CopyOn | core/util/fs.go:64-92 | `CopyFile`: a missing or failing source changes nothing and errs; success gives `dst` the source's content; no other path changes |
| Extract.CopyFile | core/util/fs.go:64-92 | the method's disk and error are `CopyOn`'s |
| Extract.CopyOntoItselfEmpties | core/util/fs.go:66-83 | copying a file onto itself empties it, because the create truncates it before the read |
| Signatures.Hex | core/registry/implementation.go:176 | `%x` of a digest: two characters per byte |
| Signatures.HexInjective | core/registry/implementation.go:176 | different digests never print the same |
| Signatures.CalculatePackageSignature | core/registry/implementation.go:172-177 | panics exactly on a nil argument; otherwise hex of the hash of the coordinates, two characters per digest byte |
| Signatures.SignatureDeterminesDigest | core/registry/implementation.go:176 | equal signatures come from equal digests |
| Signatures.SignatureIgnoresRegistry | core/registry/implementation.go:172-177 | the same coordinates in two registries give one signature, so one cache file |
| Signatures.SeparatorCollision | core/registry/implementation.go:176 | `a:b`/`c` and `a`/`b:c` hash the same text, whatever the digest |
| Versions.VersionString | core/context/project/util.go:6-12 | the text starts with the decimal major number and `.`, and ends with the hotfix when there is one |
| Versions.VersionStringOf | core/project/config.go:56-65 | the pointer revision panics exactly on a nil version |
| Versions.RevisionsAgree | core/project/config.go:56-65 | both revisions give the same text for every non-nil version |
| Versions.FieldsReadBack | core/context/project/util.go:7 | without a hotfix the text is three `.`-separated decimal fields that read back as the numbers |
| Versions.HotfixAppended | core/context/project/util.go:8-10 | the hotfix is appended to the text of the version without it |
| Versions.NoHotfixInjective | core/context/project/util.go:6-12 | versions without a hotfix never share a text |
| Versions.HotfixCollision | core/context/project/util.go:6-12 | 1.2.3 with hotfix `4` and 1.2.34 print the same |
| Resolve.FirstVersionFrom | core/dependency/resolve.go:53-57 | the first version at or after `k` with the wanted number, and none before it |
| Resolve.FirstPackageFrom | core/dependency/resolve.go:49-57 | the first package at or after `j` offering the dependency, and none before it |
| Resolve.SearchFrom | core/dependency/resolve.go:46-70 | a hit lies in a registry at or after `i` whose listing succeeded, is its first offering package and first matching version, and every registry before it was listed without offering the dependency |
| Resolve.SearchNotFound | core/dependency/resolve.go:46-70 | when every registry is listed without a match, the search ends in not-found |
| Resolve.SearchListingError | core/dependency/resolve.go:46-70 | a registry whose listing fails after earlier ones were listed without a match ends the search with that error |
| Resolve.SearchFailure | core/dependency/resolve.go:46-70 | a search fails either at a registry whose listing failed after all earlier ones were listed without a match, or with not-found when no registry offers the dependency |
| Resolve.Resolution | core/dependency/resolve.go:41-71 | a successful resolution records the requested dependency, a package matching it, a version whose number is the version string, and the signature of (registry, package, version) |
| Resolve.ResolvedFromFirstOfferingRegistry | core/dependency/resolve.go:46-64 | the resolved package comes from the first registry offering it, is the first offering package there, and has the first matching version |
| Resolve.ResolutionErrors | core/dependency/resolve.go:46-70 | the listing-error and not-found outcomes, with the exact error text |
| Resolve.FindFirst | core/dependency/resolve.go:46-70 | the three nested loops return exactly `SearchFrom(0)` |
| Resolve.ResolveDependency | core/dependency/resolve.go:41-71 | the method returns exactly `Resolution` |
| Resolve.EspressoDir | core/util/path.go:10-16 | `.espresso` in the home directory, or the home lookup's error |
| Resolve.GetCachePath | core/dependency/resolve.go:28-36 | the cache path fails exactly when the home lookup does |
| Resolve.CachePathUsesStoredSignature | core/dependency/resolve.go:28-36 | a resolved dependency's cache path is named by the signature the resolver stored |
| Artifacts.StoredArtifact | core/dependency/cache.go:29-41 | a successful store leaves the cache directory and the artifact, holding the 200 body or nothing |
| Artifacts.StoreErrors | core/dependency/cache.go:32-41 | a failed store failed at the directory creation, the file creation or the transfer |
| Artifacts.CacheOn | core/dependency/cache.go:16-43 | nil record and home errors leave the disk unchanged with their message; otherwise the store at `<home>/.espresso/cachedPackages/<signature>.jar` |
| Artifacts.CacheResolvedDependency | core/dependency/cache.go:16-43 | a nil record changes nothing; otherwise the method's disk and error are `CacheOn`'s, and the only URL it can fetch is the artifact's |
| Artifacts.CachedWhereLookedUp | core/dependency/resolve.go:28-36 | the artifact is cached where `GetCachePath` looks when the two signature functions agree |
| Artifacts.OlderResolution | core/dependency/implementation.go:23-55 | nil arguments are refused before any listing; otherwise the first hit of the same search |
| Artifacts.OlderResolveDependency | core/dependency/implementation.go:23-55 | the method returns exactly `OlderResolution` |
| Artifacts.OlderResolverAgrees | core/dependency/implementation.go:23-55 | on non-nil arguments both resolvers fail with the same error, or pick the same package and version |
| Artifacts.OlderCacheOn | core/dependency/implementation.go:58-85 | a nil record is refused; a nil package or version panics, and only then |
| Artifacts.OlderCacheResolvedDependency | core/dependency/implementation.go:58-85 | the method panics exactly when `OlderCacheOn` does, and otherwise has its disk and error |
| Artifacts.RevisionsStoreAlike | core/dependency/implementation.go:58-85 | both revisions store an artifact at the same place when the pair signer is the coordinate signature |
| RegistryCache.GetRegistryCachePath | core/registry/path.go:12-19 | `<home>/.espresso/registries/<name>`, or the home error |
| RegistryCache.CachePathsDistinct | core/registry/path.go:12-19 | registries with different names never share a cache directory |
| RegistryCache.GetRegistryCacheDependenciesPath | core/registry/path.go:22-28 | the cache path plus `/espresso-registry-main/dependencies` |
| RegistryCache.LayoutMismatch | core/registry/path.go:22-41 | the dependencies path lacks `/lookup`, and the post-extraction check looks for `packages` where the catalog reads `dependencies` |
| RegistryCache.InvalidateOn | core/registry/implementation.go:61-71 | errs exactly when the home lookup does; otherwise exactly the entries at or below the cache path are removed, unless it cannot be inspected, and nothing else changes |
| RegistryCache.InvalidateRegistryCache | core/dependency/registry.go:41-51 | the method's disk and error are `InvalidateOn`'s |
| RegistryCache.CacheRegistry | core/registry/implementation.go:74-117 | the method's disk and error are those of the steps: home, existence, mkdir, download, extraction with its result ignored; the URL is fetched exactly when the steps before the download succeed |
| RegistryCache.ExistingCacheRefused | core/registry/implementation.go:81-88 | an existing cache directory (or one whose stat fails) is refused before anything is created or fetched |
| RegistryCache.DownloadedMeansCached | core/registry/implementation.go:96-116 | once the archive is downloaded, the result is success, whatever the extraction did |
| RegistryCache.CacheErrorsBeforeExtraction | core/registry/implementation.go:76-100 | errors come only from home, existence, refusal, mkdir or download, with the disk as that step left it |
| RegistryCache.WalkRegistryLookup | core/registry/path.go:32-58 | the walk loop returns exactly the group paths of the lookup directory |
| RegistryCache.GroupWalkExactly | core/registry/path.go:41-55 | exactly the reached directories not named `dependencies`; fails exactly when the walk reports an error |
| RegistryCache.LookupRootNotListed | core/registry/path.go:45-47 | the walk root itself is never listed |
| RegistryCache.GetPackageDeclarationPaths | core/dependency/path_util.go:43-73 | a nil registry panics; otherwise the group path is ignored and the group walk is returned |
| RegistryCache.WalkPackageGroup | core/registry/path.go:61-76 | the walk loop returns exactly the collected non-directory entries of the group |
| RegistryCache.DeclarationPathsExactly | core/registry/path.go:61-76 | exactly the reached entries that are not directories |
| RegistryCache.GetDirectoriesInRegistryCache | core/dependency/registry.go:147-170 | the walk loop returns exactly the directories reached in the cache |
| RegistryCache.DirectoriesStartAtRoot | core/dependency/registry.go:147-170 | this walk lists its root first, unlike the group walk |
| RegistryCache.GetRegistryPackagesEmpty | core/dependency/registry.go:173-182 | the directory walk's error, or an empty list |
| RegistryCache.MakePackage | core/registry/implementation.go:150-163 | the package carries its registry, the declaration renamed to the file name, its description and versions; name and group hold no `/` |
| RegistryCache.PackageNamedByFile | core/registry/implementation.go:150-157 | `<gdir>/<g>` and `<dir>/<x>.yml` give package `x` of group `g` |
| RegistryCache.ReadGroup | core/registry/implementation.go:131-165 | the file loop returns exactly the declarations of one group, read, decoded and named |
| RegistryCache.GetRegistryPackages | core/registry/implementation.go:120-168 | the group loops return exactly the packages of every group, in order, or the first error |
| RegistryCache.PackagesFromFiles | core/registry/implementation.go:137-165 | one package per declaration file, in order, named by its file, or the group fails |
| RegistryCache.PackagesTagged | core/registry/implementation.go:156-163 | every package read carries its registry and its declaration under its own name |
| Query.Filter | core/service/registry.go:39-45 | a package is kept exactly when it is in the catalog and matches the term (or the term is `*`); never more than the catalog |
| Query.Matches | core/service/registry.go:31-46 | succeeds exactly when every registry's listing succeeds; otherwise the error names the first registry whose listing failed, with its error, in the panic text of the source |
| Query.Row | core/service/registry.go:52-56 | panics exactly when the package has no versions; otherwise group, name and a third cell |
| Query.QueryRegistries | core/service/registry.go:22-57 | the two loops return exactly the outcome of `Matches` followed by the rows |
| Query.FilterCatalog | core/service/registry.go:39-45 | the inner loop returns exactly `Filter` |
| Query.BuildRows | core/service/registry.go:50-57 | one row per package, or the panic of the first one without versions |
| Query.EmptyTermKeepsAll | core/service/registry.go:40-42 | an empty term keeps every package |
| Query.MatchesExactly | core/service/registry.go:31-57 | a search keeps exactly the matching packages of the catalogs, one row each |
| Query.RowsExactly | core/service/registry.go:50-57 | one row per package, in order; rows exist exactly when every package has a version |
| ProjectPaths.ProjectRoot | core/toolchain/toolchain_util.go:16-24 | starts with the working directory, and is longer exactly in debug mode |
| ProjectPaths.PackageDir | core/project/source_util.go:23 | the base package with dots replaced: no dot left and the same length |
| ProjectPaths.GetSourcePath | core/project/source_util.go:12-25 | a `Getwd` error is returned, a nil configuration panics and only then, otherwise a path under the working directory |
| ProjectPaths.ContextSourcePath | core/context/project/fs.go:27-40 | errs exactly when `Getwd` does; otherwise a path under `<root>/src/java/` |
| ProjectPaths.SourcePathRevisionsAgree | core/context/project/fs.go:27-40 | both source-path revisions build the same path |
| ProjectPaths.SourcePathNamesPackage | core/context/project/fs.go:38 | the source path gives back the base package, when the package has no slash |
| ProjectPaths.GetConfigPath | core/context/project/fs.go:11-24 | errs exactly when `Getwd` does; otherwise a path under the working directory ending in `/espresso.yml` |
| ProjectPaths.GetBuildPath | core/toolchain/toolchain_util.go:15-28 | errs exactly when `Getwd` does; otherwise under the project root and ending in `/build` |
| ProjectPaths.GetDistPath | core/toolchain/toolchain_util.go:31-44 | errs exactly when `Getwd` does; otherwise under the project root and ending in `/dist` |
| ProjectPaths.OutputPathsIgnoreConfig | core/toolchain/toolchain_util.go:15-44 | the build and dist paths do not depend on the configuration |
| ProjectPaths.ProjectTreesDisjoint | core/toolchain/toolchain_util.go:15-44 | the build, dist and source trees are pairwise disjoint |
| Sources.JavaFileOf | core/project/source_discovery.go:33-48 | a kept item comes from a non-directory entry named `*.java`, with its path and the text read from it |
| Sources.DiscoverSourceFiles | core/project/source_discovery.go:24-54 | the walk returns exactly the discovered files of the source path, or its error |
| Sources.DiscoveredExactly | core/project/source_discovery.go:33-51 | exactly the non-directory `.java` entries with their full text; fails exactly when a call fails or a file cannot be read |
| Sources.JavaDirectoryNotKept | core/project/source_discovery.go:37 | a directory named `*.java` is never kept |
| Sources.EmptySourceTree | core/project/source_discovery.go:24-54 | an empty source directory gives no file; an unreadable source path gives its error |
| Sources.CompileSourceFile | core/toolchain/compiler.go:17-43 | the error is exactly the combined output of a failed `javac` run, and none when it succeeds |
| Sources.CompileArgsLocate | core/toolchain/compiler.go:19-34 | the class path is only the source root, output goes to the build directory, and the file is compiled |
| Sources.PersistOn | core/context/project/fs.go:43-73 | a marshal error changes nothing and is returned; an existing (or uninspectable) config is left unchanged |
| Sources.Persist | core/context/project/fs.go:43-73 | the method's disk and error are `PersistOn`'s |
| Sources.ExistingConfigNotUpdated | core/context/project/fs.go:55-62 | as written, `Persist` reports success on an existing config and leaves its bytes unchanged |
| Sources.PersistCorrectedOn | core/context/project/fs.go:43-73 | corrected: a marshal error changes nothing; no path other than the config changes |
| Sources.PersistedReadsBack | core/context/project/fs.go:43-73 | after a successful corrected `Persist` the config reads back as the marshalled text |
| Sources.PersistAgreesOnNewFile | core/context/project/fs.go:50-70 | both agree when the config does not exist yet |
| Sources.ReplaceOnce | core/context/project/fs.go:96 | replacing a placeholder that occurs once puts the replacement in its place |
| Sources.ExampleCodeDeclaresPackage | core/context/project/fs.go:87-96 | the example code is the fixed template declaring the base package |
| Sources.MainWriteOn | core/context/project/fs.go:77-97 | on success `Main.java` in the directory holds the example code declaring the base package |
| Sources.WriteExampleCode | core/context/project/fs.go:76-100 | the method's disk and error are `MainWriteOn`'s at the context's source path |
| Sources.ProjectExampleOn | core/project/config.go:12-37 | panics exactly when `Getwd` fails or the configuration is nil |
| Sources.ProjectWriteExampleCode | core/project/config.go:12-37 | the method panics or changes the disk exactly as `ProjectExampleOn` says |
| Sources.ExampleRevisionsAgree | core/project/config.go:12-37 | both revisions write the same `Main.java` in the same place |
| Utf8.DecodeRune | core/toolchain/package.go:24 | `utf8.DecodeRuneInString`: a size of one to four bytes within the input, and size 1 for a malformed rune |
| Utf8.EncodeDecodes | core/toolchain/package.go:24 | the decoder accepts the UTF-8 encoding of every character as one well-formed rune |
| Packaging.EmittedValid | core/toolchain/package.go:23-33 | for well-formed input the emitted bytes are the input |
| Packaging.SplitFromConcat | core/toolchain/package.go:23-37 | the lines concatenate to exactly the emitted bytes |
| Packaging.FirstLineExtends | core/toolchain/package.go:25-32 | the first produced line starts with the current line |
| Packaging.SplitFromGreedy | core/toolchain/package.go:23-37 | on well-formed input the lines are greedy: no line could have taken the next rune |
| Packaging.CapLinesValid | core/toolchain/package.go:18-40 | on well-formed text the lines give back the input, hold whole runes, are non-empty, fit in 72 bytes and are greedy; empty input gives no line |
| Packaging.CapLinesAnyInput | core/toolchain/package.go:18-40 | on any input no line is empty and the lines concatenate to the emitted bytes |
| Packaging.FitsOneLine | core/toolchain/package.go:25-32 | input fitting in what is left of the line stays on it |
| Packaging.ShortTextOneLine | core/toolchain/package.go:18-40 | well-formed text of at most 72 bytes is one line, unchanged |
| Packaging.JunkOverflows | core/toolchain/package.go:24-32 | `k` undecodable bytes count 1 each but emit 3, giving one line of `3k` bytes |
| Packaging.MalformedLineTooLong | core/toolchain/package.go:24-32 | 25 bytes 0xFF give one line of 75 bytes |
| Packaging.CapLinesAt72Bytes | core/toolchain/package.go:18-40 | the loop returns exactly the splitter's lines |
| Jar.ResolveNamesFirstError | core/toolchain/package.go:49-56 | resolving succeeds exactly when every dependency resolves, giving names in order; otherwise the first error |
| Jar.ResolveClassPath | core/toolchain/package.go:49-56 | the dependency loop returns exactly `ClassPathOf` |
| Jar.ClassPathLoop | core/toolchain/package.go:49-56 | the loop stops at the first failed resolution with its error; otherwise the text is `Class-Path: ` and one entry per resolved package, in order |
| Jar.ClassPathAppend | core/toolchain/package.go:55 | one more package appends its entry at the end |
| Jar.GenerateManifest | core/toolchain/package.go:43-64 | the method returns exactly the manifest text of the configuration |
| Jar.AppendLines | core/toolchain/package.go:58-61 | each split line is written after the header and followed by a newline |
| Jar.ManifestOfClassPath | core/toolchain/package.go:43-64 | the header, then the class path split and terminated; a failed class path fails with its error |
| Jar.ManifestClassPath | core/toolchain/package.go:44-61 | three header lines, then lines that join to `Class-Path: ` and `libs/<name>.jar ` per dependency in order, each at most 72 bytes |
| Jar.LibEntriesInOrder | core/toolchain/package.go:55 | one `libs/<name>.jar ` entry per package, in declared order |
| Jar.OneLineClassPath | core/toolchain/package.go:58-61 | a class path of at most 72 bytes is written as one line |
| Jar.NoDependencies | core/toolchain/package.go:49-61 | without dependencies the line `Class-Path: ` is still written |
| Jar.ManifestFailsOnFirstUnresolved | core/toolchain/package.go:51-54 | the manifest fails exactly with the error of the first unresolved dependency |
| Jar.ManifestFromErr | core/toolchain/package.go:51-54 | the manifest fails exactly when resolving the dependencies fails, and with the same error |
| Jar.ManifestWrite | core/toolchain/package.go:76-90 | the file is created first, so a text that cannot be generated leaves it empty |
| Jar.WriteManifestAsWritten | core/toolchain/package.go:67-92 | as written: panics exactly when `Getwd` fails, because the path is dereferenced before the error is checked |
| Jar.WriteManifestOn | core/toolchain/package.go:67-92 | corrected: the `Getwd` error is returned and nothing changes |
| Jar.GetwdFailurePanics | core/toolchain/package.go:69-73 | the two agree when the working directory is known; otherwise as written panics where corrected errs |
| Jar.WriteManifest | core/toolchain/package.go:67-92 | the method's disk and error are `WriteManifestOn`'s |
| Jar.WriteGenerated | core/toolchain/package.go:76-90 | the file is created, then the generated manifest written into it; the disk and the error are `ManifestWrite`'s for that text |
| Jar.UnresolvedLeavesEmptyManifest | core/toolchain/package.go:76-86 | an unresolved dependency leaves an empty `MANIFEST.MF` and reports the error |
| Jar.JarArgsLocate | core/toolchain/package.go:97-120 | `jar` writes into the dist directory, reads the manifest where it was written and the classes from the build directory |
| Jar.PackageClasses | core/toolchain/package.go:95-130 | panics exactly where the `WriteManifest` it calls (as written) panics, on a failing `Getwd`, with the disk unchanged; otherwise the disk is what that `WriteManifest` leaves (its error dropped) and the error is exactly the combined output of a failed `jar` run |
| PathUtil.PathExists | src/util/pathutil.rs:14-16 | `Path::exists` is true exactly when the stat found the path |
| PathUtil.ExistenceRevisions | src/util/pathutil.rs:14-16 | the Go and Rust helpers differ only on a failing stat |
| PathUtil.Sha512Of | src/util/pathutil.rs:25-36 | the read error, or hex text two characters per digest byte |
| PathUtil.EnsureIntegrity | src/util/pathutil.rs:44-55 | succeeds exactly when the file reads and its digest's hex equals the expected text; the error otherwise names both |
| PathUtil.AcceptedFilesAgree | src/util/pathutil.rs:44-55 | two files accepted against one expected text have the same digest |
| PathUtil.MismatchNamesBoth | src/util/pathutil.rs:52 | the mismatch error contains the expected digest and ends with the computed one |
| PathUtil.GetParentPathOfFile | src/util/pathutil.rs:67-80 | the loop returns exactly `Parent`; the error branch is never taken |
| PathUtil.ParentIsUpToLastSlash | src/util/pathutil.rs:67-80 | the parent is the path up to and including its last `/`, and the rest holds no `/` |
| PathUtil.ParentEdgeCases | src/util/pathutil.rs:67-80 | a path without `/` has the empty parent, and a path ending in `/` is its own parent |
| Directory.WalkFileTree | src/util/directory.rs:60-72 | the loop returns exactly `FileTree` |
| Directory.FileTreeSucceeds | src/util/directory.rs:60-72 | succeeds exactly when every entry below is a file or a listable directory |
| Directory.FileTreeExactly | src/util/directory.rs:60-72 | exactly the files below the start, in listing order |
| Directory.WalkDirTree | src/util/directory.rs:36-51 | the loop returns exactly `DirTree`, walking a non-leaf subdirectory twice |
| Directory.DirsFromEmpty | src/util/directory.rs:38-48 | a listing's walk is empty exactly when it has no directory |
| Directory.DirTreeSucceeds | src/util/directory.rs:36-51 | `walk_dir_tree` succeeds exactly when `walk_file_tree` does |
| Directory.DirTreeExactly | src/util/directory.rs:36-51 | exactly the leaf directories below the start, in listing order |
| Directory.LeafDirSelf | src/util/directory.rs:42-47 | a directory contributes itself when it is a leaf, otherwise the leaves below it |
| Directory.ReadFilesRecursively | src/util/directory.rs:11-27 | the loop returns exactly `ReadFiles` |
| Directory.ReadFilesAgrees | src/util/directory.rs:11-27 | when it returns it returns what `walk_file_tree` does; when it panics `walk_file_tree` fails |
| ManifestParse.AsStr | src/backend/dependency/manifest.rs:14-23 | each header name is non-empty and has no `:` or space |
| ManifestParse.AsStrInjective | src/backend/dependency/manifest.rs:14-23 | the six fields have six different names |
| ManifestParse.Lines | src/backend/dependency/manifest.rs:36 | no line holds a newline |
| ManifestParse.LinesOfWritten | src/backend/dependency/manifest.rs:36 | lines written one per line read back as themselves |
| ManifestParse.ParseLine | src/backend/dependency/manifest.rs:37-39 | a parsed line is its key, `": "`, and its value |
| ManifestParse.Parse | src/backend/dependency/manifest.rs:33-44 | the read error, or exactly the map of the file's lines |
| ManifestParse.FindIsFirst | src/backend/dependency/manifest.rs:37 | the separator found is the first one |
| ManifestParse.KeyHasNoSeparator | src/backend/dependency/manifest.rs:37-39 | a key holds no `": "` |
| ManifestParse.ParsedByLastSetter | src/backend/dependency/manifest.rs:36-42 | a key is present exactly when a line sets it, with the value of the last such line |
| ManifestParse.ParsedKeys | src/backend/dependency/manifest.rs:36-42 | a key is present exactly when some line sets it |
| Toolchain.ExpandedToolchainPath | src/backend/toolchain.rs:25-33 | a path mentioning `${JAVA_HOME}` becomes the variable's value when it is set; otherwise the path is kept |
| Toolchain.ExpansionDropsSurroundings | src/backend/toolchain.rs:25-33 | the placeholder is not substituted in place; what surrounds it is dropped |
| Toolchain.GetToolchainContext | src/backend/toolchain.rs:38-49 | `javac`, `java` and `jar` under `bin` of the expanded path |
| Toolchain.ToolsDistinct | src/backend/toolchain.rs:40-42 | the three tools are different files |
| Toolchain.JavaFiles | src/backend/toolchain.rs:61-65 | each `.java` path occurs as often as in the input and nothing else occurs |
| Toolchain.GetJavaSourceFiles | src/backend/toolchain.rs:54-67 | the method returns exactly `JavaSourceFiles` of the base package tree |
| Toolchain.JavaSourcesAreTheJavaFiles | src/backend/toolchain.rs:54-67 | when it returns, it never fails and gives every `.java` file below the base package |
| Toolchain.CompileProject | src/backend/toolchain.rs:72-94 | one compile command per file, in order, whatever happened before; the printed outputs are exactly the failures |
| Toolchain.FailuresExactly | src/backend/toolchain.rs:89-92 | nothing is printed exactly when every file compiles, and at most one output per file |
| Toolchain.ManifestReadsBack | src/backend/toolchain.rs:99-105 | the manifest parses back as exactly the main class and version, when the base package has no newline |
| Toolchain.RemoveFileOn | src/backend/toolchain.rs:133 | succeeds exactly on an existing removable file, which is then the only entry gone |
| Toolchain.BuildJarOn | src/backend/toolchain.rs:122-157 | panics exactly when the manifest cannot be written; otherwise the manifest holds its text, the old artifact is gone, and success is exactly the packager's success |
| Toolchain.BuildJar | src/backend/toolchain.rs:122-157 | the method's disk and outcome are `BuildJarOn`'s |
| Toolchain.ExtractJarOn | src/backend/toolchain.rs:194-230 | a name without `.jar` is refused before anything changes; success means the output directory exists and the extraction succeeded there |
| Toolchain.ExtractJar | src/backend/toolchain.rs:194-230 | the method's disk and outcome are `ExtractJarOn`'s |
| Toolchain.ExtractDirNamesJar | src/backend/toolchain.rs:201-207 | adding `.jar` to the output directory's name gives back the jar |
| Project.EnsureDebugDirectoryExistsIfDebug | src/backend/project.rs:34-40 | in debug mode a missing `espresso_debug` is created (a failure panics); otherwise nothing changes |
| Project.DoesExist | src/backend/project.rs:54-65 | a project exists exactly when both its source directory and its config file exist |
| Project.UninspectableProjectIsMissing | src/backend/project.rs:54-65 | a config or source that cannot be inspected makes the project missing |
| Project.MainJavaDeclaresPackage | src/backend/project.rs:76-84 | the example code is the fixed template declaring the base package |
| Project.InitializeSourceTree | src/backend/project.rs:70-87 | the package directories are made (a failure panics), then `Main.java` is written, a failed write ignored |
| Project.MainJavaWritten | src/backend/project.rs:72-86 | once the directories exist, `Main.java` is written unless its own path fails or is a directory |
| Project.ReplaceNewlines | src/backend/project.rs:90 | every newline is removed and every other character kept in order |
| Project.ProcessInput | src/backend/project.rs:89-95 | the input without newlines, or the default when nothing is left |
| Project.NoNewlineKept | src/backend/project.rs:89-95 | an input without a newline (e.g. only spaces) is kept as it is |
| Project.InitialConfig | src/backend/project.rs:103-113 | version `1.0.0`, toolchain `${JAVA_HOME}`, no dependencies, and name and base package processed against their defaults |
| Project.InitialFieldsClean | src/backend/project.rs:103-108 | the initial name and base package are never empty and hold no newline |
| Project.InitialManifestReadsBack | src/backend/project.rs:103-108 | a new project's manifest reads back as its main class and version |
| Project.InitialToolchainIsJavaHome | src/backend/project.rs:110 | a new project's toolchain is `JAVA_HOME` itself when that is set |
| Project.InitializeConfig | src/backend/project.rs:100-118 | the config is serialised and written to the config path; a serialisation or write failure panics |

## Left out

- I/O effects are parameters of the model:
  - the network is one answer per URL;
  - environment variables and the home directory are values passed in;
  - `os.Getwd` is a result passed in;
  - the process runner (`javac`, `jar`, `sh -c`) is a function from argument vector to outcome and does not look at the disk.
- SHA-256 and SHA-512 are uninterpreted digest functions. Only the hex formatting around them is modelled.
- YAML and TOML (de)serialisation are parameters, and so is Unicode `strings.ToLower`.
- The directory trees seen by walks are values that are not tied to the `Disk` that `Unzip` writes. That a walk sees what an extraction wrote is not modelled.
- The walk order is the listing order given. Go's lexical sorting of names is not modelled.
- The three ways the home directory is found (`os.UserHomeDir`, `user.Current`, `$HOME`) are one parameter.
- The probe of `packages` after extraction in `CacheRegistry` only prints, so it is left out.
- Console output is left out: `fmt.Println`, `color`, and the table printing of `QueryRegistries`.
- `util.DoesFileExist`, used in core/dependency/registry.go, is not part of this model. The existence check there is a stat result passed in.
- `run_jar` in src/backend/toolchain.rs is left out: it only runs the built artifact.
- Some failures are not modelled:
  - a failing write after a successful create in `WriteExampleCode` and `Persist`, because its error is dropped;
  - a process that cannot be spawned (`.expect`, `?` on `output()`);
  - the `unwrap` of non-UTF-8 compiler output.
- Files.WriteOn: create and write succeed or fail together. A write that fails after the file was created and truncated (disk full, an I/O error) is not modelled.
- Jar.ManifestWrite: a `WriteString` that fails after `os.Create` succeeded is not modelled, for the same reason as `Files.WriteOn`.
- Extract.Unzip: how many bytes a damaged entry yields before `f.Open` or `io.Copy` fails is not modelled. The entry carries those bytes and the failure as given values (`Entry.data`, `Entry.failure`).
- `std::fs::create_dir_all` is modelled by the same `MkdirAllOn` as Go's `os.MkdirAll`.
- The stderr printed by `compile_project` is modelled as the returned `printed` sequence.
- Files.Disk.Download: `fetched` records the URL only when the file could be created. Whether the request was actually answered is not recorded.
- PathUtil.GetParentPathOfFile: its doc comment says the parent has no trailing `/`, but the code returns one; the model follows the code.
- PathUtil.Sha512Of: states only the length of the hex text and the error case. That the text is the digest's hex is carried by `EnsureIntegrity`.
- Signatures.CalculatePackageSignature: the hash takes two arguments in core/registry and core/dependency/cache.go and three in core/dependency/resolve.go. Each revision is given its own signer parameter, and `Artifacts.CachedWhereLookedUp` states when they agree.

## Findings

| source | as written | input that shows it | evidently intended | confidence | as-written member | corrected member |
|---|---|---|---|---|---|---|
| core/toolchain/package.go:69-73 | `*buildPath` is read before `err` from `GetBuildPath` is checked | `os.Getwd` fails, so `buildPath` is nil | return the `Getwd` error | not executed | Jar.WriteManifestAsWritten | Jar.WriteManifestOn |
| core/util/fs.go:28 | the zip-slip guard is a string prefix test on `filepath.Clean(dest) + "/"` | destination `..` and entry `../x` join to `../../x`, which passes the test and lies outside `..` | accept only entries whose cleaned path stays below the destination | not executed | Extract.ParentDestUnzipEscapes | Extract.CompletedEntriesInside |
| core/context/project/fs.go:55-62 | an existing configuration file is opened with `os.Open` (read-only), the write error is dropped, and success is returned | an existing `espresso.yml` with a changed configuration | truncate the file and write the new configuration | not executed | Sources.ExistingConfigNotUpdated | Sources.PersistedReadsBack |

