/** The rest of the packaging step (core/toolchain/package.go): `GenerateManifest` builds the
    manifest text from the configuration and the resolved dependencies, `WriteManifest`
    stores it as `MANIFEST.MF` in the build directory, and `PackageClasses` runs `jar` over
    the build directory. Go strings are bytes: the manifest is built as the UTF-8 bytes of
    its parts. */
module Jar {

  import opened Wrappers
  import opened Strs
  import opened Utf8
  import opened Records
  import opened Environment
  import opened Resolve
  import opened ProjectPaths
  import opened Files
  import opened Packaging

  /** The three fixed header lines. */
  function HeaderText(cfg: ProjectConfig): string {
    "Manifest-Version: 1.0\n" + "Main-Class: " + cfg.basePackage + ".Main\n" + "Created-By: Espresso\n"
  }

  /** The class path entry of one package. */
  function LibEntry(name: string): string {
    "libs/" + name + ".jar "
  }

  /** `libs/<name>.jar ` for each resolved package name, in order. */
  function LibEntries(names: seq<string>): string
    decreases |names|
  {
    if names == [] then "" else LibEntries(names[..|names| - 1]) + LibEntry(names[|names| - 1])
  }

  /** The unsplit `Class-Path` line. */
  function ClassPathText(names: seq<string>): string {
    "Class-Path: " + LibEntries(names)
  }

  /** Each line followed by a newline. */
  function Terminated(lines: seq<seq<byte>>): seq<byte>
    decreases |lines|
  {
    if lines == [] then [] else Terminated(lines[..|lines| - 1]) + lines[|lines| - 1] + [10]
  }

  /** What resolving each of `deps` against `regs` gives, in order. */
  function ResolutionsOf(deps: seq<Dependency>, regs: seq<Registry>, catalog: Catalog, sign: Signer): (rs: seq<Result<ResolvedDependency>>)
    ensures |rs| == |deps|
    decreases |deps|
  {
    if deps == [] then []
    else ResolutionsOf(deps[..|deps| - 1], regs, catalog, sign) + [Resolution(deps[|deps| - 1], regs, catalog, sign)]
  }

  /** What resolving each declared dependency gives, in declared order. */
  function Resolutions(cfg: ProjectConfig, catalog: Catalog, sign: Signer): (rs: seq<Result<ResolvedDependency>>)
    ensures |rs| == |cfg.dependencies|
  {
    ResolutionsOf(cfg.dependencies, cfg.registries, catalog, sign)
  }

  lemma {:induction false} ResolutionsOfAt(deps: seq<Dependency>, regs: seq<Registry>, catalog: Catalog, sign: Signer, k: nat)
    requires k < |deps|
    ensures ResolutionsOf(deps, regs, catalog, sign)[k] == Resolution(deps[k], regs, catalog, sign)
    decreases |deps|
  {
    var init := deps[..|deps| - 1];
    var rs := ResolutionsOf(init, regs, catalog, sign);
    assert ResolutionsOf(deps, regs, catalog, sign) == rs + [Resolution(deps[|deps| - 1], regs, catalog, sign)];
    if k < |deps| - 1 {
      ResolutionsOfAt(init, regs, catalog, sign, k);
      assert init[k] == deps[k];
      assert (rs + [Resolution(deps[|deps| - 1], regs, catalog, sign)])[k] == rs[k];
    }
  }

  /** Each entry is what resolving that dependency gives. */
  lemma ResolutionsAt(cfg: ProjectConfig, catalog: Catalog, sign: Signer, k: nat)
    requires k < |cfg.dependencies|
    ensures Resolutions(cfg, catalog, sign)[k] == Resolution(cfg.dependencies[k], cfg.registries, catalog, sign)
  {
    ResolutionsOfAt(cfg.dependencies, cfg.registries, catalog, sign, k);
  }

  /** The package names of the first `n` resolutions; the first failed one ends it with
      its error. */
  function ResolveNames(rs: seq<Result<ResolvedDependency>>, n: nat): (r: Result<seq<string>>)
    requires n <= |rs|
    ensures r.Ok? ==> |r.value| == n
    decreases n
  {
    if n == 0 then Ok([])
    else match ResolveNames(rs, n - 1)
      case Err(e) => Err(e)
      case Ok(names) =>
        match rs[n - 1]
        case Err(e) => Err(e)
        case Ok(rd) => Ok(names + [rd.package.name])
  }

  /** Resolving succeeds exactly when every dependency resolves, and then gives their
      package names in declared order; otherwise it gives the error of the first dependency
      that did not resolve. */
  lemma {:induction false} ResolveNamesFirstError(rs: seq<Result<ResolvedDependency>>, n: nat)
    requires n <= |rs|
    ensures ResolveNames(rs, n).Ok? <==> forall k :: 0 <= k < n ==> rs[k].Ok?
    ensures ResolveNames(rs, n).Ok? ==> forall k :: 0 <= k < n ==> ResolveNames(rs, n).value[k] == rs[k].value.package.name
    ensures ResolveNames(rs, n).Err? ==>
      exists k :: 0 <= k < n && rs[k] == Err(ResolveNames(rs, n).msg) && forall l :: 0 <= l < k ==> rs[l].Ok?
    decreases n
  {
    if n > 0 {
      ResolveNamesFirstError(rs, n - 1);
      var prev := ResolveNames(rs, n - 1);
      if prev.Ok? && rs[n - 1].Ok? {
        assert ResolveNames(rs, n).value == prev.value + [rs[n - 1].value.package.name];
      } else if prev.Ok? {
        assert ResolveNames(rs, n) == Err(rs[n - 1].msg);
      }
    }
  }

  /** The manifest text for the configuration, given what resolving each dependency gave. */
  function ManifestFrom(cfg: ProjectConfig, rs: seq<Result<ResolvedDependency>>): Result<seq<byte>> {
    match ResolveNames(rs, |rs|)
    case Err(e) => Err(e)
    case Ok(names) => Ok(EncodeString(HeaderText(cfg)) + Terminated(CapLines(EncodeString(ClassPathText(names)))))
  }

  /** What `GenerateManifest(cfg)` returns. */
  function ManifestText(cfg: ProjectConfig, catalog: Catalog, sign: Signer): Result<seq<byte>> {
    ManifestFrom(cfg, Resolutions(cfg, catalog, sign))
  }

  /** The `Class-Path` line for the configuration, or the first resolution error. */
  function ClassPathOf(cfg: ProjectConfig, catalog: Catalog, sign: Signer): Result<string> {
    var rs := Resolutions(cfg, catalog, sign);
    match ResolveNames(rs, |rs|)
    case Err(e) => Err(e)
    case Ok(names) => Ok(ClassPathText(names))
  }

  /** The dependency loop of `GenerateManifest`: resolve each dependency in declared order
      and add its jar to the class path; the first failure is returned. */
  method ResolveClassPath(cfg: ProjectConfig, catalog: Catalog, sign: Signer) returns (r: Result<string>)
    ensures r == ClassPathOf(cfg, catalog, sign)
  {
    assert ResolvedAs(Resolutions(cfg, catalog, sign), cfg, catalog, sign, 0);
    r := ClassPathLoop(cfg, catalog, sign, Resolutions(cfg, catalog, sign));
  }

  /** The loop itself, against `rs`, what resolving each dependency gives. */
  method ClassPathLoop(cfg: ProjectConfig, catalog: Catalog, sign: Signer, ghost rs: seq<Result<ResolvedDependency>>)
    returns (r: Result<string>)
    requires ResolvedAs(rs, cfg, catalog, sign, 1)
    ensures r == match ResolveNames(rs, |rs|)
      case Err(e) => Err(e)
      case Ok(names) => Ok(ClassPathText(names))
  {
    var deps := cfg.dependencies;
    var classPath := "Class-Path: ";
    ghost var names: seq<string> := [];
    NoClassPathEntries();
    var i: nat := 0;
    while i < |deps|
      invariant i <= |deps|
      invariant i < |deps| ==> i < |rs|
      invariant ResolveNames(rs, i) == Ok(names)
      invariant classPath == ClassPathText(names)
    {
      var resolved := ResolveEntry(cfg, catalog, sign, rs, i);
      ClassPathStep(rs, i, names, resolved);
      match resolved
      case Err(e) =>
        return Err(e);
      case Ok(rd) =>
        classPath := classPath + LibEntry(rd.package.name);
        names := names + [rd.package.name];
        i := i + 1;
    }
    return Ok(classPath);
  }

  /** `ResolveDependency` on the `i`-th declared dependency, which is the `i`-th of `rs`. */
  method ResolveEntry(cfg: ProjectConfig, catalog: Catalog, sign: Signer, ghost rs: seq<Result<ResolvedDependency>>, i: nat)
    returns (r: Result<ResolvedDependency>)
    requires i < |cfg.dependencies| && ResolvedAs(rs, cfg, catalog, sign, 1)
    ensures r == rs[i]
  {
    assert ResolvedAs(rs, cfg, catalog, sign, 0);
    r := ResolveDependency(cfg.dependencies[i], cfg.registries, catalog, sign);
    ResolutionsOfAt(cfg.dependencies, cfg.registries, catalog, sign, i);
  }

  /** `rs` is what resolving the declared dependencies gives. This predicate exists only
      to keep the proofs small: the verifier unfolds a recursive definition a bounded
      number of times, and the count `k` puts that many unfoldings between the loop and
      the definition of resolution, so the loop is checked without reasoning about how a
      dependency is resolved (stated directly, that reasoning makes the loop's proof
      too costly). It holds for one count exactly when it holds for any other. */
  ghost predicate ResolvedAs(rs: seq<Result<ResolvedDependency>>, cfg: ProjectConfig, catalog: Catalog, sign: Signer, k: nat)
    decreases k
  {
    if k == 0 then rs == ResolutionsOf(cfg.dependencies, cfg.registries, catalog, sign)
    else ResolvedAs(rs, cfg, catalog, sign, k - 1)
  }

  /** One iteration of the loop: a failure is the final error, a success adds the package
      name and its class path entry. */
  lemma ClassPathStep(rs: seq<Result<ResolvedDependency>>, i: nat, names: seq<string>, resolved: Result<ResolvedDependency>)
    requires i < |rs| && ResolveNames(rs, i) == Ok(names) && resolved == rs[i]
    ensures resolved.Err? ==> ResolveNames(rs, |rs|) == Err(resolved.msg)
    ensures resolved.Ok? ==> var name := resolved.value.package.name;
      ResolveNames(rs, i + 1) == Ok(names + [name]) && ClassPathText(names + [name]) == ClassPathText(names) + LibEntry(name)
  {
    ResolveStep(rs, i, names);
    if resolved.Ok? {
      ClassPathAppend(names, resolved.value.package.name);
    }
  }

  /** One more dependency: a failure is the final error, a success adds its package name. */
  lemma {:induction false} ResolveStep(rs: seq<Result<ResolvedDependency>>, i: nat, names: seq<string>)
    requires i < |rs| && ResolveNames(rs, i) == Ok(names)
    ensures rs[i].Err? ==> ResolveNames(rs, |rs|) == Err(rs[i].msg)
    ensures rs[i].Ok? ==> ResolveNames(rs, i + 1) == Ok(names + [rs[i].value.package.name])
  {
    if rs[i].Err? {
      NamesErrorStays(rs, i + 1, |rs|);
    }
  }

  /** Without packages the class path is its key alone. */
  lemma NoClassPathEntries()
    ensures ClassPathText([]) == "Class-Path: "
  {
  }

  /** Adding a package adds its entry at the end of the class path. */
  lemma ClassPathAppend(names: seq<string>, name: string)
    ensures ClassPathText(names + [name]) == ClassPathText(names) + LibEntry(name)
  {
    assert (names + [name])[..|names|] == names;
  }

  /** `GenerateManifest`: the headers, then the class path of the resolved dependencies,
      split at 72 bytes, one line each. */
  method GenerateManifest(cfg: ProjectConfig, catalog: Catalog, sign: Signer) returns (r: Result<seq<byte>>)
    ensures r == ManifestText(cfg, catalog, sign)
  {
    var base := EncodeString(HeaderText(cfg));
    var classPath := ResolveClassPath(cfg, catalog, sign);
    ManifestOfClassPath(cfg, catalog, sign);
    if classPath.Err? {
      return Err(classPath.msg);
    }
    var splitLines := CapLinesAt72Bytes(EncodeString(classPath.value));
    base := AppendLines(base, splitLines);
    return Ok(base);
  }

  /** The loop that writes each split line after the header, followed by a newline. */
  method AppendLines(header: seq<byte>, splitLines: seq<seq<byte>>) returns (base: seq<byte>)
    ensures base == header + Terminated(splitLines)
  {
    base := header;
    var k := 0;
    while k < |splitLines|
      invariant k <= |splitLines|
      invariant base == header + Terminated(splitLines[..k])
    {
      TerminatedSnoc(header, splitLines, k);
      base := base + splitLines[k] + [10];
      k := k + 1;
    }
    assert splitLines[..k] == splitLines;
  }

  /** The manifest is the header followed by the class path line, split and terminated;
      a class path that failed fails the manifest with the same error. */
  lemma ManifestOfClassPath(cfg: ProjectConfig, catalog: Catalog, sign: Signer)
    ensures ClassPathOf(cfg, catalog, sign).Err? ==> ManifestText(cfg, catalog, sign) == Err(ClassPathOf(cfg, catalog, sign).msg)
    ensures ClassPathOf(cfg, catalog, sign).Ok? ==>
      ManifestText(cfg, catalog, sign) == Ok(EncodeString(HeaderText(cfg)) + Terminated(CapLines(EncodeString(ClassPathOf(cfg, catalog, sign).value))))
  {
  }

  /** Terminating one more line appends it and its newline. */
  lemma TerminatedSnoc(head: seq<byte>, lines: seq<seq<byte>>, k: nat)
    requires k < |lines|
    ensures head + Terminated(lines[..k + 1]) == head + Terminated(lines[..k]) + lines[k] + [10]
  {
    assert lines[..k + 1][..k] == lines[..k];
  }

  /** Once a dependency has failed, resolving more of them keeps that error. */
  lemma {:induction false} NamesErrorStays(rs: seq<Result<ResolvedDependency>>, n: nat, m: nat)
    requires n <= m <= |rs|
    requires ResolveNames(rs, n).Err?
    ensures ResolveNames(rs, m) == ResolveNames(rs, n)
    decreases m - n
  {
    if n < m {
      NamesErrorStays(rs, n, m - 1);
    }
  }

  /** The manifest is the three header lines, then the lines of the class path, each
      ended by a newline: joined back together they give exactly `Class-Path: ` and one
      `libs/<name>.jar ` per dependency, in declared order; each holds whole characters, is
      not empty, fits in 72 bytes and is closed only when the next character would not have
      fitted. */
  lemma {:induction false} ManifestClassPath(cfg: ProjectConfig, rs: seq<Result<ResolvedDependency>>)
    requires ManifestFrom(cfg, rs).Ok?
    ensures var names := ResolveNames(rs, |rs|).value;
      var lines := CapLines(EncodeString(ClassPathText(names)));
      ManifestFrom(cfg, rs).value == EncodeString(HeaderText(cfg)) + Terminated(lines)
      && Concat(lines) == EncodeString(ClassPathText(names))
      && GreedyLines(lines) && lines != []
      && |names| == |rs|
      && (forall k :: 0 <= k < |rs| ==> rs[k].Ok?)
      && forall k :: 0 <= k < |names| ==> names[k] == rs[k].value.package.name
  {
    var names := ResolveNames(rs, |rs|).value;
    ResolveNamesFirstError(rs, |rs|);
    EncodeStringValid(ClassPathText(names));
    CapLinesValid(EncodeString(ClassPathText(names)));
    EncodeStringLength(ClassPathText(names));
  }

  /** The class path entries in declared order: `libs/<name>.jar ` per package, each with
      its trailing space. */
  lemma {:induction false} LibEntriesInOrder(names: seq<string>, k: nat)
    requires k < |names|
    ensures exists after :: LibEntries(names) == LibEntries(names[..k]) + LibEntry(names[k]) + after
    decreases |names|
  {
    var front := names[..|names| - 1];
    if k == |names| - 1 {
      assert front == names[..k];
      assert LibEntries(names) == LibEntries(names[..k]) + LibEntry(names[k]) + "";
    } else {
      assert front[k] == names[k] && front[..k] == names[..k];
      LibEntriesInOrder(front, k);
      var after :| LibEntries(front) == LibEntries(front[..k]) + LibEntry(names[k]) + after;
      assert LibEntries(names) == LibEntries(names[..k]) + LibEntry(names[k]) + (after + LibEntry(names[|names| - 1]));
    }
  }

  /** A class path that fits in 72 bytes is written as one line. */
  lemma {:induction false} OneLineClassPath(cfg: ProjectConfig, rs: seq<Result<ResolvedDependency>>, names: seq<string>)
    requires ResolveNames(rs, |rs|) == Ok(names)
    requires |EncodeString(ClassPathText(names))| <= MaxLineBytes
    ensures ManifestFrom(cfg, rs) == Ok(EncodeString(HeaderText(cfg)) + EncodeString(ClassPathText(names)) + [10])
  {
    var cp := EncodeString(ClassPathText(names));
    EncodeStringValid(ClassPathText(names));
    EncodeStringLength(ClassPathText(names));
    ShortTextTerminated(EncodeString(HeaderText(cfg)), cp);
  }

  /** Text that fits on one line is that line and a newline. */
  lemma {:induction false} ShortTextTerminated(head: seq<byte>, text: seq<byte>)
    requires ValidUtf8(text) && 0 < |text| <= MaxLineBytes
    ensures head + Terminated(CapLines(text)) == head + text + [10]
  {
    ShortTextOneLine(text);
    assert Terminated([text]) == Terminated([]) + text + [10];
  }

  /** Without dependencies the class path line is still written, as `Class-Path: ` alone. */
  lemma {:induction false} NoDependencies(cfg: ProjectConfig, catalog: Catalog, sign: Signer)
    requires cfg.dependencies == []
    ensures ManifestText(cfg, catalog, sign) == Ok(EncodeString(HeaderText(cfg)) + EncodeString(ClassPathText([])) + [10])
  {
    EncodeStringLength(ClassPathText([]));
    OneLineClassPath(cfg, Resolutions(cfg, catalog, sign), []);
  }

  /** A dependency that does not resolve fails the manifest with the error of the first such
      dependency, and there is no text; the manifest fails only that way. */
  lemma {:induction false} ManifestFailsOnFirstUnresolved(cfg: ProjectConfig, catalog: Catalog, sign: Signer)
    ensures ManifestText(cfg, catalog, sign).Err? <==>
      exists k :: 0 <= k < |cfg.dependencies| && Resolution(cfg.dependencies[k], cfg.registries, catalog, sign).Err?
    ensures ManifestText(cfg, catalog, sign).Err? ==>
      exists k :: 0 <= k < |cfg.dependencies|
        && Resolution(cfg.dependencies[k], cfg.registries, catalog, sign) == Err(ManifestText(cfg, catalog, sign).msg)
        && forall l :: 0 <= l < k ==> Resolution(cfg.dependencies[l], cfg.registries, catalog, sign).Ok?
  {
    var rs := Resolutions(cfg, catalog, sign);
    var n := |cfg.dependencies|;
    ResolveNamesFirstError(rs, n);
    ManifestFromErr(cfg, rs);
    if ResolveNames(rs, n).Err? {
      var k :| 0 <= k < n && rs[k] == Err(ResolveNames(rs, n).msg) && forall l :: 0 <= l < k ==> rs[l].Ok?;
      ResolutionsAt(cfg, catalog, sign, k);
      forall l | 0 <= l < k
        ensures Resolution(cfg.dependencies[l], cfg.registries, catalog, sign).Ok?
      {
        ResolutionsAt(cfg, catalog, sign, l);
      }
    } else {
      forall k | 0 <= k < n
        ensures Resolution(cfg.dependencies[k], cfg.registries, catalog, sign).Ok?
      {
        ResolutionsAt(cfg, catalog, sign, k);
      }
    }
  }

  /** The manifest fails exactly when resolving fails, with its error. */
  lemma ManifestFromErr(cfg: ProjectConfig, rs: seq<Result<ResolvedDependency>>)
    ensures ManifestFrom(cfg, rs).Err? <==> ResolveNames(rs, |rs|).Err?
    ensures ManifestFrom(cfg, rs).Err? ==> ManifestFrom(cfg, rs).msg == ResolveNames(rs, |rs|).msg
  {
  }

  /** Creating the manifest file and writing the text into it: the file is created (or
      truncated) first, so a text that could not be generated leaves it empty. */
  function ManifestWrite(nodes: map<string, Node>, failing: set<string>, path: string, content: Result<seq<byte>>): (c: Change)
    ensures forall k :: k != path ==> (k in c.nodes <==> k in nodes) && (k in nodes ==> c.nodes[k] == nodes[k])
    ensures c.err.None? <==> WriteOn(nodes, failing, path, []).Ok? && content.Ok?
    ensures c.err.None? ==> c.nodes == nodes[path := File(content.value)]
    ensures WriteOn(nodes, failing, path, []).Ok? && content.Err? ==> c == Change(nodes[path := File([])], Some(content.msg))
  {
    match WriteOn(nodes, failing, path, [])
    case Err(e) => Change(nodes, Some(e))
    case Ok(created) =>
      match content
      case Err(e) => Change(created, Some(e))
      case Ok(text) => Change(created[path := File(text)], None)
  }

  /** When the file cannot be created, nothing changes and the creation error is reported,
      whatever the text would have been. */
  lemma CreateFails(nodes: map<string, Node>, failing: set<string>, path: string, content: Result<seq<byte>>)
    requires WriteOn(nodes, failing, path, []).Err?
    ensures ManifestWrite(nodes, failing, path, content) == Change(nodes, Some(WriteOn(nodes, failing, path, []).msg))
  {
  }

  /** `WriteManifest` as written: the build path is dereferenced before its error is looked
      at, so a failing `os.Getwd` is a nil-pointer panic. */
  function WriteManifestAsWritten(nodes: map<string, Node>, failing: set<string>, wd: Result<string>, env: Env,
                                  cfg: ProjectConfig, catalog: Catalog, sign: Signer): (r: Outcome<Change>)
    ensures r.Panicked? <==> wd.Err?
  {
    match GetBuildPath(wd, env, cfg)
    case Err(_) => Panicked("invalid memory address or nil pointer dereference")
    case Ok(build) => Returned(ManifestWrite(nodes, failing, build + "/MANIFEST.MF", ManifestText(cfg, catalog, sign)))
  }

  /** `WriteManifest` with the error checked before the path is used: the `Getwd` error is
      returned and nothing changes. */
  function WriteManifestOn(nodes: map<string, Node>, failing: set<string>, wd: Result<string>, env: Env,
                           cfg: ProjectConfig, catalog: Catalog, sign: Signer): (c: Change)
    ensures wd.Err? ==> c == Change(nodes, Some(wd.msg))
    ensures wd.Ok? ==> c == ManifestWrite(nodes, failing, GetBuildPath(wd, env, cfg).value + "/MANIFEST.MF", ManifestText(cfg, catalog, sign))
  {
    match GetBuildPath(wd, env, cfg)
    case Err(e) => Change(nodes, Some(e))
    case Ok(build) => ManifestWrite(nodes, failing, build + "/MANIFEST.MF", ManifestText(cfg, catalog, sign))
  }

  /** The two agree whenever the working directory is known; when it is not, the code as
      written panics where the corrected one reports the error. */
  lemma {:induction false} GetwdFailurePanics(nodes: map<string, Node>, failing: set<string>, wd: Result<string>, env: Env,
                           cfg: ProjectConfig, catalog: Catalog, sign: Signer)
    ensures wd.Ok? ==> WriteManifestAsWritten(nodes, failing, wd, env, cfg, catalog, sign) == Returned(WriteManifestOn(nodes, failing, wd, env, cfg, catalog, sign))
    ensures wd.Err? ==> WriteManifestAsWritten(nodes, failing, wd, env, cfg, catalog, sign).Panicked?
    ensures wd.Err? ==> WriteManifestOn(nodes, failing, wd, env, cfg, catalog, sign) == Change(nodes, Some(wd.msg))
  {
  }

  /** `WriteManifest`, with the `Getwd` error checked first. */
  method WriteManifest(disk: Disk, wd: Result<string>, env: Env, cfg: ProjectConfig, catalog: Catalog, sign: Signer)
    returns (err: Option<string>)
    modifies disk
    ensures disk.nodes == WriteManifestOn(old(disk.nodes), disk.failing, wd, env, cfg, catalog, sign).nodes
    ensures err == WriteManifestOn(old(disk.nodes), disk.failing, wd, env, cfg, catalog, sign).err
    ensures disk.failing == old(disk.failing) && disk.fetched == old(disk.fetched)
  {
    var build := GetBuildPath(wd, env, cfg);
    if build.Err? {
      return Some(build.msg);
    }
    assert GeneratedAs(ManifestText(cfg, catalog, sign), cfg, catalog, sign, 0);
    err := WriteGenerated(disk, build.value + "/MANIFEST.MF", cfg, catalog, sign, ManifestText(cfg, catalog, sign));
  }

  /** Creating (or truncating) the manifest file at `path`, generating the manifest, which
      is `text`, and writing it. */
  method WriteGenerated(disk: Disk, path: string, cfg: ProjectConfig, catalog: Catalog, sign: Signer, ghost text: Result<seq<byte>>)
    returns (err: Option<string>)
    requires GeneratedAs(text, cfg, catalog, sign, 1)
    modifies disk
    ensures Change(disk.nodes, err) == ManifestWrite(old(disk.nodes), disk.failing, path, text)
    ensures disk.failing == old(disk.failing) && disk.fetched == old(disk.fetched)
  {
    ghost var created := WriteOn(disk.nodes, disk.failing, path, []);
    err := disk.WriteFile(path, []);
    if err.Some? {
      CreateFails(old(disk.nodes), disk.failing, path, text);
      return;
    }
    var content := GenerateText(cfg, catalog, sign, text);
    if content.Err? {
      return Some(content.msg);
    }
    err := disk.WriteFile(path, content.value);
  }

  /** `GenerateManifest`, whose result is `text`. */
  method GenerateText(cfg: ProjectConfig, catalog: Catalog, sign: Signer, ghost text: Result<seq<byte>>)
    returns (r: Result<seq<byte>>)
    requires GeneratedAs(text, cfg, catalog, sign, 1)
    ensures r == text
  {
    assert GeneratedAs(text, cfg, catalog, sign, 0);
    r := GenerateManifest(cfg, catalog, sign);
  }

  /** `text` is the manifest generated for the configuration. Like `ResolvedAs`, it
      exists only to keep the definition of the manifest text out of the writing
      method's proof: the count says how many unfoldings stand between the caller and
      that definition. */
  ghost predicate GeneratedAs(text: Result<seq<byte>>, cfg: ProjectConfig, catalog: Catalog, sign: Signer, k: nat)
    decreases k
  {
    if k == 0 then text == ManifestText(cfg, catalog, sign)
    else GeneratedAs(text, cfg, catalog, sign, k - 1)
  }

  /** A manifest whose dependencies do not all resolve still leaves `MANIFEST.MF` behind,
      empty, and reports the resolution error. */
  lemma {:induction false} UnresolvedLeavesEmptyManifest(nodes: map<string, Node>, failing: set<string>, dir: string, env: Env,
                                      cfg: ProjectConfig, catalog: Catalog, sign: Signer)
    requires ManifestText(cfg, catalog, sign).Err?
    requires WriteOn(nodes, failing, GetBuildPath(Ok(dir), env, cfg).value + "/MANIFEST.MF", []).Ok?
    ensures var c := WriteManifestOn(nodes, failing, Ok(dir), env, cfg, catalog, sign);
      c.nodes[GetBuildPath(Ok(dir), env, cfg).value + "/MANIFEST.MF"] == File([])
      && c.err == Some(ManifestText(cfg, catalog, sign).msg)
  {
  }

  /** The `jar` executable of the configured toolchain. */
  function JarCommand(cfg: ProjectConfig): string {
    cfg.toolchain.path + "/bin/jar"
  }

  /** The argument vector `PackageClasses` appends together and hands to `jar`: the archive,
      the manifest, `-C` and the build directory, and `.`, each under `ESPRESSO_DEBUG/` in
      debug mode. */
  function JarArgs(env: Env): seq<string> {
    if IsDebugMode(env) then ["cfm", "ESPRESSO_DEBUG/dist/dist.jar", "ESPRESSO_DEBUG/build/MANIFEST.MF", "-C", "ESPRESSO_DEBUG/build", "."]
    else ["cfm", "dist/dist.jar", "build/MANIFEST.MF", "-C", "build", "."]
  }

  /** What the project root adds to the working directory. */
  function RootTail(env: Env): string {
    if IsDebugMode(env) then "/ESPRESSO_DEBUG" else ""
  }

  /** Run from the working directory, `jar` writes the archive into the dist directory,
      takes the manifest from where `WriteManifest` put it and the classes from the build
      directory. */
  lemma {:induction false} JarArgsLocate(dir: string, env: Env, cfg: ProjectConfig)
    ensures var args := JarArgs(env);
      |args| == 6 && args[0] == "cfm" && args[3] == "-C" && args[5] == "."
      && dir + "/" + args[1] == GetDistPath(Ok(dir), env, cfg).value + "/dist.jar"
      && dir + "/" + args[2] == GetBuildPath(Ok(dir), env, cfg).value + "/MANIFEST.MF"
      && dir + "/" + args[4] == GetBuildPath(Ok(dir), env, cfg).value
  {
    var args := JarArgs(env);
    JarArgsSpelled(env);
    UnderRoot(dir, env, args[1], "/dist", "/dist.jar");
    UnderRoot(dir, env, args[2], "/build", "/MANIFEST.MF");
    UnderRoot(dir, env, args[4], "/build", "");
    assert GetBuildPath(Ok(dir), env, cfg).value + "" == GetBuildPath(Ok(dir), env, cfg).value;
  }

  /** A path relative to the project root, seen from the working directory. */
  lemma UnderRoot(dir: string, env: Env, arg: string, sub: string, leaf: string)
    requires "/" + arg == RootTail(env) + sub + leaf
    ensures dir + "/" + arg == ProjectRoot(dir, env) + sub + leaf
  {
    assert ProjectRoot(dir, env) == dir + RootTail(env);
    assert dir + "/" + arg == dir + ("/" + arg);
    assert dir + (RootTail(env) + sub + leaf) == dir + RootTail(env) + sub + leaf;
  }

  /** The path arguments spelled out: the root's tail, then the directory and file. */
  lemma JarArgsSpelled(env: Env)
    ensures "/" + JarArgs(env)[1] == RootTail(env) + "/dist" + "/dist.jar"
    ensures "/" + JarArgs(env)[2] == RootTail(env) + "/build" + "/MANIFEST.MF"
    ensures "/" + JarArgs(env)[4] == RootTail(env) + "/build" + ""
  {
    var args := JarArgs(env);
    if IsDebugMode(env) {
      RelativeUnderRoot("ESPRESSO_DEBUG/", "/ESPRESSO_DEBUG");
      assert args[1] == "ESPRESSO_DEBUG/" + "dist/dist.jar" && args[2] == "ESPRESSO_DEBUG/" + "build/MANIFEST.MF" && args[4] == "ESPRESSO_DEBUG/" + "build";
    } else {
      RelativeUnderRoot("", "");
      assert args[1] == "" + "dist/dist.jar" && args[2] == "" + "build/MANIFEST.MF" && args[4] == "" + "build";
    }
  }

  /** Relative paths under `prefix` are, behind a `/`, the same paths under `root`. */
  lemma RelativeUnderRoot(prefix: string, root: string)
    requires "/" + prefix == root + "/"
    ensures "/" + (prefix + "dist/dist.jar") == root + "/dist" + "/dist.jar"
    ensures "/" + (prefix + "build/MANIFEST.MF") == root + "/build" + "/MANIFEST.MF"
    ensures "/" + (prefix + "build") == root + "/build" + ""
  {
    assert "/" + (prefix + "dist/dist.jar") == root + "/" + "dist/dist.jar";
    assert "/" + (prefix + "build/MANIFEST.MF") == root + "/" + "build/MANIFEST.MF";
    assert "/" + (prefix + "build") == root + "/" + "build";
  }

  /** `PackageClasses`: build the argument vector, write the manifest (its error is
      dropped), run `jar`; a failed run returns its combined output as the error. The
      `WriteManifest` it calls is the one as written, so a failing `os.Getwd` panics there,
      before anything is written or run. */
  method PackageClasses(disk: Disk, wd: Result<string>, env: Env, cfg: ProjectConfig, catalog: Catalog, sign: Signer, run: Runner)
    returns (r: Outcome<Option<string>>)
    modifies disk
    ensures r.Panicked? <==> WriteManifestAsWritten(old(disk.nodes), disk.failing, wd, env, cfg, catalog, sign).Panicked?
    ensures r.Panicked? ==> r.reason == WriteManifestAsWritten(old(disk.nodes), disk.failing, wd, env, cfg, catalog, sign).reason && disk.nodes == old(disk.nodes)
    ensures r.Returned? ==> disk.nodes == WriteManifestAsWritten(old(disk.nodes), disk.failing, wd, env, cfg, catalog, sign).result.nodes
    ensures var p := run(JarCommand(cfg), JarArgs(env));
      r.Returned? ==> r.result == if p.success then None else Some(p.output)
    ensures disk.failing == old(disk.failing) && disk.fetched == old(disk.fetched)
  {
    var command := cfg.toolchain.path + "/bin/jar";
    var args := JarArgs(env);
    if wd.Err? {
      // `GetBuildPath` failed and `*buildPath` dereferences a nil pointer
      return Panicked("invalid memory address or nil pointer dereference");
    }
    var ignored := WriteManifest(disk, wd, env, cfg, catalog, sign);
    var output := run(command, args);
    if !output.success {
      return Returned(Some(output.output));
    }
    return Returned(None);
  }
}
