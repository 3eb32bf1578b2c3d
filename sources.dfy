/** The project's own sources: finding the `.java` files under the source path
    (core/project/source_discovery.go), compiling one of them (core/toolchain/compiler.go),
    writing the configuration back (`Persist`, core/context/project/fs.go) and writing the
    example `Main.java` of a new project (core/project/config.go and
    core/context/project/fs.go). */
module Sources {

  import opened Wrappers
  import opened Strs
  import opened Records
  import opened Environment
  import opened Files
  import opened Walks
  import opened ProjectPaths
  import Utf8
  import Jar

  /** A `.java` file found under the source path, with its full text. */
  datatype SourceFile = SourceFile(path: string, content: string)

  /** What the walk callback of `DiscoverSourceFiles` makes of one call: an error ends the
      walk; an entry that is not a directory and whose name ends in `.java` is read and
      kept; everything else is passed over. */
  function JavaFileOf(view: View, ev: Event): (r: Result<Option<SourceFile>>)
    ensures r.Ok? && r.value.Some? ==>
      ev.Visit? && !ev.node.DirEntry? && HasSuffix(Base(ev.path), ".java")
      && r.value.value.path == ev.path && ReadText(view, ev.path) == Ok(r.value.value.content)
  {
    match ev
    case Failure(_, m) => Err(m)
    case Visit(p, n) =>
      if !n.DirEntry? && HasSuffix(Base(p), ".java") then
        match ReadText(view, p)
        case Err(e) => Err(e)
        case Ok(text) => Ok(Some(SourceFile(p, text)))
      else Ok(None)
  }

  function JavaFile(view: View): Callback<SourceFile> {
    ev => JavaFileOf(view, ev)
  }

  /** What `DiscoverSourceFiles` returns: a nil configuration panics, a source-path error
      is returned, otherwise the result of the walk over the source path. */
  function Discovered(view: View, wd: Result<string>, env: Env, cfg: Option<ProjectConfig>): Outcome<Result<seq<SourceFile>>> {
    match GetSourcePath(wd, env, cfg)
    case Panicked(why) => Panicked(why)
    case Returned(Err(e)) => Returned(Err(e))
    case Returned(Ok(src)) => Returned(Collected(GoWalk(src, view(src)), JavaFile(view)))
  }

  /** `DiscoverSourceFiles`. */
  method DiscoverSourceFiles(view: View, wd: Result<string>, env: Env, cfg: Option<ProjectConfig>)
    returns (r: Outcome<Result<seq<SourceFile>>>)
    ensures r == Discovered(view, wd, env, cfg)
  {
    var srcPath := GetSourcePath(wd, env, cfg);
    if srcPath.Panicked? {
      return Panicked(srcPath.reason);
    }
    if srcPath.result.Err? {
      return Returned(Err(srcPath.result.msg));
    }
    var files := Walk(view, srcPath.result.value, JavaFile(view));
    return Returned(files);
  }

  /** The walk keeps exactly the `.java` entries that are not directories, each with the
      full text read from its path; it fails exactly when some call of the walk reports an
      error or some such file cannot be read, and then no file is returned. */
  lemma DiscoveredExactly(view: View, src: string)
    ensures var evs := GoWalk(src, view(src));
      var r := Collected(evs, JavaFile(view));
      (r.Ok? <==> forall k :: 0 <= k < |evs| ==>
         (evs[k].Visit? && (!evs[k].node.DirEntry? && HasSuffix(Base(evs[k].path), ".java") ==> ReadText(view, evs[k].path).Ok?)))
      && (r.Ok? ==> forall f :: f in r.value <==>
            exists k :: 0 <= k < |evs| && evs[k].Visit? && evs[k].path == f.path && !evs[k].node.DirEntry?
              && HasSuffix(Base(f.path), ".java") && ReadText(view, f.path) == Ok(f.content))
  {
    var evs := GoWalk(src, view(src));
    CollectedSpec(evs, JavaFile(view));
    assert forall k :: 0 <= k < |evs| ==> JavaFile(view)(evs[k]) == JavaFileOf(view, evs[k]);
  }

  /** A directory whose name ends in `.java` is walked into but never kept. */
  lemma JavaDirectoryNotKept(view: View, p: string, cs: seq<Tree>, name: string)
    requires HasSuffix(Base(p), ".java")
    ensures JavaFileOf(view, Visit(p, DirEntry(name, cs))) == Ok(None)
  {
  }

  /** A source directory with no entries gives an empty list; a source path that cannot
      be examined gives its error. */
  lemma EmptySourceTree(view: View, src: string, name: string)
    ensures view(src) == DirEntry(name, []) ==> Collected(GoWalk(src, view(src)), JavaFile(view)) == Ok([])
    ensures view(src).Unreadable? ==> Collected(GoWalk(src, view(src)), JavaFile(view)) == Err(view(src).msg)
  {
    if view(src) == DirEntry(name, []) {
      assert ListingError([]).None?;
      assert GoWalkAll(src, []) == [];
      var evs := GoWalk(src, view(src));
      assert evs == [Visit(src, view(src))];
      assert JavaFile(view)(evs[0]) == Ok(None);
      assert evs[1..] == [];
      assert Collected(evs[1..], JavaFile(view)) == Ok([]);
      var none: seq<SourceFile> := [];
      assert Collected(evs, JavaFile(view)) == Ok(none + none);
      assert none + none == none;
    }
  }

  /** The `javac` executable of the configured toolchain. */
  function JavacCommand(cfg: ProjectConfig): string {
    cfg.toolchain.path + "/bin/javac"
  }

  /** The arguments `CompileSourceFile` hands to `javac`: the source root as the class
      path, the build directory as the output, and the file. */
  function CompileArgs(env: Env, path: string): seq<string> {
    if IsDebugMode(env) then ["-cp", "ESPRESSO_DEBUG/src/java", "-d", "ESPRESSO_DEBUG/build", path]
    else ["-cp", "src/java", "-d", "build", path]
  }

  /** `CompileSourceFile`: run `javac`; a failed run returns its combined output as the
      error. */
  method CompileSourceFile(cfg: ProjectConfig, env: Env, src: SourceFile, run: Runner) returns (err: Option<string>)
    ensures var p := run(JavacCommand(cfg), CompileArgs(env, src.path));
      err == if p.success then None else Some(p.output)
  {
    var cpVal := if IsDebugMode(env) then "ESPRESSO_DEBUG/src/java" else "src/java";
    var command := cfg.toolchain.path + "/bin/javac";
    var args: seq<string> := [];
    if IsDebugMode(env) {
      args := args + ["-cp", cpVal, "-d", "ESPRESSO_DEBUG/build"];
    } else {
      args := args + ["-cp", cpVal, "-d", "build"];
    }
    args := args + [src.path];
    assert args == CompileArgs(env, src.path);
    var output := run(command, args);
    if !output.success {
      return Some(output.output);
    }
    return None;
  }

  /** Run from the working directory, `javac` takes classes from the source root (and
      only from there: no dependency archive is on the class path), writes them to the
      build directory, and compiles the given file. */
  lemma CompileArgsLocate(dir: string, env: Env, cfg: ProjectConfig, path: string)
    ensures var args := CompileArgs(env, path);
      |args| == 5 && args[0] == "-cp" && args[2] == "-d" && args[4] == path
      && dir + "/" + args[1] == ProjectRoot(dir, env) + "/src/java"
      && dir + "/" + args[3] == GetBuildPath(Ok(dir), env, cfg).value
  {
    var args := CompileArgs(env, path);
    if IsDebugMode(env) {
      assert "/" + args[1] == "/ESPRESSO_DEBUG" + "/src/java" + "";
      assert "/" + args[3] == "/ESPRESSO_DEBUG" + "/build" + "";
    } else {
      assert "/" + args[1] == "" + "/src/java" + "";
      assert "/" + args[3] == "" + "/build" + "";
    }
    Jar.UnderRoot(dir, env, args[1], "/src/java", "");
    Jar.UnderRoot(dir, env, args[3], "/build", "");
    assert ProjectRoot(dir, env) + "/src/java" + "" == ProjectRoot(dir, env) + "/src/java";
    assert GetBuildPath(Ok(dir), env, cfg).value == ProjectRoot(dir, env) + "/build" + "";
  }

  /** What `Persist` does to the file system, given the marshaller: a marshalling error
      changes nothing; an existing configuration (or one whose stat fails) is opened
      read-only, so the write is refused and its error dropped, and the file stays as it
      was; a missing one is created holding the marshalled text. */
  function PersistOn(nodes: map<string, Node>, failing: set<string>, path: string, cfg: ProjectConfig,
                     marshal: ProjectConfig -> Result<string>): (c: Change)
    ensures marshal(cfg).Err? ==> c == Change(nodes, Some(marshal(cfg).msg))
    ensures path in nodes || path in failing ==> c.nodes == nodes
  {
    match marshal(cfg)
    case Err(e) => Change(nodes, Some(e))
    case Ok(text) =>
      if DoesPathExist(StatOn(nodes, failing, path)).0 then
        if path in failing then Change(nodes, Some(Denied("open", path))) else Change(nodes, None)
      else match WriteOn(nodes, failing, path, Utf8.EncodeString(text))
        case Err(e) => Change(nodes, Some(e))
        case Ok(after) => Change(after, None)
  }

  /** `Persist`. */
  method Persist(disk: Disk, path: string, cfg: ProjectConfig, marshal: ProjectConfig -> Result<string>)
    returns (err: Option<string>)
    modifies disk
    ensures disk.nodes == PersistOn(old(disk.nodes), disk.failing, path, cfg, marshal).nodes
    ensures err == PersistOn(old(disk.nodes), disk.failing, path, cfg, marshal).err
    ensures disk.failing == old(disk.failing) && disk.fetched == old(disk.fetched)
  {
    var marshalData := marshal(cfg);
    if marshalData.Err? {
      return Some(marshalData.msg);
    }
    var cfgExists := DoesPathExist(disk.Stat(path));
    if cfgExists.1.Some? {
      return cfgExists.1;
    }
    if cfgExists.0 {
      if path in disk.failing {
        return Some(Denied("open", path));
      }
      return None;
    }
    err := disk.WriteFile(path, Utf8.EncodeString(marshalData.value));
  }

  /** As written, `Persist` reports success on an existing configuration file and leaves
      its bytes as they were, whatever the new configuration says. */
  lemma ExistingConfigNotUpdated(nodes: map<string, Node>, failing: set<string>, path: string, cfg: ProjectConfig,
                                 marshal: ProjectConfig -> Result<string>)
    requires path in nodes && nodes[path].File? && path !in failing
    requires marshal(cfg).Ok? && nodes[path].data != Utf8.EncodeString(marshal(cfg).value)
    ensures PersistOn(nodes, failing, path, cfg, marshal) == Change(nodes, None)
    ensures ReadOn(nodes, failing, path) != Ok(Utf8.EncodeString(marshal(cfg).value))
  {
  }

  /** `Persist` as intended: the configuration file is created or truncated and then
      holds the marshalled text, whether or not it existed. */
  function PersistCorrectedOn(nodes: map<string, Node>, failing: set<string>, path: string, cfg: ProjectConfig,
                              marshal: ProjectConfig -> Result<string>): (c: Change)
    ensures marshal(cfg).Err? ==> c == Change(nodes, Some(marshal(cfg).msg))
    ensures forall k :: k != path ==> (k in c.nodes <==> k in nodes) && (k in nodes ==> c.nodes[k] == nodes[k])
  {
    match marshal(cfg)
    case Err(e) => Change(nodes, Some(e))
    case Ok(text) =>
      match WriteOn(nodes, failing, path, Utf8.EncodeString(text))
      case Err(e) => Change(nodes, Some(e))
      case Ok(after) => Change(after, None)
  }

  /** After a successful corrected `Persist`, reading the configuration file back gives
      the marshalled text; it fails only where creating the file fails. */
  lemma PersistedReadsBack(nodes: map<string, Node>, failing: set<string>, path: string, cfg: ProjectConfig,
                           marshal: ProjectConfig -> Result<string>)
    requires marshal(cfg).Ok?
    ensures var c := PersistCorrectedOn(nodes, failing, path, cfg, marshal);
      (c.err.None? <==> WriteOn(nodes, failing, path, []).Ok?)
      && (c.err.None? ==> ReadOn(c.nodes, failing, path) == Ok(Utf8.EncodeString(marshal(cfg).value)))
  {
  }

  /** The two agree on a configuration file that does not exist yet. */
  lemma PersistAgreesOnNewFile(nodes: map<string, Node>, failing: set<string>, path: string, cfg: ProjectConfig,
                               marshal: ProjectConfig -> Result<string>)
    requires path !in nodes && path !in failing
    ensures PersistOn(nodes, failing, path, cfg, marshal) == PersistCorrectedOn(nodes, failing, path, cfg, marshal)
  {
  }

  /** The placeholder of the example code. */
  const Placeholder := "${BASE_PACKAGE}"

  /** What follows the placeholder in the template, in short pieces. */
  const TemplateTail := TailImport + TailMain + TailBody

  /** The pieces of the tail: the import and class header, the `main` header, its body. */
  const TailImport := ";\n\n" + "import java" + ".lang.System;\n\n" + "public class " + "Main {\n"
  const TailMain := "    public " + "static void " + "main(String[] " + "args) {\n"
  const TailBody := "        System" + ".out.println(" + "\"Hello from " + "Espresso!\");\n" + "    }\n}"

  /** The example `Main.java`, with its placeholder. */
  const Template := "package " + Placeholder + TemplateTail

  /** The example code: every placeholder replaced by the base package. */
  function ExampleCode(basePackage: string): string {
    ReplaceAll(Template, Placeholder, basePackage)
  }

  /** Text without the placeholder's first character is left alone. */
  lemma {:induction false} NoPlaceholder(s: string, pat: string, rep: string)
    requires pat != [] && pat[0] !in s
    ensures ReplaceAll(s, pat, rep) == s
    decreases |s|
  {
    if |s| >= |pat| {
      assert !(pat <= s) by {
        assert s[0] != pat[0];
      }
      NoPlaceholder(s[1..], pat, rep);
      assert [s[0]] + s[1..] == s;
    }
  }

  /** A prefix without the placeholder's first character is passed over. */
  lemma {:induction false} PassOver(a: string, b: string, pat: string, rep: string)
    requires pat != [] && pat[0] !in a && |pat| <= |b|
    ensures ReplaceAll(a + b, pat, rep) == a + ReplaceAll(b, pat, rep)
    decreases |a|
  {
    if a != [] {
      var s := a + b;
      assert s[0] == a[0] && s[1..] == a[1..] + b;
      assert !(pat <= s) by {
        assert s[0] != pat[0];
      }
      PassOver(a[1..], b, pat, rep);
      assert [a[0]] + (a[1..] + ReplaceAll(b, pat, rep)) == a + ReplaceAll(b, pat, rep);
    } else {
      assert a + b == b;
    }
  }

  /** The tail holds no `$`, so no placeholder starts in it. Each piece is checked by a
      lemma of its own, which keeps the character-by-character look at the literals
      small. */
  lemma TailHasNoDollar()
    ensures '$' !in TemplateTail
  {
    TailImportNoDollar();
    TailMainNoDollar();
    TailBodyNoDollar();
  }

  lemma TailImportNoDollar()
    ensures '$' !in TailImport
  {
    assert '$' !in ";\n\n";
    assert '$' !in "import java";
    assert '$' !in ".lang.System;\n\n";
    assert '$' !in "public class ";
    assert '$' !in "Main {\n";
  }

  lemma TailMainNoDollar()
    ensures '$' !in TailMain
  {
    assert '$' !in "    public ";
    assert '$' !in "static void ";
    assert '$' !in "main(String[] ";
    assert '$' !in "args) {\n";
  }

  lemma TailBodyNoDollar()
    ensures '$' !in TailBody
  {
    assert '$' !in "        System";
    assert '$' !in ".out.println(";
    assert '$' !in "\"Hello from ";
    assert '$' !in "Espresso!\");\n";
    assert '$' !in "    }\n}";
  }


  /** Replacing a placeholder that occurs once, between two texts that do not hold its
      first character, puts the replacement in its place. */
  lemma ReplaceOnce(head: string, tail: string, pat: string, rep: string)
    requires pat != [] && pat[0] !in head && pat[0] !in tail
    ensures ReplaceAll(head + pat + tail, pat, rep) == head + rep + tail
  {
    assert head + pat + tail == head + (pat + tail);
    PassOver(head, pat + tail, pat, rep);
    assert pat <= pat + tail;
    assert (pat + tail)[|pat|..] == tail;
    NoPlaceholder(tail, pat, rep);
  }

  /** The example code declares the base package and is otherwise the fixed template. */
  lemma ExampleCodeDeclaresPackage(basePackage: string)
    ensures ExampleCode(basePackage) == "package " + basePackage + TemplateTail
  {
    assert '$' !in "package ";
    TailHasNoDollar();
    ReplaceOnce("package ", TemplateTail, Placeholder, basePackage);
  }

  /** Writing `Main.java` into a source directory: the directory is created (its error
      dropped), then the file is created with the example code; only the creation error
      is returned. */
  function MainWriteOn(nodes: map<string, Node>, failing: set<string>, dir: string, basePackage: string): (c: Change)
    ensures c.err.None? ==> var main := dir + "/Main.java";
      main in c.nodes && c.nodes[main] == File(Utf8.EncodeString("package " + basePackage + TemplateTail))
  {
    var made := MkdirAllOn(nodes, failing, dir).nodes;
    match WriteOn(made, failing, dir + "/Main.java", Utf8.EncodeString(ExampleCode(basePackage)))
    case Err(e) => Change(made, Some(e))
    case Ok(after) =>
      ExampleCodeDeclaresPackage(basePackage);
      Change(after, None)
  }

  /** `WriteExampleCode` (core/context/project/fs.go): the source path is the context's. */
  method WriteExampleCode(disk: Disk, sourcePath: string, cfg: ProjectConfig) returns (err: Option<string>)
    modifies disk
    ensures disk.nodes == MainWriteOn(old(disk.nodes), disk.failing, sourcePath, cfg.basePackage).nodes
    ensures err == MainWriteOn(old(disk.nodes), disk.failing, sourcePath, cfg.basePackage).err
    ensures disk.failing == old(disk.failing) && disk.fetched == old(disk.fetched)
  {
    var ignored := disk.MkdirAll(sourcePath);
    var code := ReplaceAll(Template, Placeholder, cfg.basePackage);
    err := disk.WriteFile(sourcePath + "/Main.java", Utf8.EncodeString(code));
  }

  /** `WriteExampleCode` (core/project/config.go): the source path comes from
      `GetSourcePath`, whose error is dropped, so a `Getwd` error dereferences a nil path,
      as does a nil configuration. */
  function ProjectExampleOn(nodes: map<string, Node>, failing: set<string>, wd: Result<string>, env: Env,
                            cfg: Option<ProjectConfig>): (r: Outcome<Change>)
    ensures r.Panicked? <==> wd.Err? || cfg.None?
  {
    match GetSourcePath(wd, env, cfg)
    case Panicked(why) => Panicked(why)
    case Returned(Err(_)) => Panicked("nil pointer dereference")
    case Returned(Ok(path)) => Returned(MainWriteOn(nodes, failing, path, cfg.value.basePackage))
  }

  /** `WriteExampleCode` (core/project/config.go). */
  method ProjectWriteExampleCode(disk: Disk, wd: Result<string>, env: Env, cfg: Option<ProjectConfig>)
    returns (r: Outcome<Option<string>>)
    modifies disk
    ensures var o := ProjectExampleOn(old(disk.nodes), disk.failing, wd, env, cfg);
      (o.Panicked? ==> r.Panicked? && unchanged(disk))
      && (o.Returned? ==> disk.nodes == o.result.nodes && r == Returned(o.result.err))
    ensures disk.failing == old(disk.failing) && disk.fetched == old(disk.fetched)
  {
    var path := GetSourcePath(wd, env, cfg);
    if path.Panicked? {
      return Panicked(path.reason);
    }
    if path.result.Err? {
      return Panicked("nil pointer dereference");
    }
    var err := WriteExampleCode(disk, path.result.value, cfg.value);
    return Returned(err);
  }

  /** On a working directory and a configuration, both revisions write the same file:
      `Main.java` in the package directory under the source root, declaring the base
      package. */
  lemma ExampleRevisionsAgree(nodes: map<string, Node>, failing: set<string>, dir: string, env: Env, cfg: ProjectConfig)
    ensures ProjectExampleOn(nodes, failing, Ok(dir), env, Some(cfg))
      == Returned(MainWriteOn(nodes, failing, ContextSourcePath(Ok(dir), env, cfg).value, cfg.basePackage))
  {
  }
}
