/** Setting up a project with the Rust build tool (src/backend/project.rs): the debug
    directory, whether a project exists, the example source tree, and the initial
    configuration. TOML serialisation is the parameter `serialize`. */
module Project {

  import opened Wrappers
  import opened Strs
  import opened Utf8
  import opened Environment
  import opened Files
  import PathUtil
  import Lexical
  import Sources
  import Toolchain
  import ManifestParse

  /** `Project`. */
  datatype ProjectFields = ProjectFields(name: string, version: string, basePackage: string)

  /** `Config`: the project fields, the toolchain path and the dependencies. */
  datatype Config = Config(project: ProjectFields, toolchainPath: string, dependencies: map<string, string>)

  /** The message of a panic raised by `expect(msg)` on an error. */
  function ExpectPanic(msg: string, e: string): string {
    msg + ": " + e
  }

  // ---- ensure_debug_directory_exists_if_debug ----

  const DebugDir := "espresso_debug"

  /** `ensure_debug_directory_exists_if_debug`: in debug mode, a missing `espresso_debug`
      is created (a failure panics); otherwise nothing happens. */
  method EnsureDebugDirectoryExistsIfDebug(disk: Disk, debugMode: bool) returns (r: Outcome<()>)
    modifies disk
    ensures !debugMode || PathUtil.PathExists(old(disk.Stat(DebugDir))) ==> unchanged(disk) && r == Returned(())
    ensures debugMode && !PathUtil.PathExists(old(disk.Stat(DebugDir))) ==>
      var c := MkdirAllOn(old(disk.nodes), disk.failing, DebugDir);
      disk.nodes == c.nodes
      && r == (if c.err.Some? then Panicked(ExpectPanic("Failed to ensure debug directory exists", c.err.value)) else Returned(()))
    ensures r.Returned? && debugMode ==> DebugDir in disk.nodes
    ensures disk.failing == old(disk.failing) && disk.fetched == old(disk.fetched)
  {
    if debugMode {
      if !PathUtil.PathExists(disk.Stat(DebugDir)) {
        var err := disk.MkdirAll(DebugDir);
        if err.Some? {
          return Panicked(ExpectPanic("Failed to ensure debug directory exists", err.value));
        }
      }
    }
    return Returned(());
  }

  // ---- does_exist ----

  /** `does_exist`: a project exists when both its source directory and its config file
      do. */
  function DoesExist(source: Stat, config: Stat): (r: bool)
    ensures r <==> PathUtil.PathExists(source) && PathUtil.PathExists(config)
  {
    var sourceExists := PathUtil.PathExists(source);
    var configExists := PathUtil.PathExists(config);
    if !sourceExists || !configExists then false else true
  }

  /** A project whose config file or source directory cannot be inspected counts as
      missing. */
  lemma UninspectableProjectIsMissing(source: Stat, msg: string)
    ensures !DoesExist(source, StatError(msg)) && !DoesExist(StatError(msg), source)
  {
  }

  // ---- initialize_source_tree ----

  /** The Rust tool's example `Main.java` after its placeholder line. */
  const TemplateTail := TailImport + TailMain + TailBody

  /** The pieces of the tail: the import and class header, the `main` header, its body. */
  const TailImport := ";\n" + "import java" + ".lang.System;\n\n" + "public class " + "Main {\n"
  const TailMain := "    public " + "static void " + "main(String[] " + "args) {\n"
  const TailBody := "        System" + ".out.println(" + "\"Hello, " + "world!\");\n" + "    }\n}"

  const Template := "package " + Sources.Placeholder + TemplateTail

  /** The example code: every `${BASE_PACKAGE}` replaced by the base package. */
  function MainJava(basePackage: string): string {
    ReplaceAll(Template, Sources.Placeholder, basePackage)
  }

  /** The tail holds no `$`, so no placeholder starts in it; one lemma per piece, as in
      `Sources.TailHasNoDollar`. */
  lemma TailHasNoDollar()
    ensures '$' !in TemplateTail
  {
    TailImportNoDollar();
    TailMainNoDollar();
    TailBodyNoDollar();
  }

  lemma TailImportNoDollar()
    ensures '$' !in TailImport
  {
    assert '$' !in ";\n";
    assert '$' !in "import java";
    assert '$' !in ".lang.System;\n\n";
    assert '$' !in "public class ";
    assert '$' !in "Main {\n";
  }

  lemma TailMainNoDollar()
    ensures '$' !in TailMain
  {
    assert '$' !in "    public ";
    assert '$' !in "static void ";
    assert '$' !in "main(String[] ";
    assert '$' !in "args) {\n";
  }

  lemma TailBodyNoDollar()
    ensures '$' !in TailBody
  {
    assert '$' !in "        System";
    assert '$' !in ".out.println(";
    assert '$' !in "\"Hello, ";
    assert '$' !in "world!\");\n";
    assert '$' !in "    }\n}";
  }


  /** The example code declares the base package and is otherwise the fixed template. */
  lemma MainJavaDeclaresPackage(basePackage: string)
    ensures MainJava(basePackage) == "package " + basePackage + TemplateTail
  {
    assert '$' !in "package ";
    TailHasNoDollar();
    Sources.ReplaceOnce("package ", TemplateTail, Sources.Placeholder, basePackage);
  }

  /** `initialize_source_tree`: create the base package directories (a failure panics),
      then write `Main.java` there, ignoring a failed write. */
  method InitializeSourceTree(disk: Disk, basePackagePath: string, basePackage: string) returns (r: Outcome<()>)
    modifies disk
    ensures var made := MkdirAllOn(old(disk.nodes), disk.failing, basePackagePath);
      (made.err.Some? ==> disk.nodes == made.nodes && r == Panicked(ExpectPanic("failed to create main package directories in file system", made.err.value)))
      && (made.err.None? ==>
            r == Returned(())
            && var w := WriteOn(made.nodes, disk.failing, MainPath(basePackagePath), EncodeString(MainJava(basePackage)));
            disk.nodes == (if w.Ok? then w.value else made.nodes))
    ensures disk.failing == old(disk.failing) && disk.fetched == old(disk.fetched)
  {
    var err := disk.MkdirAll(basePackagePath);
    if err.Some? {
      return Panicked(ExpectPanic("failed to create main package directories in file system", err.value));
    }
    var baseJavaContent := ReplaceAll(Template, Sources.Placeholder, basePackage);
    var ignored := disk.WriteFile(MainPath(basePackagePath), EncodeString(baseJavaContent));
    return Returned(());
  }

  /** Where `Main.java` goes. */
  function MainPath(dir: string): string {
    dir + "/" + "Main.java"
  }

  lemma MainFileHasNoSlash()
    ensures '/' !in "Main.java"
  {
  }

  /** Once the directories exist, `Main.java` is written unless its path cannot be
      opened: the directory was just made, so only a failing or directory path stops
      it. */
  lemma MainJavaWritten(nodes: map<string, Node>, failing: set<string>, dir: string, basePackage: string)
    requires MkdirAllOn(nodes, failing, dir).err.None?
    requires MainPath(dir) !in failing && (MainPath(dir) !in nodes || nodes[MainPath(dir)].File?)
    ensures var made := MkdirAllOn(nodes, failing, dir);
      var w := WriteOn(made.nodes, failing, MainPath(dir), EncodeString(MainJava(basePackage)));
      w.Ok? && w.value[MainPath(dir)] == File(EncodeString("package " + basePackage + TemplateTail))
  {
    MainJavaDeclaresPackage(basePackage);
    MainFileHasNoSlash();
    ChildWritable(nodes, failing, dir, "Main.java", EncodeString(MainJava(basePackage)));
  }

  /** A file directly in a directory that was just made can be written unless its own
      path fails or is a directory. */
  lemma ChildWritable(nodes: map<string, Node>, failing: set<string>, dir: string, name: string, data: seq<byte>)
    requires '/' !in name
    requires MkdirAllOn(nodes, failing, dir).err.None?
    requires var path := dir + "/" + name;
      path !in failing && (path !in nodes || nodes[path].File?)
    ensures var made := MkdirAllOn(nodes, failing, dir);
      WriteOn(made.nodes, failing, dir + "/" + name, data) == Ok(made.nodes[dir + "/" + name := File(data)])
  {
    var made := MkdirAllOn(nodes, failing, dir);
    var path := dir + "/" + name;
    ChildParent(dir, name);
    assert !(path <= dir) by {
      assert |path| > |dir|;
    }
    assert ParentReady(made.nodes, path);
  }

  /** A name without `/` sits directly in the directory it is joined to. */
  lemma {:induction false} ChildParent(dir: string, name: string)
    requires '/' !in name
    ensures Lexical.LastSlash(dir + "/" + name) == |dir|
    ensures (dir + "/" + name)[..|dir|] == dir
    decreases |name|
  {
    var path := dir + "/" + name;
    if name == [] {
      assert path == dir + "/";
    } else {
      var init := name[..|name| - 1];
      assert path[|path| - 1] == name[|name| - 1];
      assert path[..|path| - 1] == dir + "/" + init;
      ChildParent(dir, init);
    }
  }

  // ---- process_input, initialize_config ----

  /** The text with every occurrence of `c` removed. */
  function Without(s: string, c: char): (r: string)
    ensures c !in r
    ensures forall d :: d != c ==> multiset(r)[d] == multiset(s)[d]
    decreases |s|
  {
    if s == [] then []
    else
      assert s == [s[0]] + s[1..];
      (if s[0] == c then [] else [s[0]]) + Without(s[1..], c)
  }

  /** Replacing every newline by nothing removes the newlines and keeps every other
      character in place. */
  lemma {:induction false} ReplaceNewlines(s: string)
    ensures ReplaceAll(s, "\n", "") == Without(s, '\n')
    decreases |s|
  {
    if s != [] {
      ReplaceNewlines(s[1..]);
      if s[0] == '\n' {
        assert "\n" <= s;
      } else {
        assert !("\n" <= s);
      }
    }
  }

  /** `process_input`: the input without its newlines, or the default when nothing is
      left. */
  function ProcessInput(x: string, default: string): (r: string)
    ensures Without(x, '\n') == [] ==> r == default
    ensures Without(x, '\n') != [] ==> r == Without(x, '\n')
  {
    ReplaceNewlines(x);
    var stripped := ReplaceAll(x, "\n", "");
    if stripped == [] then default else stripped
  }

  /** Carriage returns and spaces are not newlines: an input without a newline, such as
      one made only of spaces, is kept as it is. */
  lemma {:induction false} NoNewlineKept(x: string, default: string)
    requires '\n' !in x && x != []
    ensures ProcessInput(x, default) == x
    decreases |x|
  {
    WithoutAbsent(x, '\n');
  }

  lemma {:induction false} WithoutAbsent(s: string, c: char)
    requires c !in s
    ensures Without(s, c) == s
    decreases |s|
  {
    if s != [] {
      WithoutAbsent(s[1..], c);
      assert s == [s[0]] + s[1..];
    }
  }

  /** The configuration `initialize_config` writes. */
  function InitialConfig(name: string, basePackage: string): (c: Config)
    ensures c.project.version == "1.0.0" && c.toolchainPath == Toolchain.JavaHomePlaceholder && c.dependencies == map[]
    ensures c.project.name == ProcessInput(name, "My Espresso Project")
    ensures c.project.basePackage == ProcessInput(basePackage, "com.me.myespressoproject")
  {
    Config(
      ProjectFields(ProcessInput(name, "My Espresso Project"), "1.0.0", ProcessInput(basePackage, "com.me.myespressoproject")),
      "${JAVA_HOME}",
      map[])
  }

  /** The initial name and base package are never empty and never hold a newline. */
  lemma InitialFieldsClean(name: string, basePackage: string)
    ensures var c := InitialConfig(name, basePackage);
      c.project.name != [] && '\n' !in c.project.name && c.project.basePackage != [] && '\n' !in c.project.basePackage
  {
    assert '\n' !in "My Espresso Project";
    assert "com.me.myespressoproject" == "com.me." + "myespressoproject";
    assert '\n' !in "com.me." && '\n' !in "myespressoproject";
  }

  /** The manifest of a new project reads back as its main class and version. */
  lemma InitialManifestReadsBack(name: string, basePackage: string)
    ensures var base := InitialConfig(name, basePackage).project.basePackage;
      ManifestParse.Parsed(ManifestParse.Lines(Toolchain.GetManifest(base)))
        == map["Main-Class" := base + ".Main", "Manifest-Version" := "1.0"]
  {
    InitialFieldsClean(name, basePackage);
    Toolchain.ManifestReadsBack(InitialConfig(name, basePackage).project.basePackage);
  }

  /** A new project's toolchain is `JAVA_HOME` itself when that is set. */
  lemma InitialToolchainIsJavaHome(name: string, basePackage: string, env: Env)
    requires "JAVA_HOME" in env
    ensures Toolchain.ExpandedToolchainPath(InitialConfig(name, basePackage).toolchainPath, env) == env["JAVA_HOME"]
  {
    assert Toolchain.JavaHomePlaceholder <= Toolchain.JavaHomePlaceholder;
  }

  /** `initialize_config`: build the configuration, serialise it and write it to the
      config path; a serialisation or write failure panics. */
  method InitializeConfig(disk: Disk, configPath: string, name: string, basePackage: string, serialize: Config -> Result<string>)
    returns (r: Outcome<()>)
    modifies disk
    ensures var text := serialize(InitialConfig(name, basePackage));
      (text.Err? ==> unchanged(disk) && r == Panicked(ExpectPanic("Failed to serialize struct", text.msg)))
      && (text.Ok? ==>
            var w := WriteOn(old(disk.nodes), disk.failing, configPath, EncodeString(text.value));
            (w.Ok? ==> disk.nodes == w.value && r == Returned(()))
            && (w.Err? ==> disk.nodes == old(disk.nodes) && r == Panicked(ExpectPanic("Failed to write config file", w.msg))))
    ensures disk.failing == old(disk.failing) && disk.fetched == old(disk.fetched)
  {
    var baseConfig := Config(
      ProjectFields(ProcessInput(name, "My Espresso Project"), "1.0.0", ProcessInput(basePackage, "com.me.myespressoproject")),
      "${JAVA_HOME}",
      map[]);
    var tomlString := serialize(baseConfig);
    if tomlString.Err? {
      return Panicked(ExpectPanic("Failed to serialize struct", tomlString.msg));
    }
    var err := disk.WriteFile(configPath, EncodeString(tomlString.value));
    if err.Some? {
      return Panicked(ExpectPanic("Failed to write config file", err.value));
    }
    return Returned(());
  }
}
