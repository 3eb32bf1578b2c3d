/** The Java toolchain of the Rust build tool (src/backend/toolchain.rs): where `javac`,
    `java` and `jar` live, which sources are compiled, the manifest, and the `jar`
    invocations that package the project and extract a dependency. A shell command is
    run through `Shell`, which answers for a working directory and a command line. */
module Toolchain {

  import opened Wrappers
  import opened Strs
  import opened Utf8
  import opened Environment
  import opened Files
  import opened Walks
  import Directory
  import ManifestParse

  /** `sh -c <command>` run in a working directory. */
  type Shell = (string, string) -> ProcessResult

  /** The placeholder that asks for `JAVA_HOME`. */
  const JavaHomePlaceholder := "${JAVA_HOME}"

  /** `get_expanded_toolchain_path`: a configured path mentioning `${JAVA_HOME}` becomes
      the whole value of `JAVA_HOME` when that is set; any other path, or an unset
      variable, leaves the path as it is. */
  function ExpandedToolchainPath(path: string, env: Env): (r: string)
    ensures Contains(path, JavaHomePlaceholder) && "JAVA_HOME" in env ==> r == env["JAVA_HOME"]
    ensures !Contains(path, JavaHomePlaceholder) || "JAVA_HOME" !in env ==> r == path
  {
    if Contains(path, JavaHomePlaceholder) then
      match GetJavaHome(env)
      case Ok(val) => val
      case Err(_) => path
    else path
  }

  /** The placeholder is not substituted in place: whatever surrounds it is dropped. */
  lemma ExpansionDropsSurroundings(before: string, after: string, env: Env)
    requires "JAVA_HOME" in env
    ensures ExpandedToolchainPath(before + JavaHomePlaceholder + after, env) == env["JAVA_HOME"]
  {
    ContainsInfix(before, JavaHomePlaceholder, after);
  }

  /** `ToolchainContext`. */
  datatype ToolchainContext = ToolchainContext(compilerPath: string, runtimePath: string, packagerPath: string, toolchainPath: string)

  /** `get_toolchain_context`: the three tools under `bin` of the expanded path. */
  function GetToolchainContext(configured: string, env: Env): (tc: ToolchainContext)
    ensures tc.toolchainPath == ExpandedToolchainPath(configured, env)
    ensures tc.compilerPath == tc.toolchainPath + "/bin/javac"
    ensures tc.runtimePath == tc.toolchainPath + "/bin/java"
    ensures tc.packagerPath == tc.toolchainPath + "/bin/jar"
  {
    var home := ExpandedToolchainPath(configured, env);
    ToolchainContext(home + "/bin/javac", home + "/bin/java", home + "/bin/jar", home)
  }

  /** The three tools are three different files. */
  lemma ToolsDistinct(configured: string, env: Env)
    ensures var tc := GetToolchainContext(configured, env);
      tc.compilerPath != tc.runtimePath && tc.runtimePath != tc.packagerPath && tc.compilerPath != tc.packagerPath
  {
    var tc := GetToolchainContext(configured, env);
    var n := |tc.toolchainPath|;
    assert tc.compilerPath[n + 5] == 'j' && tc.packagerPath[n + 5] == 'j';
    assert tc.compilerPath[n + 6] == 'a' && tc.packagerPath[n + 6] == 'a';
    assert tc.compilerPath[n + 7] != tc.packagerPath[n + 7];
    assert |tc.runtimePath| != |tc.compilerPath| && |tc.runtimePath| != |tc.packagerPath|;
  }

  /** The message `Result::unwrap` panics with on an error. */
  function UnwrapPanic(e: string): string {
    "called `Result::unwrap()` on an `Err` value: " + e
  }

  // ---- get_java_source_files ----

  /** The paths ending in `.java`, in order. */
  function JavaFiles(paths: seq<string>): (r: seq<string>)
    ensures |r| <= |paths|
    ensures forall x :: multiset(r)[x] == if HasSuffix(x, ".java") then multiset(paths)[x] else 0
    decreases |paths|
  {
    if paths == [] then []
    else
      var last := paths[|paths| - 1];
      var init := JavaFiles(paths[..|paths| - 1]);
      assert paths == paths[..|paths| - 1] + [last];
      if HasSuffix(last, ".java") then init + [last] else init
  }

  /** What `get_java_source_files` gives for the tree at the base package path: the
      listing's `.java` files, or the panic of the listing or of its unwrapped error. */
  function JavaSourceFiles(basePackage: string, t: Tree): Outcome<Result<seq<string>>> {
    match Directory.ReadFiles(basePackage, t)
    case Panicked(why) => Panicked(why)
    case Returned(Err(e)) => Panicked(UnwrapPanic(e))
    case Returned(Ok(files)) => Returned(Ok(JavaFiles(files)))
  }

  /** `get_java_source_files`. */
  method GetJavaSourceFiles(basePackage: string, t: Tree) returns (r: Outcome<Result<seq<string>>>)
    ensures r == JavaSourceFiles(basePackage, t)
  {
    var files := Directory.ReadFilesRecursively(basePackage, t);
    if files.Panicked? {
      return Panicked(files.reason);
    }
    if files.result.Err? {
      return Panicked(UnwrapPanic(files.result.msg));
    }
    var xs := files.result.value;
    var javaFiles: seq<string> := [];
    var i := 0;
    while i < |xs|
      invariant i <= |xs|
      invariant javaFiles == JavaFiles(xs[..i])
    {
      assert xs[..i + 1][..i] == xs[..i];
      if HasSuffix(xs[i], ".java") {
        javaFiles := javaFiles + [xs[i]];
      }
      i := i + 1;
    }
    assert xs[..i] == xs;
    return Returned(Ok(javaFiles));
  }

  /** When it returns, `get_java_source_files` never fails, and gives the `.java` files
      among the files below the base package, with every one of them. */
  lemma JavaSourcesAreTheJavaFiles(basePackage: string, t: Tree)
    requires JavaSourceFiles(basePackage, t).Returned?
    ensures var r := JavaSourceFiles(basePackage, t);
      r.result.Ok? && Directory.FileTree(basePackage, t).Ok?
      && r.result.value == JavaFiles(Directory.FileTree(basePackage, t).value)
  {
    Directory.ReadFilesAgrees(basePackage, t);
  }

  // ---- compile_project ----

  /** The shell command that compiles one file into the build directory. */
  function CompileCommand(compiler: string, file: string, project: string): string {
    compiler + " " + file + " -d " + project + "/build -cp " + project + "/build"
  }

  /** The error output printed for the files whose compilation fails, in order. */
  function Failures(files: seq<string>, compiler: string, project: string, cwd: string, shell: Shell): seq<string>
    decreases |files|
  {
    if files == [] then []
    else
      var out := shell(cwd, CompileCommand(compiler, files[|files| - 1], project));
      Failures(files[..|files| - 1], compiler, project, cwd, shell) + (if out.success then [] else [out.output])
  }

  /** `compile_project`, run from the working directory `cwd`: every file is compiled,
      whatever happened to the files before it. `commands` are the command lines run and
      `printed` the error outputs printed. */
  method CompileProject(files: seq<string>, project: string, tc: ToolchainContext, cwd: string, shell: Shell)
    returns (commands: seq<string>, printed: seq<string>)
    ensures |commands| == |files|
    ensures forall k :: 0 <= k < |files| ==> commands[k] == CompileCommand(tc.compilerPath, files[k], project)
    ensures printed == Failures(files, tc.compilerPath, project, cwd, shell)
  {
    commands := [];
    printed := [];
    var i := 0;
    while i < |files|
      invariant i <= |files|
      invariant |commands| == i
      invariant forall k :: 0 <= k < i ==> commands[k] == CompileCommand(tc.compilerPath, files[k], project)
      invariant printed == Failures(files[..i], tc.compilerPath, project, cwd, shell)
    {
      assert files[..i + 1][..i] == files[..i];
      var cmd := CompileCommand(tc.compilerPath, files[i], project);
      var output := shell(cwd, cmd);
      commands := commands + [cmd];
      if !output.success {
        printed := printed + [output.output];
      }
      i := i + 1;
    }
    assert files[..i] == files;
  }

  /** Nothing is printed exactly when every file compiles, and never more than one
      output per file. */
  lemma {:induction false} FailuresExactly(files: seq<string>, compiler: string, project: string, cwd: string, shell: Shell)
    ensures |Failures(files, compiler, project, cwd, shell)| <= |files|
    ensures Failures(files, compiler, project, cwd, shell) == [] <==>
      forall k :: 0 <= k < |files| ==> shell(cwd, CompileCommand(compiler, files[k], project)).success
    decreases |files|
  {
    if files != [] {
      var init := files[..|files| - 1];
      FailuresExactly(init, compiler, project, cwd, shell);
      assert forall k :: 0 <= k < |init| ==> init[k] == files[k];
    }
  }

  // ---- get_manifest, write_manifest, build_jar ----

  /** `get_manifest`: `Main-Class: <base>.Main`, then `Manifest-Version: 1.0`, each
      line ended by a newline. */
  function GetManifest(basePackage: string): string {
    "Main-Class" + ": " + (basePackage + ".Main") + "\n" + "Manifest-Version" + ": " + "1.0" + "\n"
  }

  /** Two `key: value` lines, each followed by a newline, read back as the two keys with
      their values. */
  lemma TwoFieldsReadBack(k0: string, v0: string, k1: string, v1: string)
    requires ':' !in k0 && ':' !in k1 && k0 != k1
    requires '\n' !in k0 && '\n' !in v0 && '\n' !in k1 && '\n' !in v1
    requires v0 != [] && v0[|v0| - 1] != '\r' && v1 != [] && v1[|v1| - 1] != '\r'
    ensures ManifestParse.Parsed(ManifestParse.Lines(k0 + ": " + v0 + "\n" + k1 + ": " + v1 + "\n")) == map[k0 := v0, k1 := v1]
  {
    var l0 := k0 + ": " + v0;
    var l1 := k1 + ": " + v1;
    TwoLines(l0, l1);
    assert l0 + "\n" + l1 + "\n" == k0 + ": " + v0 + "\n" + k1 + ": " + v1 + "\n";
    FieldLine(k0, v0);
    FieldLine(k1, v1);
    var first := ManifestParse.Parsed([l0]);
    assert first == map[k0 := v0] by {
      assert [l0][..0] == [];
      assert ManifestParse.Parsed([]) == map[];
    }
    assert ManifestParse.Parsed([l0, l1]) == first[k1 := v1] by {
      assert [l0, l1][..1] == [l0];
    }
  }

  /** Two lines, each followed by a newline, read back as those two lines. */
  lemma TwoLines(a: string, b: string)
    requires '\n' !in a && '\n' !in b
    requires a != [] && a[|a| - 1] != '\r' && b != [] && b[|b| - 1] != '\r'
    ensures ManifestParse.Lines(a + "\n" + b + "\n") == [a, b]
  {
    assert ManifestParse.Written([b]) == b + "\n" + ManifestParse.Written([]);
    assert [a, b][1..] == [b];
    assert ManifestParse.Written([a, b]) == a + "\n" + b + "\n";
    ManifestParse.LinesOfWritten([a, b]);
  }

  /** A `key: value` line whose key holds no `:` parses as that key and value. */
  lemma FieldLine(k: string, v: string)
    requires ':' !in k
    ensures ManifestParse.ParseLine(k + ": " + v) == Some((k, v))
  {
    var line := k + (": " + v);
    ManifestParse.FindAfter(k, ": " + v);
    assert line == k + ": " + v;
    assert line[..|k|] == k;
    assert line[|k| + 2..] == v;
  }

  /** Read back with the manifest parser, the manifest gives exactly the main class and
      the manifest version, as long as the base package holds no newline. */
  lemma ManifestReadsBack(basePackage: string)
    requires '\n' !in basePackage
    ensures ManifestParse.Parsed(ManifestParse.Lines(GetManifest(basePackage)))
      == map["Main-Class" := basePackage + ".Main", "Manifest-Version" := "1.0"]
  {
    var k0, v0, k1, v1 := "Main-Class", basePackage + ".Main", "Manifest-Version", "1.0";
    assert ':' !in k0 && '\n' !in k0 && ':' !in k1 && '\n' !in k1;
    assert '\n' !in v0 by {
      assert '\n' !in ".Main";
    }
    assert v0[|v0| - 1] == 'n';
    assert k0 != k1 by {
      assert |k0| != |k1|;
    }
    assert GetManifest(basePackage) == k0 + ": " + v0 + "\n" + k1 + ": " + v1 + "\n";
    TwoFieldsReadBack(k0, v0, k1, v1);
  }

  function ManifestPath(project: string): string {
    project + "/build/MANIFEST.MF"
  }

  function ArtifactPath(project: string): string {
    project + "/build/artifact.jar"
  }

  /** `fs::remove_file(path)`: only a file can be removed. */
  function RemoveFileOn(nodes: map<string, Node>, failing: set<string>, path: string): (r: Result<map<string, Node>>)
    ensures r.Ok? <==> path !in failing && path in nodes && nodes[path].File?
    ensures r.Ok? ==> r.value == nodes - {path}
  {
    if path in failing then Err(Denied("unlink", path))
    else if path !in nodes then Err(NoSuchFile("unlink", path))
    else if nodes[path].Directory? then Err(IsADirectory("unlink", path))
    else Ok(nodes - {path})
  }

  /** The packaging command: the base package as a directory path, dots turned into
      slashes. */
  function JarCommand(packager: string, basePackage: string): string {
    packager + " -c --file=artifact.jar --manifest=MANIFEST.MF " + ReplaceChar(basePackage, '.', '/')
  }

  /** The file system after a step, and what the step returned. */
  datatype Step = Step(nodes: map<string, Node>, outcome: Outcome<Result<()>>)

  /** What `build_jar` does: write the manifest (panicking if that fails), remove the old
      artifact whatever happens, then run the packager in the build directory. */
  function BuildJarOn(nodes: map<string, Node>, failing: set<string>, project: string, basePackage: string,
                      packager: string, shell: Shell): (s: Step)
    ensures s.outcome.Panicked? <==> WriteOn(nodes, failing, ManifestPath(project), EncodeString(GetManifest(basePackage))).Err?
    ensures s.outcome.Returned? ==>
      ManifestPath(project) in s.nodes && s.nodes[ManifestPath(project)] == File(EncodeString(GetManifest(basePackage)))
      && (ArtifactPath(project) !in failing ==> ArtifactPath(project) !in s.nodes || s.nodes[ArtifactPath(project)].Directory?)
    ensures s.outcome.Returned? ==>
      (s.outcome.result.Ok? <==> shell(project + "/build", JarCommand(packager, basePackage)).success)
  {
    match WriteOn(nodes, failing, ManifestPath(project), EncodeString(GetManifest(basePackage)))
    case Err(e) => Step(nodes, Panicked(UnwrapPanic(e)))
    case Ok(written) =>
      var cleared := match RemoveFileOn(written, failing, ArtifactPath(project))
        case Ok(m) => m
        case Err(_) => written;
      assert ManifestPath(project) != ArtifactPath(project) by {
        assert ManifestPath(project)[|project| + 7] == 'M';
      }
      var output := shell(project + "/build", JarCommand(packager, basePackage));
      if !output.success then Step(cleared, Returned(Err("Failed to package jar: Packager output was: " + output.output)))
      else Step(cleared, Returned(Ok(())))
  }

  /** `build_jar`. */
  method BuildJar(disk: Disk, project: string, basePackage: string, tc: ToolchainContext, shell: Shell)
    returns (r: Outcome<Result<()>>)
    modifies disk
    ensures var s := BuildJarOn(old(disk.nodes), disk.failing, project, basePackage, tc.packagerPath, shell);
      disk.nodes == s.nodes && r == s.outcome
    ensures disk.failing == old(disk.failing) && disk.fetched == old(disk.fetched)
  {
    var err := disk.WriteFile(ManifestPath(project), EncodeString(GetManifest(basePackage)));
    if err.Some? {
      return Panicked(UnwrapPanic(err.value));
    }
    var relativeBasePackagePath := ReplaceChar(basePackage, '.', '/');
    var removed := RemoveFileOn(disk.nodes, disk.failing, ArtifactPath(project));
    if removed.Ok? {
      disk.nodes := removed.value;
    }
    var cmd := tc.packagerPath + " -c --file=artifact.jar --manifest=MANIFEST.MF " + relativeBasePackagePath;
    var output := shell(project + "/build", cmd);
    if !output.success {
      return Returned(Err("Failed to package jar: Packager output was: " + output.output));
    }
    return Returned(Ok(()));
  }

  // ---- extract_jar ----

  /** Where a dependency jar is extracted: its name without `.jar`, below the extraction
      directory. */
  function ExtractDir(extracted: string, jarName: string): string
    requires HasSuffix(jarName, ".jar")
  {
    extracted + "/" + TrimSuffix(jarName, ".jar")
  }

  /** What `extract_jar` does: refuse a name without `.jar` before touching anything,
      make the output directory, then run the extraction there. */
  function ExtractJarOn(nodes: map<string, Node>, failing: set<string>, extracted: string, dependencies: string,
                        packager: string, jarName: string, shell: Shell): (s: Step)
    ensures !HasSuffix(jarName, ".jar") ==> s == Step(nodes, Returned(Err("Invalid jar name")))
    ensures s.outcome.Returned?
    ensures HasSuffix(jarName, ".jar") && s.outcome.result.Ok? ==>
      ExtractDir(extracted, jarName) in s.nodes && s.nodes[ExtractDir(extracted, jarName)] == Directory
      && shell(ExtractDir(extracted, jarName), packager + " -x --file " + dependencies + "/" + jarName).success
  {
    if !HasSuffix(jarName, ".jar") then Step(nodes, Returned(Err("Invalid jar name")))
    else
      var out := ExtractDir(extracted, jarName);
      var made := MkdirAllOn(nodes, failing, out);
      if made.err.Some? then Step(made.nodes, Returned(Err(made.err.value)))
      else
        var status := shell(out, packager + " -x --file " + dependencies + "/" + jarName);
        if !status.success then Step(made.nodes, Returned(Err("Packager process exited with non-0 status code")))
        else Step(made.nodes, Returned(Ok(())))
  }

  /** `extract_jar`. */
  method ExtractJar(disk: Disk, extracted: string, dependencies: string, tc: ToolchainContext, jarName: string, shell: Shell)
    returns (r: Result<()>)
    modifies disk
    ensures !HasSuffix(jarName, ".jar") ==> unchanged(disk) && r == Err("Invalid jar name")
    ensures var s := ExtractJarOn(old(disk.nodes), disk.failing, extracted, dependencies, tc.packagerPath, jarName, shell);
      disk.nodes == s.nodes && Returned(r) == s.outcome
    ensures disk.failing == old(disk.failing) && disk.fetched == old(disk.fetched)
  {
    if !HasSuffix(jarName, ".jar") {
      return Err("Invalid jar name");
    }
    var outputDirName := TrimSuffix(jarName, ".jar");
    var absoluteOutputDir := extracted + "/" + outputDirName;
    var err := disk.MkdirAll(absoluteOutputDir);
    if err.Some? {
      return Err(err.value);
    }
    var status := shell(absoluteOutputDir, tc.packagerPath + " -x --file " + dependencies + "/" + jarName);
    if !status.success {
      return Err("Packager process exited with non-0 status code");
    }
    return Ok(());
  }

  /** The output directory is named after the jar: adding `.jar` back gives the jar's
      name below the extraction directory. */
  lemma ExtractDirNamesJar(extracted: string, jarName: string)
    requires HasSuffix(jarName, ".jar")
    ensures ExtractDir(extracted, jarName) + ".jar" == extracted + "/" + jarName
  {
  }
}
