/** Where a project keeps its files, from the working directory and debug mode:
    `GetSourcePath` (core/project/source_util.go), `GetConfigPath` and `getSourcePath`
    (core/context/project/fs.go), `GetBuildPath` and `GetDistPath`
    (core/toolchain/toolchain_util.go). `os.Getwd` is the parameter `wd`. */
module ProjectPaths {

  import opened Wrappers
  import opened Strs
  import opened Records
  import opened Environment

  /** The directory the project lives in: the working directory, or its `ESPRESSO_DEBUG`
      sub-directory in debug mode. */
  function ProjectRoot(wd: string, env: Env): (r: string)
    ensures HasPrefix(r, wd)
    ensures IsDebugMode(env) <==> |r| > |wd|
  {
    wd + (if IsDebugMode(env) then "/ESPRESSO_DEBUG" else "")
  }

  /** The package directory of `basePackage`: its dots become slashes. */
  function PackageDir(basePackage: string): (r: string)
    ensures '.' !in r && |r| == |basePackage|
  {
    ReplaceChar(basePackage, '.', '/')
  }

  /** `GetSourcePath` on a configuration pointer: a `Getwd` error is returned, a nil
      configuration panics, otherwise `<root>/src/java/<package dir>`. */
  function GetSourcePath(wd: Result<string>, env: Env, cfg: Option<ProjectConfig>): (r: Outcome<Result<string>>)
    ensures wd.Err? ==> r == Returned(Err(wd.msg))
    ensures r.Panicked? <==> wd.Ok? && cfg.None?
    ensures wd.Ok? && cfg.Some? ==> r.Returned? && r.result.Ok? && HasPrefix(r.result.value, wd.value)
  {
    match wd
    case Err(e) => Returned(Err(e))
    case Ok(dir) =>
      if cfg.None? then Panicked("nil pointer dereference")
      else Returned(Ok(ProjectRoot(dir, env) + "/src/java/" + PackageDir(cfg.value.basePackage)))
  }

  /** `getSourcePath`, the value revision. */
  function ContextSourcePath(wd: Result<string>, env: Env, cfg: ProjectConfig): (r: Result<string>)
    ensures wd.Err? <==> r.Err?
    ensures r.Ok? ==> HasPrefix(r.value, ProjectRoot(wd.value, env) + "/src/java/")
  {
    match wd
    case Err(e) => Err(e)
    case Ok(dir) => Ok(ProjectRoot(dir, env) + "/src/java/" + PackageDir(cfg.basePackage))
  }

  /** Both source-path revisions build the same path. */
  lemma SourcePathRevisionsAgree(wd: Result<string>, env: Env, cfg: ProjectConfig)
    ensures GetSourcePath(wd, env, Some(cfg)) == Returned(ContextSourcePath(wd, env, cfg))
  {
  }

  /** The source path determines the base package: the part after `/src/java/` holds no
      dot, and turning its slashes back into dots gives the package, provided the package
      name had no slash of its own. */
  lemma SourcePathNamesPackage(dir: string, env: Env, cfg: ProjectConfig)
    requires '/' !in cfg.basePackage
    ensures var p := ContextSourcePath(Ok(dir), env, cfg).value;
      var k := |ProjectRoot(dir, env) + "/src/java/"|;
      k <= |p| && '.' !in p[k..] && ReplaceChar(p[k..], '/', '.') == cfg.basePackage
  {
    var p := ContextSourcePath(Ok(dir), env, cfg).value;
    var k := |ProjectRoot(dir, env) + "/src/java/"|;
    assert p[k..] == PackageDir(cfg.basePackage);
    var back := ReplaceChar(p[k..], '/', '.');
    assert forall i :: 0 <= i < |back| ==> back[i] == cfg.basePackage[i];
  }

  /** `GetConfigPath`: `espresso.yml` in the project root. */
  function GetConfigPath(wd: Result<string>, env: Env): (r: Result<string>)
    ensures wd.Err? <==> r.Err?
    ensures r.Ok? ==> HasPrefix(r.value, wd.value) && HasSuffix(r.value, "/espresso.yml")
  {
    match wd
    case Err(e) => Err(e)
    case Ok(dir) =>
      if IsDebugMode(env) then Ok(dir + "/ESPRESSO_DEBUG" + "/espresso.yml") else Ok(dir + "/espresso.yml")
  }

  /** `GetBuildPath`: `<root>/build`; the configuration is not consulted. */
  function GetBuildPath(wd: Result<string>, env: Env, cfg: ProjectConfig): (r: Result<string>)
    ensures wd.Err? <==> r.Err?
    ensures r.Ok? ==> HasPrefix(r.value, ProjectRoot(wd.value, env)) && HasSuffix(r.value, "/build")
  {
    match wd
    case Err(e) => Err(e)
    case Ok(dir) => Ok(ProjectRoot(dir, env) + "/build")
  }

  /** `GetDistPath`: `<root>/dist`; the configuration is not consulted. */
  function GetDistPath(wd: Result<string>, env: Env, cfg: ProjectConfig): (r: Result<string>)
    ensures wd.Err? <==> r.Err?
    ensures r.Ok? ==> HasPrefix(r.value, ProjectRoot(wd.value, env)) && HasSuffix(r.value, "/dist")
  {
    match wd
    case Err(e) => Err(e)
    case Ok(dir) => Ok(ProjectRoot(dir, env) + "/dist")
  }

  /** The build and dist directories do not depend on the configuration passed in. */
  lemma OutputPathsIgnoreConfig(wd: Result<string>, env: Env, c1: ProjectConfig, c2: ProjectConfig)
    ensures GetBuildPath(wd, env, c1) == GetBuildPath(wd, env, c2)
    ensures GetDistPath(wd, env, c1) == GetDistPath(wd, env, c2)
  {
  }

  /** The build tree, the dist tree and the source tree are disjoint: none of the three
      directories lies inside another or equals it. */
  lemma ProjectTreesDisjoint(dir: string, env: Env, cfg: ProjectConfig)
    ensures var b := GetBuildPath(Ok(dir), env, cfg).value;
      var d := GetDistPath(Ok(dir), env, cfg).value;
      var s := ContextSourcePath(Ok(dir), env, cfg).value;
      b != d && b != s && d != s
      && !HasPrefix(d, b + "/") && !HasPrefix(b, d + "/")
      && !HasPrefix(s, b + "/") && !HasPrefix(s, d + "/")
      && !HasPrefix(b, s + "/") && !HasPrefix(d, s + "/")
  {
    var root := ProjectRoot(dir, env);
    var b := GetBuildPath(Ok(dir), env, cfg).value;
    var d := GetDistPath(Ok(dir), env, cfg).value;
    var s := ContextSourcePath(Ok(dir), env, cfg).value;
    var n := |root| + 1;
    assert b[n] == 'b' && d[n] == 'd' && s[n] == 's';
  }
}
