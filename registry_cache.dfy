/** The registry cache: where a registry's archive is unpacked below the user's home
    directory, how that cache is invalidated and filled, and how the catalog of package
    declarations is read back from it (core/registry/path.go, core/registry/implementation.go,
    core/dependency/path_util.go, core/dependency/registry.go). `os.UserHomeDir` is the
    parameter `home`, the YAML decoder the parameter `parse`, and what the walks and reads
    find on disk the `View` `view`. */
module RegistryCache {

  import opened Wrappers
  import opened Strs
  import opened Records
  import opened Environment
  import opened Files
  import opened Extract
  import opened Walks
  import Lexical

  /** `GetRegistryCachePath` (core/registry/path.go) and `GetCachePath`
      (core/dependency/registry.go): `<home>/.espresso/registries/<name>`. */
  function GetRegistryCachePath(home: Result<string>, reg: Registry): (r: Result<string>)
    ensures r.Err? <==> home.Err?
    ensures r.Ok? ==> HasPrefix(r.value, home.value + "/.espresso/registries/")
    ensures r.Ok? ==> r.value[|home.value + "/.espresso/registries/"|..] == reg.name
  {
    match home
    case Err(e) => Err(e)
    case Ok(h) =>
      var r := h + "/.espresso/registries/" + reg.name;
      assert r == (h + "/.espresso/registries/") + reg.name;
      Ok(r)
  }

  /** Registries with different names never share a cache directory. */
  lemma CachePathsDistinct(home: string, a: Registry, b: Registry)
    requires a.name != b.name
    ensures GetRegistryCachePath(Ok(home), a) != GetRegistryCachePath(Ok(home), b)
  {
  }

  /** `GetRegistryCacheDependenciesPath`: the cache path plus
      `/espresso-registry-main/dependencies`. */
  function GetRegistryCacheDependenciesPath(home: Result<string>, reg: Registry): (r: Result<string>)
    ensures r.Err? <==> home.Err?
    ensures r.Ok? ==> r.value == GetRegistryCachePath(home, reg).value + "/espresso-registry-main/dependencies"
  {
    match GetRegistryCachePath(home, reg)
    case Err(e) => Err(e)
    case Ok(cache) => Ok(cache + "/espresso-registry-main/dependencies")
  }

  /** The directory the catalog walks start from. */
  function LookupRoot(cache: string): string {
    cache + "/lookup/espresso-registry-main/dependencies"
  }

  /** The directory `CacheRegistry` (core/registry/implementation.go) checks after
      extracting. */
  function PackagesProbe(cache: string): string {
    cache + "/lookup/espresso-registry-main/packages"
  }

  /** The layout does not agree with itself: the dependencies path lacks the `/lookup`
      segment of the directory the catalog is read from, and the directory checked after
      extraction is `packages` where the catalog reads `dependencies`. */
  lemma LayoutMismatch(home: string, reg: Registry)
    ensures var cache := GetRegistryCachePath(Ok(home), reg).value;
      GetRegistryCacheDependenciesPath(Ok(home), reg).value != LookupRoot(cache)
      && PackagesProbe(cache) != LookupRoot(cache)
  {
    var cache := GetRegistryCachePath(Ok(home), reg).value;
    assert |GetRegistryCacheDependenciesPath(Ok(home), reg).value| < |LookupRoot(cache)|;
    assert |PackagesProbe(cache)| < |LookupRoot(cache)|;
  }

  /** What `InvalidateRegistryCache` does (both revisions): remove the cache directory,
      ignoring any failure to do so. */
  function InvalidateOn(nodes: map<string, Node>, failing: set<string>, home: Result<string>, reg: Registry): (c: Change)
    ensures c.err.Some? <==> home.Err?
    ensures home.Err? ==> c.nodes == nodes
    ensures home.Ok? && GetRegistryCachePath(home, reg).value in failing ==> c.nodes == nodes
    ensures home.Ok? && GetRegistryCachePath(home, reg).value !in failing ==>
      forall k :: k in c.nodes <==> k in nodes && !Under(k, GetRegistryCachePath(home, reg).value)
    ensures forall k :: k in c.nodes ==> k in nodes && c.nodes[k] == nodes[k]
  {
    match GetRegistryCachePath(home, reg)
    case Err(e) => Change(nodes, Some(e))
    case Ok(cache) =>
      match RemoveAllOn(nodes, failing, cache)
      case Ok(m) => Change(m, None)
      case Err(_) => Change(nodes, None)
  }

  /** `InvalidateRegistryCache`. */
  method InvalidateRegistryCache(disk: Disk, home: Result<string>, reg: Registry) returns (err: Option<string>)
    modifies disk
    ensures disk.nodes == InvalidateOn(old(disk.nodes), disk.failing, home, reg).nodes
    ensures err == InvalidateOn(old(disk.nodes), disk.failing, home, reg).err
    ensures disk.failing == old(disk.failing) && disk.fetched == old(disk.fetched)
  {
    var cache := GetRegistryCachePath(home, reg);
    if cache.Err? {
      return Some(cache.msg);
    }
    var ignored := disk.RemoveAll(cache.value);
    return None;
  }

  /** The existence check: `util.DoesPathExist` in core/registry/implementation.go, and
      `util.DoesFileExist` in core/dependency/registry.go, which is not part of this model. */
  type Probe = Stat -> (bool, Option<string>)

  const CacheExists: string := "cache exists: must be invalidated or not exist"

  /** Whether `CacheRegistry` gets as far as creating the archive file and fetching it. */
  predicate Fetches(nodes: map<string, Node>, failing: set<string>, home: Result<string>, reg: Registry, check: Probe) {
    home.Ok? &&
    var cache := GetRegistryCachePath(home, reg).value;
    var probe := check(StatOn(nodes, failing, cache));
    var made := MkdirAllOn(nodes, failing, cache);
    probe.1.None? && !probe.0 && made.err.None? && WriteOn(made.nodes, failing, cache + "/archive.zip", []).Ok?
  }

  /** What `CacheRegistry` does (both revisions): refuse an existing cache; otherwise make
      the cache directory, download the archive to `<cache>/archive.zip` and extract it into
      `<cache>/lookup`. The extraction's error and the check of the extracted layout only
      print, so once the download succeeded the result is nil. */
  function CacheRegistryOn(nodes: map<string, Node>, failing: set<string>, home: Result<string>, reg: Registry,
                           answer: Response, read: ZipReader, check: Probe): (c: Change)
  {
    match GetRegistryCachePath(home, reg)
    case Err(e) => Change(nodes, Some(e))
    case Ok(cache) =>
      var probe := check(StatOn(nodes, failing, cache));
      if probe.1.Some? then Change(nodes, probe.1)
      else if probe.0 then Change(nodes, Some(CacheExists))
      else
        var made := MkdirAllOn(nodes, failing, cache);
        if made.err.Some? then made
        else
          var got := DownloadOn(made.nodes, failing, cache + "/archive.zip", answer);
          if got.err.Some? then got
          else Change(UnzipOn(got.nodes, failing, AsWritten, cache + "/archive.zip", cache + "/lookup", read).nodes, None)
  }

  /** `CacheRegistry`. */
  method CacheRegistry(disk: Disk, home: Result<string>, reg: Registry, net: Network, read: ZipReader, check: Probe)
    returns (err: Option<string>)
    modifies disk
    ensures disk.nodes == CacheRegistryOn(old(disk.nodes), disk.failing, home, reg, net(reg.url), read, check).nodes
    ensures err == CacheRegistryOn(old(disk.nodes), disk.failing, home, reg, net(reg.url), read, check).err
    ensures disk.fetched == old(disk.fetched) + (if Fetches(old(disk.nodes), disk.failing, home, reg, check) then [reg.url] else [])
    ensures disk.failing == old(disk.failing)
  {
    var cache := GetRegistryCachePath(home, reg);
    if cache.Err? {
      return Some(cache.msg);
    }
    var present := check(disk.Stat(cache.value));
    if present.1.Some? {
      return present.1;
    }
    if present.0 {
      return Some(CacheExists);
    }
    err := disk.MkdirAll(cache.value);
    if err.Some? {
      return;
    }
    err := disk.Download(cache.value + "/archive.zip", reg.url, net);
    if err.Some? {
      return;
    }
    var ignored := Unzip(disk, cache.value + "/archive.zip", cache.value + "/lookup", read);
    return None;
  }

  /** A cache directory that is already there is refused before anything is created or
      fetched, whatever its stat reports. */
  lemma ExistingCacheRefused(nodes: map<string, Node>, failing: set<string>, home: string, reg: Registry,
                             answer: Response, read: ZipReader)
    requires GetRegistryCachePath(Ok(home), reg).value in nodes
    ensures CacheRegistryOn(nodes, failing, Ok(home), reg, answer, read, DoesPathExist) == Change(nodes, Some(CacheExists))
    ensures !Fetches(nodes, failing, Ok(home), reg, DoesPathExist)
  {
  }

  /** Once the archive is downloaded, `CacheRegistry` reports success, even when the
      extraction refused an entry or could not read the archive, and the cache directory
      is in place. */
  lemma DownloadedMeansCached(nodes: map<string, Node>, failing: set<string>, home: Result<string>, reg: Registry,
                              answer: Response, read: ZipReader, check: Probe)
    requires Fetches(nodes, failing, home, reg, check) && answer.Status?
    ensures CacheRegistryOn(nodes, failing, home, reg, answer, read, check).err.None?
    ensures GetRegistryCachePath(home, reg).value in CacheRegistryOn(nodes, failing, home, reg, answer, read, check).nodes
  {
    var cache := GetRegistryCachePath(home, reg).value;
    var made := MkdirAllOn(nodes, failing, cache);
    var got := DownloadOn(made.nodes, failing, cache + "/archive.zip", answer);
    assert cache != cache + "/archive.zip";
    assert cache in got.nodes;
  }

  /** `CacheRegistry` returns an error only from the home lookup, the existence check, the
      refusal, the directory creation or the download, and then leaves the file system as
      the failed step left it. */
  lemma CacheErrorsBeforeExtraction(nodes: map<string, Node>, failing: set<string>, home: Result<string>, reg: Registry,
                                    answer: Response, read: ZipReader, check: Probe)
    requires CacheRegistryOn(nodes, failing, home, reg, answer, read, check).err.Some?
    ensures var c := CacheRegistryOn(nodes, failing, home, reg, answer, read, check);
      !Fetches(nodes, failing, home, reg, check) || (answer.Unreachable? && c.err == Some(answer.msg))
  {
  }

  /** `walkRegistryLookup` and `getPackageGroupPathsInRegCache` keep the paths of the
      directories they pass, except those named `dependencies`. */
  function GroupDir(ev: Event): Result<Option<string>> {
    match ev
    case Failure(_, m) => Err(m)
    case Visit(p, n) => if Base(p) == "dependencies" then Ok(None) else if n.DirEntry? then Ok(Some(p)) else Ok(None)
  }

  /** `getDirectoriesInRegistryCache` keeps every directory. */
  function AnyDir(ev: Event): Result<Option<string>> {
    match ev
    case Failure(_, m) => Err(m)
    case Visit(p, n) => if n.DirEntry? then Ok(Some(p)) else Ok(None)
  }

  /** `walkPackageGroup` keeps everything that is not a directory. */
  function NonDir(ev: Event): Result<Option<string>> {
    match ev
    case Failure(_, m) => Err(m)
    case Visit(p, n) => if n.DirEntry? then Ok(None) else Ok(Some(p))
  }

  /** The package group directories of a registry's catalog. */
  function GroupPaths(view: View, home: Result<string>, reg: Registry): Result<seq<string>> {
    match GetRegistryCachePath(home, reg)
    case Err(e) => Err(e)
    case Ok(cache) => Collected(GoWalk(LookupRoot(cache), view(LookupRoot(cache))), GroupDir)
  }

  /** `walkRegistryLookup` (core/registry/path.go) and `getPackageGroupPathsInRegCache`
      (core/dependency/path_util.go), which are the same code. */
  method WalkRegistryLookup(view: View, home: Result<string>, reg: Registry) returns (r: Result<seq<string>>)
    ensures r == GroupPaths(view, home, reg)
  {
    var cache := GetRegistryCachePath(home, reg);
    if cache.Err? {
      return Err(cache.msg);
    }
    r := Walk(view, LookupRoot(cache.value), GroupDir);
  }

  /** The group walk lists exactly the directories it reaches whose name is not
      `dependencies`, and fails exactly when the walk reports an error. */
  lemma GroupWalkExactly(root: string, t: Tree)
    ensures var evs := GoWalk(root, t);
      var r := Collected(evs, GroupDir);
      (r.Ok? <==> forall k :: 0 <= k < |evs| ==> evs[k].Visit?)
      && (r.Ok? ==> forall p :: p in r.value <==>
            exists k :: 0 <= k < |evs| && evs[k].Visit? && evs[k].path == p && evs[k].node.DirEntry? && Base(p) != "dependencies")
  {
    var evs := GoWalk(root, t);
    CollectedSpec(evs, GroupDir);
    assert forall k :: 0 <= k < |evs| ==> (GroupDir(evs[k]).Ok? <==> evs[k].Visit?);
  }

  /** The walk root itself is never listed: its name is `dependencies`. */
  lemma LookupRootNotListed(cache: string, t: Tree)
    ensures GroupDir(GoWalk(LookupRoot(cache), t)[0]) != Ok(Some(LookupRoot(cache)))
  {
    assert LookupRoot(cache) == (cache + "/lookup/espresso-registry-main") + "/" + "dependencies";
    BaseOfChild(cache + "/lookup/espresso-registry-main", "dependencies");
  }

  /** `getPackageDeclarationPathsInRegistryCache`: a nil registry panics; otherwise the
      group path is ignored and the result is the group walk of the whole catalog. */
  method GetPackageDeclarationPaths(view: View, home: Result<string>, reg: Option<Registry>, pkgGroupPath: Option<string>)
    returns (r: Outcome<Result<seq<string>>>)
    ensures reg.None? ==> r.Panicked?
    ensures reg.Some? ==> r == Returned(GroupPaths(view, home, reg.value))
  {
    if reg.None? {
      return Panicked("programming error: reg is nil");
    }
    var found := WalkRegistryLookup(view, home, reg.value);
    return Returned(found);
  }

  /** `walkPackageGroup`. */
  method WalkPackageGroup(view: View, groupPath: string) returns (r: Result<seq<string>>)
    ensures r == Collected(GoWalk(groupPath, view(groupPath)), NonDir)
  {
    r := Walk(view, groupPath, NonDir);
  }

  /** The declaration walk lists exactly the entries it reaches that are not directories;
      those are files. */
  lemma DeclarationPathsExactly(view: View, groupPath: string)
    ensures var evs := GoWalk(groupPath, view(groupPath));
      var r := Collected(evs, NonDir);
      r.Ok? ==> forall p :: p in r.value <==>
        exists k :: 0 <= k < |evs| && evs[k].Visit? && evs[k].path == p && evs[k].node.FileEntry?
  {
    var evs := GoWalk(groupPath, view(groupPath));
    CollectedSpec(evs, NonDir);
    VisitsAreEntries(groupPath, view(groupPath));
  }

  /** Every directory of the dependencies tree. */
  function AllDirs(view: View, home: Result<string>, reg: Registry): Result<seq<string>> {
    match GetRegistryCachePath(home, reg)
    case Err(e) => Err(e)
    case Ok(cache) => Collected(GoWalk(LookupRoot(cache), view(LookupRoot(cache))), AnyDir)
  }

  /** `getDirectoriesInRegistryCache`. */
  method GetDirectoriesInRegistryCache(view: View, home: Result<string>, reg: Registry) returns (r: Result<seq<string>>)
    ensures r == AllDirs(view, home, reg)
  {
    var cache := GetRegistryCachePath(home, reg);
    if cache.Err? {
      return Err(cache.msg);
    }
    r := Walk(view, LookupRoot(cache.value), AnyDir);
  }

  /** Unlike the group walk, `getDirectoriesInRegistryCache` lists the walk root first. */
  lemma DirectoriesStartAtRoot(view: View, home: string, reg: Registry)
    requires AllDirs(view, Ok(home), reg).Ok?
    requires view(LookupRoot(GetRegistryCachePath(Ok(home), reg).value)).DirEntry?
    ensures var r := AllDirs(view, Ok(home), reg).value;
      r != [] && r[0] == LookupRoot(GetRegistryCachePath(Ok(home), reg).value)
  {
  }

  /** `GetRegistryPackages` in core/dependency/registry.go: the directory walk's error, or
      an empty list. */
  method GetRegistryPackagesEmpty(view: View, home: Result<string>, reg: Registry) returns (r: Result<seq<PackageDeclaration>>)
    ensures r.Ok? <==> AllDirs(view, home, reg).Ok?
    ensures r.Ok? ==> r.value == []
    ensures r.Err? ==> r.msg == AllDirs(view, home, reg).msg
  {
    var dirs := GetDirectoriesInRegistryCache(view, home, reg);
    if dirs.Err? {
      return Err(dirs.msg);
    }
    return Ok([]);
  }

  /** The YAML decoder for package declarations. */
  type Parser = string -> Result<PackageDeclaration>

  /** The package a declaration file describes: its name is the file's last path element
      without one `.yml`, whatever name the file declares, and its group the group
      directory's last path element. */
  function MakePackage(groupPath: string, declPath: string, decl: PackageDeclaration, reg: Registry): (p: Package)
    ensures p.registry == reg && p.declaration == decl.(name := p.name)
    ensures p.description == decl.description && p.versions == decl.versions
    ensures '/' !in p.name && '/' !in p.group
  {
    var file := LastPiece(declPath, '/');
    var name := TrimSuffix(file, ".yml");
    assert name <= file;
    Package(LastPiece(groupPath, '/'), name, decl.description, decl.versions, decl.(name := name), reg)
  }

  /** A file `<dir>/<x>.yml` declares the package `x` of the group `<g>` for a group
      directory `<gdir>/<g>`. */
  lemma PackageNamedByFile(gdir: string, g: string, dir: string, x: string, decl: PackageDeclaration, reg: Registry)
    requires '/' !in x && '/' !in g
    ensures MakePackage(gdir + "/" + g, dir + "/" + x + ".yml", decl, reg).name == x
    ensures MakePackage(gdir + "/" + g, dir + "/" + x + ".yml", decl, reg).group == g
  {
    LastPieceOf(dir, x + ".yml");
    LastPieceOf(gdir, g);
    assert dir + "/" + x + ".yml" == dir + "/" + (x + ".yml");
  }

  lemma LastPieceOf(dir: string, x: string)
    requires '/' !in x
    ensures LastPiece(dir + "/" + x, '/') == x
  {
    Lexical.SplitConcat(dir, '/', x);
    SplitNone(x, '/');
  }

  /** The packages of one group's declaration files, in file order; the first read or
      decode error ends everything. */
  function FilePackages(view: View, groupPath: string, files: seq<string>, reg: Registry, parse: Parser): Result<seq<Package>>
    decreases |files|
  {
    if files == [] then Ok([])
    else match ReadText(view, files[0])
      case Err(e) => Err(e)
      case Ok(text) =>
        match parse(text)
        case Err(e) => Err(e)
        case Ok(decl) =>
          match FilePackages(view, groupPath, files[1..], reg, parse)
          case Err(e) => Err(e)
          case Ok(rest) => Ok([MakePackage(groupPath, files[0], decl, reg)] + rest)
  }

  /** The packages declared in one group directory. */
  function GroupDeclarations(view: View, groupPath: string, reg: Registry, parse: Parser): Result<seq<Package>> {
    match Collected(GoWalk(groupPath, view(groupPath)), NonDir)
    case Err(e) => Err(e)
    case Ok(files) => FilePackages(view, groupPath, files, reg, parse)
  }

  /** The packages of the groups, group after group. */
  function GroupPackages(view: View, groups: seq<string>, reg: Registry, parse: Parser): Result<seq<Package>>
    decreases |groups|
  {
    if groups == [] then Ok([])
    else match GroupDeclarations(view, groups[0], reg, parse)
      case Err(e) => Err(e)
      case Ok(found) =>
        match GroupPackages(view, groups[1..], reg, parse)
        case Err(e) => Err(e)
        case Ok(rest) => Ok(found + rest)
  }

  /** What `GetRegistryPackages` (core/registry/implementation.go) returns. */
  function PackagesOf(view: View, home: Result<string>, reg: Registry, parse: Parser): Result<seq<Package>> {
    match GroupPaths(view, home, reg)
    case Err(e) => Err(e)
    case Ok(groups) => GroupPackages(view, groups, reg, parse)
  }

  /** The body of `GetRegistryPackages`' outer loop: walk one group directory for
      declaration files, then read, decode and name each. */
  method ReadGroup(view: View, g: string, reg: Registry, parse: Parser) returns (r: Result<seq<Package>>)
    ensures r == GroupDeclarations(view, g, reg, parse)
  {
    var decls := WalkPackageGroup(view, g);
    if decls.Err? {
      return Err(decls.msg);
    }
    var ds := decls.value;
    var got: seq<Package> := [];
    var j := 0;
    assert ds[j..] == ds;
    assert FilePackages(view, g, ds, reg, parse) == Prefixed(got, FilePackages(view, g, ds[j..], reg, parse)) by {
      if FilePackages(view, g, ds, reg, parse).Ok? {
        assert got + FilePackages(view, g, ds, reg, parse).value == FilePackages(view, g, ds, reg, parse).value;
      }
    }
    while j < |ds|
      invariant j <= |ds|
      invariant FilePackages(view, g, ds, reg, parse) == Prefixed(got, FilePackages(view, g, ds[j..], reg, parse))
    {
      var path := ds[j];
      FileStep(view, g, ds, j, reg, parse, got);
      var content := ReadText(view, path);
      if content.Err? {
        return Err(content.msg);
      }
      var decl := parse(content.value);
      if decl.Err? {
        return Err(decl.msg);
      }
      got := got + [MakePackage(g, path, decl.value, reg)];
      j := j + 1;
    }
    assert ds[j..] == [];
    assert got + [] == got;
    return Ok(got);
  }

  /** One turn of `GetRegistryPackages`' inner loop. */
  lemma FileStep(view: View, g: string, ds: seq<string>, j: nat, reg: Registry, parse: Parser, got: seq<Package>)
    requires j < |ds|
    ensures var c := ReadText(view, ds[j]);
      Prefixed(got, FilePackages(view, g, ds[j..], reg, parse))
        == if c.Err? then Err(c.msg)
           else if parse(c.value).Err? then Err(parse(c.value).msg)
           else Prefixed(got + [MakePackage(g, ds[j], parse(c.value).value, reg)], FilePackages(view, g, ds[j + 1..], reg, parse))
  {
    assert ds[j..][0] == ds[j] && ds[j..][1..] == ds[j + 1..];
    var c := ReadText(view, ds[j]);
    var rest := FilePackages(view, g, ds[j + 1..], reg, parse);
    if c.Ok? && parse(c.value).Ok? && rest.Ok? {
      var pkg := MakePackage(g, ds[j], parse(c.value).value, reg);
      assert got + ([pkg] + rest.value) == (got + [pkg]) + rest.value;
    }
  }

  /** `GetRegistryPackages`: the packages of every group directory, group after group;
      the first error ends everything. */
  method GetRegistryPackages(view: View, home: Result<string>, reg: Registry, parse: Parser) returns (r: Result<seq<Package>>)
    ensures r == PackagesOf(view, home, reg, parse)
  {
    var groups := WalkRegistryLookup(view, home, reg);
    if groups.Err? {
      return Err(groups.msg);
    }
    var gs := groups.value;
    var pkgs: seq<Package> := [];
    var i := 0;
    assert gs[i..] == gs;
    assert GroupPackages(view, gs, reg, parse) == Prefixed(pkgs, GroupPackages(view, gs[i..], reg, parse)) by {
      if GroupPackages(view, gs, reg, parse).Ok? {
        assert pkgs + GroupPackages(view, gs, reg, parse).value == GroupPackages(view, gs, reg, parse).value;
      }
    }
    while i < |gs|
      invariant i <= |gs|
      invariant GroupPackages(view, gs, reg, parse) == Prefixed(pkgs, GroupPackages(view, gs[i..], reg, parse))
    {
      var found := ReadGroup(view, gs[i], reg, parse);
      GroupStep(view, gs, i, reg, parse, pkgs);
      if found.Err? {
        return Err(found.msg);
      }
      pkgs := pkgs + found.value;
      i := i + 1;
    }
    assert gs[i..] == [];
    assert pkgs + [] == pkgs;
    return Ok(pkgs);
  }

  /** One turn of `GetRegistryPackages`' outer loop. */
  lemma GroupStep(view: View, gs: seq<string>, i: nat, reg: Registry, parse: Parser, pkgs: seq<Package>)
    requires i < |gs|
    ensures var d := GroupDeclarations(view, gs[i], reg, parse);
      Prefixed(pkgs, GroupPackages(view, gs[i..], reg, parse))
        == if d.Err? then Err(d.msg) else Prefixed(pkgs + d.value, GroupPackages(view, gs[i + 1..], reg, parse))
  {
    assert gs[i..][0] == gs[i] && gs[i..][1..] == gs[i + 1..];
    var d := GroupDeclarations(view, gs[i], reg, parse);
    var later := GroupPackages(view, gs[i + 1..], reg, parse);
    if d.Ok? && later.Ok? {
      assert pkgs + (d.value + later.value) == (pkgs + d.value) + later.value;
    }
  }

  /** One package per declaration file, in file order, each named by its file; decoding
      succeeds for all of them or the whole group fails. */
  lemma {:induction false} PackagesFromFiles(view: View, groupPath: string, files: seq<string>, reg: Registry, parse: Parser)
    requires FilePackages(view, groupPath, files, reg, parse).Ok?
    ensures var ps := FilePackages(view, groupPath, files, reg, parse).value;
      |ps| == |files| && forall k :: 0 <= k < |files| ==>
        ReadText(view, files[k]).Ok? && parse(ReadText(view, files[k]).value).Ok?
        && ps[k] == MakePackage(groupPath, files[k], parse(ReadText(view, files[k]).value).value, reg)
    decreases |files|
  {
    if files != [] {
      PackagesFromFiles(view, groupPath, files[1..], reg, parse);
      var ps := FilePackages(view, groupPath, files, reg, parse).value;
      var rest := FilePackages(view, groupPath, files[1..], reg, parse).value;
      assert ps[1..] == rest;
      forall k | 1 <= k < |files|
        ensures files[k] == files[1..][k - 1] && ps[k] == rest[k - 1]
      {
      }
    }
  }

  /** Every package read from a registry is tagged with that registry and carries its
      declaration under its own name. */
  lemma {:induction false} PackagesTagged(view: View, groups: seq<string>, reg: Registry, parse: Parser)
    requires GroupPackages(view, groups, reg, parse).Ok?
    ensures forall p :: p in GroupPackages(view, groups, reg, parse).value ==>
      p.registry == reg && p.declaration.name == p.name && '/' !in p.name && '/' !in p.group
    decreases |groups|
  {
    if groups != [] {
      PackagesTagged(view, groups[1..], reg, parse);
      var files := Collected(GoWalk(groups[0], view(groups[0])), NonDir).value;
      assert GroupDeclarations(view, groups[0], reg, parse) == FilePackages(view, groups[0], files, reg, parse);
      PackagesFromFiles(view, groups[0], files, reg, parse);
      var found := FilePackages(view, groups[0], files, reg, parse).value;
      var rest := GroupPackages(view, groups[1..], reg, parse).value;
      forall p: Package | p in found + rest
        ensures p.registry == reg && p.declaration.name == p.name && '/' !in p.name && '/' !in p.group
      {
        if p in found {
          var k :| 0 <= k < |found| && found[k] == p;
        }
      }
    }
  }
}
