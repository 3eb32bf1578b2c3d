/** Caching a resolved dependency's artifact (core/dependency/cache.go and the older
    core/dependency/implementation.go, which also holds the older resolver). The artifact
    goes to `<espresso>/cachedPackages/<signature>.jar`; nothing checks whether it is
    already there. */
module Artifacts {

  import opened Wrappers
  import opened Records
  import opened Versions
  import opened Files
  import opened Resolve
  import Signatures

  /** The signature function core/dependency/cache.go calls with (package, version). */
  type PairSigner = (Package, PackageVersion) -> string

  /** The cache directory for artifacts. */
  function ArtifactDir(esp: string): string {
    esp + "/cachedPackages"
  }

  /** Where the artifact with signature `sig` is cached. */
  function ArtifactPath(esp: string, sig: string): string {
    esp + "/cachedPackages/" + sig + ".jar"
  }

  /** The effect both revisions share once the signature and the `.espresso` directory
      are known: make the cache directory, then download the artifact to its place over
      whatever is there. */
  function StoreOn(nodes: map<string, Node>, failing: set<string>, esp: string, sig: string, answer: Response): (c: Change)
  {
    var made := MkdirAllOn(nodes, failing, ArtifactDir(esp));
    if made.err.Some? then made
    else DownloadOn(made.nodes, failing, ArtifactPath(esp, sig), answer)
  }

  /** A successful store leaves the cache directory in place and the artifact at its
      path, holding the body of a 200 answer (and nothing otherwise), whatever was
      cached there before. */
  lemma StoredArtifact(nodes: map<string, Node>, failing: set<string>, esp: string, sig: string, answer: Response)
    requires StoreOn(nodes, failing, esp, sig, answer).err.None?
    ensures var after := StoreOn(nodes, failing, esp, sig, answer).nodes;
      ArtifactDir(esp) in after && after[ArtifactDir(esp)] == Directory
      && ArtifactPath(esp, sig) in after && after[ArtifactPath(esp, sig)] == File(if answer.code == 200 then answer.body else [])
  {
    var made := MkdirAllOn(nodes, failing, ArtifactDir(esp));
    assert |ArtifactDir(esp)| < |ArtifactPath(esp, sig)|;
  }

  /** A failed store is the failure of its first failing step: the directory creation,
      the creation of the target file, or the transfer. */
  lemma StoreErrors(nodes: map<string, Node>, failing: set<string>, esp: string, sig: string, answer: Response)
    requires StoreOn(nodes, failing, esp, sig, answer).err.Some?
    ensures var made := MkdirAllOn(nodes, failing, ArtifactDir(esp));
      made.err.Some? || WriteOn(made.nodes, failing, ArtifactPath(esp, sig), []).Err? || answer.Unreachable?
  {
  }

  /** What `CacheResolvedDependency` in core/dependency/cache.go does. */
  function CacheOn(nodes: map<string, Node>, failing: set<string>, rdep: Option<ResolvedDependency>, home: Result<string>,
                   sign: PairSigner, answer: Response): (c: Change)
    ensures rdep.None? ==> c == Change(nodes, Some("rdep was nil"))
    ensures rdep.Some? && home.Err? ==> c == Change(nodes, Some(home.msg))
    ensures rdep.Some? && home.Ok? ==>
      c == StoreOn(nodes, failing, home.value + "/.espresso", sign(rdep.value.package, rdep.value.packageVersion), answer)
  {
    match rdep
    case None => Change(nodes, Some("rdep was nil"))
    case Some(rd) =>
      var sig := sign(rd.package, rd.packageVersion);
      match EspressoDir(home)
      case Err(e) => Change(nodes, Some(e))
      case Ok(esp) => StoreOn(nodes, failing, esp, sig, answer)
  }

  /** `CacheResolvedDependency` (core/dependency/cache.go). */
  method CacheResolvedDependency(disk: Disk, rdep: Option<ResolvedDependency>, home: Result<string>, sign: PairSigner, net: Network)
    returns (err: Option<string>)
    modifies disk
    ensures rdep.None? ==> unchanged(disk) && err == Some("rdep was nil")
    ensures rdep.Some? ==>
      var c := CacheOn(old(disk.nodes), disk.failing, rdep, home, sign, net(rdep.value.packageVersion.artifactUrl));
      disk.nodes == c.nodes && err == c.err
    ensures disk.failing == old(disk.failing)
    ensures rdep.Some? && home.Ok? && disk.fetched != old(disk.fetched) ==>
      disk.fetched == old(disk.fetched) + [rdep.value.packageVersion.artifactUrl]
  {
    if rdep.None? {
      return Some("rdep was nil");
    }
    var sig := sign(rdep.value.package, rdep.value.packageVersion);
    var esp := EspressoDir(home);
    if esp.Err? {
      return Some(esp.msg);
    }
    err := disk.MkdirAll(ArtifactDir(esp.value));
    if err.Some? {
      return;
    }
    err := disk.Download(ArtifactPath(esp.value, sig), rdep.value.packageVersion.artifactUrl, net);
  }

  /** The artifact is cached where `ResolvedDependency.GetCachePath` looks for it exactly
      when the signature functions of the two revisions agree on it. */
  lemma CachedWhereLookedUp(rd: ResolvedDependency, home: string, sign: Signer, pair: PairSigner)
    requires pair(rd.package, rd.packageVersion) == sign(rd.registry, rd.package, rd.packageVersion)
    ensures GetCachePath(rd, Ok(home), sign) == Ok(ArtifactPath(home + "/.espresso", pair(rd.package, rd.packageVersion)))
  {
  }

  /** The older resolved dependency, made of pointers. */
  datatype PointerResolution = PointerResolution(
    dependency: Option<Dependency>,
    package: Option<Package>,
    packageVersion: Option<PackageVersion>)

  /** What the older `ResolveDependency` returns: nil arguments are refused before any
      catalog is listed; otherwise the first hit of the same search. */
  function OlderResolution(dep: Option<Dependency>, regs: Option<seq<Registry>>, catalog: Catalog): (r: Result<PointerResolution>)
    ensures dep.None? || regs.None? ==> r == Err("required argument was a nil pointer")
  {
    if dep.None? || regs.None? then Err("required argument was a nil pointer")
    else match SearchFrom(regs.value, 0, dep.value, VersionString(dep.value.version), catalog)
      case Err(e) => Err(e)
      case Ok(h) =>
        var pkg := catalog(regs.value[h.reg]).value[h.pkg];
        Ok(PointerResolution(dep, Some(pkg), Some(pkg.versions[h.ver])))
  }

  /** `ResolveDependency` (core/dependency/implementation.go). */
  method OlderResolveDependency(dep: Option<Dependency>, regs: Option<seq<Registry>>, catalog: Catalog)
    returns (r: Result<PointerResolution>)
    ensures r == OlderResolution(dep, regs, catalog)
  {
    if dep.None? || regs.None? {
      return Err("required argument was a nil pointer");
    }
    var found := FindFirst(regs.value, dep.value, VersionString(dep.value.version), catalog);
    if found.Err? {
      return Err(found.msg);
    }
    var h := found.value;
    var pkg := catalog(regs.value[h.reg]).value[h.pkg];
    return Ok(PointerResolution(dep, Some(pkg), Some(pkg.versions[h.ver])));
  }

  /** The two resolvers agree: on non-nil arguments the older one fails with the same
      error, or refers to the requested dependency and the very package and version the
      newer one picks. */
  lemma OlderResolverAgrees(dep: Dependency, regs: seq<Registry>, catalog: Catalog, sign: Signer)
    ensures var old_ := OlderResolution(Some(dep), Some(regs), catalog);
      var new_ := Resolution(dep, regs, catalog, sign);
      (old_.Err? <==> new_.Err?)
      && (old_.Err? ==> old_.msg == new_.msg)
      && (old_.Ok? ==> old_.value == PointerResolution(Some(dep), Some(new_.value.package), Some(new_.value.packageVersion)))
  {
  }

  /** The older `CacheResolvedDependency`: a nil record is refused; the signature is
      taken before anything else, so a record with a nil package or version panics. */
  function OlderCacheOn(nodes: map<string, Node>, failing: set<string>, rdep: Option<PointerResolution>, home: Result<string>,
                        hash: Signatures.Hash, answer: Response): (c: Outcome<Change>)
    ensures rdep.None? ==> c == Returned(Change(nodes, Some("rdep was nil")))
    ensures c.Panicked? <==> rdep.Some? && (rdep.value.package.None? || rdep.value.packageVersion.None?)
  {
    match rdep
    case None => Returned(Change(nodes, Some("rdep was nil")))
    case Some(rd) =>
      match Signatures.CalculatePackageSignature(hash, rd.package, rd.packageVersion)
      case Panicked(why) => Panicked(why)
      case Returned(sig) =>
        match EspressoDir(home)
        case Err(e) => Returned(Change(nodes, Some(e)))
        case Ok(esp) => Returned(StoreOn(nodes, failing, esp, sig, answer))
  }

  /** `CacheResolvedDependency` (core/dependency/implementation.go). */
  method OlderCacheResolvedDependency(disk: Disk, rdep: Option<PointerResolution>, home: Result<string>,
                                      hash: Signatures.Hash, net: Network)
    returns (r: Outcome<Option<string>>)
    modifies disk
    ensures rdep.None? || rdep.value.package.None? || rdep.value.packageVersion.None? ==> unchanged(disk)
    ensures rdep.Some? && rdep.value.packageVersion.Some? ==>
      var c := OlderCacheOn(old(disk.nodes), disk.failing, rdep, home, hash, net(rdep.value.packageVersion.value.artifactUrl));
      (c.Panicked? <==> r.Panicked?) && (c.Returned? ==> disk.nodes == c.result.nodes && r == Returned(c.result.err))
    ensures rdep.None? ==> r == Returned(Some("rdep was nil"))
    ensures disk.failing == old(disk.failing)
  {
    if rdep.None? {
      return Returned(Some("rdep was nil"));
    }
    var signed := Signatures.CalculatePackageSignature(hash, rdep.value.package, rdep.value.packageVersion);
    if signed.Panicked? {
      return Panicked(signed.reason);
    }
    var esp := EspressoDir(home);
    if esp.Err? {
      return Returned(Some(esp.msg));
    }
    var err := disk.MkdirAll(ArtifactDir(esp.value));
    if err.Some? {
      return Returned(err);
    }
    err := disk.Download(ArtifactPath(esp.value, signed.result), rdep.value.packageVersion.value.artifactUrl, net);
    return Returned(err);
  }

  /** Both revisions store a package version's artifact at the same place when the
      pair signer is the signature of its coordinates. */
  lemma RevisionsStoreAlike(nodes: map<string, Node>, failing: set<string>, rd: ResolvedDependency, home: Result<string>,
                            hash: Signatures.Hash, answer: Response)
    ensures var pair := (p: Package, v: PackageVersion) => Signatures.CalculatePackageSignature(hash, Some(p), Some(v)).result;
      OlderCacheOn(nodes, failing, Some(PointerResolution(Some(rd.dependency), Some(rd.package), Some(rd.packageVersion))), home, hash, answer)
        == Returned(CacheOn(nodes, failing, Some(rd), home, pair, answer))
  {
  }
}
