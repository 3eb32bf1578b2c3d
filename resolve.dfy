/** Dependency resolution (core/dependency/resolve.go and the older
    core/dependency/implementation.go): registries in the order given, then the packages
    of each registry's catalog in catalog order, then each package's versions; the first
    package whose group and name equal the dependency's and that has a version whose
    number equals the dependency's version text wins. The catalog lookup
    (`registry.GetRegistryPackages`) is the parameter `catalog`. */
module Resolve {

  import opened Wrappers
  import opened Records
  import opened Versions

  /** What `GetRegistryPackages` returns for each registry. */
  type Catalog = Registry -> Result<seq<Package>>

  /** Where a match was found: the registry, the package in that registry's catalog and the
      version in that package, as positions. */
  datatype Hit = Hit(reg: nat, pkg: nat, ver: nat)

  /** The package has the dependency's group and name. */
  predicate Matches(p: Package, dep: Dependency) {
    p.group == dep.group && p.name == dep.name
  }

  /** The first version at or after position `k` whose number is `number`. */
  function FirstVersionFrom(vs: seq<PackageVersion>, k: nat, number: string): (r: Option<nat>)
    requires k <= |vs|
    ensures r.Some? ==> k <= r.value < |vs| && vs[r.value].number == number
    ensures r.Some? ==> forall m :: k <= m < r.value ==> vs[m].number != number
    ensures r.None? ==> forall m :: k <= m < |vs| ==> vs[m].number != number
    decreases |vs| - k
  {
    if k == |vs| then None
    else if vs[k].number == number then Some(k)
    else FirstVersionFrom(vs, k + 1, number)
  }

  /** The package offers the dependency: same group and name, and a version with the
      number. */
  predicate Offers(p: Package, dep: Dependency, number: string) {
    Matches(p, dep) && FirstVersionFrom(p.versions, 0, number).Some?
  }

  /** The first package at or after position `j` that offers the dependency, with the
      position of its first version of that number. */
  function FirstPackageFrom(pkgs: seq<Package>, j: nat, dep: Dependency, number: string): (r: Option<(nat, nat)>)
    requires j <= |pkgs|
    ensures r.Some? ==> j <= r.value.0 < |pkgs| && Offers(pkgs[r.value.0], dep, number)
    ensures r.Some? ==> FirstVersionFrom(pkgs[r.value.0].versions, 0, number) == Some(r.value.1)
    ensures r.Some? ==> forall m :: j <= m < r.value.0 ==> !Offers(pkgs[m], dep, number)
    ensures r.None? ==> forall m :: j <= m < |pkgs| ==> !Offers(pkgs[m], dep, number)
    decreases |pkgs| - j
  {
    if j == |pkgs| then None
    else if Offers(pkgs[j], dep, number) then Some((j, FirstVersionFrom(pkgs[j].versions, 0, number).value))
    else FirstPackageFrom(pkgs, j + 1, dep, number)
  }

  /** The error for a dependency no registry offers. */
  function NotFoundMessage(dep: Dependency, number: string): string {
    "'" + dep.group + ":" + dep.name + ":" + number + "' dependency was unable to be resolved within any given registry"
  }

  /** The registry is listed and offers nothing for the dependency. */
  predicate Passes(catalog: Catalog, reg: Registry, dep: Dependency, number: string) {
    catalog(reg).Ok? && FirstPackageFrom(catalog(reg).value, 0, dep, number).None?
  }

  /** The search over the registries from position `i` on: the first listing error or the
      first hit ends it; running out of registries is the not-found error. */
  function SearchFrom(regs: seq<Registry>, i: nat, dep: Dependency, number: string, catalog: Catalog): (r: Result<Hit>)
    requires i <= |regs|
    ensures r.Ok? ==> i <= r.value.reg < |regs| && catalog(regs[r.value.reg]).Ok?
    ensures r.Ok? ==> FirstPackageFrom(catalog(regs[r.value.reg]).value, 0, dep, number) == Some((r.value.pkg, r.value.ver))
    ensures r.Ok? ==> forall m :: i <= m < r.value.reg ==> Passes(catalog, regs[m], dep, number)
    decreases |regs| - i
  {
    if i == |regs| then Err(NotFoundMessage(dep, number))
    else match catalog(regs[i])
      case Err(e) => Err(e)
      case Ok(pkgs) =>
        match FirstPackageFrom(pkgs, 0, dep, number)
        case Some(found) => Ok(Hit(i, found.0, found.1))
        case None => SearchFrom(regs, i + 1, dep, number, catalog)
  }

  /** A failed search fails for exactly one of two reasons: a registry whose listing failed,
      reached after every earlier registry was listed without a match (that listing error is
      returned, even if a later registry would match), or no registry offering the
      dependency at all. */
  lemma {:induction false} SearchFailure(regs: seq<Registry>, i: nat, dep: Dependency, number: string, catalog: Catalog)
    requires i <= |regs|
    ensures SearchFrom(regs, i, dep, number, catalog).Err? <==>
      (forall m :: i <= m < |regs| ==> Passes(catalog, regs[m], dep, number))
      || (exists m :: i <= m < |regs| && catalog(regs[m]).Err? && forall l :: i <= l < m ==> Passes(catalog, regs[l], dep, number))
    ensures (forall m :: i <= m < |regs| ==> Passes(catalog, regs[m], dep, number)) ==>
      SearchFrom(regs, i, dep, number, catalog) == Err(NotFoundMessage(dep, number))
    ensures forall m :: i <= m < |regs| && catalog(regs[m]).Err? && (forall l :: i <= l < m ==> Passes(catalog, regs[l], dep, number)) ==>
      SearchFrom(regs, i, dep, number, catalog) == Err(catalog(regs[m]).msg)
    decreases |regs| - i
  {
    if SearchFrom(regs, i, dep, number, catalog).Err? {
      SearchErrReason(regs, i, dep, number, catalog);
    }
    if forall m :: i <= m < |regs| ==> Passes(catalog, regs[m], dep, number) {
      SearchNotFound(regs, i, dep, number, catalog);
    }
    forall m | i <= m < |regs| && catalog(regs[m]).Err? && (forall l :: i <= l < m ==> Passes(catalog, regs[l], dep, number))
      ensures SearchFrom(regs, i, dep, number, catalog) == Err(catalog(regs[m]).msg)
    {
      SearchListingError(regs, i, dep, number, catalog, m);
    }
  }

  /** A failed search met a listing error after registries that offer nothing, or no
      registry offers the dependency. */
  lemma {:induction false} SearchErrReason(regs: seq<Registry>, i: nat, dep: Dependency, number: string, catalog: Catalog)
    requires i <= |regs| && SearchFrom(regs, i, dep, number, catalog).Err?
    ensures (forall m :: i <= m < |regs| ==> Passes(catalog, regs[m], dep, number))
      || (exists m :: i <= m < |regs| && catalog(regs[m]).Err? && forall l :: i <= l < m ==> Passes(catalog, regs[l], dep, number))
    decreases |regs| - i
  {
    if i < |regs| {
      if catalog(regs[i]).Ok? {
        assert Passes(catalog, regs[i], dep, number);
        SearchErrReason(regs, i + 1, dep, number, catalog);
        if exists m :: i + 1 <= m < |regs| && catalog(regs[m]).Err? && forall l :: i + 1 <= l < m ==> Passes(catalog, regs[l], dep, number) {
          var m :| i + 1 <= m < |regs| && catalog(regs[m]).Err? && forall l :: i + 1 <= l < m ==> Passes(catalog, regs[l], dep, number);
          assert forall l :: i <= l < m ==> Passes(catalog, regs[l], dep, number);
        }
      }
    }
  }

  /** When every registry from `i` on was listed and offers nothing, the search gives the
      not-found error. */
  lemma {:induction false} SearchNotFound(regs: seq<Registry>, i: nat, dep: Dependency, number: string, catalog: Catalog)
    requires i <= |regs|
    requires forall m :: i <= m < |regs| ==> Passes(catalog, regs[m], dep, number)
    ensures SearchFrom(regs, i, dep, number, catalog) == Err(NotFoundMessage(dep, number))
    decreases |regs| - i
  {
    if i < |regs| {
      assert Passes(catalog, regs[i], dep, number);
      SearchNotFound(regs, i + 1, dep, number, catalog);
    }
  }

  /** A listing error at `m`, after registries that were listed and offer nothing, is the
      search's error. */
  lemma {:induction false} SearchListingError(regs: seq<Registry>, i: nat, dep: Dependency, number: string, catalog: Catalog, m: nat)
    requires i <= m < |regs| && catalog(regs[m]).Err?
    requires forall l :: i <= l < m ==> Passes(catalog, regs[l], dep, number)
    ensures SearchFrom(regs, i, dep, number, catalog) == Err(catalog(regs[m]).msg)
    decreases m - i
  {
    if i < m {
      assert Passes(catalog, regs[i], dep, number);
      SearchListingError(regs, i + 1, dep, number, catalog, m);
    }
  }

  /** The outcome of `ResolveDependency` in core/dependency/resolve.go. */
  datatype ResolvedDependency = ResolvedDependency(
    dependency: Dependency,
    package: Package,
    packageVersion: PackageVersion,
    registry: Registry,
    packageSignature: string)

  /** The signature function the resolver calls with (registry, package, version). */
  type Signer = (Registry, Package, PackageVersion) -> string

  /** What `ResolveDependency` returns: the record built from the first hit. */
  function Resolution(dep: Dependency, regs: seq<Registry>, catalog: Catalog, sign: Signer): (r: Result<ResolvedDependency>)
    ensures r.Ok? ==> r.value.dependency == dep && Matches(r.value.package, dep)
    ensures r.Ok? ==> r.value.packageVersion.number == VersionString(dep.version)
    ensures r.Ok? ==> r.value.packageSignature == sign(r.value.registry, r.value.package, r.value.packageVersion)
  {
    var number := VersionString(dep.version);
    match SearchFrom(regs, 0, dep, number, catalog)
    case Err(e) => Err(e)
    case Ok(h) =>
      var reg := regs[h.reg];
      var pkg := catalog(reg).value[h.pkg];
      var ver := pkg.versions[h.ver];
      Ok(ResolvedDependency(dep, pkg, ver, reg, sign(reg, pkg, ver)))
  }

  /** Registry priority: a resolved dependency comes from the first registry whose catalog
      offers it; every earlier registry was listed and offers nothing. Within it, the
      package is the first offering one in catalog order and the version the first with the
      number. */
  lemma ResolvedFromFirstOfferingRegistry(dep: Dependency, regs: seq<Registry>, catalog: Catalog, sign: Signer)
    requires Resolution(dep, regs, catalog, sign).Ok?
    ensures var r := Resolution(dep, regs, catalog, sign).value;
      exists w :: 0 <= w < |regs| && regs[w] == r.registry && catalog(regs[w]).Ok?
        && (forall m :: 0 <= m < w ==> Passes(catalog, regs[m], dep, VersionString(dep.version)))
        && (exists p :: (FirstPackageFrom(catalog(regs[w]).value, 0, dep, VersionString(dep.version)) == Some(p)
          && r.package == catalog(regs[w]).value[p.0] && r.packageVersion == r.package.versions[p.1]))
  {
    var h := SearchFrom(regs, 0, dep, VersionString(dep.version), catalog).value;
    var p := (h.pkg, h.ver);
    assert FirstPackageFrom(catalog(regs[h.reg]).value, 0, dep, VersionString(dep.version)) == Some(p);
  }

  /** Every registry before position `m` was listed and offers nothing. */
  predicate FirstListingError(regs: seq<Registry>, m: nat, dep: Dependency, catalog: Catalog)
    requires m <= |regs|
  {
    forall l :: 0 <= l < m ==> Passes(catalog, regs[l], dep, VersionString(dep.version))
  }

  /** The not-found and listing-error outcomes, with the exact error text. */
  lemma ResolutionErrors(dep: Dependency, regs: seq<Registry>, catalog: Catalog, sign: Signer)
    ensures (forall m :: 0 <= m < |regs| ==> Passes(catalog, regs[m], dep, VersionString(dep.version))) ==>
      Resolution(dep, regs, catalog, sign) == Err(NotFoundMessage(dep, VersionString(dep.version)))
    ensures forall m :: 0 <= m < |regs| && catalog(regs[m]).Err? && FirstListingError(regs, m, dep, catalog) ==>
      Resolution(dep, regs, catalog, sign) == Err(catalog(regs[m]).msg)
    ensures Resolution(dep, regs, catalog, sign).Err? ==>
      (forall m :: 0 <= m < |regs| ==> Passes(catalog, regs[m], dep, VersionString(dep.version)))
      || (exists m :: 0 <= m < |regs| && catalog(regs[m]).Err? && FirstListingError(regs, m, dep, catalog))
  {
    var number := VersionString(dep.version);
    if forall m :: 0 <= m < |regs| ==> Passes(catalog, regs[m], dep, number) {
      SearchNotFound(regs, 0, dep, number, catalog);
    }
    forall m | 0 <= m < |regs| && catalog(regs[m]).Err? && FirstListingError(regs, m, dep, catalog)
      ensures Resolution(dep, regs, catalog, sign) == Err(catalog(regs[m]).msg)
    {
      SearchListingError(regs, 0, dep, number, catalog, m);
    }
    if Resolution(dep, regs, catalog, sign).Err? {
      SearchErrReason(regs, 0, dep, number, catalog);
    }
  }

  /** The three nested loops, shared by both revisions: stop at the first listing error or
      the first hit. */
  method FindFirst(regs: seq<Registry>, dep: Dependency, number: string, catalog: Catalog) returns (r: Result<Hit>)
    ensures r == SearchFrom(regs, 0, dep, number, catalog)
  {
    var i := 0;
    while i < |regs|
      invariant i <= |regs|
      invariant SearchFrom(regs, 0, dep, number, catalog) == SearchFrom(regs, i, dep, number, catalog)
    {
      var listed := catalog(regs[i]);
      if listed.Err? {
        return Err(listed.msg);
      }
      var pkgs := listed.value;
      var j := 0;
      while j < |pkgs|
        invariant j <= |pkgs|
        invariant FirstPackageFrom(pkgs, 0, dep, number) == FirstPackageFrom(pkgs, j, dep, number)
      {
        if pkgs[j].group == dep.group && pkgs[j].name == dep.name {
          var vs := pkgs[j].versions;
          var k := 0;
          while k < |vs|
            invariant k <= |vs|
            invariant FirstVersionFrom(vs, 0, number) == FirstVersionFrom(vs, k, number)
          {
            if vs[k].number == number {
              return Ok(Hit(i, j, k));
            }
            k := k + 1;
          }
        }
        j := j + 1;
      }
      i := i + 1;
    }
    return Err(NotFoundMessage(dep, number));
  }

  /** `ResolveDependency` (core/dependency/resolve.go). */
  method ResolveDependency(dep: Dependency, regs: seq<Registry>, catalog: Catalog, sign: Signer)
    returns (r: Result<ResolvedDependency>)
    ensures r == Resolution(dep, regs, catalog, sign)
  {
    var number := VersionString(dep.version);
    var found := FindFirst(regs, dep, number, catalog);
    if found.Err? {
      return Err(found.msg);
    }
    var h := found.value;
    var reg := regs[h.reg];
    var pkg := catalog(reg).value[h.pkg];
    var ver := pkg.versions[h.ver];
    return Ok(ResolvedDependency(dep, pkg, ver, reg, sign(reg, pkg, ver)));
  }

  /** `GetEspressoDirectoryPath`: `.espresso` in the user's home directory. */
  function EspressoDir(home: Result<string>): (r: Result<string>)
    ensures r.Err? <==> home.Err?
    ensures r.Ok? ==> r.value == home.value + "/.espresso"
  {
    match home
    case Err(e) => Err(e)
    case Ok(h) => Ok(h + "/.espresso")
  }

  /** `ResolvedDependency.GetCachePath`: the artifact's place in the cache, named by the
      signature of (registry, package, version); it is computed whether or not the file
      exists. */
  function GetCachePath(rd: ResolvedDependency, home: Result<string>, sign: Signer): (r: Result<string>)
    ensures r.Err? <==> home.Err?
  {
    match EspressoDir(home)
    case Err(e) => Err(e)
    case Ok(dir) => Ok(dir + "/cachedPackages/" + sign(rd.registry, rd.package, rd.packageVersion) + ".jar")
  }

  /** A resolved dependency's cache path is named by the signature the resolver stored. */
  lemma CachePathUsesStoredSignature(sign: Signer, rd: ResolvedDependency, home: string)
    requires rd.packageSignature == sign(rd.registry, rd.package, rd.packageVersion)
    ensures GetCachePath(rd, Ok(home), sign) == Ok(home + "/.espresso/cachedPackages/" + rd.packageSignature + ".jar")
  {
    var sig := sign(rd.registry, rd.package, rd.packageVersion);
    assert sig == rd.packageSignature;
    assert GetCachePath(rd, Ok(home), sign).value == (home + "/.espresso") + "/cachedPackages/" + sig + ".jar";
    assert "/.espresso" + "/cachedPackages/" == "/.espresso/cachedPackages/";
    assert (home + "/.espresso") + "/cachedPackages/" == home + "/.espresso/cachedPackages/";
  }
}
