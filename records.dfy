/** The records the build pipeline passes around: the project configuration read from
    `espresso.yml`, the registries it names and the packages a registry catalog declares. */
module Records {

  import opened Wrappers

  /** Go's `int64`. */
  newtype int64 = x: int | -0x8000_0000_0000_0000 <= x < 0x8000_0000_0000_0000

  /** A semantic version; the hotfix is an optional free-form suffix. */
  datatype Version = Version(major: int64, minor: int64, patch: int64, hotfix: Option<string>)

  /** A dependency as the project declares it. */
  datatype Dependency = Dependency(group: string, name: string, version: Version)

  /** A registry: its name (the cache directory) and the URL of its archive. */
  datatype Registry = Registry(name: string, url: string)

  /** The JDK installation: `path` is the directory holding `bin/`. */
  datatype Toolchain = Toolchain(path: string)

  datatype ProjectConfig = ProjectConfig(
    name: string,
    version: Version,
    basePackage: string,
    toolchain: Toolchain,
    dependencies: seq<Dependency>,
    registries: seq<Registry>)

  /** One published version of a package. */
  datatype PackageVersion = PackageVersion(
    number: string,
    artifactUrl: string,
    transientDependencies: seq<string>,
    isAnnotationProcessor: bool)

  /** The contents of a package declaration file. */
  datatype PackageDeclaration = PackageDeclaration(
    name: string,
    description: string,
    versions: seq<PackageVersion>)

  /** A package of a registry catalog, tagged with the registry it came from. */
  datatype Package = Package(
    group: string,
    name: string,
    description: string,
    versions: seq<PackageVersion>,
    declaration: PackageDeclaration,
    registry: Registry)
}
