/** `CalculatePackageSignature` (core/registry/implementation.go): the lower-case hex text
    of a hash of `group:name:number`. The digest itself (SHA-256) is a parameter `hash`;
    only what the code does around it is modelled. */
module Signatures {

  import opened Wrappers
  import opened Utf8
  import opened Records

  /** A digest function over bytes. */
  type Hash = seq<byte> -> seq<byte>

  /** A lower-case hexadecimal digit. */
  function HexDigit(d: nat): (c: char)
    requires d < 16
    ensures d < 10 ==> c == ('0' as int + d) as char
    ensures d >= 10 ==> c == ('a' as int + d - 10) as char
  {
    if d < 10 then ('0' as int + d) as char else ('a' as int + d - 10) as char
  }

  /** `fmt.Sprintf("%x", digest)`: two digits per byte, high nibble first. */
  function Hex(bs: seq<byte>): (r: string)
    ensures |r| == 2 * |bs|
    decreases |bs|
  {
    if bs == [] then [] else [HexDigit(bs[0] as int / 16), HexDigit(bs[0] as int % 16)] + Hex(bs[1..])
  }

  /** Different digests never print the same. */
  lemma {:induction false} HexInjective(a: seq<byte>, b: seq<byte>)
    requires Hex(a) == Hex(b)
    ensures a == b
    decreases |a|
  {
    if a != [] {
      assert Hex(a)[0] == Hex(b)[0] && Hex(a)[1] == Hex(b)[1];
      assert a[0] as int / 16 == b[0] as int / 16;
      assert a[0] as int % 16 == b[0] as int % 16;
      assert Hex(a)[2..] == Hex(a[1..]) && Hex(b)[2..] == Hex(b[1..]);
      HexInjective(a[1..], b[1..]);
      assert a == [a[0]] + a[1..] && b == [b[0]] + b[1..];
    }
  }

  /** The text that is hashed. */
  function Coordinates(group: string, name: string, number: string): string {
    group + ":" + name + ":" + number
  }

  /** `CalculatePackageSignature(dep, version)`: panics on a nil argument, otherwise hashes
      the coordinates; the registry, the description and the artifact URL play no part. */
  function CalculatePackageSignature(hash: Hash, pkg: Option<Package>, version: Option<PackageVersion>): (r: Outcome<string>)
    ensures r.Panicked? <==> pkg.None? || version.None?
    ensures r.Returned? ==> |r.result| == 2 * |hash(EncodeString(Coordinates(pkg.value.group, pkg.value.name, version.value.number)))|
  {
    if pkg.None? || version.None? then Panicked("dep or version was nil")
    else Returned(Hex(hash(EncodeString(Coordinates(pkg.value.group, pkg.value.name, version.value.number)))))
  }

  /** Equal signatures come from equal digests: the hex text loses nothing. */
  lemma SignatureDeterminesDigest(hash: Hash, p: Package, v: PackageVersion, q: Package, w: PackageVersion)
    requires CalculatePackageSignature(hash, Some(p), Some(v)) == CalculatePackageSignature(hash, Some(q), Some(w))
    ensures hash(EncodeString(Coordinates(p.group, p.name, v.number))) == hash(EncodeString(Coordinates(q.group, q.name, w.number)))
  {
    HexInjective(hash(EncodeString(Coordinates(p.group, p.name, v.number))), hash(EncodeString(Coordinates(q.group, q.name, w.number))));
  }

  /** The same coordinates in two registries give the same signature, so the two
      artifacts share one cache file. */
  lemma SignatureIgnoresRegistry(hash: Hash, p: Package, v: PackageVersion, r: Registry)
    ensures CalculatePackageSignature(hash, Some(p), Some(v)) == CalculatePackageSignature(hash, Some(p.(registry := r)), Some(v))
  {
  }

  /** The separator is not escaped: group `a:b` with name `c` and group `a` with name `b:c`
      hash the same text, whatever the digest. */
  lemma SeparatorCollision(hash: Hash, p: Package, q: Package, v: PackageVersion)
    requires p.group == "a:b" && p.name == "c" && q.group == "a" && q.name == "b:c"
    ensures p != q
    ensures CalculatePackageSignature(hash, Some(p), Some(v)) == CalculatePackageSignature(hash, Some(q), Some(v))
  {
    assert Coordinates(p.group, p.name, v.number) == Coordinates(q.group, q.name, v.number);
  }
}
