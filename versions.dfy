/** `GetVersionAsString` in its two revisions: the value-receiver one
    (core/context/project/util.go) and the pointer one that panics on nil
    (core/project/config.go). Both print `major.minor.patch` with `%d` and glue the hotfix
    on with no separator. */
module Versions {

  import opened Wrappers
  import opened Strs
  import opened Records

  /** `major.minor.patch` in decimal, then the hotfix text if there is one. */
  function VersionString(v: Version): (r: string)
    ensures v.hotfix.Some? ==> HasSuffix(r, v.hotfix.value)
    ensures HasPrefix(r, IntDecimal(v.major as int) + ".")
  {
    var base := IntDecimal(v.major as int) + "." + IntDecimal(v.minor as int) + "." + IntDecimal(v.patch as int);
    match v.hotfix
    case None => base
    case Some(h) => base + h
  }

  /** The pointer revision: a nil version panics, any other version is formatted as above. */
  function VersionStringOf(v: Option<Version>): (r: Outcome<string>)
    ensures r.Panicked? <==> v.None?
  {
    match v
    case None => Panicked("version is nil")
    case Some(ver) =>
      var s := IntDecimal(ver.major as int) + "." + IntDecimal(ver.minor as int) + "." + IntDecimal(ver.patch as int);
      Returned(if ver.hotfix.Some? then s + ver.hotfix.value else s)
  }

  /** The two revisions agree on every version the pointer one can see. */
  lemma RevisionsAgree(v: Version)
    ensures VersionStringOf(Some(v)) == Returned(VersionString(v))
  {
  }

  lemma FieldsSplit(v: Version)
    requires v.hotfix.None?
    ensures Split(VersionString(v), '.') == [IntDecimal(v.major as int), IntDecimal(v.minor as int), IntDecimal(v.patch as int)]
  {
    var a, b, c := IntDecimal(v.major as int), IntDecimal(v.minor as int), IntDecimal(v.patch as int);
    var rest := b + ['.'] + c;
    assert Split(rest, '.') == [b, c] by {
      SplitCons(b, '.', c);
      SplitNone(c, '.');
    }
    assert VersionString(v) == a + ['.'] + rest;
    SplitCons(a, '.', rest);
    assert [a] + [b, c] == [a, b, c];
  }

  /** Without a hotfix the text is three `.`-separated decimal fields, and reading
      them back gives the version numbers. */
  lemma FieldsReadBack(v: Version)
    requires v.hotfix.None?
    ensures var fields := [IntDecimal(v.major as int), IntDecimal(v.minor as int), IntDecimal(v.patch as int)];
      Split(VersionString(v), '.') == fields
      && ParseInt(fields[0]) == v.major as int && ParseInt(fields[1]) == v.minor as int && ParseInt(fields[2]) == v.patch as int
  {
    FieldsSplit(v);
    ParseIntDecimal(v.major as int);
    ParseIntDecimal(v.minor as int);
    ParseIntDecimal(v.patch as int);
  }

  /** The hotfix is appended verbatim to the text of the same version without it. */
  lemma HotfixAppended(v: Version)
    requires v.hotfix.Some?
    ensures VersionString(v) == VersionString(v.(hotfix := None)) + v.hotfix.value
  {
  }

  /** Versions without a hotfix never share a text. */
  lemma NoHotfixInjective(v: Version, w: Version)
    requires v.hotfix.None? && w.hotfix.None?
    requires VersionString(v) == VersionString(w)
    ensures v == w
  {
    FieldsReadBack(v);
    FieldsReadBack(w);
  }

  /** With hotfixes, distinct versions can collide: 1.2.3 with hotfix "4" and 1.2.34 both
      print as `1.2.34`, so a dependency on either matches a registry version `1.2.34`. */
  lemma HotfixCollision()
    ensures Version(1, 2, 3, Some("4")) != Version(1, 2, 34, None)
    ensures VersionString(Version(1, 2, 3, Some("4"))) == "1.2.34"
    ensures VersionString(Version(1, 2, 34, None)) == "1.2.34"
  {
    assert NatDecimal(34) == NatDecimal(3) + [Digit(4)];
  }
}
