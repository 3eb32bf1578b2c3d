/** The package search of `QueryRegistries` (core/service/registry.go): list every
    registry's catalog, keep the packages matching the term, and build one table row per
    kept package. `strings.ToLower` is the parameter `lower`; the table printing is not
    modelled. */
module Query {

  import opened Wrappers
  import opened Strs
  import opened Records
  import opened Resolve

  /** Unicode lower-casing. */
  type Lower = string -> string

  /** The filter: `*` keeps everything, otherwise the lower-cased name or description
      must contain the lower-cased term. */
  predicate Kept(term: string, lower: Lower, p: Package) {
    term == "*" || Contains(lower(p.name), lower(term)) || Contains(lower(p.description), lower(term))
  }

  /** The kept packages of one catalog, in catalog order. */
  function Filter(pkgs: seq<Package>, term: string, lower: Lower): (r: seq<Package>)
    ensures |r| <= |pkgs|
    ensures forall p :: p in r <==> p in pkgs && Kept(term, lower, p)
    decreases |pkgs|
  {
    if pkgs == [] then []
    else (if Kept(term, lower, pkgs[0]) then [pkgs[0]] else []) + Filter(pkgs[1..], term, lower)
  }

  /** The message of the panic on a registry whose listing fails. */
  function FetchFailure(reg: Registry, e: string): string {
    "An error occurred while fetching packages from the '" + reg.name + "' registry cache: " + e
  }

  /** Registry `k` is the first whose listing fails. */
  predicate FirstFailure(regs: seq<Registry>, catalog: Catalog, k: nat)
    requires k < |regs|
  {
    catalog(regs[k]).Err? && forall j :: 0 <= j < k ==> catalog(regs[j]).Ok?
  }

  /** The kept packages of all registries, registry after registry, or the first listing
      error, reported with the name of the registry that failed. */
  function Matches(regs: seq<Registry>, catalog: Catalog, term: string, lower: Lower): (r: Result<seq<Package>>)
    ensures r.Ok? <==> forall k :: 0 <= k < |regs| ==> catalog(regs[k]).Ok?
    ensures r.Err? ==> exists k :: 0 <= k < |regs| && FirstFailure(regs, catalog, k) && r.msg == FetchFailure(regs[k], catalog(regs[k]).msg)
    decreases |regs|
  {
    if regs == [] then Ok([])
    else match catalog(regs[0])
      case Err(e) => Err(FetchFailure(regs[0], e))
      case Ok(pkgs) =>
        match Matches(regs[1..], catalog, term, lower)
        case Err(e) =>
          assert forall k :: 1 <= k < |regs| ==> regs[k] == regs[1..][k - 1];
          Err(e)
        case Ok(rest) =>
          assert forall k :: 1 <= k < |regs| ==> regs[k] == regs[1..][k - 1];
          Ok(Filter(pkgs, term, lower) + rest)
  }

  /** The row of a package: group, name and the number of its last version, which panics
      (index out of range) when it has no versions. */
  function Row(p: Package): (r: Outcome<seq<string>>)
    ensures r.Panicked? <==> p.versions == []
    ensures r.Returned? ==> |r.result| == 3 && r.result[0] == p.group && r.result[1] == p.name
  {
    if p.versions == [] then Panicked("index out of range [-1]")
    else Returned([p.group, p.name, p.versions[|p.versions| - 1].number])
  }

  /** The rows of the kept packages, in order; the first package without versions
      panics. */
  function Rows(pkgs: seq<Package>): (r: Outcome<seq<seq<string>>>)
    decreases |pkgs|
  {
    if pkgs == [] then Returned([])
    else match Row(pkgs[0])
      case Panicked(why) => Panicked(why)
      case Returned(row) =>
        match Rows(pkgs[1..])
        case Panicked(why) => Panicked(why)
        case Returned(rest) => Returned([row] + rest)
  }

  /** What `QueryRegistries` computes: a listing error panics, and so does a kept package
      without versions; otherwise the table rows. */
  function QueryOutcome(regs: seq<Registry>, catalog: Catalog, term: string, lower: Lower): Outcome<seq<seq<string>>> {
    match Matches(regs, catalog, term, lower)
    case Err(e) => Panicked(e)
    case Ok(pkgs) => Rows(pkgs)
  }

  /** `QueryRegistries`: the filtering loop over registries and catalogs, then the row
      loop. */
  method QueryRegistries(regs: seq<Registry>, catalog: Catalog, term: string, lower: Lower)
    returns (r: Outcome<seq<seq<string>>>)
    ensures r == QueryOutcome(regs, catalog, term, lower)
  {
    var filtered: seq<Package> := [];
    var i := 0;
    assert regs[i..] == regs;
    if Matches(regs, catalog, term, lower).Ok? {
      assert filtered + Matches(regs, catalog, term, lower).value == Matches(regs, catalog, term, lower).value;
    }
    while i < |regs|
      invariant i <= |regs|
      invariant Matches(regs, catalog, term, lower) == PrefixedBy(filtered, Matches(regs[i..], catalog, term, lower))
    {
      MatchesStep(regs, i, catalog, term, lower, filtered);
      var listed := catalog(regs[i]);
      if listed.Err? {
        return Panicked(FetchFailure(regs[i], listed.msg));
      }
      var kept := FilterCatalog(listed.value, term, lower);
      filtered := filtered + kept;
      i := i + 1;
    }
    assert regs[i..] == [];
    assert filtered + [] == filtered;
    r := BuildRows(filtered);
  }

  /** The inner loop: the packages of one catalog that the term keeps. */
  method FilterCatalog(pkgs: seq<Package>, term: string, lower: Lower) returns (kept: seq<Package>)
    ensures kept == Filter(pkgs, term, lower)
  {
    kept := [];
    var j := 0;
    assert pkgs[j..] == pkgs;
    while j < |pkgs|
      invariant j <= |pkgs|
      invariant Filter(pkgs, term, lower) == kept + Filter(pkgs[j..], term, lower)
    {
      FilterStep(pkgs, j, term, lower, kept);
      if term == "*" || Contains(lower(pkgs[j].name), lower(term)) || Contains(lower(pkgs[j].description), lower(term)) {
        kept := kept + [pkgs[j]];
      }
      j := j + 1;
    }
    assert pkgs[j..] == [];
    assert kept + [] == kept;
  }

  /** The row loop: one row per package, or the panic of the first package without
      versions. */
  method BuildRows(pkgs: seq<Package>) returns (r: Outcome<seq<seq<string>>>)
    ensures r == Rows(pkgs)
  {
    var rows: seq<seq<string>> := [];
    var k := 0;
    assert pkgs[k..] == pkgs;
    if Rows(pkgs).Returned? {
      assert rows + Rows(pkgs).result == Rows(pkgs).result;
    }
    while k < |pkgs|
      invariant k <= |pkgs|
      invariant Rows(pkgs) == Appended(rows, Rows(pkgs[k..]))
    {
      assert pkgs[k..][0] == pkgs[k] && pkgs[k..][1..] == pkgs[k + 1..];
      var p := pkgs[k];
      if p.versions == [] {
        return Panicked("index out of range [-1]");
      }
      var row := [p.group, p.name, p.versions[|p.versions| - 1].number];
      var rest := Rows(pkgs[k + 1..]);
      if rest.Returned? {
        assert rows + ([row] + rest.result) == (rows + [row]) + rest.result;
      }
      rows := rows + [row];
      k := k + 1;
    }
    assert pkgs[k..] == [];
    assert rows + [] == rows;
    return Returned(rows);
  }

  function PrefixedBy(acc: seq<Package>, r: Result<seq<Package>>): Result<seq<Package>> {
    match r
    case Err(e) => Err(e)
    case Ok(ps) => Ok(acc + ps)
  }

  function Appended(acc: seq<seq<string>>, r: Outcome<seq<seq<string>>>): Outcome<seq<seq<string>>> {
    match r
    case Panicked(why) => Panicked(why)
    case Returned(rows) => Returned(acc + rows)
  }

  /** One turn of the package loop. */
  lemma FilterStep(pkgs: seq<Package>, j: nat, term: string, lower: Lower, acc: seq<Package>)
    requires j < |pkgs|
    ensures acc + Filter(pkgs[j..], term, lower)
      == (if Kept(term, lower, pkgs[j]) then acc + [pkgs[j]] else acc) + Filter(pkgs[j + 1..], term, lower)
  {
    assert pkgs[j..][0] == pkgs[j] && pkgs[j..][1..] == pkgs[j + 1..];
    var rest := Filter(pkgs[j + 1..], term, lower);
    if Kept(term, lower, pkgs[j]) {
      assert acc + ([pkgs[j]] + rest) == (acc + [pkgs[j]]) + rest;
    } else {
      assert [] + rest == rest;
    }
  }

  /** One turn of the registry loop. */
  lemma MatchesStep(regs: seq<Registry>, i: nat, catalog: Catalog, term: string, lower: Lower, acc: seq<Package>)
    requires i < |regs|
    ensures var l := catalog(regs[i]);
      PrefixedBy(acc, Matches(regs[i..], catalog, term, lower))
        == if l.Err? then Err(FetchFailure(regs[i], l.msg)) else PrefixedBy(acc + Filter(l.value, term, lower), Matches(regs[i + 1..], catalog, term, lower))
  {
    assert regs[i..][0] == regs[i] && regs[i..][1..] == regs[i + 1..];
    var l := catalog(regs[i]);
    var rest := Matches(regs[i + 1..], catalog, term, lower);
    if l.Ok? && rest.Ok? {
      assert acc + (Filter(l.value, term, lower) + rest.value) == (acc + Filter(l.value, term, lower)) + rest.value;
    }
  }

  /** Every string contains the empty string. */
  lemma ContainsEmpty(s: string)
    ensures Contains(s, "")
  {
  }

  /** An empty term keeps every package when lower-casing keeps the empty string empty. */
  lemma {:induction false} EmptyTermKeepsAll(pkgs: seq<Package>, lower: Lower)
    requires lower("") == ""
    ensures Filter(pkgs, "", lower) == pkgs
    decreases |pkgs|
  {
    if pkgs != [] {
      ContainsEmpty(lower(pkgs[0].name));
      EmptyTermKeepsAll(pkgs[1..], lower);
      assert [pkgs[0]] + pkgs[1..] == pkgs;
    }
  }

  /** A search keeps exactly the matching packages of the registries' catalogs, and one
      row per kept package. */
  lemma {:induction false} MatchesExactly(regs: seq<Registry>, catalog: Catalog, term: string, lower: Lower)
    requires Matches(regs, catalog, term, lower).Ok?
    ensures forall p :: p in Matches(regs, catalog, term, lower).value <==>
      Kept(term, lower, p) && exists k :: 0 <= k < |regs| && p in catalog(regs[k]).value
    decreases |regs|
  {
    if regs != [] {
      MatchesExactly(regs[1..], catalog, term, lower);
      var here := Filter(catalog(regs[0]).value, term, lower);
      var rest := Matches(regs[1..], catalog, term, lower).value;
      forall p
        ensures p in here + rest <==> Kept(term, lower, p) && exists k :: 0 <= k < |regs| && p in catalog(regs[k]).value
      {
        if p in rest {
          var k :| 0 <= k < |regs[1..]| && p in catalog(regs[1..][k]).value;
          assert p in catalog(regs[k + 1]).value;
        }
        if Kept(term, lower, p) && exists k :: 0 <= k < |regs| && p in catalog(regs[k]).value {
          var k :| 0 <= k < |regs| && p in catalog(regs[k]).value;
          if k > 0 {
            assert regs[1..][k - 1] == regs[k];
          }
        }
      }
    }
  }

  /** The rows are one per package, in order, each naming the package's group, name and
      last version; they exist exactly when every package has a version. */
  lemma {:induction false} RowsExactly(pkgs: seq<Package>)
    ensures Rows(pkgs).Returned? <==> forall k :: 0 <= k < |pkgs| ==> pkgs[k].versions != []
    ensures Rows(pkgs).Returned? ==> |Rows(pkgs).result| == |pkgs| && forall k :: 0 <= k < |pkgs| ==>
      Rows(pkgs).result[k] == [pkgs[k].group, pkgs[k].name, pkgs[k].versions[|pkgs[k].versions| - 1].number]
    decreases |pkgs|
  {
    if pkgs != [] {
      RowsExactly(pkgs[1..]);
      assert forall k :: 1 <= k < |pkgs| ==> pkgs[k] == pkgs[1..][k - 1];
    }
  }
}
