/**
 * Searching the configured package sources for a package whose title is
 * exactly the name derived from a reference.
 */
module PackageSearch {
  import opened Wrappers

  /** A configured package source, in the order the NuGet settings list them. */
  datatype Repository = Repository(source: string)

  /** A search hit: the package title and the versions the source lists for it, in the source's order. */
  datatype Candidate = Candidate(title: string, versions: seq<string>)

  /**
   * The package search of a source: for a search term and the prerelease
   * filter, the results the source returns, best first.
   */
  type SearchOracle = (Repository, string, bool) -> seq<Candidate>

  /** The search asks for `skip` 0 and `take` 10. */
  const PageSize := 10

  /** The results a single search request receives. */
  function Page(results: seq<Candidate>): (r: seq<Candidate>)
    ensures |r| <= PageSize && r <= results
    ensures |results| <= PageSize ==> r == results
    ensures |results| > PageSize ==> |r| == PageSize
  {
    if |results| <= PageSize then results else results[..PageSize]
  }

  /** `i` is the position of the first candidate of `page` titled `name`. */
  ghost predicate IsFirstWithTitle(page: seq<Candidate>, i: int, name: string) {
    0 <= i < |page| && page[i].title == name && forall j :: 0 <= j < i ==> page[j].title != name
  }

  /** `FirstOrDefault(p => p.Title == name)`: the first candidate titled exactly `name`. */
  function FirstWithTitle(page: seq<Candidate>, name: string): (r: Option<Candidate>)
    ensures r.None? <==> forall c <- page :: c.title != name
    ensures r.Some? ==> exists i :: IsFirstWithTitle(page, i, name) && page[i] == r.value
  {
    if page == [] then None
    else if page[0].title == name then
      assert IsFirstWithTitle(page, 0, name);
      Some(page[0])
    else
      var r := FirstWithTitle(page[1..], name);
      if r.Some? then
        assert exists i :: IsFirstWithTitle(page, i, name) && page[i] == r.value by {
          var i :| IsFirstWithTitle(page[1..], i, name) && page[1..][i] == r.value;
          assert IsFirstWithTitle(page, i + 1, name);
        }
        r
      else r
  }

  /** `SearchForPackage`: the first of the first ten results of `repository` titled exactly `name`. */
  function SearchForPackage(repository: Repository, name: string, includePrerelease: bool,
                            search: SearchOracle): (r: Option<Candidate>)
    ensures r.Some? ==> r.value.title == name && r.value in Page(search(repository, name, includePrerelease))
    ensures r.None? <==> forall c <- Page(search(repository, name, includePrerelease)) :: c.title != name
  {
    FirstWithTitle(Page(search(repository, name, includePrerelease)), name)
  }

  /** The search of one repository for `name`, as a function of the repository. */
  function Probe(name: string, includePrerelease: bool, search: SearchOracle): Repository -> Option<Candidate> {
    repository => SearchForPackage(repository, name, includePrerelease, search)
  }

  /** `k` is the first of `repositories` whose probe finds something. */
  ghost predicate IsFirstHit(repositories: seq<Repository>, k: int, probe: Repository -> Option<Candidate>) {
    0 <= k < |repositories| && probe(repositories[k]).Some?
    && forall j :: 0 <= j < k ==> probe(repositories[j]).None?
  }

  /**
   * The package the repositories yield when they are probed in order until one
   * of them finds it.
   */
  function SearchAll(repositories: seq<Repository>, probe: Repository -> Option<Candidate>): Option<Candidate>
    decreases |repositories|
  {
    if repositories == [] then None
    else if probe(repositories[0]).Some? then probe(repositories[0])
    else SearchAll(repositories[1..], probe)
  }

  /**
   * The search finds nothing exactly when no repository has a hit, and
   * otherwise yields the hit of the earliest repository that has one.
   */
  lemma {:induction false} SearchAllFinds(repositories: seq<Repository>, probe: Repository -> Option<Candidate>)
    ensures SearchAll(repositories, probe).None? <==> forall k :: 0 <= k < |repositories| ==> probe(repositories[k]).None?
    ensures SearchAll(repositories, probe).Some? ==>
              exists k :: IsFirstHit(repositories, k, probe) && SearchAll(repositories, probe) == probe(repositories[k])
    decreases |repositories|
  {
    if repositories != [] {
      if probe(repositories[0]).Some? {
        assert IsFirstHit(repositories, 0, probe);
      } else {
        SearchAllFinds(repositories[1..], probe);
        assert forall k :: 1 <= k < |repositories| ==> repositories[k] == repositories[1..][k - 1];
        if SearchAll(repositories, probe).Some? {
          var k :| IsFirstHit(repositories[1..], k, probe) && SearchAll(repositories, probe) == probe(repositories[1..][k]);
          assert IsFirstHit(repositories, k + 1, probe);
        }
      }
    }
  }

  /** The earliest repository with a hit decides the result of the whole search. */
  lemma {:induction false} SearchAllIsFirstHit(repositories: seq<Repository>, k: int,
                                               probe: Repository -> Option<Candidate>)
    requires IsFirstHit(repositories, k, probe)
    ensures SearchAll(repositories, probe) == probe(repositories[k])
    decreases k
  {
    if k > 0 {
      assert IsFirstHit(repositories[1..], k - 1, probe);
      SearchAllIsFirstHit(repositories[1..], k - 1, probe);
    }
  }

  /**
   * The loop of `ProcessAssemblyReference` that asks the repositories in turn,
   * `probe` being the search of one repository for the reference's name, and
   * stops at the first hit. `queried` lists the repositories asked, in order:
   * a prefix of the list that ends at the first repository with a hit, or the
   * whole list when none has one.
   */
  method FindPackage(repositories: seq<Repository>, probe: Repository -> Option<Candidate>)
    returns (package: Option<Candidate>, queried: seq<Repository>)
    ensures package == SearchAll(repositories, probe)
    ensures queried <= repositories
    ensures package.None? ==> queried == repositories
    ensures package.Some? ==> IsFirstHit(repositories, |queried| - 1, probe)
  {
    package, queried := None, [];
    var i := 0;
    while i < |repositories|
      invariant 0 <= i <= |repositories|
      invariant queried == repositories[..i]
      invariant package.None?
      invariant forall j :: 0 <= j < i ==> probe(repositories[j]).None?
    {
      package := probe(repositories[i]);
      queried := queried + [repositories[i]];
      if package.Some? {
        assert queried == repositories[..i + 1];
        assert IsFirstHit(repositories, i, probe);
        SearchAllIsFirstHit(repositories, i, probe);
        break;
      }
      i := i + 1;
    }
    if package.None? {
      assert repositories[..i] == repositories;
      SearchAllFinds(repositories, probe);
    }
  }
}
