/** Incremental repository discovery: load the repositories found by earlier
    runs, search seven result pages for each of five languages while
    skipping known ids, filter the new repositories, and renumber the
    combined list. */
module DiscoverRepo {
  import opened Wrappers
  import opened Seqs
  import opened RepoQuality

  const Languages: seq<string> := ["C++", "java", "C", "rust", "go"]
  const PageCount := 7

  /** The repository search as a function of language and page number. */
  type Search = (string, int) -> seq<RepoInfo>

  function Ids(repos: seq<QualityRepo>): (ids: set<int>)
    ensures forall r :: r in repos ==> r.id in ids
    ensures forall i :: i in ids ==> exists r :: r in repos && r.id == i
  {
    set r | r in repos :: r.id
  }

  datatype Existing = Existing(repos: seq<QualityRepo>, ids: set<int>)

  /** `load_existing_repo_ids`: the earlier output file's records and their
      ids; a missing file (`None`) gives nothing. */
  function LoadExistingRepoIds(file: Option<seq<QualityRepo>>): (e: Existing)
    ensures file.None? ==> e.repos == [] && e.ids == {}
    ensures file.Some? ==> e.repos == file.value
    ensures forall i :: i in e.ids <==> exists r :: r in e.repos && r.id == i
  {
    match file
    case None => Existing([], {})
    case Some(repos) => Existing(repos, Ids(repos))
  }

  function NotSkipped(skip: set<int>): RepoInfo -> bool {
    (r: RepoInfo) => r.id !in skip
  }

  /** The `skip_ids` filter of `searchRepos`: drops known ids, keeps order.
      The `if skip_ids` guard only spares the work for an empty set. */
  function SkipKnown(repos: seq<RepoInfo>, skip: set<int>): (r: seq<RepoInfo>)
    ensures forall x :: x in r <==> x in repos && x.id !in skip
    ensures IsSubseq(r, repos)
    ensures skip == {} ==> r == repos
  {
    if skip == {} then
      FilterAllPass(NotSkipped(skip), repos);
      Filter(NotSkipped(skip), repos)
    else Filter(NotSkipped(skip), repos)
  }

  /** The raw results of pages 1..7, in page order. */
  function RawPages(search: Search, language: string): (pages: seq<seq<RepoInfo>>)
    ensures |pages| == PageCount
    ensures forall k :: 0 <= k < PageCount ==> pages[k] == search(language, k + 1)
  {
    seq(PageCount, k requires 0 <= k < PageCount => search(language, k + 1))
  }

  /** `searchPages`: each page searched with known ids skipped, the results
      concatenated in page order, which is the skip filter applied to all
      seven pages at once. */
  function SearchPages(search: Search, language: string, skip: set<int>): (r: seq<RepoInfo>)
    ensures r == SkipKnown(Flatten(RawPages(search, language)), skip)
    ensures forall x :: x in r ==> x.id !in skip
  {
    var pages := RawPages(search, language);
    var results := seq(PageCount, k requires 0 <= k < PageCount => SkipKnown(pages[k], skip));
    assert forall k :: 0 <= k < PageCount ==> results[k] == Filter(NotSkipped(skip), pages[k]);
    FilterFlatten(NotSkipped(skip), pages, results);
    Flatten(results)
  }

  /** The raw search results: each language's seven pages in page order,
      the languages in order. */
  function RawResults(search: Search, languages: seq<string>): (r: seq<RepoInfo>)
    ensures |languages| > 0 ==> r == Flatten(RawPages(search, languages[0])) + RawResults(search, languages[1..])
  {
    var perLanguage := seq(|languages|, k requires 0 <= k < |languages| => Flatten(RawPages(search, languages[k])));
    if |languages| > 0 then
      assert perLanguage[1..] == seq(|languages| - 1, k requires 0 <= k < |languages| - 1 => Flatten(RawPages(search, languages[1..][k])));
      Flatten(perLanguage)
    else Flatten(perLanguage)
  }

  /** Every language's pages, in language order: the skip filter applied to
      all raw results at once. */
  function SearchLanguages(search: Search, languages: seq<string>, skip: set<int>): (r: seq<RepoInfo>)
    ensures r == SkipKnown(RawResults(search, languages), skip)
    ensures forall x :: x in r ==> x.id !in skip
  {
    if |languages| == 0 then []
    else
      FilterConcat(NotSkipped(skip), Flatten(RawPages(search, languages[0])), RawResults(search, languages[1..]));
      SearchPages(search, languages[0], skip) + SearchLanguages(search, languages[1..], skip)
  }

  /** Sets `total_index` to the one-based position in the combined list. */
  function RenumberTotal(repos: seq<QualityRepo>): (r: seq<QualityRepo>)
    ensures |r| == |repos|
    ensures forall k :: 0 <= k < |r| ==> r[k] == repos[k].(totalIndex := Some(k + 1))
  {
    seq(|repos|, k requires 0 <= k < |repos| => repos[k].(totalIndex := Some(k + 1)))
  }

  /** Every kept record carries the id of some input repository. */
  lemma KeptIdsComeFromInput(found: seq<RepoInfo>, p: Policy, numbered: bool)
    ensures var out := FilterRepos(found, p, numbered);
            forall k :: 0 <= k < |out| ==> exists x :: x in found && x.id == out[k].id
  {
    var out := FilterRepos(found, p, numbered);
    var pos := Positions(KeepsFn(p), found);
    forall k | 0 <= k < |out|
      ensures exists x :: x in found && x.id == out[k].id
    {
      assert found[pos[k]] in found;
    }
  }

  /** `combined` is `existing` followed by new records, all numbered
      `1..n` by `total_index`; the earlier records are otherwise unchanged,
      and the new ones keep their own `index` `1..m` and repeat no earlier
      id. */
  predicate ExtendsNumbered(existing: seq<QualityRepo>, combined: seq<QualityRepo>) {
    && |existing| <= |combined|
    && (forall k :: 0 <= k < |combined| ==> combined[k].totalIndex == Some(k + 1))
    && (forall k :: 0 <= k < |existing| ==> combined[k] == existing[k].(totalIndex := Some(k + 1)))
    && (forall k :: |existing| <= k < |combined| ==>
          && combined[k].index == Some(k - |existing| + 1)
          && combined[k].id !in Ids(existing))
  }

  /** Renumbering the earlier records followed by new, distinct-id ones. */
  lemma CombinedNumbering(existing: seq<QualityRepo>, discovered: seq<QualityRepo>)
    requires forall k :: 0 <= k < |discovered| ==>
               discovered[k].index == Some(k + 1) && discovered[k].id !in Ids(existing)
    ensures ExtendsNumbered(existing, RenumberTotal(existing + discovered))
  {
    var all := existing + discovered;
    assert forall k :: |existing| <= k < |all| ==> all[k] == discovered[k - |existing|];
  }

  /** The new records are numbered `1..m` and avoid every known id. */
  lemma DiscoveredAreNew(found: seq<RepoInfo>, known: set<int>)
    requires forall x :: x in found ==> x.id !in known
    ensures var discovered := FilterRepos(found, RelaxedScreenedPolicy, true);
            forall k :: 0 <= k < |discovered| ==>
              discovered[k].index == Some(k + 1) && discovered[k].id !in known
  {
    KeptIdsComeFromInput(found, RelaxedScreenedPolicy, true);
  }

  /** After the `existing` records, `combined` holds exactly the search
      results `found` that the relaxed, screened filter keeps, in order: the
      record of the `k`-th kept repository, numbered `k + 1` by `index` and
      placed after the earlier ones by `total_index`. */
  ghost predicate AppendsKept(existing: seq<QualityRepo>, found: seq<RepoInfo>, combined: seq<QualityRepo>) {
    var pos := Positions(KeepsFn(RelaxedScreenedPolicy), found);
    && |combined| == |existing| + |pos|
    && (forall k :: 0 <= k < |pos| ==>
          && Keeps(RelaxedScreenedPolicy, found[pos[k]])
          && combined[|existing| + k] == Record(found[pos[k]], Some(k + 1)).(totalIndex := Some(|existing| + k + 1)))
    && forall j :: 0 <= j < |found| && Keeps(RelaxedScreenedPolicy, found[j]) ==> j in pos
  }

  /** Renumbering the earlier records followed by the filtered results
      appends the kept results. */
  lemma AppendedRecords(existing: seq<QualityRepo>, found: seq<RepoInfo>)
    ensures AppendsKept(existing, found, RenumberTotal(existing + FilterRepos(found, RelaxedScreenedPolicy, true)))
  {
    var discovered := FilterRepos(found, RelaxedScreenedPolicy, true);
    var all := existing + discovered;
    assert forall k :: 0 <= k < |discovered| ==> all[|existing| + k] == discovered[k];
  }

  /** `repositoryDiscovery`: the earlier records followed by the newly kept
      ones, numbered `1..n` by `total_index`. No new record repeats the id
      of an earlier one, and the new records keep their own `index` `1..m`. */
  function RepositoryDiscovery(search: Search, file: Option<seq<QualityRepo>>): (combined: seq<QualityRepo>)
    ensures ExtendsNumbered(LoadExistingRepoIds(file).repos, combined)
    ensures var e := LoadExistingRepoIds(file);
            AppendsKept(e.repos, SkipKnown(RawResults(search, Languages), e.ids), combined)
  {
    var e := LoadExistingRepoIds(file);
    var found := SearchLanguages(search, Languages, e.ids);
    var discovered := FilterRepos(found, RelaxedScreenedPolicy, true);
    DiscoveredAreNew(found, e.ids);
    assert Ids(e.repos) == e.ids;
    CombinedNumbering(e.repos, discovered);
    AppendedRecords(e.repos, found);
    RenumberTotal(e.repos + discovered)
  }
}
