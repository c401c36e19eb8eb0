/** The repository quality filter in its three versions: a conjunction of
    activity thresholds, then (in the later versions) a screen that drops
    curated-list repositories by keyword unless they are whitelisted, and
    consecutive numbering of the kept records. `scripts/repo_discovery.py`
    and `scripts/pipeline.py` hold the same unscreened, unnumbered filter. */
module RepoQuality {
  import opened Wrappers
  import opened Text
  import opened Seqs

  /** A repository as the search API returns it. Fields that are only copied
      through (language, dates, wiki and pages flags, URL) are left out. */
  datatype RepoInfo = RepoInfo(
    id: int,
    name: string,
    fullName: string,
    description: Option<string>,
    stars: int,
    forks: int,
    openIssues: int,
    size: int,
    licenseName: Option<string>,
    archived: bool,
    disabled: bool)

  /** The record kept for a repository. `index` and `totalIndex` are `None`
      where a version does not emit them (or, for `totalIndex`, before the
      combined list is renumbered). */
  datatype QualityRepo = QualityRepo(
    index: Option<nat>,
    totalIndex: Option<nat>,
    id: int,
    name: string,
    fullName: string,
    description: string,
    stars: int,
    forks: int,
    openIssues: int,
    size: int,
    license: string)

  const DescriptionLimit := 200

  /** The star and fork minimums of one version. */
  datatype Thresholds = Thresholds(minStars: int, minForks: int)

  const StrictThresholds := Thresholds(1000, 100)
  const RelaxedThresholds := Thresholds(500, 50)

  /** The threshold conjunction every version applies. */
  predicate PassesThreshold(r: RepoInfo, t: Thresholds) {
    && r.stars >= t.minStars
    && r.forks >= t.minForks
    && 5 < r.openIssues < 500
    && r.size > 100
    && r.licenseName.Some?
    && r.description.Some? && |r.description.value| > 20
    && !r.archived
    && !r.disabled
  }

  /** The relaxed thresholds admit every repository the strict ones do. */
  lemma StrictImpliesRelaxed(r: RepoInfo)
    requires PassesThreshold(r, StrictThresholds)
    ensures PassesThreshold(r, RelaxedThresholds)
  {
  }

  const AvoidKeywords: seq<string> := [
    "awesome-", "free-programming-books", "big-list-of", "list of useful",
    "list of awesome", "opinionated list", "various collection", "collection of awesome"]

  const Whitelist: seq<string> := ["labmlai/annotated_deep_learning_paper_implementations"]

  /** The description as recorded: at most 200 characters, empty when absent. */
  function RecordedDescription(r: RepoInfo): (d: string)
    ensures |d| <= DescriptionLimit
    ensures r.description.Some? ==> StartsWith(r.description.value, d)
    ensures r.description.Some? && |r.description.value| <= DescriptionLimit ==> d == r.description.value
  {
    Take(r.description.GetOr(""), DescriptionLimit)
  }

  /** An avoid-keyword occurs in the lowercased name or in the lowercased,
      truncated description. */
  predicate IsDirectory(r: RepoInfo) {
    exists kw :: kw in AvoidKeywords
                 && (Contains(Lower(r.name), kw) || Contains(Lower(RecordedDescription(r)), kw))
  }

  /** A version of the filter: its thresholds and whether it screens out
      curated lists. */
  datatype Policy = Policy(thresholds: Thresholds, screened: bool)

  predicate Keeps(p: Policy, r: RepoInfo) {
    && PassesThreshold(r, p.thresholds)
    && (!p.screened || r.fullName in Whitelist || !IsDirectory(r))
  }

  /** `Keeps` as a value, for `Filter`. */
  function KeepsFn(p: Policy): RepoInfo -> bool {
    r => Keeps(p, r)
  }

  /** The record built for a kept repository; the license is its name. */
  function Record(r: RepoInfo, index: Option<nat>): (q: QualityRepo)
    requires r.licenseName.Some?
    ensures q.id == r.id && q.name == r.name && q.fullName == r.fullName
    ensures q.index == index && q.totalIndex == None
    ensures q.license == r.licenseName.value
    ensures q.description == RecordedDescription(r) && |q.description| <= DescriptionLimit
    ensures q.stars == r.stars && q.forks == r.forks && q.openIssues == r.openIssues && q.size == r.size
  {
    QualityRepo(index, None, r.id, r.name, r.fullName, RecordedDescription(r),
                r.stars, r.forks, r.openIssues, r.size, r.licenseName.value)
  }

  /** `filterRepos`: one record per kept repository, in input order,
      numbered `1..n` when `numbered`. The records are exactly the input
      read at the kept positions. */
  function FilterRepos(repos: seq<RepoInfo>, p: Policy, numbered: bool): (out: seq<QualityRepo>)
    ensures var pos := Positions(KeepsFn(p), repos);
            && |out| == |pos|
            && forall k :: 0 <= k < |out| ==>
                 && Keeps(p, repos[pos[k]])
                 && out[k] == Record(repos[pos[k]], if numbered then Some(k + 1) else None)
    ensures forall j :: 0 <= j < |repos| && Keeps(p, repos[j]) ==> j in Positions(KeepsFn(p), repos)
    ensures |out| <= |repos|
  {
    var kept := Filter(KeepsFn(p), repos);
    KeptAtPositions(repos, p);
    seq(|kept|, k requires 0 <= k < |kept| => Record(kept[k], if numbered then Some(k + 1) else None))
  }

  /** The kept repositories are the input read at the kept positions. */
  lemma KeptAtPositions(repos: seq<RepoInfo>, p: Policy)
    ensures var kept := Filter(KeepsFn(p), repos);
            var pos := Positions(KeepsFn(p), repos);
            && |kept| == |pos|
            && forall k :: 0 <= k < |kept| ==> pos[k] < |repos| && kept[k] == repos[pos[k]] && Keeps(p, kept[k])
  {
    FilterAtPositions(KeepsFn(p), repos);
  }

  /** The filter of `scripts/repo_discovery.py` and `scripts/pipeline.py`. */
  const UnscreenedPolicy := Policy(StrictThresholds, false)
  /** The filter of `scripts/pipeline/repo_discovery.py`. */
  const ScreenedPolicy := Policy(StrictThresholds, true)
  /** The filter of `scripts/pipeline/discover_repo.py`. */
  const RelaxedScreenedPolicy := Policy(RelaxedThresholds, true)

  /** The screen never drops a whitelisted repository, and drops every
      other curated list. */
  lemma ScreenDecides(p: Policy, r: RepoInfo)
    requires p.screened && PassesThreshold(r, p.thresholds)
    ensures r.fullName in Whitelist ==> Keeps(p, r)
    ensures r.fullName !in Whitelist ==> (Keeps(p, r) <==> !IsDirectory(r))
  {
  }

  /** A repository named `awesome-python` is a curated list, so the
      screened filter drops it whatever its thresholds, unless it is
      whitelisted. */
  lemma AwesomeListIsDirectory(r: RepoInfo, t: Thresholds)
    requires r.name == "awesome-python"
    ensures IsDirectory(r)
    ensures r.fullName !in Whitelist ==> !Keeps(Policy(t, true), r)
  {
    assert Lower(r.name)[..8] == "awesome-";
    assert Contains(Lower(r.name), AvoidKeywords[0]);
  }

  /** Screening only removes: everything the screened filter keeps, the
      unscreened one with the same thresholds keeps too. */
  lemma ScreeningOnlyRemoves(t: Thresholds, repos: seq<RepoInfo>)
    ensures IsSubseq(Filter(KeepsFn(Policy(t, true)), repos), Filter(KeepsFn(Policy(t, false)), repos))
  {
    SubFilter(KeepsFn(Policy(t, true)), KeepsFn(Policy(t, false)), repos);
  }

  /** Filtering with a stronger predicate yields a subsequence of filtering
      with a weaker one. */
  lemma {:induction false} SubFilter<T(!new)>(strong: T -> bool, weak: T -> bool, s: seq<T>)
    requires forall x :: strong(x) ==> weak(x)
    ensures IsSubseq(Filter(strong, s), Filter(weak, s))
  {
    if |s| > 0 {
      SubFilter(strong, weak, s[1..]);
      var a := Filter(strong, s[1..]);
      var b := Filter(weak, s[1..]);
      if strong(s[0]) {
        assert Filter(strong, s) == [s[0]] + a && Filter(weak, s) == [s[0]] + b;
        assert ([s[0]] + a)[1..] == a && ([s[0]] + b)[1..] == b;
      } else if weak(s[0]) {
        assert Filter(weak, s) == [s[0]] + b;
        assert ([s[0]] + b)[1..] == b;
        SubseqDropPrefix(Filter(strong, s), [s[0]], b);
      }
    }
  }
}
