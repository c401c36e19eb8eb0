/** The second-generation extraction of `scripts/pipeline/pr_extraction.py`:
    one record per PR holding every kept comment body, the diff length and
    the first 300 characters of the diff, retained when more than five
    comments survive. A failed diff fetch gives `None`, and slicing `None`
    raises `TypeError` even though the length field guards against it. */
module PipelinePrExtraction {
  import opened Wrappers
  import opened Text
  import opened Seqs
  import opened PrGates

  const RepoLimit := 5
  const PrsPerRepo := 10
  const RetainThreshold := 5
  const CodeDiffLimit := 300

  datatype PrRecord = PrRecord(
    prTitle: string,
    prBody: string,
    prNumber: int,
    comments: seq<string>,
    numComments: nat,
    repository: string,
    diffLength: nat,
    codeDiff: string)

  /** `processComments` of this copy. */
  function ProcessComments(comments: seq<Comment>, pr: Pr, diff: Option<string>): (r: Result<PrRecord>)
    ensures r.Raised? <==> diff.None?
    ensures r.Raised? ==> r.error == TypeError
    ensures r.Ok? ==>
              && ReadAt(r.value.comments, Bodies(comments), Positions(QualityFn(UnwantedPatterns(GarbledThumbsUp)), comments))
              && (forall j :: 0 <= j < |comments| && IsQualityComment(comments[j], UnwantedPatterns(GarbledThumbsUp)) ==>
                    j in Positions(QualityFn(UnwantedPatterns(GarbledThumbsUp)), comments))
              && IsSubseq(r.value.comments, Bodies(comments))
              && (forall b :: b in r.value.comments <==>
                    exists c :: c in comments && IsQualityComment(c, UnwantedPatterns(GarbledThumbsUp)) && c.body == b)
              && r.value.numComments == |r.value.comments|
              && r.value.diffLength == |diff.value|
              && |r.value.codeDiff| <= CodeDiffLimit && StartsWith(diff.value, r.value.codeDiff)
              && (|diff.value| <= CodeDiffLimit ==> r.value.codeDiff == diff.value)
              && |r.value.prBody| <= PrBodyLimit
              && r.value.prNumber == pr.number
              && r.value.repository == pr.repositoryFullName.GetOr("Unknown")
  {
    match diff
    case None => Raised(TypeError)
    case Some(d) =>
      var quality := QualityBodies(comments, UnwantedPatterns(GarbledThumbsUp));
      QualityBodiesAtPositions(comments, UnwantedPatterns(GarbledThumbsUp));
      Ok(PrRecord(pr.title.GetOr("Unknown"), PrBody(pr), pr.number, quality, |quality|,
                  pr.repositoryFullName.GetOr("Unknown"), if d != "" then |d| else 0, Take(d, CodeDiffLimit)))
  }

  /** Whether some PR among `prs` has no diff. */
  predicate SomeDiffless(gh: GitHub, repoFullName: string, prs: seq<Pr>) {
    exists pr :: pr in prs && gh.diff(repoFullName, pr.number).None?
  }

  /** What one PR leaves in `all_discussions`: its record when more than
      five comments survive, nothing when fewer or when processing raises. */
  function Retained(gh: GitHub, repoFullName: string, pr: Pr): Option<PrRecord> {
    match ProcessComments(gh.comments(repoFullName, pr.number), pr, gh.diff(repoFullName, pr.number))
    case Ok(rec) => if rec.numComments > RetainThreshold then Some(rec) else None
    case Raised(_) => None
  }

  /** `Retained` as a value, for `FilterMap`. */
  function RetainedFn(gh: GitHub, repoFullName: string): Pr -> Option<PrRecord> {
    pr => Retained(gh, repoFullName, pr)
  }

  /** The inner loop: process each PR in order and keep the records with
      more than five comments. */
  function ExtractFromPrs(gh: GitHub, repoFullName: string, prs: seq<Pr>): (r: Result<seq<PrRecord>>)
    ensures r.Raised? <==> SomeDiffless(gh, repoFullName, prs)
    ensures r.Raised? ==> r.error == TypeError
    ensures r.Ok? ==> r.value == FilterMap(RetainedFn(gh, repoFullName), prs)
    ensures r.Ok? ==> |r.value| <= |prs|
    ensures r.Ok? ==> forall rec :: rec in r.value ==> rec.numComments > RetainThreshold
    ensures r.Ok? ==> forall rec :: rec in r.value ==>
              exists pr :: pr in prs && rec.prNumber == pr.number
                           && rec.repository == pr.repositoryFullName.GetOr("Unknown")
  {
    if |prs| == 0 then Ok([])
    else
      assert forall pr :: pr in prs <==> pr == prs[0] || pr in prs[1..];
      var pr := prs[0];
      match ProcessComments(gh.comments(repoFullName, pr.number), pr, gh.diff(repoFullName, pr.number))
      case Raised(e) => Raised(e)
      case Ok(rec) =>
        var rest :- ExtractFromPrs(gh, repoFullName, prs[1..]);
        if rec.numComments > RetainThreshold then Ok([rec] + rest) else Ok(rest)
  }

  /** The records the inner loop keeps are the values `Retained` yields,
      read at exactly the PRs where it yields one, in PR order. */
  lemma ExtractFromPrsAtPositions(gh: GitHub, repoFullName: string, prs: seq<Pr>)
    requires ExtractFromPrs(gh, repoFullName, prs).Ok?
    ensures var r := ExtractFromPrs(gh, repoFullName, prs).value;
            var pos := Positions(Defined(RetainedFn(gh, repoFullName)), prs);
            && |r| == |pos|
            && (forall k :: 0 <= k < |pos| ==> pos[k] < |prs| && Retained(gh, repoFullName, prs[pos[k]]) == Some(r[k]))
            && forall j :: 0 <= j < |prs| && Retained(gh, repoFullName, prs[j]).Some? ==> j in pos
  {
    FilterMapAtPositions(RetainedFn(gh, repoFullName), prs);
  }

  /** The records one repository contributes when nothing raises. */
  function RepoRecords(gh: GitHub, repoFullName: string): seq<PrRecord> {
    FilterMap(RetainedFn(gh, repoFullName), FirstSubstantialPrs(gh, repoFullName, PrsPerRepo))
  }

  /** Each repository's contribution, in repository order. */
  function AllRepoRecords(gh: GitHub, repos: seq<string>): (all: seq<seq<PrRecord>>)
    ensures |all| == |repos|
  {
    seq(|repos|, k requires 0 <= k < |repos| => RepoRecords(gh, repos[k]))
  }

  predicate AnyDiffless(gh: GitHub, repos: seq<string>) {
    exists k :: 0 <= k < |repos| && SomeDiffless(gh, repos[k], FirstSubstantialPrs(gh, repos[k], PrsPerRepo))
  }

  /** Some repository lacks a diff iff the first does or one of the rest
      does. */
  lemma AnyDifflessCons(gh: GitHub, repos: seq<string>)
    requires |repos| > 0
    ensures AnyDiffless(gh, repos) <==>
            SomeDiffless(gh, repos[0], FirstSubstantialPrs(gh, repos[0], PrsPerRepo)) || AnyDiffless(gh, repos[1..])
  {
    if AnyDiffless(gh, repos[1..]) {
      var k :| 0 <= k < |repos[1..]| && SomeDiffless(gh, repos[1..][k], FirstSubstantialPrs(gh, repos[1..][k], PrsPerRepo));
      assert repos[k + 1] == repos[1..][k];
    }
    if AnyDiffless(gh, repos) {
      var k :| 0 <= k < |repos| && SomeDiffless(gh, repos[k], FirstSubstantialPrs(gh, repos[k], PrsPerRepo));
      if k > 0 {
        assert repos[1..][k - 1] == repos[k];
      }
    }
  }

  function ExtractFromRepos(gh: GitHub, repos: seq<string>): (r: Result<seq<PrRecord>>)
    ensures r.Raised? <==> AnyDiffless(gh, repos)
    ensures r.Raised? ==> r.error == TypeError
    ensures r.Ok? ==> |r.value| <= PrsPerRepo * |repos|
    ensures r.Ok? ==> forall rec :: rec in r.value ==> rec.numComments > RetainThreshold && rec.repository in repos
  {
    if |repos| == 0 then Ok([])
    else
      var first := ExtractFromPrs(gh, repos[0], FirstSubstantialPrs(gh, repos[0], PrsPerRepo));
      var rest := ExtractFromRepos(gh, repos[1..]);
      AnyDifflessCons(gh, repos);
      match first
      case Raised(e) => Raised(e)
      case Ok(records) =>
        assert forall rec :: rec in records ==> rec.repository == repos[0];
        match rest
        case Raised(e) => Raised(e)
        case Ok(more) => Ok(records + more)
  }

  /** When nothing raises, the outer loop's records are every repository's
      contribution concatenated in repository order. */
  lemma {:induction false} ExtractFromReposIsFlatten(gh: GitHub, repos: seq<string>)
    requires ExtractFromRepos(gh, repos).Ok?
    ensures ExtractFromRepos(gh, repos).value == Flatten(AllRepoRecords(gh, repos))
  {
    if |repos| > 0 {
      var first := ExtractFromPrs(gh, repos[0], FirstSubstantialPrs(gh, repos[0], PrsPerRepo));
      var rest := ExtractFromRepos(gh, repos[1..]);
      assert first.Ok? && rest.Ok?;
      assert ExtractFromRepos(gh, repos).value == first.value + rest.value;
      ExtractFromReposIsFlatten(gh, repos[1..]);
      var all := AllRepoRecords(gh, repos);
      assert all[1..] == AllRepoRecords(gh, repos[1..]);
      assert all[0] == RepoRecords(gh, repos[0]) == first.value;
    }
  }

  /** `prDiscussionExtraction` of this copy: the first five repositories,
      ten substantial PRs each, the records with more than five kept
      comments, each naming its own repository; any missing diff makes the
      whole run raise. */
  function PrDiscussionExtraction(gh: GitHub, repos: seq<string>): (r: Result<seq<PrRecord>>)
    ensures r.Raised? <==> AnyDiffless(gh, Prefix(repos, RepoLimit))
    ensures r.Raised? ==> r.error == TypeError
    ensures r.Ok? ==> r.value == Flatten(AllRepoRecords(gh, Prefix(repos, RepoLimit)))
    ensures r.Ok? ==> |r.value| <= RepoLimit * PrsPerRepo
    ensures r.Ok? ==> forall rec :: rec in r.value ==>
              rec.numComments > RetainThreshold && rec.repository in Prefix(repos, RepoLimit)
  {
    var r := ExtractFromRepos(gh, Prefix(repos, RepoLimit));
    if r.Ok? then
      ExtractFromReposIsFlatten(gh, Prefix(repos, RepoLimit));
      r
    else r
  }
}
