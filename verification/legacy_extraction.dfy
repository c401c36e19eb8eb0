/** The first-generation extraction shared by `scripts/pipeline.py` and
    `scripts/pr_extraction.py`: per repository, the substantial PRs, and per
    PR one record for each kept comment. In both copies the `return` of
    `processComments` sits inside the comment loop, so only the first
    comment is ever examined and an empty comment list yields `None`, on
    which the caller's `len` raises. The copies differ only in the spelling
    of the thumbs-up pattern, which the `Unwanted` parameter carries.

    The search helper of these copies returns a freshly parsed response, so
    the repository name it stamps is lost; the PR's `repositoryFullName` is
    whatever the search result itself carries. */
module LegacyExtraction {
  import opened Wrappers
  import opened Text
  import opened Seqs
  import opened PrGates

  const RepoLimit := 10
  const PrsPerRepo := 10

  /** The per-comment record these copies emit. */
  datatype CommentRecord = CommentRecord(
    prTitle: string,
    prBody: string,
    prNumber: int,
    commentId: int,
    author: string,
    body: string,
    createdAt: string,
    updatedAt: string,
    repository: string,
    commentLength: nat)

  function MakeRecord(c: Comment, pr: Pr): (r: CommentRecord)
    ensures r.body == c.body && r.commentLength == |c.body|
    ensures r.commentId == c.id && r.author == c.login
    ensures r.prNumber == pr.number && |r.prBody| <= PrBodyLimit
    ensures r.prTitle == pr.title.GetOr("Unknown")
    ensures r.repository == pr.repositoryFullName.GetOr("Unknown")
  {
    CommentRecord(pr.title.GetOr("Unknown"), PrBody(pr), pr.number, c.id, c.login, c.body,
                  c.createdAt, c.updatedAt, pr.repositoryFullName.GetOr("Unknown"), |c.body|)
  }

  /** `processComments` as written: the first comment decides everything. */
  function ProcessComments(comments: seq<Comment>, pr: Pr, u: Unwanted): (r: Option<seq<CommentRecord>>)
    ensures r.None? <==> |comments| == 0
    ensures r.Some? ==> |r.value| <= 1
    ensures r.Some? ==> (|r.value| == 1 <==> IsQualityComment(comments[0], u))
    ensures r.Some? && |r.value| == 1 ==>
              && r.value[0].body == comments[0].body
              && r.value[0].commentLength == |comments[0].body| >= MinCommentLength
              && |r.value[0].prBody| <= PrBodyLimit
  {
    if |comments| == 0 then None
    else if IsQualityComment(comments[0], u) then Some([MakeRecord(comments[0], pr)])
    else Some([])
  }

  function RecordBodies(rs: seq<CommentRecord>): (r: seq<string>)
    ensures |r| == |rs| && forall k :: 0 <= k < |rs| ==> r[k] == rs[k].body
  {
    seq(|rs|, k requires 0 <= k < |rs| => rs[k].body)
  }

  /** Only the first comment is examined: the comments after it never
      change the result, and the kept bodies are a prefix (of length at
      most one) of what filtering every comment would keep. */
  lemma ExaminesOnlyFirstComment(comments: seq<Comment>, pr: Pr, u: Unwanted)
    requires |comments| > 0
    ensures ProcessComments(comments, pr, u) == ProcessComments(comments[..1], pr, u)
    ensures var kept := RecordBodies(ProcessComments(comments, pr, u).value);
            var all := QualityBodies(comments, u);
            |kept| <= |all| && kept == all[..|kept|]
  {
    var kept := RecordBodies(ProcessComments(comments, pr, u).value);
    var all := QualityBodies(comments, u);
    if IsQualityComment(comments[0], u) {
      assert all[0] == comments[0].body;
    }
  }

  /** A later quality comment is lost when the first one is rejected. */
  lemma SecondCommentIsIgnored(c0: Comment, c1: Comment, pr: Pr, u: Unwanted)
    requires !IsQualityComment(c0, u) && IsQualityComment(c1, u)
    ensures ProcessComments([c0, c1], pr, u) == Some([])
    ensures c1.body in QualityBodies([c0, c1], u)
  {
    assert c1 in [c0, c1];
  }

  /** The substantial PRs of one repository that are looked at. */
  function ConsideredPrs(gh: GitHub, repoFullName: string): (r: seq<Pr>)
    ensures |r| <= PrsPerRepo
    ensures forall pr :: pr in r ==> IsSubstantial(pr)
  {
    Prefix(SubstantialPrs(gh.searchPrs(repoFullName)), PrsPerRepo)
  }

  /** Whether some PR among `prs` has an empty comment list. */
  predicate SomeUncommented(gh: GitHub, repoFullName: string, prs: seq<Pr>) {
    exists pr :: pr in prs && |gh.comments(repoFullName, pr.number)| == 0
  }

  /** What one commented PR leaves in `all_discussions`: the record of its
      first comment when that comment passes the gates, nothing otherwise. */
  function FirstQuality(gh: GitHub, repoFullName: string, u: Unwanted, pr: Pr): Option<CommentRecord> {
    var comments := gh.comments(repoFullName, pr.number);
    if |comments| > 0 && IsQualityComment(comments[0], u) then Some(MakeRecord(comments[0], pr)) else None
  }

  /** `FirstQuality` as a value, for `FilterMap`. */
  function FirstQualityFn(gh: GitHub, repoFullName: string, u: Unwanted): Pr -> Option<CommentRecord> {
    pr => FirstQuality(gh, repoFullName, u, pr)
  }

  /** The inner loop over one repository's PRs, in order. */
  function ExtractFromPrs(gh: GitHub, repoFullName: string, prs: seq<Pr>, u: Unwanted): (r: Result<seq<CommentRecord>>)
    ensures r.Raised? <==> SomeUncommented(gh, repoFullName, prs)
    ensures r.Raised? ==> r.error == TypeError
    ensures r.Ok? ==> r.value == FilterMap(FirstQualityFn(gh, repoFullName, u), prs)
    ensures r.Ok? ==> |r.value| <= |prs|
    ensures r.Ok? ==> forall rec :: rec in r.value ==> rec.commentLength >= MinCommentLength
  {
    if |prs| == 0 then Ok([])
    else
      assert forall pr :: pr in prs <==> pr == prs[0] || pr in prs[1..];
      match ProcessComments(gh.comments(repoFullName, prs[0].number), prs[0], u)
      case None => Raised(TypeError)
      case Some(first) =>
        var rest :- ExtractFromPrs(gh, repoFullName, prs[1..], u);
        Ok(first + rest)
  }

  /** When nothing raises, the records of one repository are the first
      comments' records of exactly the PRs whose first comment passes, in
      PR order. */
  lemma ExtractFromPrsAtPositions(gh: GitHub, repoFullName: string, prs: seq<Pr>, u: Unwanted)
    requires ExtractFromPrs(gh, repoFullName, prs, u).Ok?
    ensures var r := ExtractFromPrs(gh, repoFullName, prs, u).value;
            var pos := Positions(Defined(FirstQualityFn(gh, repoFullName, u)), prs);
            && |r| == |pos|
            && (forall k :: 0 <= k < |pos| ==>
                  && pos[k] < |prs|
                  && var comments := gh.comments(repoFullName, prs[pos[k]].number);
                     |comments| > 0 && IsQualityComment(comments[0], u) && r[k] == MakeRecord(comments[0], prs[pos[k]]))
            && forall j :: 0 <= j < |prs| && IsQualityComment(gh.comments(repoFullName, prs[j].number)[0], u) ==> j in pos
  {
    FilterMapAtPositions(FirstQualityFn(gh, repoFullName, u), prs);
    forall j | 0 <= j < |prs| && IsQualityComment(gh.comments(repoFullName, prs[j].number)[0], u)
      ensures j in Positions(Defined(FirstQualityFn(gh, repoFullName, u)), prs)
    {
      assert FirstQuality(gh, repoFullName, u, prs[j]).Some?;
    }
  }

  /** The records one repository contributes when nothing raises. */
  function RepoRecords(gh: GitHub, repoFullName: string, u: Unwanted): seq<CommentRecord> {
    FilterMap(FirstQualityFn(gh, repoFullName, u), ConsideredPrs(gh, repoFullName))
  }

  /** Each repository's contribution, in repository order. */
  function AllRepoRecords(gh: GitHub, repos: seq<string>, u: Unwanted): (all: seq<seq<CommentRecord>>)
    ensures |all| == |repos|
  {
    seq(|repos|, k requires 0 <= k < |repos| => RepoRecords(gh, repos[k], u))
  }

  /** Whether some considered PR of some considered repository has no
      comments. */
  predicate AnyUncommented(gh: GitHub, repos: seq<string>) {
    exists k :: 0 <= k < |repos| && SomeUncommented(gh, repos[k], ConsideredPrs(gh, repos[k]))
  }

  /** The outer loop over the repositories, in order. */
  function ExtractFromRepos(gh: GitHub, repos: seq<string>, u: Unwanted): (r: Result<seq<CommentRecord>>)
    ensures r.Raised? <==> AnyUncommented(gh, repos)
    ensures r.Raised? ==> r.error == TypeError
    ensures r.Ok? ==> |r.value| <= PrsPerRepo * |repos|
    ensures r.Ok? ==> forall rec :: rec in r.value ==> rec.commentLength >= MinCommentLength
  {
    if |repos| == 0 then Ok([])
    else
      var first := ExtractFromPrs(gh, repos[0], ConsideredPrs(gh, repos[0]), u);
      var rest := ExtractFromRepos(gh, repos[1..], u);
      assert AnyUncommented(gh, repos) <==>
             SomeUncommented(gh, repos[0], ConsideredPrs(gh, repos[0])) || AnyUncommented(gh, repos[1..]) by {
        if AnyUncommented(gh, repos[1..]) {
          var k :| 0 <= k < |repos[1..]| && SomeUncommented(gh, repos[1..][k], ConsideredPrs(gh, repos[1..][k]));
          assert repos[k + 1] == repos[1..][k];
        }
        if AnyUncommented(gh, repos) {
          var k :| 0 <= k < |repos| && SomeUncommented(gh, repos[k], ConsideredPrs(gh, repos[k]));
          if k > 0 {
            assert repos[1..][k - 1] == repos[k];
          }
        }
      }
      match first
      case Raised(e) => Raised(e)
      case Ok(records) =>
        match rest
        case Raised(e) => Raised(e)
        case Ok(more) => Ok(records + more)
  }

  /** When nothing raises, the outer loop's records are every repository's
      contribution concatenated in repository order. */
  lemma {:induction false} ExtractFromReposIsFlatten(gh: GitHub, repos: seq<string>, u: Unwanted)
    requires ExtractFromRepos(gh, repos, u).Ok?
    ensures ExtractFromRepos(gh, repos, u).value == Flatten(AllRepoRecords(gh, repos, u))
  {
    if |repos| > 0 {
      ExtractFromReposIsFlatten(gh, repos[1..], u);
      assert AllRepoRecords(gh, repos, u)[1..] == AllRepoRecords(gh, repos[1..], u);
      assert AllRepoRecords(gh, repos, u)[0] == RepoRecords(gh, repos[0], u);
    }
  }

  /** `prDiscussionExtraction` of these copies: the first ten repositories,
      ten substantial PRs each, at most one record per PR; a single
      uncommented PR makes the whole run raise `TypeError`. */
  function PrDiscussionExtraction(gh: GitHub, repos: seq<string>, u: Unwanted): (r: Result<seq<CommentRecord>>)
    ensures r.Raised? <==> AnyUncommented(gh, Prefix(repos, RepoLimit))
    ensures r.Raised? ==> r.error == TypeError
    ensures r.Ok? ==> r.value == Flatten(AllRepoRecords(gh, Prefix(repos, RepoLimit), u))
    ensures r.Ok? ==> |r.value| <= RepoLimit * PrsPerRepo
    ensures r.Ok? ==> forall rec :: rec in r.value ==> rec.commentLength >= MinCommentLength
  {
    var r := ExtractFromRepos(gh, Prefix(repos, RepoLimit), u);
    if r.Ok? then
      ExtractFromReposIsFlatten(gh, Prefix(repos, RepoLimit), u);
      r
    else r
  }
}
