/** The iteration pipeline's PR discussion extraction: search each repository
    for commented PRs, keep the substantial ones, gather each PR's quality
    comments with its diff, keep PRs with more than ten quality comments,
    report a checkpoint after every repository, and number the result. The
    concurrent fan-out over PRs is modelled as a sequential map, which is the
    order `asyncio.gather` returns. */
module ExtractPrs {
  import opened Wrappers
  import opened Text
  import opened Seqs
  import opened PrGates

  const RepoLimit := 3
  const PrsPerRepo := 5
  const CommentThreshold := 10

  /** A PR discussion record, before (`index == None`) or after numbering. */
  datatype Discussion = Discussion(
    index: Option<nat>,
    repository: string,
    prTitle: string,
    prBody: string,
    prNumber: int,
    comments: seq<string>,
    numComments: nat,
    diff: string,
    diffLength: nat)

  /** The discussion record `processComments` builds for one PR. */
  function ProcessComments(comments: seq<Comment>, pr: Pr, diff: string): (d: Discussion)
    ensures d.index == None
    ensures d.prNumber == pr.number
    ensures d.repository == pr.repositoryFullName.GetOr("Unknown")
    ensures d.prTitle == pr.title.GetOr("Unknown")
    ensures |d.prBody| <= PrBodyLimit
    ensures ReadAt(d.comments, Bodies(comments), Positions(QualityFn(UnwantedPatterns(ThumbsUp)), comments))
    ensures forall j :: 0 <= j < |comments| && IsQualityComment(comments[j], UnwantedPatterns(ThumbsUp)) ==>
              j in Positions(QualityFn(UnwantedPatterns(ThumbsUp)), comments)
    ensures IsSubseq(d.comments, Bodies(comments))
    ensures forall b :: b in d.comments <==>
              exists c :: c in comments && IsQualityComment(c, UnwantedPatterns(ThumbsUp)) && c.body == b
    ensures d.numComments == |d.comments| <= |comments|
    ensures d.diff == diff && d.diffLength == |diff|
  {
    var quality := QualityBodies(comments, UnwantedPatterns(ThumbsUp));
    QualityBodiesAtPositions(comments, UnwantedPatterns(ThumbsUp));
    Discussion(None, pr.repositoryFullName.GetOr("Unknown"), pr.title.GetOr("Unknown"),
               PrBody(pr), pr.number, quality, |quality|, diff, |diff|)
  }

  /** One task of `processPR`: `None` when the diff fetch failed (then
      `len(None)` raises and `gather` hands back the exception) or when the PR
      has ten or fewer quality comments. */
  function ProcessSinglePr(gh: GitHub, repoFullName: string, pr: Pr): Option<Discussion> {
    match gh.diff(repoFullName, pr.number)
    case None => None
    case Some(diff) =>
      var d := ProcessComments(gh.comments(repoFullName, pr.number), pr, diff);
      if d.numComments > CommentThreshold then Some(d) else None
  }

  /** `ProcessSinglePr` as a value, for `FilterMap`. */
  function SingleTask(gh: GitHub, repoFullName: string): Pr -> Option<Discussion> {
    pr => ProcessSinglePr(gh, repoFullName, pr)
  }

  function PrNumbers(prs: seq<Pr>): (r: seq<int>)
    ensures |r| == |prs| && forall k :: 0 <= k < |prs| ==> r[k] == prs[k].number
  {
    seq(|prs|, k requires 0 <= k < |prs| => prs[k].number)
  }

  function DiscussionNumbers(ds: seq<Discussion>): (r: seq<int>)
    ensures |r| == |ds| && forall k :: 0 <= k < |ds| ==> r[k] == ds[k].prNumber
  {
    seq(|ds|, k requires 0 <= k < |ds| => ds[k].prNumber)
  }

  /** `processPR`: the successful, sufficiently discussed PRs' records, in PR
      order; failed and thin PRs are dropped without affecting the others. */
  function ProcessPr(gh: GitHub, repoFullName: string, prs: seq<Pr>): (r: seq<Discussion>)
    ensures |r| <= |prs|
    ensures forall d :: d in r ==> d.numComments > CommentThreshold && d.index == None
    ensures IsSubseq(DiscussionNumbers(r), PrNumbers(prs))
  {
    if |prs| == 0 then []
    else
      var rest := ProcessPr(gh, repoFullName, prs[1..]);
      assert PrNumbers(prs)[1..] == PrNumbers(prs[1..]);
      match ProcessSinglePr(gh, repoFullName, prs[0])
      case None => rest
      case Some(d) =>
        assert DiscussionNumbers([d] + rest)[1..] == DiscussionNumbers(rest);
        [d] + rest
  }

  /** `processPR` keeps the `Some` results of the tasks, in order. */
  lemma {:induction false} ProcessPrIsFilterMap(gh: GitHub, repoFullName: string, prs: seq<Pr>)
    ensures ProcessPr(gh, repoFullName, prs) == FilterMap(SingleTask(gh, repoFullName), prs)
  {
    if |prs| > 0 {
      ProcessPrIsFilterMap(gh, repoFullName, prs[1..]);
      assert SingleTask(gh, repoFullName)(prs[0]) == ProcessSinglePr(gh, repoFullName, prs[0]);
    }
  }

  /** A record is in `processPR`'s result exactly when some PR's task
      produced it. */
  lemma {:induction false} ProcessPrMembers(gh: GitHub, repoFullName: string, prs: seq<Pr>, d: Discussion)
    ensures d in ProcessPr(gh, repoFullName, prs) <==>
            exists pr :: pr in prs && ProcessSinglePr(gh, repoFullName, pr) == Some(d)
  {
    if |prs| > 0 {
      ProcessPrMembers(gh, repoFullName, prs[1..], d);
      if d in ProcessPr(gh, repoFullName, prs) {
        if ProcessSinglePr(gh, repoFullName, prs[0]) != Some(d) {
          var pr :| pr in prs[1..] && ProcessSinglePr(gh, repoFullName, pr) == Some(d);
          assert pr in prs;
        }
      } else {
        forall pr | pr in prs
          ensures ProcessSinglePr(gh, repoFullName, pr) != Some(d)
        {
          if pr != prs[0] {
            assert pr in prs[1..];
          }
        }
      }
    }
  }

  /** The checkpoint callback's arguments: `(iteration, i + 1, full_name)`. */
  datatype CheckpointCall = CheckpointCall(iteration: int, completedRepos: int, lastCompletedRepo: string)

  /** What the extraction loop produces before numbering. */
  datatype Harvest = Harvest(discussions: seq<Discussion>, calls: seq<CheckpointCall>)

  /** The discussions one repository contributes: the records of its first
      five substantial PRs that `ProcessSinglePr` keeps, read at exactly the
      positions where it keeps one, in PR order. */
  function RepoDiscussions(gh: GitHub, repoFullName: string): (r: seq<Discussion>)
    ensures var prs := FirstSubstantialPrs(gh, repoFullName, PrsPerRepo);
            var pos := Positions(Defined(SingleTask(gh, repoFullName)), prs);
            && |r| == |pos|
            && (forall k :: 0 <= k < |pos| ==>
                  pos[k] < |prs| && ProcessSinglePr(gh, repoFullName, prs[pos[k]]) == Some(r[k]))
            && forall j :: 0 <= j < |prs| && ProcessSinglePr(gh, repoFullName, prs[j]).Some? ==> j in pos
    ensures |r| <= PrsPerRepo
    ensures forall d :: d in r ==> d.numComments > CommentThreshold && d.index == None
  {
    var prs := FirstSubstantialPrs(gh, repoFullName, PrsPerRepo);
    FilterMapAtPositions(SingleTask(gh, repoFullName), prs);
    ProcessPrIsFilterMap(gh, repoFullName, prs);
    ProcessPr(gh, repoFullName, prs)
  }

  /** Every repository's contribution is at most five discussions above the
      comment threshold. */
  predicate WellFormedContributions(found: seq<seq<Discussion>>) {
    forall k :: 0 <= k < |found| ==>
      |found[k]| <= PrsPerRepo && forall d :: d in found[k] ==> d.numComments > CommentThreshold
  }

  /** The extraction loop from position `i` on; `found[k]` is what the
      repository at position `k` contributes when it is processed. */
  function HarvestFrom(found: seq<seq<Discussion>>, repos: seq<string>, iteration: int, startRepo: int, i: nat): (h: Harvest)
    requires |found| == |repos| && i <= |repos|
    decreases |repos| - i
  {
    if i == |repos| then Harvest([], [])
    else
      var rest := HarvestFrom(found, repos, iteration, startRepo, i + 1);
      if i < startRepo then rest
      else
        Harvest(found[i] + rest.discussions,
                [CheckpointCall(iteration, i + 1, repos[i])] + rest.calls)
  }

  /** The first position the loop does not skip. */
  function FirstProcessed(repos: seq<string>, startRepo: int): (f: nat)
    ensures f <= |repos|
    ensures startRepo <= f || f == |repos|
  {
    if startRepo <= 0 then 0 else if startRepo <= |repos| then startRepo else |repos|
  }

  /** From an unskipped position `i` on, the checkpoint calls name every
      remaining repository in order, with `completedRepos` its one-based
      position. */
  lemma {:induction false} CallsFrom(found: seq<seq<Discussion>>, repos: seq<string>, iteration: int, startRepo: int, i: nat)
    requires |found| == |repos| && i <= |repos| && (startRepo <= i || i == |repos|)
    ensures var calls := HarvestFrom(found, repos, iteration, startRepo, i).calls;
            && |calls| == |repos| - i
            && forall k :: 0 <= k < |calls| ==>
                 calls[k] == CheckpointCall(iteration, i + k + 1, repos[i + k])
    decreases |repos| - i
  {
    if i < |repos| {
      CallsFrom(found, repos, iteration, startRepo, i + 1);
      var calls := HarvestFrom(found, repos, iteration, startRepo, i).calls;
      var rest := HarvestFrom(found, repos, iteration, startRepo, i + 1).calls;
      assert calls == [CheckpointCall(iteration, i + 1, repos[i])] + rest;
      forall k | 0 < k < |calls|
        ensures calls[k] == CheckpointCall(iteration, i + k + 1, repos[i + k])
      {
        assert calls[k] == rest[k - 1];
      }
    }
  }

  /** Positions before `startRepo` contribute nothing. */
  lemma {:induction false} SkippedPrefix(found: seq<seq<Discussion>>, repos: seq<string>, iteration: int, startRepo: int, i: nat)
    requires |found| == |repos| && i <= FirstProcessed(repos, startRepo)
    ensures HarvestFrom(found, repos, iteration, startRepo, i)
            == HarvestFrom(found, repos, iteration, startRepo, FirstProcessed(repos, startRepo))
    decreases |repos| - i
  {
    if i < FirstProcessed(repos, startRepo) {
      SkippedPrefix(found, repos, iteration, startRepo, i + 1);
    }
  }

  /** The checkpoint calls of a whole run name, in order, every repository
      from the first unskipped one on. */
  lemma HarvestCalls(found: seq<seq<Discussion>>, repos: seq<string>, iteration: int, startRepo: int)
    requires |found| == |repos|
    ensures var calls := HarvestFrom(found, repos, iteration, startRepo, 0).calls;
            var f := FirstProcessed(repos, startRepo);
            && |calls| == |repos| - f
            && forall k :: 0 <= k < |calls| ==>
                 calls[k] == CheckpointCall(iteration, f + k + 1, repos[f + k])
  {
    SkippedPrefix(found, repos, iteration, startRepo, 0);
    CallsFrom(found, repos, iteration, startRepo, FirstProcessed(repos, startRepo));
  }

  /** From an unskipped position `i` on, the discussions are the
      contributions of every remaining repository concatenated in
      repository order. */
  lemma {:induction false} DiscussionsFrom(found: seq<seq<Discussion>>, repos: seq<string>, iteration: int, startRepo: int, i: nat)
    requires |found| == |repos| && i <= |repos| && (startRepo <= i || i == |repos|)
    ensures HarvestFrom(found, repos, iteration, startRepo, i).discussions == Flatten(found[i..])
    decreases |repos| - i
  {
    if i < |repos| {
      DiscussionsFrom(found, repos, iteration, startRepo, i + 1);
      assert found[i..][1..] == found[i + 1..];
    }
  }

  /** At most five discussions per checkpoint call, each above the
      threshold. */
  lemma {:induction false} HarvestBound(found: seq<seq<Discussion>>, repos: seq<string>, iteration: int, startRepo: int, i: nat)
    requires |found| == |repos| && i <= |repos| && WellFormedContributions(found)
    ensures var h := HarvestFrom(found, repos, iteration, startRepo, i);
            && |h.discussions| <= PrsPerRepo * |h.calls|
            && forall d :: d in h.discussions ==> d.numComments > CommentThreshold
    decreases |repos| - i
  {
    if i < |repos| {
      HarvestBound(found, repos, iteration, startRepo, i + 1);
    }
  }

  /** The discussions of a run are the processed repositories'
      contributions concatenated in repository order, so at most five per
      checkpoint call, and each above the threshold. */
  lemma HarvestDiscussions(found: seq<seq<Discussion>>, repos: seq<string>, iteration: int, startRepo: int)
    requires |found| == |repos| && WellFormedContributions(found)
    ensures var h := HarvestFrom(found, repos, iteration, startRepo, 0);
            && h.discussions == Flatten(found[FirstProcessed(repos, startRepo)..])
            && |h.discussions| <= PrsPerRepo * |h.calls|
            && forall d :: d in h.discussions ==> d.numComments > CommentThreshold
  {
    SkippedPrefix(found, repos, iteration, startRepo, 0);
    DiscussionsFrom(found, repos, iteration, startRepo, FirstProcessed(repos, startRepo));
    HarvestBound(found, repos, iteration, startRepo, 0);
  }

  /** Skipping is by position only: once past `startRepo`, the loop does the
      same work whatever `startRepo` was. */
  lemma {:induction false} HarvestIgnoresEarlierStart(found: seq<seq<Discussion>>, repos: seq<string>, iteration: int, s1: int, s2: int, i: nat)
    requires |found| == |repos| && i <= |repos| && s1 <= i && s2 <= i
    ensures HarvestFrom(found, repos, iteration, s1, i) == HarvestFrom(found, repos, iteration, s2, i)
    decreases |repos| - i
  {
    if i < |repos| {
      HarvestIgnoresEarlierStart(found, repos, iteration, s1, s2, i + 1);
    }
  }

  /** Numbers the collected discussions `next, next + 1, ...`. */
  function NumberFrom(ds: seq<Discussion>, next: nat): (r: seq<Discussion>)
    ensures |r| == |ds|
    ensures forall k :: 0 <= k < |ds| ==> r[k] == ds[k].(index := Some(next + k))
  {
    seq(|ds|, k requires 0 <= k < |ds| => ds[k].(index := Some(next + k)))
  }

  /** A run's result once its discussions are numbered from 1. */
  function Numbered(h: Harvest): Harvest {
    Harvest(NumberFrom(h.discussions, 1), h.calls)
  }

  /** A run over at most three repositories, numbered: its checkpoint calls
      and its discussions, the processed contributions in repository order
      numbered `1..n`. */
  lemma NumberedHarvest(found: seq<seq<Discussion>>, repos: seq<string>, iteration: int, startRepo: int)
    requires |found| == |repos| <= RepoLimit && WellFormedContributions(found)
    ensures var h := Numbered(HarvestFrom(found, repos, iteration, startRepo, 0));
            var first := FirstProcessed(repos, startRepo);
            && |h.calls| == |repos| - first
            && (forall k :: 0 <= k < |h.calls| ==> h.calls[k] == CheckpointCall(iteration, first + k + 1, repos[first + k]))
            && (forall k :: 0 <= k < |h.calls| ==> 1 <= h.calls[k].completedRepos <= RepoLimit)
            && h.discussions == NumberFrom(Flatten(found[first..]), 1)
            && |h.discussions| <= PrsPerRepo * |h.calls|
            && forall k :: 0 <= k < |h.discussions| ==>
                 h.discussions[k].index == Some(k + 1) && h.discussions[k].numComments > CommentThreshold
  {
    var raw := HarvestFrom(found, repos, iteration, startRepo, 0);
    HarvestCalls(found, repos, iteration, startRepo);
    HarvestDiscussions(found, repos, iteration, startRepo);
    assert forall k :: 0 <= k < |raw.discussions| ==> raw.discussions[k] in raw.discussions;
  }

  /** What each of the first three repositories contributes. */
  function Contributions(gh: GitHub, repos: seq<string>): (found: seq<seq<Discussion>>)
    ensures |found| == |repos| && WellFormedContributions(found)
  {
    seq(|repos|, k requires 0 <= k < |repos| => RepoDiscussions(gh, repos[k]))
  }

  /** `prDiscussionExtraction`: the numbered discussions and the checkpoint
      callback's calls. */
  function PrDiscussionExtraction(gh: GitHub, repos: seq<string>, iteration: int, startRepo: int): (h: Harvest)
    ensures var first := FirstProcessed(Prefix(repos, RepoLimit), startRepo);
            && |h.calls| == |Prefix(repos, RepoLimit)| - first
            && (forall k :: 0 <= k < |h.calls| ==>
                  && h.calls[k].iteration == iteration
                  && h.calls[k].completedRepos == first + k + 1
                  && h.calls[k].lastCompletedRepo == Prefix(repos, RepoLimit)[first + k])
    ensures forall k :: 0 <= k < |h.calls| ==> 1 <= h.calls[k].completedRepos <= RepoLimit
    ensures var considered := Prefix(repos, RepoLimit);
            h.discussions == NumberFrom(Flatten(Contributions(gh, considered)[FirstProcessed(considered, startRepo)..]), 1)
    ensures |h.discussions| <= PrsPerRepo * |h.calls|
    ensures forall k :: 0 <= k < |h.discussions| ==>
              h.discussions[k].index == Some(k + 1) && h.discussions[k].numComments > CommentThreshold
  {
    var considered := Prefix(repos, RepoLimit);
    var found := Contributions(gh, considered);
    NumberedHarvest(found, considered, iteration, startRepo);
    Numbered(HarvestFrom(found, considered, iteration, startRepo, 0))
  }

  /** Interrupting the loop after the repository at position `c - 1` and
      restarting it with `startRepo == c` redoes nothing and misses nothing:
      the uninterrupted run's checkpoint calls are the ones made before the
      interruption followed by the restarted run's, and the restarted run
      reports `c + 1` first; its work is exactly the uninterrupted loop's from
      position `c` on. Discussions collected before the interruption are not
      part of the restarted run's result. */
  lemma ResumeSplitsHarvest(found: seq<seq<Discussion>>, repos: seq<string>, iteration: int, startRepo: int, c: nat)
    requires |found| == |repos| && FirstProcessed(repos, startRepo) <= c <= |repos|
    ensures var whole := HarvestFrom(found, repos, iteration, startRepo, 0);
            var resumed := HarvestFrom(found, repos, iteration, c, 0);
            var done := c - FirstProcessed(repos, startRepo);
            && done <= |whole.calls|
            && whole.calls == whole.calls[..done] + resumed.calls
            && (resumed.calls == [] || resumed.calls[0].completedRepos == c + 1)
            && resumed == HarvestFrom(found, repos, iteration, startRepo, c)
  {
    HarvestCalls(found, repos, iteration, startRepo);
    HarvestCalls(found, repos, iteration, c);
    assert FirstProcessed(repos, c) == c;
    SkippedPrefix(found, repos, iteration, c, 0);
    if c < |repos| {
      HarvestIgnoresEarlierStart(found, repos, iteration, c, startRepo, c);
    }
  }
}
