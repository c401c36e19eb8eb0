/** The pull-request and review-comment gates that the four extraction
    scripts share: which PRs count as substantial, and which comments are
    bot noise, too short, boilerplate or a minor-fix note. The copies differ
    only in the spelling of the thumbs-up literal, so that literal is a
    parameter. */
module PrGates {
  import opened Wrappers
  import opened Text
  import opened Seqs

  /** A pull request as the issue-search API returns it. Absent JSON keys are
      `None`; `repositoryFullName` is the key the scripts stamp on it. */
  datatype Pr = Pr(
    number: int,
    title: Option<string>,
    body: Option<string>,
    comments: int,
    draft: bool,
    repositoryFullName: Option<string>)

  /** A review comment: its id, the author's login and account type, the
      text and the two timestamps, as the comments API returns them. */
  datatype Comment = Comment(
    id: int,
    login: string,
    userType: string,
    body: string,
    createdAt: string,
    updatedAt: string)

  /** The GitHub calls the extraction scripts make, as pure functions of
      their arguments: the issue search for a repository's commented PRs, a
      PR's comment list, and a PR's diff text (`None` when the diff request
      returns a non-200 status or, in the asynchronous copy, raises). A
      failed search or comment fetch is already an empty list in the
      scripts. */
  datatype GitHub = GitHub(
    searchPrs: string -> seq<Pr>,
    comments: (string, int) -> seq<Comment>,
    diff: (string, int) -> Option<string>)

  const TitleThreshold := 10
  const BodyThreshold := 30
  const MinCommentLength := 30
  const PrBodyLimit := 500

  /** `(has_quality_title or has_description) and has_comments and not_draft`. */
  predicate IsSubstantial(pr: Pr) {
    && (|pr.title.GetOr("")| > TitleThreshold
        || (pr.body.Some? && pr.body.value != "" && |pr.body.value| > BodyThreshold))
    && pr.comments > 0
    && !pr.draft
  }

  /** The PRs that pass `IsSubstantial`, in their original order. */
  function SubstantialPrs(prs: seq<Pr>): (r: seq<Pr>)
    ensures |r| <= |prs|
    ensures forall pr :: pr in r <==> pr in prs && IsSubstantial(pr)
    ensures IsSubseq(r, prs)
  {
    Filter(IsSubstantial, prs)
  }

  /** `filterPRs` (in the copies that take the repository name) stamps the repository name on every PR it sees and returns
      the stamped PRs that are substantial. */
  datatype Filtered = Filtered(stamped: seq<Pr>, kept: seq<Pr>)

  function FilterPrs(prs: seq<Pr>, repoFullName: string): (r: Filtered)
    ensures |r.stamped| == |prs|
    ensures forall k :: 0 <= k < |prs| ==>
              r.stamped[k] == prs[k].(repositoryFullName := Some(repoFullName))
    ensures forall pr :: pr in r.kept <==> pr in r.stamped && IsSubstantial(pr)
    ensures IsSubseq(r.kept, r.stamped)
    ensures forall pr :: pr in r.kept ==> pr.repositoryFullName == Some(repoFullName)
  {
    var stamped := seq(|prs|, k requires 0 <= k < |prs| =>
                         prs[k].(repositoryFullName := Some(repoFullName)));
    Filtered(stamped, SubstantialPrs(stamped))
  }

  /** `filterPRs(prs, full_name)[:limit]`: the PRs of a repository's search
      that are handed on, at most `limit` of them. Fewer are handed on only
      when the search has no more substantial ones. */
  function FirstSubstantialPrs(gh: GitHub, repoFullName: string, limit: nat): (r: seq<Pr>)
    ensures |r| <= limit
    ensures forall pr :: pr in r ==> IsSubstantial(pr) && pr.repositoryFullName == Some(repoFullName)
    ensures |r| < limit ==> r == FilterPrs(gh.searchPrs(repoFullName), repoFullName).kept
  {
    Prefix(FilterPrs(gh.searchPrs(repoFullName), repoFullName).kept, limit)
  }

  /** `pr.get('body', '')[:500] if pr.get('body') else ''`. */
  function PrBody(pr: Pr): (b: string)
    ensures |b| <= PrBodyLimit
    ensures pr.body.Some? ==> StartsWith(pr.body.value, b)
    ensures pr.body.Some? && |pr.body.value| <= PrBodyLimit ==> b == pr.body.value
    ensures pr.body.None? ==> b == ""
  {
    if pr.body.Some? && pr.body.value != "" then Take(pr.body.value, PrBodyLimit) else ""
  }

  const BotPatterns: seq<string> :=
    ["bot", "Bot", "[bot]", "github-actions", "dependabot", "codecov", "travis", "circleci", "sonarcloud"]

  /** The thumbs-up emoji U+1F44D, as `scripts/pipeline.py` and
      `scripts/pipeline/extract_prs.py` spell it. */
  const ThumbsUp: string := [0x1F44D as char]

  /** The same emoji after its UTF-8 bytes were read as Windows-1252 and saved
      again, as the two `pr_extraction.py` copies spell it: U+00F0 U+0178
      U+2018. */
  const GarbledThumbsUp: string := [0xF0 as char, 0x178 as char, 0x2018 as char]

  /** The boilerplate patterns: `^lit$` literals and `^lit` prefixes. */
  datatype Unwanted = Unwanted(exact: seq<string>, prefixes: seq<string>)

  function UnwantedPatterns(thumbsUp: string): Unwanted {
    Unwanted(["lgtm", thumbsUp, "thanks", "+1", "approved", "merge"], ["ping @", "cc @"])
  }

  const MinorFixPrefixes: seq<string> := ["fix:", "type:", "lint:", "format:"]

  /** Any bot pattern is a (case-sensitive) substring of the login, or the
      account type is `Bot`. */
  predicate IsBot(c: Comment) {
    (exists p :: p in BotPatterns && Contains(c.login, p)) || c.userType == "Bot"
  }

  predicate IsTooShort(c: Comment) {
    |c.body| < MinCommentLength
  }

  /** Some boilerplate pattern matches the stripped body, ignoring case. */
  predicate IsUnwanted(c: Comment, u: Unwanted) {
    var t := Strip(c.body);
    (exists e :: e in u.exact && EqualsIgnoringCase(t, e))
    || (exists p :: p in u.prefixes && StartsWithIgnoringCase(t, p))
  }

  /** The raw, unstripped body starts with a minor-fix tag, ignoring case. */
  predicate IsMinorFix(c: Comment) {
    exists p :: p in MinorFixPrefixes && StartsWithIgnoringCase(c.body, p)
  }

  /** A comment survives exactly when no rejection reason applies. */
  predicate IsQualityComment(c: Comment, u: Unwanted) {
    !IsBot(c) && !IsTooShort(c) && !IsUnwanted(c, u) && !IsMinorFix(c)
  }

  function Bodies(comments: seq<Comment>): (r: seq<string>)
    ensures |r| == |comments|
    ensures forall k :: 0 <= k < |r| ==> r[k] == comments[k].body
  {
    seq(|comments|, k requires 0 <= k < |comments| => comments[k].body)
  }

  /** `IsQualityComment` as a value, for `Filter`. */
  function QualityFn(u: Unwanted): Comment -> bool {
    c => IsQualityComment(c, u)
  }

  /** Taking the bodies keeps a subsequence a subsequence. */
  lemma {:induction false} BodiesSubseq(a: seq<Comment>, b: seq<Comment>)
    requires IsSubseq(a, b)
    ensures IsSubseq(Bodies(a), Bodies(b))
    decreases |b|
  {
    if |a| > 0 {
      assert Bodies(b)[1..] == Bodies(b[1..]);
      if a[0] == b[0] && IsSubseq(a[1..], b[1..]) {
        BodiesSubseq(a[1..], b[1..]);
        assert Bodies(a)[1..] == Bodies(a[1..]);
      } else {
        BodiesSubseq(a, b[1..]);
      }
    }
  }

  /** The bodies of the comments that pass `p` are the bodies read at the
      passing positions, a subsequence of all bodies. */
  lemma KeptBodies(p: Comment -> bool, comments: seq<Comment>)
    ensures var r := Bodies(Filter(p, comments));
            var pos := Positions(p, comments);
            && ReadAt(r, Bodies(comments), pos)
            && (forall j :: 0 <= j < |comments| && p(comments[j]) ==> j in pos)
            && IsSubseq(r, Bodies(comments))
  {
    FilterReadAt(p, comments);
    BodiesSubseq(Filter(p, comments), comments);
  }

  /** The bodies of the surviving comments, in input order. */
  function QualityBodies(comments: seq<Comment>, u: Unwanted): (r: seq<string>)
    ensures |r| <= |comments|
    ensures IsSubseq(r, Bodies(comments))
    ensures forall k :: 0 <= k < |r| ==> |r[k]| >= MinCommentLength
    ensures forall b :: b in r <==> exists c :: c in comments && IsQualityComment(c, u) && c.body == b
  {
    if |comments| == 0 then []
    else
      var rest := QualityBodies(comments[1..], u);
      assert Bodies(comments)[1..] == Bodies(comments[1..]);
      assert forall c :: c in comments <==> c == comments[0] || c in comments[1..];
      if IsQualityComment(comments[0], u) then
        assert ([comments[0].body] + rest)[1..] == rest;
        [comments[0].body] + rest
      else
        rest
  }

  /** The loop is the filter: the kept bodies are the bodies of the quality
      comments. */
  lemma {:induction false} QualityBodiesIsFilter(comments: seq<Comment>, u: Unwanted)
    ensures QualityBodies(comments, u) == Bodies(Filter(QualityFn(u), comments))
  {
    if |comments| > 0 {
      QualityBodiesIsFilter(comments[1..], u);
      var rest := Filter(QualityFn(u), comments[1..]);
      if IsQualityComment(comments[0], u) {
        assert QualityBodies(comments, u) == [comments[0].body] + QualityBodies(comments[1..], u);
        assert Filter(QualityFn(u), comments) == [comments[0]] + rest;
        BodiesCons(comments[0], rest);
      } else {
        assert QualityBodies(comments, u) == QualityBodies(comments[1..], u);
        assert Filter(QualityFn(u), comments) == rest;
      }
    }
  }

  lemma BodiesCons(c: Comment, rest: seq<Comment>)
    ensures Bodies([c] + rest) == [c.body] + Bodies(rest)
  {
  }

  /** The kept bodies are the comments' bodies read at exactly the
      positions of the quality comments, in ascending order: each quality
      comment contributes its body once, duplicates included, so
      `num_comments` counts the quality comments. */
  lemma QualityBodiesAtPositions(comments: seq<Comment>, u: Unwanted)
    ensures var pos := Positions(QualityFn(u), comments);
            && ReadAt(QualityBodies(comments, u), Bodies(comments), pos)
            && forall j :: 0 <= j < |comments| && IsQualityComment(comments[j], u) ==> j in pos
  {
    QualityBodiesIsFilter(comments, u);
    KeptBodies(QualityFn(u), comments);
  }

  /** A body that starts with "Th", ends in a full stop and is longer than
      every exact pattern matches no boilerplate pattern. */
  lemma ThBodyIsNotUnwanted(body: string)
    requires |body| > 8 && body[0] == 'T' && body[1] == 'h' && body[|body| - 1] == '.'
    ensures !IsUnwanted(Comment(2, "alice", "User", body, "", ""), UnwantedPatterns(ThumbsUp))
  {
    StripUntrimmed(body);
    forall e | e in UnwantedPatterns(ThumbsUp).exact
      ensures !EqualsIgnoringCase(body, e)
    {
      assert |Lower(e)| <= 8 < |Lower(body)|;
    }
    PrefixMismatch(body, "ping @", 0);
    PrefixMismatch(body, "cc @", 0);
  }

  /** Nor does it start with a minor-fix tag. */
  lemma ThBodyIsNotMinorFix(body: string)
    requires |body| > 8 && body[0] == 'T' && body[1] == 'h'
    ensures !IsMinorFix(Comment(2, "alice", "User", body, "", ""))
  {
    PrefixMismatch(body, "fix:", 0);
    PrefixMismatch(body, "type:", 1);
    PrefixMismatch(body, "lint:", 0);
    PrefixMismatch(body, "format:", 0);
  }

  const ScenarioRemark: string :=
    "Th" + "is refactor moves state into a reducer, but the async cleanup on unmount still leaks a subscription."

  /** Scenario: a human's `lgtm` is dropped, while a long technical remark
      from the same author survives every gate. */
  lemma DenylistScenario()
    ensures !IsQualityComment(Comment(1, "alice", "User", "lgtm", "", ""), UnwantedPatterns(ThumbsUp))
    ensures IsQualityComment(Comment(2, "alice", "User", ScenarioRemark, "", ""), UnwantedPatterns(ThumbsUp))
  {
    assert |ScenarioRemark| == 102;
    assert ScenarioRemark[0] == 'T' && ScenarioRemark[1] == 'h' && ScenarioRemark[101] == '.';
    assert !IsBot(Comment(2, "alice", "User", "", "", "")) by {
      forall p | p in BotPatterns
        ensures !Contains("alice", p)
      {
        if Contains("alice", p) {
          ContainsFirstChar("alice", p);
        }
      }
    }
    ThBodyIsNotUnwanted(ScenarioRemark);
    ThBodyIsNotMinorFix(ScenarioRemark);
  }
}
