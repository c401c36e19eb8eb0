/** The standalone comment filter of `scripts/filter.py`: a comment is
    substantive when its author is not a bot, its stripped text has at
    least five words and the lowercased text contains none of a few
    keywords; a merged PR is kept with only its substantive comments when
    at least two remain. */
module SubstantiveFilter {
  import opened Text
  import opened Seqs
  import opened Wrappers

  const MinWords := 5
  const MinComments := 2

  /** Substrings that mark a comment as trivial. Plain substring tests, so
      `nit` also matches inside `unit`. */
  const Keywords: seq<string> := ["nit", "typo", "ping", "bump", "spacing", "lgtm", "+1"]

  datatype Comment = Comment(author: string, text: string)

  /** A PR record: `merged` is false when absent; the remaining keys are
      carried through unchanged. */
  datatype Pr = Pr(number: int, title: string, merged: bool, comments: seq<Comment>)

  predicate IsBotAuthor(author: string) {
    var a := Lower(author);
    Contains(a, "bot") || EndsWith(a, "-bot")
  }

  /** `comment['text'].strip().lower()`. */
  function NormalizedText(c: Comment): string {
    Lower(Strip(c.text))
  }

  predicate HasKeyword(text: string) {
    exists kw :: kw in Keywords && Contains(text, kw)
  }

  /** `is_substantive`. */
  predicate IsSubstantive(c: Comment) {
    && !IsBotAuthor(c.author)
    && WordCount(NormalizedText(c)) >= MinWords
    && !HasKeyword(NormalizedText(c))
  }

  const IsSubstantiveFn: Comment -> bool := c => IsSubstantive(c)

  /** The `endswith('-bot')` test adds nothing: such an author already
      contains `bot`. */
  lemma BotSuffixRedundant(author: string)
    ensures IsBotAuthor(author) <==> Contains(Lower(author), "bot")
  {
    var a := Lower(author);
    if EndsWith(a, "-bot") {
      assert a[|a| - 3..] == a[|a| - 4..][1..];
      EndsWithContains(a, "bot");
    }
  }

  /** A comment whose normalized text mentions `unit` is rejected, because
      `nit` occurs inside it. */
  lemma UnitMentionRejected(c: Comment, i: nat)
    requires i + 4 <= |NormalizedText(c)| && NormalizedText(c)[i..i + 4] == "unit"
    ensures !IsSubstantive(c)
  {
    var t := NormalizedText(c);
    assert t[i + 1..i + 4] == t[i..i + 4][1..];
    ContainsAt(t, "nit", i + 1);
    assert Keywords[0] == "nit";
  }

  /** A comment made only of whitespace has no words and is rejected. */
  lemma BlankCommentRejected(c: Comment)
    requires AllSpace(c.text)
    ensures !IsSubstantive(c)
  {
    StripEmpty(c.text);
  }

  /** `filter_pr`: `None` for an unmerged PR or one with fewer than two
      substantive comments; otherwise the PR with its comments replaced by
      the substantive ones, read at exactly their positions, in order, and
      nothing else changed. */
  function FilterPr(pr: Pr): (r: Option<Pr>)
    ensures r.None? <==> !pr.merged || |Filter(IsSubstantiveFn, pr.comments)| < MinComments
    ensures r.Some? ==>
              && r.value.merged
              && r.value.(comments := pr.comments) == pr
              && |r.value.comments| >= MinComments
              && IsSubseq(r.value.comments, pr.comments)
              && (forall c :: c in r.value.comments <==> c in pr.comments && IsSubstantive(c))
              && ReadAt(r.value.comments, pr.comments, Positions(IsSubstantiveFn, pr.comments))
              && forall j :: 0 <= j < |pr.comments| && IsSubstantive(pr.comments[j]) ==>
                   j in Positions(IsSubstantiveFn, pr.comments)
  {
    FilterReadAt(IsSubstantiveFn, pr.comments);
    if !pr.merged then None
    else
      var filtered := Filter(IsSubstantiveFn, pr.comments);
      if |filtered| < MinComments then None
      else Some(pr.(comments := filtered))
  }

  /** A PR that `filter_pr` keeps is kept again unchanged. */
  lemma FilterPrIdempotent(pr: Pr)
    requires FilterPr(pr).Some?
    ensures FilterPr(FilterPr(pr).value) == FilterPr(pr)
  {
    FilterIdempotent(IsSubstantiveFn, pr.comments);
  }

  const KeptFn: Pr -> bool := pr => FilterPr(pr).Some?

  /** The comprehension in `main`: `filter_pr` runs once in the condition,
      which replaces the PR's comments in place when it keeps the PR, and
      again on the mutated PR for the element. */
  function MainFilter(data: seq<Pr>): (out: seq<Option<Pr>>)
    ensures |out| <= |data|
  {
    var kept := Filter(KeptFn, data);
    seq(|kept|, k requires 0 <= k < |kept| =>
          assert kept[k] in kept && KeptFn(kept[k]);
          FilterPr(FilterPr(kept[k]).value))
  }

  /** The second call returns what the first one did, because `filter_pr`
      is idempotent. */
  lemma MainFilterSecondCall(data: seq<Pr>)
    ensures var kept := Filter(KeptFn, data);
            var out := MainFilter(data);
            |out| == |kept| && forall k :: 0 <= k < |kept| ==> out[k] == FilterPr(kept[k]) && out[k].Some?
  {
    var kept := Filter(KeptFn, data);
    forall k | 0 <= k < |kept|
      ensures FilterPr(kept[k]).Some? && FilterPr(FilterPr(kept[k]).value) == FilterPr(kept[k])
    {
      assert kept[k] in kept && KeptFn(kept[k]);
      FilterPrIdempotent(kept[k]);
    }
  }

  /** The output is exactly the kept PRs' filtered records, in input
      order, and never holds `None`. */
  lemma MainFilterSpec(data: seq<Pr>)
    ensures var out := MainFilter(data);
            var pos := Positions(KeptFn, data);
            && |out| == |pos|
            && (forall j :: 0 <= j < |data| && FilterPr(data[j]).Some? ==> j in pos)
            && forall k :: 0 <= k < |out| ==>
                 && FilterPr(data[pos[k]]).Some?
                 && out[k] == FilterPr(data[pos[k]])
  {
    FilterAtPositions(KeptFn, data);
    MainFilterSecondCall(data);
    assert forall j :: 0 <= j < |data| && FilterPr(data[j]).Some? ==> KeptFn(data[j]);
  }
}
