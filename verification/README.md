# PR-discussion harvesting pipeline — verified model

This project models the deterministic core of a pipeline that harvests
GitHub pull-request review discussions as training data. Every network
fetch, classifier prediction and LLM output is an input value, and every
file read is an input that may be `None`. What remains is sequence-in,
sequence-out logic, which the model states and proves:

- **Iteration driver** (`FullPipeline`):
  - a batch of 40 repositories per iteration;
  - a checkpoint directory, keyed by iteration;
  - the resume scan `get_resume_point`;
  - the three-iteration main loop.
- **PR discussion extraction**:
  - the asynchronous iteration copy (`ExtractPrs`), with its checkpoint callback, its start offset and its `1..n` numbering;
  - the dict-record copy (`PipelinePrExtraction`);
  - the two first-generation copies (`LegacyExtraction`), which return from inside the comment loop.
- **Shared PR and comment gates** (`PrGates`): substantial PRs, and the bot, length, boilerplate and minor-fix predicates.
- **Repository discovery** (`RepoQuality`, `DiscoverRepo`):
  - the threshold conjunction in its strict and relaxed forms;
  - the directory-keyword screen and the whitelist;
  - `1..n` numbering;
  - incremental discovery with known ids skipped and `total_index` over the combined list.
- **Diff hunk filter** (`DiffFilter`):
  - `filter_codediffs` over a segmented diff (a prefix, the `diff --git` blocks, a suffix);
  - `getCodeDiff`'s records.
- **Downstream steps**:
  - the classifier gate (`ClassifierGate`);
  - the positional summary/diff join and length window (`CritiqueTransform`);
  - the token-budget gate (`ModelData`);
  - the standalone substantive-comment filter (`SubstantiveFilter`);
  - comment flattening for labelling (`CommentFlatten`);
  - the positional merge of two summary runs (`CombineComments`);
  - the hand-written JSON-array writer (`LabeledWriter`).

Shared modules:

- `Wrappers`: `Option`, and `Result` with the Python exception kind that a failure raises.
- `Text`: Python's `str.strip`, `split` word count and ASCII `lower`, plus prefix and substring tests and `str.join`.
- `Seqs`: `Filter`, subsequences, and positional specifications.

## Model

| member | source | states |
|---|---|---|
| FullPipeline.LoadRepoBatch | scripts/pipeline/fullpipeline.py:15-27 | The batch is the slice `[i*b, i*b+b)` clamped to the list: at most `b` repositories, exactly `b` when the list reaches that far, and empty once `i*b` is past the end. |
| FullPipeline.Batches | scripts/pipeline/fullpipeline.py:20-23 | Element `i` of the batch list is iteration `i`'s batch. |
| FullPipeline.BatchesCoverPrefix | scripts/pipeline/fullpipeline.py:20-23 | Consecutive batches are adjacent and disjoint: concatenated, iterations `0..k-1` give exactly the list's prefix of length `min(n, k*b)`. |
| FullPipeline.BatchIsSlice | scripts/pipeline/fullpipeline.py:20-23 | A batch is the slice between its two clamped bounds. |
| FullPipeline.SaveCheckpoint | scripts/pipeline/fullpipeline.py:29-47 | A save that completes makes the record loadable with the given fields. A failure in `open` changes nothing. A failure in `json.dump`, after `open` has emptied the file, leaves the record unreadable, so it no longer loads. Every other iteration's record is untouched. |
| FullPipeline.LoadCheckpoint | scripts/pipeline/fullpipeline.py:50-61 | `None` exactly when the record is absent or unreadable; otherwise the parsed record. |
| FullPipeline.CleanupCheckpoint | scripts/pipeline/fullpipeline.py:63-71 | A successful removal leaves the iteration unloadable. Removing an absent record is a no-op. Other iterations are untouched. |
| FullPipeline.SaveThenLoad | scripts/pipeline/fullpipeline.py:29-61 | A load after a successful save returns what was saved, with the defaults of 40 total repositories and status in progress. Neither the save nor a later cleanup of it changes another iteration's load. |
| FullPipeline.ResumeScan | scripts/pipeline/fullpipeline.py:74-84 | The downward scan's result always lies in `0..50`. |
| FullPipeline.ScanStep | scripts/pipeline/fullpipeline.py:76-83 | One downward step keeps the scan invariant, whether the iteration is completed or not. |
| FullPipeline.ResumeScanPending | scripts/pipeline/fullpipeline.py:76-83 | With a pending iteration at or below the start, the scan returns the highest pending one and its `completed_repos`. |
| FullPipeline.ResumeScanFresh | scripts/pipeline/fullpipeline.py:74-84 | With nothing pending, the scan returns the iteration after the highest completed one, at repository 0. |
| FullPipeline.GetResumePoint | scripts/pipeline/fullpipeline.py:73-84 | The iteration lies in `0..50`. If any of 0..49 is pending, the result is the highest pending iteration, resumed at its `completed_repos`. Otherwise the result is the iteration after the highest completed one, at repository 0. It is `(0, 0)` when no checkpoint loads. |
| FullPipeline.ResumeScanFromTop | scripts/pipeline/fullpipeline.py:73-84 | The scan from 49 down with `latest_completed = -1` meets both cases of the resume contract. |
| FullPipeline.IterationPlan | scripts/pipeline/fullpipeline.py:114-116 | `main` runs iterations `start..2`. Only the first receives the resumed `start_repo`; every later one starts at repository 0. |
| FullPipeline.ApplyCheckpoints | scripts/pipeline/fullpipeline.py:29-47 | Each call ends in its own way. Calls for other iterations leave an iteration's record as it was, and so do calls that all fail in `open`. A changed record is the file of a call for that iteration that got past `open`: unreadable, or in progress with 40 total repositories. When the last call's save completes, its record is the one that loads. |
| FullPipeline.ApplyCheckpointsLastReach | scripts/pipeline/fullpipeline.py:29-47 | An iteration's file is the one left by the last call for it that got past `open`. It is untouched when no call for it got that far. |
| FullPipeline.IterationLastSave | scripts/pipeline/fullpipeline.py:29-47 | For the calls of one iteration, one per considered position: the file is the one left by the last position whose call got past `open`, and it is untouched when every call failed in `open`. |
| FullPipeline.LastPositionSaved | scripts/pipeline/fullpipeline.py:29-47 | When the save for the last considered position completes, the iteration is pending with every considered repository counted. |
| FullPipeline.RunCalls | scripts/pipeline/extract_prs.py:237-259 | An iteration's checkpoint calls go position by position, from the first unskipped repository to the last considered one: call `c` reports `c + 1` completed repositories and names repository `c`. |
| FullPipeline.RunIteration | scripts/pipeline/fullpipeline.py:86-105 | Only this iteration's checkpoint can change. A changed file is unreadable, or pending with between 1 and 3 completed repositories. |
| FullPipeline.RunIterationLastSave | scripts/pipeline/fullpipeline.py:86-96 | The iteration's file is the one left by the last call that got past `open`. It is pending at that call's count when the save completed, unreadable when `json.dump` failed, and untouched when no call got past `open`. When the save for the last considered repository completes, the iteration is pending at the number of repositories considered. |
| FullPipeline.IterationStep | scripts/pipeline/fullpipeline.py:114-116 | The loop's step is `run_iteration` with the fixed repository list and save outcomes, and every step leaves each file it changes unreadable or pending. |
| FullPipeline.RunPlan | scripts/pipeline/fullpipeline.py:114-120 | One outcome per planned iteration, threaded in order: the first step runs on the initial directory and each later one on the directory the previous step left. When every step leaves each file it changes unreadable or pending, so does the whole run, measured against the initial directory. |
| FullPipeline.RunPipeline | scripts/pipeline/fullpipeline.py:107-120 | At most three iterations run. Nothing they write is marked completed: every changed file is pending or unreadable. |
| FullPipeline.ResumeFromIterationZero | scripts/pipeline/fullpipeline.py:73-84 | When only iteration 0's file can exist, the resume point is that iteration at its `completed_repos` when it is pending, iteration 1 when it is completed, and `(0, 0)` when it does not load. |
| FullPipeline.FreshRunResumesAtFirstIteration | scripts/pipeline/fullpipeline.py:73-116 | If every save completes, the resume point after a fresh run's first iteration is that iteration at the number of repositories it considered. Since nothing is ever marked completed, a restart reruns it with every repository skipped. |
| FullPipeline.FreshRunResumesAtLastSave | scripts/pipeline/fullpipeline.py:29-116 | When saves can fail independently, a restart after a fresh first iteration resumes after the last repository whose save got past `open`, if that save completed. If that save broke the file, or no save got past `open`, the restart begins the iteration again at repository 0. |
| PrGates.SubstantialPrs | scripts/pipeline/extract_prs.py:63-71 | The kept PRs are an order-preserving subsequence of the input. A PR is kept iff it is substantial: (title longer than 10 or non-empty body longer than 30) and at least one comment and not a draft. |
| PrGates.FilterPrs | scripts/pipeline/extract_prs.py:58-86 | Every input PR is stamped with the repository name, whether kept or not. The kept PRs are the substantial stamped ones, in order. |
| PrGates.FirstSubstantialPrs | scripts/pipeline/extract_prs.py:245-249 | The PRs handed on from one repository's search: at most `limit` of them (five in the iteration copy, ten in `scripts/pipeline/pr_extraction.py:198-202`), each substantial and stamped with the repository name. Fewer are handed on only when the search has no more substantial PRs; then every one of them is handed on. |
| PrGates.PrBody | scripts/pipeline/extract_prs.py:190 | The recorded body is a prefix of the body, at most 500 characters, the whole body when it is shorter, and empty when it is absent. |
| PrGates.QualityBodies | scripts/pipeline/extract_prs.py:154-182 | The kept bodies are a subsequence of the comment bodies, each at least 30 characters long. A body is kept iff it belongs to a comment with none of the four rejection reasons. |
| PrGates.QualityBodiesIsFilter | scripts/pipeline/extract_prs.py:154-182 | The comment loop computes the bodies of exactly the comments that pass the gates, in order. |
| PrGates.QualityBodiesAtPositions | scripts/pipeline/extract_prs.py:154-193 | The kept bodies are the comment bodies read at exactly the positions of the quality comments, in ascending order. Each quality comment contributes its body once, duplicates included, so `num_comments` is the number of quality comments. |
| PrGates.KeptBodies | scripts/pipeline/extract_prs.py:154-182 | For any gate, the bodies of the passing comments are all bodies read at the passing positions, and form a subsequence of them. |
| PrGates.ThBodyIsNotUnwanted | scripts/pipeline/extract_prs.py:141-150 | A body beginning `Th`, ending in a full stop and longer than 8 characters matches none of the boilerplate patterns. |
| PrGates.ThBodyIsNotMinorFix | scripts/pipeline/extract_prs.py:166 | Such a body carries no minor-fix tag. |
| PrGates.DenylistScenario | scripts/pipeline/extract_prs.py:154-182 | A human's `lgtm` is rejected, while a long technical remark by the same human is kept. |
| ExtractPrs.ProcessComments | scripts/pipeline/extract_prs.py:134-198 | The record is unnumbered and copies the PR number, repository, title and diff (with its length). It defaults to `Unknown`, and the body is at most 500 characters. Its comments are the bodies read at exactly the quality comments' positions, in input order, and `num_comments` is their count. |
| ExtractPrs.ProcessPr | scripts/pipeline/extract_prs.py:202-221 | At most one record per PR, in PR order, each with more than 10 comments. Failed tasks and thin discussions are dropped. |
| ExtractPrs.ProcessPrIsFilterMap | scripts/pipeline/extract_prs.py:216-221 | `processPR` keeps the successful, non-`None` task results in PR order. |
| ExtractPrs.ProcessPrMembers | scripts/pipeline/extract_prs.py:202-221 | A record is in `processPR`'s result iff some PR's task produced it. |
| ExtractPrs.RepoDiscussions | scripts/pipeline/extract_prs.py:245-255 | A repository contributes the records `processSinglePR` keeps for its first five substantial PRs, read at exactly the PRs it keeps, in PR order. There are at most five, each with more than 10 comments and unnumbered. |
| ExtractPrs.FirstProcessed | scripts/pipeline/extract_prs.py:237-240 | The first repository position not skipped is at or after `start_repo`, or the end of the list. |
| ExtractPrs.CallsFrom | scripts/pipeline/extract_prs.py:257-259 | From an unskipped position on, the callback receives `(iteration, i+1, name)` for every position in order. |
| ExtractPrs.SkippedPrefix | scripts/pipeline/extract_prs.py:238-240 | Positions below `start_repo` contribute nothing. |
| ExtractPrs.HarvestCalls | scripts/pipeline/extract_prs.py:237-260 | The checkpoint calls of a run name every processed repository in order, with the completed count `i+1`. |
| ExtractPrs.HarvestDiscussions | scripts/pipeline/extract_prs.py:237-255 | The collected discussions are the contributions of the repositories from the first unskipped one on, concatenated in repository order. There are at most five per processed repository, each with more than 10 comments. |
| ExtractPrs.DiscussionsFrom | scripts/pipeline/extract_prs.py:237-255 | From an unskipped position on, the discussions are the remaining repositories' contributions concatenated in order. |
| ExtractPrs.HarvestBound | scripts/pipeline/extract_prs.py:252-255 | At most five discussions per checkpoint call, each with more than 10 comments. |
| ExtractPrs.HarvestIgnoresEarlierStart | scripts/pipeline/extract_prs.py:238 | Once past the start offset, two runs with different offsets behave identically. |
| ExtractPrs.NumberFrom | scripts/pipeline/extract_prs.py:265-270 | The discussions are numbered consecutively from the first index, and nothing else changes. |
| ExtractPrs.PrDiscussionExtraction | scripts/pipeline/extract_prs.py:225-275 | At most the first three repositories are considered. One checkpoint call is made per unskipped repository, with strictly increasing completed counts between 1 and 3. The discussions are the unskipped repositories' contributions in repository order, numbered `1..n`, at most five per call. |
| ExtractPrs.NumberedHarvest | scripts/pipeline/extract_prs.py:237-270 | A run over at most three repositories makes its checkpoint calls in order and returns the processed contributions concatenated and numbered `1..n`. |
| ExtractPrs.ResumeSplitsHarvest | scripts/pipeline/extract_prs.py:237-260 | Interrupting after position `c-1` and restarting with `start_repo = c` redoes nothing and misses nothing. The uninterrupted calls are the earlier calls followed by the restarted run's, which starts at `c+1`. |
| LegacyExtraction.MakeRecord | scripts/pipeline.py:207-218 | A comment record copies the body, its length, the comment id and the author. It carries the PR number, title and repository, with the `Unknown` defaults, and a body of at most 500 characters. |
| LegacyExtraction.ProcessComments | scripts/pipeline.py:192-222 | Because the `return` is inside the loop, an empty list gives `None`. Otherwise the result has at most one record, present iff the first comment passes the gates. |
| LegacyExtraction.ExaminesOnlyFirstComment | scripts/pr_extraction.py:111-141 | The comments after the first never change the result. The kept bodies are a prefix, of length at most one, of what filtering every comment would keep. |
| LegacyExtraction.SecondCommentIsIgnored | scripts/pr_extraction.py:111-141 | A quality second comment is lost when the first is rejected, although the intended filter keeps it. |
| LegacyExtraction.ConsideredPrs | scripts/pipeline.py:277-281 | At most ten substantial PRs of a repository are looked at. |
| LegacyExtraction.ExtractFromPrs | scripts/pipeline.py:281-292 | The loop raises `TypeError` (from `len(None)`) exactly when some PR has no comments. Otherwise its records are the first-comment records of the PRs whose first comment passes, in PR order. |
| LegacyExtraction.ExtractFromPrsAtPositions | scripts/pipeline.py:281-292 | When nothing raises, the records are `MakeRecord(first comment, pr)` read at exactly the PRs whose first comment passes the gates, in PR order. |
| LegacyExtraction.ExtractFromRepos | scripts/pipeline.py:269-292 | The outer loop raises exactly when some considered PR of some repository has no comments. Otherwise there are at most ten records per repository. |
| LegacyExtraction.ExtractFromReposIsFlatten | scripts/pipeline.py:269-292 | When nothing raises, the records are every repository's contribution concatenated in repository order. |
| LegacyExtraction.PrDiscussionExtraction | scripts/pr_extraction.py:143-181 | Only the first ten repositories are considered. The extraction fails with `TypeError` exactly when one of their PRs has no comments. Otherwise the records are the repositories' contributions (first-comment records of their first ten substantial PRs) concatenated in order, at most 100, each with a body of at least 30 characters. |
| PipelinePrExtraction.ProcessComments | scripts/pipeline/pr_extraction.py:114-176 | `codeDiff[:300]` raises `TypeError` exactly when the diff is missing. Otherwise the record holds the bodies read at exactly the quality comments' positions, in order, with their count, the diff's length and its first 300 characters. |
| PipelinePrExtraction.ExtractFromPrs | scripts/pipeline/pr_extraction.py:202-228 | The loop fails exactly when some PR lacks a diff. Otherwise its records are the `Some` results of `Retained` over the PRs, in order: each record with more than five comments. |
| PipelinePrExtraction.ExtractFromPrsAtPositions | scripts/pipeline/pr_extraction.py:202-228 | When nothing raises, the records are read at exactly the PRs whose processed record has more than five comments, in PR order. |
| PipelinePrExtraction.AnyDifflessCons | scripts/pipeline/pr_extraction.py:190-208 | Some repository lacks a diff iff the first one does or one of the rest does. |
| PipelinePrExtraction.ExtractFromRepos | scripts/pipeline/pr_extraction.py:190-228 | The loop fails exactly when a considered PR lacks a diff. Otherwise there are at most ten records per repository, each with more than five comments and from a listed repository. |
| PipelinePrExtraction.ExtractFromReposIsFlatten | scripts/pipeline/pr_extraction.py:190-228 | When nothing raises, the records are every repository's contribution concatenated in repository order. |
| PipelinePrExtraction.PrDiscussionExtraction | scripts/pipeline/pr_extraction.py:183-242 | Only the first five repositories are considered. Failure is exactly a missing diff among their PRs. Otherwise the records are the repositories' retained records concatenated in repository order, at most 50, each with more than five comments. |
| RepoQuality.StrictImpliesRelaxed | scripts/pipeline/discover_repo.py:90-99 | The 500/50 thresholds admit every repository the 1000/100 thresholds admit. |
| RepoQuality.RecordedDescription | scripts/repo_discovery.py:57 | The recorded description is a prefix of the description, at most 200 characters, and the whole description when it is shorter. |
| RepoQuality.Record | scripts/pipeline/repo_discovery.py:70-87 | The record copies the repository's fields, with the license's name and the truncated description. |
| RepoQuality.FilterRepos | scripts/pipeline/repo_discovery.py:38-109 | The output is one record per kept repository, in input order and numbered `1..n`. A repository is kept iff it passes the thresholds and, under the screen, is whitelisted or not a directory. |
| RepoQuality.KeptAtPositions | scripts/repo_discovery.py:41-73 | The kept repositories are the input read at the kept positions. |
| RepoQuality.ScreenDecides | scripts/pipeline/discover_repo.py:121-139 | Above the thresholds, a whitelisted repository is always kept. Any other repository is kept iff no avoid-keyword occurs in its lowercased name or truncated description. |
| RepoQuality.AwesomeListIsDirectory | scripts/pipeline/repo_discovery.py:89-104 | A repository named `awesome-python` is classified as a curated list, and unless it is whitelisted the screened filter drops it whatever its thresholds. |
| RepoQuality.ScreeningOnlyRemoves | scripts/pipeline/repo_discovery.py:89-109 | The screened filter keeps a subsequence of what the unscreened filter with the same thresholds keeps. |
| DiscoverRepo.LoadExistingRepoIds | scripts/pipeline/discover_repo.py:10-20 | A missing file gives an empty list and an empty set. Otherwise the ids are exactly those of the loaded repositories. |
| DiscoverRepo.SkipKnown | scripts/pipeline/discover_repo.py:51-52 | Known ids are dropped and order is preserved. An empty skip set changes nothing. |
| DiscoverRepo.RawPages | scripts/pipeline/discover_repo.py:57 | Pages 1 to 7 are searched, in page order. |
| DiscoverRepo.SearchPages | scripts/pipeline/discover_repo.py:56-65 | The result is the concatenation of pages 1..7 with known ids skipped, and no known id survives. |
| DiscoverRepo.SearchLanguages | scripts/pipeline/discover_repo.py:156-162 | The results are all seven pages of every language, languages in order, with known ids skipped. None carries a known id. |
| DiscoverRepo.RenumberTotal | scripts/pipeline/discover_repo.py:171-172 | `total_index` is the one-based position in the combined list, and nothing else changes. |
| DiscoverRepo.KeptIdsComeFromInput | scripts/pipeline/discover_repo.py:89-141 | Every kept record carries the id of some searched repository. |
| DiscoverRepo.CombinedNumbering | scripts/pipeline/discover_repo.py:169-172 | The earlier records followed by the new ones are numbered `1..n` over the whole list. |
| DiscoverRepo.DiscoveredAreNew | scripts/pipeline/discover_repo.py:156-166 | The newly kept records are numbered `1..m` and avoid every known id. |
| DiscoverRepo.RepositoryDiscovery | scripts/pipeline/discover_repo.py:144-178 | The output is the earlier records followed by the records of exactly the searched repositories the relaxed, screened filter keeps, in search order, all numbered by `total_index`. |
| DiscoverRepo.AppendedRecords | scripts/pipeline/discover_repo.py:166-172 | After the earlier records come the kept search results, the `k`-th with `index` `k + 1` and `total_index` after the earlier ones. |
| DiffFilter.MatchCountsComplete | scripts/formatting/codeDiff_display.py:49 | Any text that starts with `@@`, whitespace, `-digits,digits`, whitespace, `+digits,digits`, whitespace and `@@` matches, and the match reports the two captured groups' values, for every choice of whitespace runs and digit strings. |
| DiffFilter.MatchCountsSound | scripts/formatting/codeDiff_display.py:49 | A match `Some(c)` means the text starts with such a header whose captured groups read `c`. |
| DiffFilter.MatchCountsIsGrammar | scripts/formatting/codeDiff_display.py:49 | The matcher reports `c` exactly when the text starts with a header of the pattern `@@\s*-\d+,(\d+)\s*\+\d+,(\d+)\s*@@` whose groups read `c`. |
| DiffFilter.SearchNoneMatchesNowhere | scripts/formatting/codeDiff_display.py:49 | The search finds nothing only when the pattern matches at no position. |
| DiffFilter.SearchIsLeftmost | scripts/formatting/codeDiff_display.py:58-61 | What the search finds is the match at the leftmost matching position. |
| DiffFilter.SearchNeedsComma | scripts/formatting/codeDiff_display.py:49 | A text without a comma contains no counted header. |
| DiffFilter.SearchCountsInfix | scripts/formatting/codeDiff_display.py:49 | A counted header inside a text is found in any text around it. |
| DiffFilter.FilterBlock | scripts/formatting/codeDiff_display.py:46-78 | A block is dropped iff it has no counted header, or no `@@…@@` line is left after hunk filtering. A surviving block keeps its head and trailer, and its hunks read at exactly the kept hunks' positions, in order. |
| DiffFilter.FilterCodeDiffs | scripts/formatting/codeDiff_display.py:42-81 | The text before the first block and after the last one is kept. The output blocks are the filtered forms of exactly the surviving input blocks, in input order. |
| DiffFilter.FilterOnlyDeletes | scripts/formatting/codeDiff_display.py:42-81 | The filtered text is a subsequence of the original and no longer than it, with the same prefix and suffix. |
| DiffFilter.BlocksOnlyDeleted | scripts/formatting/codeDiff_display.py:44-81 | The surviving blocks' text is a subsequence of the blocks' text. |
| DiffFilter.RefilterBlock | scripts/formatting/codeDiff_display.py:49-78 | A surviving block loses no hunk on a second pass, and survives again iff it still contains a counted header. |
| DiffFilter.FilterTwice | scripts/formatting/codeDiff_display.py:42-81 | Filtering twice equals filtering once iff every surviving block still contains a counted header. |
| DiffFilter.CountedSurvivorsAreStable | scripts/formatting/codeDiff_display.py:49-78 | When every surviving block keeps a counted hunk, the filter is idempotent on the result. |
| DiffFilter.StandardHeader | scripts/formatting/codeDiff_display.py:58-61 | A unified-diff header `@@ -a,b +c,d @@` is read as the counts `(b, d)`. |
| DiffFilter.StandardHunkKept | scripts/formatting/codeDiff_display.py:53-66 | A hunk with a standard header survives iff its counts differ by at least 50. |
| DiffFilter.UncountedHunkKept | scripts/formatting/codeDiff_display.py:57-68 | A hunk whose header holds no counted header is kept, whatever its body. A header without a comma never holds one. |
| DiffFilter.PlainHunkKept | scripts/formatting/codeDiff_display.py:68 | The header `@@ x @@` has no counts, so its hunk is kept. |
| DiffFilter.PlainSurvivor | scripts/formatting/codeDiff_display.py:49-78 | A block whose only counted hunk is too small survives with just its uncounted hunk. |
| DiffFilter.PlainSurvivorDropped | scripts/formatting/codeDiff_display.py:49-51 | That survivor, without a comma anywhere, is dropped by the block test. |
| DiffFilter.UncountedSurvivorIsUnstable | scripts/formatting/codeDiff_display.py:49-78 | A concrete block survives one pass and is dropped by the second, so the filter is not idempotent in general. |
| DiffFilter.GetCodeDiff | scripts/formatting/codeDiff_display.py:4-38 | The output is one record per item, numbered from 1, holding the filtered diff text twice with its length at most the original length. The debug read raises outside Python's index range, and then nothing is written. |
| CritiqueTransform.Attach | scripts/pipeline/transform_critique_data.py:11-34 | An extra diff raises `IndexError`. Otherwise the `k`-th diff attaches to the `k`-th summary, and summaries past the diffs get none. |
| CritiqueTransform.DropBlank | scripts/pipeline/transform_critique_data.py:36-37 | `.strip()` on a missing diff raises `AttributeError`. Otherwise the pairs with a non-blank diff are kept, in order. |
| CritiqueTransform.GetModelDataFails | scripts/pipeline/transform_critique_data.py:31-37 | More diffs than summaries raise `IndexError`; fewer raise `AttributeError`. |
| CritiqueTransform.GetModelDataJoins | scripts/pipeline/transform_critique_data.py:11-57 | With equal lengths, the output is built from the positional pairs with a non-blank diff inside the window. |
| CritiqueTransform.ExamplesAtPositions | scripts/pipeline/transform_critique_data.py:39-57 | The `k`-th example is the `k`-th kept pair's diff and summary under index `k+1`. The `k`-th inspection record matches it. |
| CritiqueTransform.GetModelDataSpec | scripts/pipeline/transform_critique_data.py:3-79 | A pair becomes an example iff its diff is non-blank and strictly between 5000 and 80000 characters long. Examples keep input order and are numbered `1..n`. Prompt is the diff and completion the summary, and the inspection records match one for one. |
| CritiqueTransform.BlankDiffDropped | scripts/pipeline/transform_critique_data.py:36 | A whitespace-only diff never becomes an example. |
| CritiqueTransform.WindowedDiffKept | scripts/pipeline/transform_critique_data.py:43 | A diff strictly inside the window with a non-space character always becomes an example. |
| ClassifierGate.SurvivorsFromAt | scripts/sentence-transformer/model_process_comments.py:33-40 | From position `i`, the survivors are the comments read at the positions below both lengths where the label is 1. |
| ClassifierGate.SurvivorsSpec | scripts/sentence-transformer/model_process_comments.py:33-40 | A comment survives iff its position is within `zip`'s range and its label is 1; survivors keep their order. |
| ClassifierGate.AllSubstantialSurvive | scripts/sentence-transformer/model_process_comments.py:34-36 | When every comment is labelled 1, all of them survive. |
| ClassifierGate.RecordsAtPositions | scripts/sentence-transformer/model_process_comments.py:42-49 | The records of the kept items, read against the input positions, are the gated output. |
| ClassifierGate.ScannedStep | scripts/sentence-transformer/model_process_comments.py:24-49 | A labelled item appends its record under the next index exactly when it is kept. |
| ClassifierGate.ScannedAll | scripts/sentence-transformer/model_process_comments.py:22-49 | At the end of the loop, every item was labelled and the records are the gated output. |
| ClassifierGate.FilterComments | scripts/sentence-transformer/model_process_comments.py:17-72 | Nothing is written exactly when the classifier fails on some item. Otherwise one record per item with a diff and at least four surviving comments, in order and numbered `1..n`, keeping the item's diff and surviving comments. |
| SubstantiveFilter.BotSuffixRedundant | scripts/filter.py:11-13 | The `-bot` suffix test adds nothing: a comment is from a bot iff the lowercased author contains `bot`. |
| SubstantiveFilter.UnitMentionRejected | scripts/filter.py:16-17 | A comment mentioning `unit` is rejected, because `nit` occurs inside it. |
| SubstantiveFilter.BlankCommentRejected | scripts/filter.py:14-15 | A whitespace-only comment has no words and is rejected. |
| SubstantiveFilter.FilterPr | scripts/filter.py:20-27 | An unmerged PR, or one with fewer than two substantive comments, gives `None`. Otherwise the PR is returned with its comments read at exactly the substantive comments' positions, in order, and nothing else changed. |
| SubstantiveFilter.FilterPrIdempotent | scripts/filter.py:20-27 | Filtering a kept PR again gives it back unchanged. |
| SubstantiveFilter.MainFilterSpec | scripts/filter.py:38 | The double call in the comprehension is harmless: the output is exactly the kept PRs' filtered records in order, never `None`. |
| SubstantiveFilter.MainFilterSecondCall | scripts/filter.py:38 | The second `filter_pr` call returns what the first did, for every kept PR. |
| ModelData.GetModelDataSpec | scripts/formatting/model_data_transform.py:9-27 | An item becomes an example iff its joined comments and diff have fewer than 128000 characters. Examples keep input order, with the diff as prompt and the comments joined by `";\n"` as completion. |
| CommentFlatten.EntriesNumbered | scripts/formatting/comment_transform.py:12-23 | One entry per comment, numbered consecutively from the start index, each unlabelled. |
| CommentFlatten.EntriesSlice | scripts/formatting/comment_transform.py:13-23 | The `i`-th item's entries fill the slice after the earlier items' comments, numbered on from them. |
| CommentFlatten.EntriesAppend | scripts/formatting/comment_transform.py:13-23 | Appending an item appends its entries, numbered on from the rest. |
| CommentFlatten.TransformJsonFile | scripts/formatting/comment_transform.py:3-23 | The nested loops produce the entries of the first 34 items. |
| CommentFlatten.EntriesSpec | scripts/formatting/comment_transform.py:11-23 | Entries are numbered `1..n` and unlabelled, and each item's comments appear with its title, in order, after the earlier items' comments. |
| CombineComments.Initial | scripts/formatting/combine_comments.py:9-29 | One record per first-run summary; an unreadable first file leaves none. |
| CombineComments.Combine | scripts/formatting/combine_comments.py:4-48 | Output is written iff the second run is no longer than the first. Record `i` is numbered `i+1`, carrying the first run's text and old length and the second run's `i`-th summary and length. |
| CombineComments.CombinePrefix | scripts/formatting/combine_comments.py:35-38 | Merging a prefix of the second run gives the same prefix of the output. |
| CombineComments.UnreadableFirst | scripts/formatting/combine_comments.py:24-48 | With an unreadable first file, only an empty second run writes (an empty list). |
| LabeledWriter.Format | scripts/sentence-transformer/format_labeled_comments.py:11-16 | `text` and `label` are the item's values, or `""` when absent. |
| LabeledWriter.UnescapeEscape | scripts/sentence-transformer/format_labeled_comments.py:21 | The string escaping round-trips: decoding the escaped text gives it back. |
| LabeledWriter.UnescapeChar | scripts/sentence-transformer/format_labeled_comments.py:21 | Decoding one escaped character followed by the rest gives the character followed by the decoded rest. |
| LabeledWriter.EscapeNoNewline | scripts/sentence-transformer/format_labeled_comments.py:21 | Escaped text contains no raw line break. |
| LabeledWriter.EncodeNoNewline | scripts/sentence-transformer/format_labeled_comments.py:21 | An encoded value contains no raw line break. |
| LabeledWriter.EncodeRecordNoNewline | scripts/sentence-transformer/format_labeled_comments.py:21 | A record's encoding fits on one line. |
| LabeledWriter.WrittenStep | scripts/sentence-transformer/format_labeled_comments.py:20-25 | Each loop step writes the line, then the separator, or a bare line break after the last line. |
| LabeledWriter.WrittenAll | scripts/sentence-transformer/format_labeled_comments.py:18-26 | After the loop and the closing bracket, the text is the JSON array of the lines. |
| LabeledWriter.FormatLabeledComments | scripts/sentence-transformer/format_labeled_comments.py:3-26 | One record per item, in order. The text is `[`, the records joined by `,\n` with a final line break, then `]`. |
| LabeledWriter.ArrayLines | scripts/sentence-transformer/format_labeled_comments.py:18-26 | `n` records take exactly `n + 2` line breaks: one line per record plus the two bracket lines. |
| Text.StripSpec | scripts/pipeline/extract_prs.py:163 | `strip()` removes exactly the leading and trailing whitespace runs. |
| Text.StripEmpty | scripts/pipeline/transform_critique_data.py:36 | A stripped text is empty iff the text is all whitespace. |

## Left out

- Network I/O, `asyncio`, semaphores and rate limiting: the modelled functions take the GitHub search, comment and diff results as function-valued parameters (`PrGates.GitHub`). `asyncio.gather` returns results in task order, so the concurrent PR fan-out is modelled as a sequential map.
- File reads and writes, console output, time stamps, and the sleep between iterations (10 seconds in the code, although the message printed before it says one hour). A file that cannot be read is an `Option` input. How each checkpoint save ends is a parameter (`FullPipeline.SaveOutcome`): the save completes, `open` fails and nothing changes, or `json.dump` fails after `open` has emptied the file.
- FullPipeline.LoadCheckpoint: only well-formed checkpoint files are modelled. A file is either unreadable or holds every field with a value of the right type. So a parsed file without `status`, on which `get_resume_point` raises `KeyError` (`scripts/pipeline/fullpipeline.py:79`), is not modelled. Neither is an empty JSON object, which the `if checkpoint` test on line 78 treats as absent.
- PrGates.Pr: a JSON `null` in a PR's `title` or `body` is modelled as an absent key. In Python, `len(pr.get('title', ''))` raises `TypeError` on a null title (`scripts/pipeline/extract_prs.py:65`), and `pr_data.get('title', 'Unknown')` records `None` rather than `'Unknown'` (line 189); the model covers neither case.
- The sentence-transformer encoding, the classifier and the LLM summaries are external calls. Labels come from a classifier parameter whose failure is a `Result` error; summaries are input records.
- The interactive labelling scripts, the training scripts and the download helpers are context outside the core.
- The regular-expression segmentation of a diff into `diff --git` blocks and `@@` hunks is taken as input: a `DiffFilter.Diff` is the segmented text, and `Render` gives the text back. The three tests the filter applies inside that segmentation are modelled at the character level.
- DiffFilter.SearchCounts: `\d` is modelled as the ASCII digits only, while Python's `\d` also matches other Unicode decimal digits.
- Text.Lower: Python's `str.lower()` is modelled as ASCII lowering; other letters are left unchanged. Case-insensitive pattern matching is modelled the same way.
- ModelData.GetModelDataSpec: the token estimate is a float `characters / 4`. It is compared as the integer test `characters < 128000`, which is the same for every length below 2^53.
- ModelData.GetModelData: the function carries only a length bound. Its full behaviour is stated by `GetModelDataSpec`. A `filtered_comments` value that is not a list is not modelled.
- CombineComments.Combine: an unreadable second file writes nothing, as does an overlong second run. Only the latter is modelled; the former is the trivial "no output" case.
- LabeledWriter.UnescapeEscape: decoding handles exactly the escapes this encoder produces (`\uXXXX` outside the surrogate range and the short escapes), not surrogate pairs.
- FullPipeline.RunIteration: the output file name is computed but never written, so it is not modelled.
- A JSON `null` in a comment's `user` or `body`, or a PR without `number`, raises inside `processSinglePR` (`scripts/pipeline/extract_prs.py:155-161,206`). `asyncio.gather(..., return_exceptions=True)` on line 217 then drops only that PR's result. The modelled comments and PRs always carry these fields, so this path is not modelled.
- DiscoverRepo.LoadExistingRepoIds: only a missing file is handled (`scripts/pipeline/discover_repo.py:18`). An existing file that is not valid JSON makes `json.load` raise `JSONDecodeError` on line 14; the model reads the file as well-formed or absent.

## Notes on the code's behaviour

- `get_resume_point` (`scripts/pipeline/fullpipeline.py:73-84`) scans from iteration 49 down and returns the first checkpoint it meets that is not completed, which is the highest one. Completed checkpoints above it are passed over (`FullPipeline.ResumeScanPending`, `FullPipeline.GetResumePoint`).
- The diff filter is not idempotent: a block that survives only through a hunk whose header has no counts is dropped by a second pass (`DiffFilter.UncountedSurvivorIsUnstable`). `DiffFilter.FilterTwice` states exactly when a second pass changes nothing.
- In `scripts/formatting/codeDiff_display.py` the comment on line 65 says hunks are kept when 30 or more lines changed, while the test on line 66 uses 50. The docstring on line 43 speaks of diffs starting with `@@ -0,0`, which the filter does not test for. The model follows the code (`DiffFilter.KeepHunk`, `DiffFilter.StandardHunkKept`).
- In `scripts/pipeline.py` and `scripts/pr_extraction.py`, `processComments` returns from inside its loop. Only the first comment is examined, and an empty list gives `None`, on which the caller's `len` raises. The model reproduces this (`LegacyExtraction.ProcessComments`, `LegacyExtraction.SecondCommentIsIgnored`).
- Nothing writes `status = "completed"`: the checkpoint callback uses the default status, and the cleanup call is commented out (`scripts/pipeline/fullpipeline.py:94,105`). A restarted run therefore resumes its last started iteration (`FullPipeline.FreshRunResumesAtFirstIteration`).
