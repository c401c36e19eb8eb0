/** The iteration driver: a batch of repositories per iteration, a
    checkpoint file per iteration, and a resume point recovered from the
    checkpoints at start-up. The checkpoint directory is a map from
    iteration number to file contents; time stamps, sleeps and console
    output are not modelled. */
module FullPipeline {
  import opened Wrappers
  import opened Seqs
  import opened PrGates
  import opened ExtractPrs

  const BatchSize: nat := 40
  const DefaultTotalRepos := 40
  /** `get_resume_point` looks at iterations 49 down to 0. */
  const ScanLimit := 50
  /** `main` runs `range(start_iteration, 3)`. */
  const IterationLimit := 3

  /** `load_repo_batch`: `all_repos[i * b : i * b + b]`. */
  function LoadRepoBatch<T>(allRepos: seq<T>, iteration: nat, batchSize: nat): (r: seq<T>)
    ensures |r| <= batchSize
    ensures iteration * batchSize >= |allRepos| ==> r == []
    ensures iteration * batchSize + batchSize <= |allRepos| ==> |r| == batchSize
    ensures forall k :: 0 <= k < |r| ==>
              iteration * batchSize + k < |allRepos| && r[k] == allRepos[iteration * batchSize + k]
  {
    var start := iteration * batchSize;
    if start >= |allRepos| then []
    else if start + batchSize <= |allRepos| then allRepos[start..start + batchSize]
    else allRepos[start..]
  }

  /** The batches of iterations `0 .. k - 1`, in order. */
  function Batches<T>(allRepos: seq<T>, k: nat, batchSize: nat): (r: seq<seq<T>>)
    ensures |r| == k
    ensures forall i :: 0 <= i < k ==> r[i] == LoadRepoBatch(allRepos, i, batchSize)
  {
    if k == 0 then [] else Batches(allRepos, k - 1, batchSize) + [LoadRepoBatch(allRepos, k - 1, batchSize)]
  }

  /** Consecutive batches are adjacent and disjoint: iterations `0 .. k - 1`
      together read exactly the first `min(n, k * b)` repositories, each once. */
  lemma {:induction false} BatchesCoverPrefix<T>(allRepos: seq<T>, k: nat, batchSize: nat)
    ensures Flatten(Batches(allRepos, k, batchSize))
            == allRepos[..if k * batchSize <= |allRepos| then k * batchSize else |allRepos|]
  {
    if k > 0 {
      var lo0 := Product(k - 1, batchSize);
      BatchesCoverPrefix(allRepos, k - 1, batchSize);
      var prev := Batches(allRepos, k - 1, batchSize);
      var last := LoadRepoBatch(allRepos, k - 1, batchSize);
      assert Batches(allRepos, k, batchSize) == prev + [last];
      FlattenAppend(prev, last);
      BatchIsSlice(allRepos, k - 1, batchSize, lo0);
      MulSucc(k - 1, batchSize);
      SliceJoin(allRepos, lo0, batchSize);
    }
  }

  /** The clamped prefix up to `lo` followed by the clamped slice
      `[lo, lo + b)` is the clamped prefix up to `lo + b`. */
  lemma SliceJoin<T>(s: seq<T>, lo: nat, b: nat)
    ensures var l := if lo <= |s| then lo else |s|;
            var h := if lo + b <= |s| then lo + b else |s|;
            s[..l] + s[l..h] == s[..h]
  {
  }

  function Product(a: nat, b: nat): nat {
    a * b
  }

  lemma MulSucc(a: nat, b: nat)
    ensures (a + 1) * b == Product(a, b) + b && Product(a, b) == a * b
  {
  }

  /** A batch is the slice between its clamped bounds. */
  lemma BatchIsSlice<T>(allRepos: seq<T>, iteration: nat, batchSize: nat, start: nat)
    requires start == iteration * batchSize
    ensures var lo := if start <= |allRepos| then start else |allRepos|;
            var hi := if start + batchSize <= |allRepos| then start + batchSize else |allRepos|;
            LoadRepoBatch(allRepos, iteration, batchSize) == allRepos[lo..hi]
  {
  }

  datatype Status = InProgress | Completed

  /** The JSON object `save_checkpoint` writes, without its start time. */
  datatype Checkpoint = Checkpoint(
    iteration: int,
    completedRepos: int,
    totalRepos: int,
    lastCompletedRepo: string,
    status: Status)

  /** A checkpoint file: parsed, or present but not loadable. */
  datatype CheckpointFile = Parsed(checkpoint: Checkpoint) | Unreadable

  /** The checkpoint directory, keyed by iteration number. */
  type Store = map<int, CheckpointFile>

  /** Iteration `j`'s file is the same in both directories: absent from
      both, or present in both with the same contents. */
  predicate SameFile(before: Store, after: Store, j: int) {
    (j in after <==> j in before) && (j in before ==> after[j] == before[j])
  }

  /** `after` holds a file for iteration `j` that `before` lacked or held
      with other contents. */
  predicate FileChanged(before: Store, after: Store, j: int) {
    j in after && !(j in before && after[j] == before[j])
  }

  /** How one `save_checkpoint` call ends. `Saved`: the file is written.
      `OpenFailed`: `open` raises, so the directory is as it was.
      `DumpFailed`: `open(..., 'w')` has already emptied the file when
      `json.dump` raises, so what is left no longer parses. Either failure
      is reported and otherwise ignored. */
  datatype SaveOutcome = Saved | OpenFailed | DumpFailed

  /** The file a save leaves once its `open` has succeeded. */
  function SavedFile(iteration: int, completedRepos: int, lastCompletedRepo: string,
                     totalRepos: int, status: Status, outcome: SaveOutcome): CheckpointFile
  {
    if outcome == Saved then Parsed(Checkpoint(iteration, completedRepos, totalRepos, lastCompletedRepo, status))
    else Unreadable
  }

  /** `save_checkpoint`, ending as `outcome` says. */
  function SaveCheckpoint(store: Store, iteration: int, completedRepos: int, lastCompletedRepo: string,
                          totalRepos: int, status: Status, outcome: SaveOutcome): (r: Store)
    ensures outcome == Saved ==> LoadCheckpoint(r, iteration)
                                 == Some(Checkpoint(iteration, completedRepos, totalRepos, lastCompletedRepo, status))
    ensures outcome == DumpFailed ==> iteration in r && r[iteration] == Unreadable && LoadCheckpoint(r, iteration) == None
    ensures outcome == OpenFailed ==> r == store
    ensures forall j :: j != iteration ==> SameFile(store, r, j)
  {
    if outcome == OpenFailed then store
    else store[iteration := SavedFile(iteration, completedRepos, lastCompletedRepo, totalRepos, status, outcome)]
  }

  /** `load_checkpoint`: `None` for an absent or unreadable file. */
  function LoadCheckpoint(store: Store, iteration: int): (r: Option<Checkpoint>)
    ensures r.Some? <==> iteration in store && store[iteration].Parsed?
    ensures r.Some? ==> store[iteration] == Parsed(r.value)
  {
    if iteration in store && store[iteration].Parsed? then Some(store[iteration].checkpoint) else None
  }

  /** `cleanup_checkpoint`; `removed` is false when deleting an existing file
      fails for a reason other than its absence. */
  function CleanupCheckpoint(store: Store, iteration: int, removed: bool): (r: Store)
    ensures removed ==> iteration !in r && LoadCheckpoint(r, iteration) == None
    ensures iteration !in store ==> r == store
    ensures forall j :: j != iteration ==> SameFile(store, r, j)
  {
    if removed then store - {iteration} else store
  }

  /** What a save followed by a load of the same iteration gives back, and
      that a save is invisible to every other iteration's load. */
  lemma SaveThenLoad(store: Store, iteration: int, completedRepos: int, lastCompletedRepo: string, other: int)
    requires other != iteration
    ensures var s := SaveCheckpoint(store, iteration, completedRepos, lastCompletedRepo,
                                    DefaultTotalRepos, InProgress, Saved);
            && LoadCheckpoint(s, iteration)
               == Some(Checkpoint(iteration, completedRepos, DefaultTotalRepos, lastCompletedRepo, InProgress))
            && LoadCheckpoint(s, other) == LoadCheckpoint(store, other)
            && LoadCheckpoint(CleanupCheckpoint(s, iteration, true), other) == LoadCheckpoint(store, other)
  {
  }

  predicate IsPending(store: Store, iteration: int) {
    LoadCheckpoint(store, iteration).Some? && LoadCheckpoint(store, iteration).value.status == InProgress
  }

  predicate IsCompleted(store: Store, iteration: int) {
    LoadCheckpoint(store, iteration).Some? && LoadCheckpoint(store, iteration).value.status == Completed
  }

  /** Where an iteration run starts: its number and the first repository
      position it processes. */
  datatype StartPoint = StartPoint(iteration: nat, startRepo: int)

  function Max(a: int, b: int): int {
    if a < b then b else a
  }

  /** The loop of `get_resume_point` from iteration `it` down, with
      `latest` the highest completed iteration seen so far (or -1). */
  function ResumeScan(store: Store, it: int, latest: int): (r: StartPoint)
    requires -1 <= it < ScanLimit && -1 <= latest < ScanLimit
    ensures 0 <= r.iteration <= ScanLimit
    decreases it + 1
  {
    if it < 0 then StartPoint(latest + 1, 0)
    else
      match LoadCheckpoint(store, it)
      case None => ResumeScan(store, it - 1, latest)
      case Some(cp) =>
        if cp.status == Completed then ResumeScan(store, it - 1, Max(latest, it))
        else StartPoint(it, cp.completedRepos)
  }

  /** The loop invariant of `get_resume_point` at iteration `it`: nothing
      above `it` is pending, and `latest` is the highest completed
      iteration above `it` (or -1 when there is none). */
  predicate ScanInvariant(store: Store, it: int, latest: int) {
    && -1 <= it < ScanLimit && -1 <= latest < ScanLimit
    && (latest == -1 || (it < latest && IsCompleted(store, latest)))
    && (forall j :: it < j < ScanLimit ==> !IsPending(store, j))
    && (forall j :: it < j < ScanLimit && latest < j ==> !IsCompleted(store, j))
  }

  /** One step down keeps the invariant, whatever iteration `it` holds. */
  lemma ScanStep(store: Store, it: int, latest: int)
    requires ScanInvariant(store, it, latest) && 0 <= it && !IsPending(store, it)
    ensures IsCompleted(store, it) ==> ScanInvariant(store, it - 1, Max(latest, it))
    ensures !IsCompleted(store, it) ==> ScanInvariant(store, it - 1, latest)
  {
  }

  /** With a pending iteration at or below `it`, the scan stops at the
      highest pending iteration and resumes at its `completed_repos`. */
  lemma {:induction false} ResumeScanPending(store: Store, it: int, latest: int)
    requires ScanInvariant(store, it, latest)
    requires exists j :: 0 <= j <= it && IsPending(store, j)
    ensures var r := ResumeScan(store, it, latest);
            && IsPending(store, r.iteration)
            && r.startRepo == LoadCheckpoint(store, r.iteration).value.completedRepos
            && forall j :: r.iteration < j < ScanLimit ==> !IsPending(store, j)
    decreases it + 1
  {
    if !IsPending(store, it) {
      var j :| 0 <= j <= it && IsPending(store, j);
      assert j < it;
      ScanStep(store, it, latest);
      if IsCompleted(store, it) {
        ResumeScanPending(store, it - 1, Max(latest, it));
      } else {
        ResumeScanPending(store, it - 1, latest);
      }
    }
  }

  /** With nothing pending at or below `it`, the scan proposes the
      iteration after the highest completed one, from its first
      repository. */
  lemma {:induction false} ResumeScanFresh(store: Store, it: int, latest: int)
    requires ScanInvariant(store, it, latest)
    requires forall j :: 0 <= j <= it ==> !IsPending(store, j)
    ensures var r := ResumeScan(store, it, latest);
            && r.startRepo == 0
            && (r.iteration == 0 || IsCompleted(store, r.iteration - 1))
            && forall j :: r.iteration <= j < ScanLimit ==> !IsCompleted(store, j)
    decreases it + 1
  {
    if 0 <= it {
      ScanStep(store, it, latest);
      if IsCompleted(store, it) {
        ResumeScanFresh(store, it - 1, Max(latest, it));
      } else {
        ResumeScanFresh(store, it - 1, latest);
      }
    }
  }

  /** `get_resume_point`: the highest iteration in 0..49 whose checkpoint is
      not completed, resumed at its `completed_repos`; failing that, the
      iteration after the highest completed one, from its first repository. */
  function GetResumePoint(store: Store): (r: StartPoint)
    ensures 0 <= r.iteration <= ScanLimit
    ensures (exists j :: 0 <= j < ScanLimit && IsPending(store, j)) ==>
              && IsPending(store, r.iteration)
              && r.startRepo == LoadCheckpoint(store, r.iteration).value.completedRepos
              && forall j :: r.iteration < j < ScanLimit ==> !IsPending(store, j)
    ensures (forall j :: 0 <= j < ScanLimit ==> !IsPending(store, j)) ==>
              && r.startRepo == 0
              && (r.iteration == 0 || IsCompleted(store, r.iteration - 1))
              && forall j :: r.iteration <= j < ScanLimit ==> !IsCompleted(store, j)
    ensures (forall j :: 0 <= j < ScanLimit ==> LoadCheckpoint(store, j) == None) ==> r == StartPoint(0, 0)
  {
    ResumeScanFromTop(store);
    ResumeScan(store, ScanLimit - 1, -1)
  }

  lemma ResumeScanFromTop(store: Store)
    ensures var r := ResumeScan(store, ScanLimit - 1, -1);
            && ((exists j :: 0 <= j < ScanLimit && IsPending(store, j)) ==>
                  && IsPending(store, r.iteration)
                  && r.startRepo == LoadCheckpoint(store, r.iteration).value.completedRepos
                  && forall j :: r.iteration < j < ScanLimit ==> !IsPending(store, j))
            && ((forall j :: 0 <= j < ScanLimit ==> !IsPending(store, j)) ==>
                  && r.startRepo == 0
                  && (r.iteration == 0 || IsCompleted(store, r.iteration - 1))
                  && forall j :: r.iteration <= j < ScanLimit ==> !IsCompleted(store, j))
  {
    if exists j :: 0 <= j < ScanLimit && IsPending(store, j) {
      ResumeScanPending(store, ScanLimit - 1, -1);
    } else {
      ResumeScanFresh(store, ScanLimit - 1, -1);
    }
  }

  /** The runs `main` performs: iterations `start .. 2`, only the first of
      which resumes part-way through its batch. */
  function IterationPlan(resume: StartPoint): (plan: seq<StartPoint>)
    ensures |plan| == if resume.iteration < IterationLimit then IterationLimit - resume.iteration else 0
    ensures |plan| > 0 ==> plan[0] == resume
    ensures forall k :: 0 < k < |plan| ==> plan[k] == StartPoint(resume.iteration + k, 0)
  {
    if resume.iteration >= IterationLimit then []
    else
      seq(IterationLimit - resume.iteration, k requires 0 <= k < IterationLimit - resume.iteration =>
            StartPoint(resume.iteration + k, if resume.iteration + k == resume.iteration then resume.startRepo else 0))
  }

  /** The file a callback call leaves once its `open` has succeeded: the
      callback passes the defaults of 40 total repositories and status in
      progress. */
  function CallFile(c: CheckpointCall, outcome: SaveOutcome): CheckpointFile {
    SavedFile(c.iteration, c.completedRepos, c.lastCompletedRepo, DefaultTotalRepos, InProgress, outcome)
  }

  /** The `k`-th call reaches iteration `j`'s file: it names that iteration
      and its `open` succeeds. */
  predicate Reaches(calls: seq<CheckpointCall>, outcomes: seq<SaveOutcome>, k: int, j: int) {
    0 <= k < |calls| && k < |outcomes| && calls[k].iteration == j && outcomes[k] != OpenFailed
  }

  /** The `k`-th call is the last one to reach iteration `j`'s file. */
  predicate LastReach(calls: seq<CheckpointCall>, outcomes: seq<SaveOutcome>, k: int, j: int) {
    Reaches(calls, outcomes, k, j) && forall m :: k < m < |calls| ==> !Reaches(calls, outcomes, m, j)
  }

  /** Saves one checkpoint per callback call, in call order, the `k`-th
      ending as `outcomes[k]` says. Every file that changes is one that a
      call reaching it left behind. */
  function ApplyCheckpoints(store: Store, calls: seq<CheckpointCall>, outcomes: seq<SaveOutcome>): (r: Store)
    requires |outcomes| == |calls|
    ensures (forall k :: 0 <= k < |outcomes| ==> outcomes[k] == OpenFailed) ==> r == store
    ensures forall j :: (forall k :: 0 <= k < |calls| ==> calls[k].iteration != j) ==>
              SameFile(store, r, j)
    ensures forall j :: FileChanged(store, r, j) ==>
              exists k :: 0 <= k < |calls| && Reaches(calls, outcomes, k, j) && r[j] == CallFile(calls[k], outcomes[k])
    ensures forall j :: FileChanged(store, r, j) ==>
              || r[j] == Unreadable
              || (r[j].Parsed? && r[j].checkpoint.status == InProgress && r[j].checkpoint.totalRepos == DefaultTotalRepos)
    ensures |calls| > 0 && outcomes[|calls| - 1] == Saved ==>
              var last := calls[|calls| - 1];
              LoadCheckpoint(r, last.iteration)
              == Some(Checkpoint(last.iteration, last.completedRepos, DefaultTotalRepos, last.lastCompletedRepo, InProgress))
    decreases |calls|
  {
    if |calls| == 0 then store
    else
      var n := |calls| - 1;
      var prev := ApplyCheckpoints(store, calls[..n], outcomes[..n]);
      assert forall k, j :: 0 <= k < n && Reaches(calls[..n], outcomes[..n], k, j) ==> Reaches(calls, outcomes, k, j);
      var r := SaveCheckpoint(prev, calls[n].iteration, calls[n].completedRepos, calls[n].lastCompletedRepo,
                              DefaultTotalRepos, InProgress, outcomes[n]);
      assert forall j :: j != calls[n].iteration && FileChanged(store, r, j) ==> FileChanged(store, prev, j);
      assert forall j :: j != calls[n].iteration && SameFile(store, prev, j) ==> SameFile(store, r, j);
      r
  }

  /** Each iteration's file is the one the last call to reach it left, and
      a file no call reaches is as it was: earlier saves, and calls whose
      `open` failed, leave no trace. */
  lemma {:induction false} ApplyCheckpointsLastReach(store: Store, calls: seq<CheckpointCall>, outcomes: seq<SaveOutcome>)
    requires |outcomes| == |calls|
    ensures var r := ApplyCheckpoints(store, calls, outcomes);
            && (forall j, k :: LastReach(calls, outcomes, k, j) ==> j in r && r[j] == CallFile(calls[k], outcomes[k]))
            && (forall j :: (forall k :: 0 <= k < |calls| ==> !Reaches(calls, outcomes, k, j)) ==>
                  SameFile(store, r, j))
    decreases |calls|
  {
    if |calls| > 0 {
      var n := |calls| - 1;
      var pc, po := calls[..n], outcomes[..n];
      ApplyCheckpointsLastReach(store, pc, po);
      var r := ApplyCheckpoints(store, calls, outcomes);
      assert forall k, j :: 0 <= k < n ==> (Reaches(pc, po, k, j) <==> Reaches(calls, outcomes, k, j));
      forall j, k | LastReach(calls, outcomes, k, j)
        ensures j in r && r[j] == CallFile(calls[k], outcomes[k])
      {
        if k < n {
          assert !Reaches(calls, outcomes, n, j);
          assert LastReach(pc, po, k, j);
        }
      }
      forall j | forall k :: 0 <= k < |calls| ==> !Reaches(calls, outcomes, k, j)
        ensures SameFile(store, r, j)
      {
        assert !Reaches(calls, outcomes, n, j);
        assert forall k :: 0 <= k < n ==> !Reaches(pc, po, k, j);
        assert SameFile(store, ApplyCheckpoints(store, pc, po), j);
      }
    }
  }

  datatype IterationOutcome = IterationOutcome(store: Store, discussions: seq<Discussion>)

  /** The callback call made after the repository at position `c`. */
  function CallAt(iteration: int, considered: seq<string>, c: nat): CheckpointCall
    requires c < |considered|
  {
    CheckpointCall(iteration, c + 1, considered[c])
  }

  /** The calls made after positions `first, first + 1, ...` of `considered`. */
  function PositionCalls(iteration: int, considered: seq<string>, first: nat): (calls: seq<CheckpointCall>)
    requires first <= |considered|
    ensures |calls| == |considered| - first
    ensures forall k :: 0 <= k < |calls| ==> calls[k] == CallAt(iteration, considered, first + k)
  {
    seq(|considered| - first, k requires 0 <= k < |considered| - first => CallAt(iteration, considered, first + k))
  }

  /** Of the calls made from position `first` on, the one after position
      `c` is the last whose `open` succeeds. */
  predicate LastOpened(save: CheckpointCall -> SaveOutcome, iteration: int, considered: seq<string>, first: nat, c: int) {
    && first <= c < |considered|
    && save(CallAt(iteration, considered, c)) != OpenFailed
    && forall m :: c < m < |considered| ==> save(CallAt(iteration, considered, m)) == OpenFailed
  }

  /** After an iteration's saves, its file is the one the last call to get
      past `open` left, and it is as it was when no call got that far. */
  ghost predicate LastOpenedDecides(before: Store, after: Store, save: CheckpointCall -> SaveOutcome,
                              iteration: int, considered: seq<string>, first: nat) {
    && (forall c :: LastOpened(save, iteration, considered, first, c) ==>
          && iteration in after
          && after[iteration] == CallFile(CallAt(iteration, considered, c), save(CallAt(iteration, considered, c))))
    && ((forall c :: first <= c < |considered| ==> save(CallAt(iteration, considered, c)) == OpenFailed) ==>
          (iteration in after <==> iteration in before) && (iteration in before ==> after[iteration] == before[iteration]))
  }

  /** When the call for the last considered repository saves, the
      iteration's file records every considered repository as completed. */
  ghost predicate LastCallLoads(after: Store, save: CheckpointCall -> SaveOutcome,
                                iteration: int, considered: seq<string>, first: nat) {
    first < |considered| && save(CallAt(iteration, considered, |considered| - 1)) == Saved ==>
      IsPending(after, iteration) && after[iteration].checkpoint.completedRepos == |considered|
  }

  /** The saves of one iteration's calls, read by position: the file is
      what the last call to get past `open` left, and it is untouched when
      no call did. */
  lemma IterationLastSave(store: Store, iteration: int, considered: seq<string>, first: nat,
                          save: CheckpointCall -> SaveOutcome)
    requires first <= |considered|
    ensures var calls := PositionCalls(iteration, considered, first);
            LastOpenedDecides(store, ApplyCheckpoints(store, calls, Map(save, calls)), save, iteration, considered, first)
  {
    var calls := PositionCalls(iteration, considered, first);
    var outs := Map(save, calls);
    ApplyCheckpointsLastReach(store, calls, outs);
    forall c | LastOpened(save, iteration, considered, first, c)
      ensures LastReach(calls, outs, c - first, iteration)
    {
      var k := c - first;
      assert calls[k] == CallAt(iteration, considered, c);
      forall m | k < m < |calls|
        ensures !Reaches(calls, outs, m, iteration)
      {
        assert calls[m] == CallAt(iteration, considered, first + m);
      }
    }
    if forall c :: first <= c < |considered| ==> save(CallAt(iteration, considered, c)) == OpenFailed {
      forall k | 0 <= k < |calls|
        ensures !Reaches(calls, outs, k, iteration)
      {
        assert calls[k] == CallAt(iteration, considered, first + k);
      }
    }
  }

  /** One harvest's checkpoint calls, read by position. */
  function RunCalls(gh: GitHub, batch: seq<string>, iteration: int, startRepo: int): (calls: seq<CheckpointCall>)
    ensures var considered := Prefix(batch, RepoLimit);
            calls == PositionCalls(iteration, considered, FirstProcessed(considered, startRepo))
  {
    var considered := Prefix(batch, RepoLimit);
    var calls := PrDiscussionExtraction(gh, batch, iteration, startRepo).calls;
    CallsArePositionCalls(calls, iteration, batch, startRepo);
    calls
  }

  lemma CallsArePositionCalls(calls: seq<CheckpointCall>, iteration: int, repos: seq<string>, startRepo: int)
    requires var first := FirstProcessed(Prefix(repos, RepoLimit), startRepo);
             && |calls| == |Prefix(repos, RepoLimit)| - first
             && (forall k :: 0 <= k < |calls| ==>
                   && calls[k].iteration == iteration
                   && calls[k].completedRepos == first + k + 1
                   && calls[k].lastCompletedRepo == Prefix(repos, RepoLimit)[first + k])
    ensures var considered := Prefix(repos, RepoLimit);
            calls == PositionCalls(iteration, considered, FirstProcessed(considered, startRepo))
  {
    var considered := Prefix(repos, RepoLimit);
    var p := PositionCalls(iteration, considered, FirstProcessed(considered, startRepo));
    forall k | 0 <= k < |calls|
      ensures calls[k] == p[k]
    {
    }
  }

  /** The discussions one iteration run collects. */
  function IterationDiscussions(gh: GitHub, allRepos: seq<string>, run: StartPoint): seq<Discussion>
  {
    PrDiscussionExtraction(gh, LoadRepoBatch(allRepos, run.iteration, BatchSize), run.iteration, run.startRepo).discussions
  }

  /** A file changed by calls whose counts lie in `1..3` is unreadable or
      pending at such a count. */
  lemma ChangedFileBounds(store: Store, calls: seq<CheckpointCall>, outcomes: seq<SaveOutcome>, j: int)
    requires |outcomes| == |calls|
    requires forall k :: 0 <= k < |calls| ==> 1 <= calls[k].completedRepos <= RepoLimit
    ensures var r := ApplyCheckpoints(store, calls, outcomes);
            FileChanged(store, r, j) ==>
              || r[j] == Unreadable
              || (&& IsPending(r, j)
                  && 1 <= r[j].checkpoint.completedRepos <= RepoLimit)
  {
  }

  /** The checkpoint directory after one iteration run: its calls' saves,
      in order, each ending as `save` says. */
  function IterationStore(gh: GitHub, allRepos: seq<string>, store: Store, run: StartPoint,
                          save: CheckpointCall -> SaveOutcome): Store
  {
    var calls := RunCalls(gh, LoadRepoBatch(allRepos, run.iteration, BatchSize), run.iteration, run.startRepo);
    ApplyCheckpoints(store, calls, Map(save, calls))
  }

  lemma IterationFrame(gh: GitHub, allRepos: seq<string>, store: Store, run: StartPoint,
                       save: CheckpointCall -> SaveOutcome)
    ensures var s := IterationStore(gh, allRepos, store, run, save);
            forall j :: j != run.iteration ==> SameFile(store, s, j)
  {
  }

  lemma IterationChanged(gh: GitHub, allRepos: seq<string>, store: Store, run: StartPoint,
                         save: CheckpointCall -> SaveOutcome)
    ensures var s := IterationStore(gh, allRepos, store, run, save);
            run.iteration in s && !(run.iteration in store && s[run.iteration] == store[run.iteration]) ==>
              || s[run.iteration] == Unreadable
              || (&& IsPending(s, run.iteration)
                  && 1 <= s[run.iteration].checkpoint.completedRepos <= RepoLimit)
  {
    var calls := RunCalls(gh, LoadRepoBatch(allRepos, run.iteration, BatchSize), run.iteration, run.startRepo);
    ChangedFileBounds(store, calls, Map(save, calls), run.iteration);
  }

  lemma IterationSaves(gh: GitHub, allRepos: seq<string>, store: Store, run: StartPoint,
                       save: CheckpointCall -> SaveOutcome)
    ensures var considered := Prefix(LoadRepoBatch(allRepos, run.iteration, BatchSize), RepoLimit);
            LastOpenedDecides(store, IterationStore(gh, allRepos, store, run, save), save,
                              run.iteration, considered, FirstProcessed(considered, run.startRepo))
  {
    var batch := LoadRepoBatch(allRepos, run.iteration, BatchSize);
    var considered := Prefix(batch, RepoLimit);
    IterationLastSave(store, run.iteration, considered, FirstProcessed(considered, run.startRepo), save);
  }

  /** When the last position's call saves, the iteration's file holds that checkpoint: every repository considered. */
  lemma LastPositionSaved(store: Store, iteration: int, considered: seq<string>, first: nat,
                          save: CheckpointCall -> SaveOutcome)
    requires first <= |considered|
    ensures var calls := PositionCalls(iteration, considered, first);
            LastCallLoads(ApplyCheckpoints(store, calls, Map(save, calls)), save, iteration, considered, first)
  {
    var calls := PositionCalls(iteration, considered, first);
    if first < |considered| {
      assert calls[|calls| - 1] == CallAt(iteration, considered, |considered| - 1);
    }
  }

  lemma IterationLastCallSaved(gh: GitHub, allRepos: seq<string>, store: Store, run: StartPoint,
                               save: CheckpointCall -> SaveOutcome)
    ensures var considered := Prefix(LoadRepoBatch(allRepos, run.iteration, BatchSize), RepoLimit);
            LastCallLoads(IterationStore(gh, allRepos, store, run, save), save, run.iteration,
                          considered, FirstProcessed(considered, run.startRepo))
  {
    var considered := Prefix(LoadRepoBatch(allRepos, run.iteration, BatchSize), RepoLimit);
    LastPositionSaved(store, run.iteration, considered, FirstProcessed(considered, run.startRepo), save);
  }


  /** `run_iteration`: extract the iteration's batch with the checkpoint
      callback wired to `save_checkpoint`; `save` says how each call ends.
      Every call of one run names a different iteration or position, so
      this gives each call an outcome of its own. Only this iteration's
      checkpoint can change, and a changed file is unreadable or pending. */
  function RunIteration(gh: GitHub, allRepos: seq<string>, store: Store, run: StartPoint,
                        save: CheckpointCall -> SaveOutcome): (o: IterationOutcome)
    ensures forall j :: j != run.iteration ==> SameFile(store, o.store, j)
    ensures run.iteration in o.store && !(run.iteration in store && o.store[run.iteration] == store[run.iteration]) ==>
              || o.store[run.iteration] == Unreadable
              || (&& IsPending(o.store, run.iteration)
                  && 1 <= o.store[run.iteration].checkpoint.completedRepos <= RepoLimit)
  {
    IterationFrame(gh, allRepos, store, run, save);
    IterationChanged(gh, allRepos, store, run, save);
    IterationOutcome(IterationStore(gh, allRepos, store, run, save), IterationDiscussions(gh, allRepos, run))
  }

  /** Which file an iteration leaves: the one the last call to get past
      `open` left, pending at that call's count when the save completed,
      unreadable when `json.dump` failed, and untouched when no call got
      that far. When the save for the last considered repository completes,
      every considered repository is counted. */
  lemma RunIterationLastSave(gh: GitHub, allRepos: seq<string>, store: Store, run: StartPoint,
                             save: CheckpointCall -> SaveOutcome)
    ensures var o := RunIteration(gh, allRepos, store, run, save);
            var considered := Prefix(LoadRepoBatch(allRepos, run.iteration, BatchSize), RepoLimit);
            LastOpenedDecides(store, o.store, save, run.iteration, considered, FirstProcessed(considered, run.startRepo))
    ensures var o := RunIteration(gh, allRepos, store, run, save);
            var considered := Prefix(LoadRepoBatch(allRepos, run.iteration, BatchSize), RepoLimit);
            LastCallLoads(o.store, save, run.iteration, considered, FirstProcessed(considered, run.startRepo))
  {
    IterationSaves(gh, allRepos, store, run, save);
    IterationLastCallSaved(gh, allRepos, store, run, save);
  }

  /** Every file that differs from `before` is unreadable or pending. */
  ghost predicate ChangedFilesPending(before: Store, after: Store) {
    forall j :: FileChanged(before, after, j) ==>
      after[j] == Unreadable || IsPending(after, j)
  }

  /** A file changed across two steps was changed by the second, or by the
      first and then left alone. */
  lemma ChangedFilesPendingTrans(a: Store, b: Store, rest: seq<IterationOutcome>)
    ensures ChangedFilesPending(a, b) && (forall x :: x in rest ==> ChangedFilesPending(b, x.store)) ==>
              forall x :: x in rest ==> ChangedFilesPending(a, x.store)
  {
  }

  /** `main`'s loop: every planned iteration in order, threading the
      checkpoint directory through; `step` runs one iteration. */
  function RunPlan(store: Store, plan: seq<StartPoint>, step: (Store, StartPoint) -> IterationOutcome)
    : (o: seq<IterationOutcome>)
    ensures |o| == |plan|
    ensures |o| > 0 ==> o[0] == step(store, plan[0])
    ensures forall k :: 0 < k < |o| ==> o[k] == step(o[k - 1].store, plan[k])
    ensures (forall s, r :: ChangedFilesPending(s, step(s, r).store)) ==>
              forall x :: x in o ==> ChangedFilesPending(store, x.store)
    decreases |plan|
  {
    if |plan| == 0 then []
    else
      var first := step(store, plan[0]);
      var rest := RunPlan(first.store, plan[1..], step);
      ChangedFilesPendingTrans(store, first.store, rest);
      [first] + rest
  }

  /** `run_iteration` as the step of `main`'s loop. Every iteration run
      leaves each file it changes unreadable or pending. */
  function IterationStep(gh: GitHub, allRepos: seq<string>, save: CheckpointCall -> SaveOutcome)
    : (step: (Store, StartPoint) -> IterationOutcome)
    ensures forall s, r :: step(s, r) == RunIteration(gh, allRepos, s, r, save)
    ensures forall s, r :: ChangedFilesPending(s, step(s, r).store)
  {
    (s: Store, r: StartPoint) => RunIteration(gh, allRepos, s, r, save)
  }

  /** No file that differs from `before` is marked completed. */
  ghost predicate NoChangedFileCompleted(before: Store, after: Store) {
    forall j :: FileChanged(before, after, j) ==> !IsCompleted(after, j)
  }

  /** A pending or unreadable file is not completed. */
  lemma ChangedFilesNotCompleted(before: Store, o: seq<IterationOutcome>)
    ensures (forall x :: x in o ==> ChangedFilesPending(before, x.store)) ==>
              forall x :: x in o ==> NoChangedFileCompleted(before, x.store)
  {
  }

  /** The whole driver from a checkpoint directory: resume, then run the
      planned iterations. Nothing it writes is ever marked completed. */
  function RunPipeline(gh: GitHub, allRepos: seq<string>, store: Store,
                       save: CheckpointCall -> SaveOutcome): (o: seq<IterationOutcome>)
    ensures |o| <= IterationLimit
    ensures forall x :: x in o ==> ChangedFilesPending(store, x.store) && NoChangedFileCompleted(store, x.store)
  {
    var o := RunPlan(store, IterationPlan(GetResumePoint(store)), IterationStep(gh, allRepos, save));
    ChangedFilesNotCompleted(store, o);
    o
  }

  /** The resume point of a directory that holds at most iteration 0's
      file: that iteration at its count when it is pending, the next one
      when it is completed, and `(0, 0)` when it does not load. */
  lemma ResumeFromIterationZero(store: Store)
    requires forall j :: j != 0 ==> j !in store
    ensures GetResumePoint(store)
            == if IsPending(store, 0) then StartPoint(0, LoadCheckpoint(store, 0).value.completedRepos)
               else if IsCompleted(store, 0) then StartPoint(1, 0)
               else StartPoint(0, 0)
  {
    var r := GetResumePoint(store);
    assert forall j :: 0 < j < ScanLimit ==> !IsPending(store, j) && !IsCompleted(store, j);
    if !IsPending(store, 0) && !IsCompleted(store, 0) {
      assert forall j :: 0 <= j < ScanLimit ==> LoadCheckpoint(store, j) == None;
    }
  }

  /** A fresh pipeline whose first iteration processed any repository and
      saved every checkpoint resumes, after a restart, at that iteration
      with the number of repositories considered there: the iteration is
      never marked completed, so it is rerun with every repository skipped. */
  lemma FreshRunResumesAtFirstIteration(gh: GitHub, allRepos: seq<string>)
    requires 0 < |allRepos|
    ensures var o := RunIteration(gh, allRepos, map[], StartPoint(0, 0), _ => Saved);
            GetResumePoint(o.store) == StartPoint(0, |Prefix(LoadRepoBatch(allRepos, 0, BatchSize), RepoLimit)|)
  {
    var o := RunIteration(gh, allRepos, map[], StartPoint(0, 0), _ => Saved);
    RunIterationLastSave(gh, allRepos, map[], StartPoint(0, 0), _ => Saved);
    assert |LoadRepoBatch(allRepos, 0, BatchSize)| > 0;
    assert IsPending(o.store, 0);
    ResumeFromIterationZero(o.store);
  }

  /** With saves that fail independently, a restart after a fresh first
      iteration resumes after the last repository whose save completed, if
      the last save to get past `open` completed. If that save broke the
      file, or no save got past `open`, nothing loads and the restart begins
      the iteration again from its first repository. */
  lemma FreshRunResumesAtLastSave(gh: GitHub, allRepos: seq<string>, save: CheckpointCall -> SaveOutcome, c: int)
    ensures var considered := Prefix(LoadRepoBatch(allRepos, 0, BatchSize), RepoLimit);
            var o := RunIteration(gh, allRepos, map[], StartPoint(0, 0), save);
            LastOpened(save, 0, considered, 0, c) ==>
              GetResumePoint(o.store)
              == if save(CallAt(0, considered, c)) == Saved then StartPoint(0, c + 1) else StartPoint(0, 0)
    ensures var considered := Prefix(LoadRepoBatch(allRepos, 0, BatchSize), RepoLimit);
            var o := RunIteration(gh, allRepos, map[], StartPoint(0, 0), save);
            (forall m :: 0 <= m < |considered| ==> save(CallAt(0, considered, m)) == OpenFailed) ==>
              GetResumePoint(o.store) == StartPoint(0, 0)
  {
    var o := RunIteration(gh, allRepos, map[], StartPoint(0, 0), save);
    RunIterationLastSave(gh, allRepos, map[], StartPoint(0, 0), save);
    ResumeFromIterationZero(o.store);
  }
}
