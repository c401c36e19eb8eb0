/** The training-data step of `scripts/pipeline/transform_critique_data.py`:
    summaries and diffs are joined purely by position, blank diffs are
    dropped, the diffs whose length lies strictly between 5000 and 80000
    become prompt/completion examples numbered `1..n`, and the same window
    and numbering produce the records written for inspection. */
module CritiqueTransform {
  import opened Wrappers
  import opened Text
  import opened Seqs

  const MinDiffLength := 5000
  const MaxDiffLength := 80000

  /** One summary record, with absent keys read as `""`. */
  datatype Summary = Summary(ogComments: string, summarized: string)

  /** A summary once the diff loop has run: the diff at its position, or
      `None` when there were fewer diffs than summaries. */
  datatype Pending = Pending(summary: Summary, diff: Option<string>)

  /** A summary joined with its diff. */
  datatype Pair = Pair(summary: Summary, diff: string)

  /** `preprocess` plus the index the window loop assigns. */
  datatype Example = Example(index: nat, prompt: string, completion: string)

  /** The inspection record, numbered by the second window loop. */
  datatype Inspection = Inspection(
    index: nat,
    codeDiff: string,
    ogComments: string,
    summarized: string,
    codeDiffLength: nat,
    summaryLength: nat)

  /** The two outputs: the returned examples and the inspection records. */
  datatype ModelData = ModelData(final: seq<Example>, examine: seq<Inspection>)

  /** The first two loops: one pending record per summary, the `i`-th diff
      attached to the `i`-th summary. A diff beyond the last summary is an
      `IndexError`. */
  function Attach(summaries: seq<Summary>, diffs: seq<string>): (r: Result<seq<Pending>>)
    ensures r.Raised? <==> |diffs| > |summaries|
    ensures r.Raised? ==> r.error == IndexError
    ensures r.Ok? ==>
              && |r.value| == |summaries|
              && forall k :: 0 <= k < |summaries| ==>
                   r.value[k] == Pending(summaries[k], if k < |diffs| then Some(diffs[k]) else None)
  {
    if |diffs| > |summaries| then Raised(IndexError)
    else Ok(seq(|summaries|, k requires 0 <= k < |summaries| =>
                  Pending(summaries[k], if k < |diffs| then Some(diffs[k]) else None)))
  }

  predicate NonBlank(p: Pair) {
    Strip(p.diff) != []
  }

  const NonBlankFn: Pair -> bool := p => NonBlank(p)

  /** Whether every pending record received a diff. */
  predicate AllAttached(items: seq<Pending>) {
    forall k :: 0 <= k < |items| ==> items[k].diff.Some?
  }

  /** The pending records as pairs, once every diff is present. */
  function Settle(items: seq<Pending>): (r: seq<Pair>)
    requires AllAttached(items)
    ensures |r| == |items|
    ensures forall k :: 0 <= k < |items| ==> r[k] == Pair(items[k].summary, items[k].diff.value)
  {
    seq(|items|, k requires 0 <= k < |items| => Pair(items[k].summary, items[k].diff.value))
  }

  /** The blank-diff comprehension: `.strip()` on a missing diff raises
      `AttributeError`; otherwise the non-blank pairs, in order. */
  function DropBlank(items: seq<Pending>): (r: Result<seq<Pair>>)
    ensures r.Raised? <==> !AllAttached(items)
    ensures r.Raised? ==> r.error == AttributeError
    ensures r.Ok? ==> r.value == Filter(NonBlankFn, Settle(items))
  {
    if |items| == 0 then Ok([])
    else
      var rest := DropBlank(items[1..]);
      assert AllAttached(items) <==> items[0].diff.Some? && AllAttached(items[1..]);
      match items[0].diff
      case None => Raised(AttributeError)
      case Some(d) =>
        match rest
        case Raised(e) => Raised(e)
        case Ok(kept) =>
          assert Settle(items)[1..] == Settle(items[1..]);
          if Strip(d) != [] then Ok([Pair(items[0].summary, d)] + kept) else Ok(kept)
  }

  /** The length window, strict at both ends. */
  predicate InWindow(p: Pair) {
    MinDiffLength < |p.diff| < MaxDiffLength
  }

  const InWindowFn: Pair -> bool := p => InWindow(p)

  /** Whether a joined pair becomes an example. */
  predicate Keeps(p: Pair) {
    NonBlank(p) && InWindow(p)
  }

  const KeepsFn: Pair -> bool := p => Keeps(p)

  /** The examples built from the pairs inside the window, numbered `1..n`. */
  function Examples(pairs: seq<Pair>): (r: seq<Example>)
    ensures |r| == |pairs|
  {
    seq(|pairs|, k requires 0 <= k < |pairs| => Example(k + 1, pairs[k].diff, pairs[k].summary.summarized))
  }

  /** The inspection records of the same pairs, numbered by their own
      counter. */
  function Inspections(pairs: seq<Pair>): (r: seq<Inspection>)
    ensures |r| == |pairs|
  {
    seq(|pairs|, k requires 0 <= k < |pairs| =>
          var p := pairs[k];
          Inspection(k + 1, p.diff, p.summary.ogComments, p.summary.summarized, |p.diff|, |p.summary.summarized|))
  }

  /** Summaries and diffs paired by position. */
  function Zip(summaries: seq<Summary>, diffs: seq<string>): (r: seq<Pair>)
    requires |summaries| == |diffs|
    ensures |r| == |summaries|
    ensures forall k :: 0 <= k < |r| ==> r[k] == Pair(summaries[k], diffs[k])
  {
    seq(|summaries|, k requires 0 <= k < |summaries| => Pair(summaries[k], diffs[k]))
  }

  /** `get_model_data`. */
  function GetModelData(summaries: seq<Summary>, diffs: seq<string>): Result<ModelData> {
    var items :- Attach(summaries, diffs);
    var pairs :- DropBlank(items);
    var windowed := Filter(InWindowFn, pairs);
    Ok(ModelData(Examples(windowed), Inspections(windowed)))
  }

  /** An extra diff raises `IndexError`; a missing one leaves a summary
      without a diff, whose `.strip()` raises `AttributeError`. */
  lemma GetModelDataFails(summaries: seq<Summary>, diffs: seq<string>)
    ensures |diffs| > |summaries| ==> GetModelData(summaries, diffs) == Raised(IndexError)
    ensures |diffs| < |summaries| ==> GetModelData(summaries, diffs) == Raised(AttributeError)
  {
    if |diffs| < |summaries| {
      var items := Attach(summaries, diffs).value;
      assert items[|diffs|].diff.None?;
    }
  }

  /** With one diff per summary, the join keeps the pairs that pass both
      the blank test and the window, in order. */
  lemma GetModelDataJoins(summaries: seq<Summary>, diffs: seq<string>)
    requires |summaries| == |diffs|
    ensures var kept := Filter(KeepsFn, Zip(summaries, diffs));
            GetModelData(summaries, diffs) == Ok(ModelData(Examples(kept), Inspections(kept)))
  {
    var items := Attach(summaries, diffs).value;
    var pairs := Zip(summaries, diffs);
    assert Settle(items) == pairs;
    FilterFilter(NonBlankFn, InWindowFn, KeepsFn, pairs);
  }

  /** The examples and inspection records built from the kept pairs: the
      `k`-th example has the diff of the `pos[k]`-th pair as prompt, its
      summary as completion and index `k + 1`, and the `k`-th inspection
      record describes the same pair under the same index. */
  lemma ExamplesAtPositions(pairs: seq<Pair>)
    ensures var kept := Filter(KeepsFn, pairs);
            var pos := Positions(KeepsFn, pairs);
            var final := Examples(kept);
            var examine := Inspections(kept);
            && |final| == |pos| == |examine|
            && forall k :: 0 <= k < |pos| ==>
                 && pos[k] < |pairs| && Keeps(pairs[pos[k]])
                 && final[k] == Example(k + 1, pairs[pos[k]].diff, pairs[pos[k]].summary.summarized)
                 && examine[k].index == final[k].index
                 && examine[k].codeDiff == final[k].prompt
                 && examine[k].summarized == final[k].completion
  {
    FilterAtPositions(KeepsFn, pairs);
  }

  /** With one diff per summary, the examples are exactly the joined pairs
      with a non-blank diff inside the window, in input order and numbered
      `1..n`, and the inspection records match them one for one. */
  lemma GetModelDataSpec(summaries: seq<Summary>, diffs: seq<string>)
    requires |summaries| == |diffs|
    ensures var r := GetModelData(summaries, diffs);
            var pairs := Zip(summaries, diffs);
            var pos := Positions(KeepsFn, pairs);
            && r.Ok?
            && |r.value.final| == |pos| == |r.value.examine|
            && (forall j :: 0 <= j < |pairs| && Keeps(pairs[j]) ==> j in pos)
            && forall k :: 0 <= k < |pos| ==>
                 && Keeps(pairs[pos[k]])
                 && r.value.final[k] == Example(k + 1, diffs[pos[k]], summaries[pos[k]].summarized)
                 && r.value.examine[k].index == r.value.final[k].index
                 && r.value.examine[k].codeDiff == r.value.final[k].prompt
                 && r.value.examine[k].summarized == r.value.final[k].completion
  {
    GetModelDataJoins(summaries, diffs);
    ExamplesAtPositions(Zip(summaries, diffs));
  }

  /** A diff made only of whitespace is never an example, whatever its
      length. */
  lemma BlankDiffDropped(p: Pair)
    requires AllSpace(p.diff)
    ensures !Keeps(p)
  {
    StripEmpty(p.diff);
  }

  /** A diff of 5001 to 79999 characters that has one non-space character is
      an example. */
  lemma WindowedDiffKept(p: Pair, i: nat)
    requires MinDiffLength < |p.diff| < MaxDiffLength
    requires i < |p.diff| && !IsSpace(p.diff[i])
    ensures Keeps(p)
  {
    StripEmpty(p.diff);
  }
}
