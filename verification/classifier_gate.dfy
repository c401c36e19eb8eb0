/** The classifier gate of `scripts/sentence-transformer/model_process_comments.py`:
    each item's comments are labelled by a trained classifier, the comments
    labelled 1 survive, and an item is kept, under the next index, when it
    has a code diff and at least four comments survive. The classifier is a
    parameter: a function from the comment list to one label per comment,
    or to the exception it raises. */
module ClassifierGate {
  import opened Wrappers
  import opened Seqs

  const MinSurvivors := 4
  const Substantial := 1

  /** One input item, with `comments` defaulting to `[]` and `code_diff`
      `None` when absent. */
  datatype Item = Item(prNumber: Option<int>, comments: seq<string>, codeDiff: Option<string>)

  /** A kept item. */
  datatype GatedItem = GatedItem(index: nat, filteredComments: seq<string>, codeDiff: string)

  /** Sentence encoding followed by `classifier.predict`. */
  type Classifier = seq<string> -> Result<seq<int>>

  function Min(a: nat, b: nat): nat {
    if a <= b then a else b
  }

  /** The comments from position `i` on whose label is 1; `zip` stops at the
      shorter of the two sequences. */
  function SurvivorsFrom(comments: seq<string>, labels: seq<int>, i: nat): seq<string>
    requires i <= Min(|comments|, |labels|)
    decreases |comments| - i
  {
    if i == Min(|comments|, |labels|) then []
    else (if labels[i] == Substantial then [comments[i]] else []) + SurvivorsFrom(comments, labels, i + 1)
  }

  function Survivors(comments: seq<string>, labels: seq<int>): seq<string> {
    SurvivorsFrom(comments, labels, 0)
  }

  const IsSubstantialFn: int -> bool := l => l == Substantial

  /** The survivors are the comments at exactly the positions, below both
      lengths, whose label is 1, in ascending order. */
  lemma {:induction false} SurvivorsFromAt(comments: seq<string>, labels: seq<int>, i: nat)
    requires i <= Min(|comments|, |labels|)
    ensures ReadAt(SurvivorsFrom(comments, labels, i), comments,
                   PositionsFrom(IsSubstantialFn, labels[..Min(|comments|, |labels|)], i))
    decreases |comments| - i
  {
    var m := Min(|comments|, |labels|);
    if i < m {
      SurvivorsFromAt(comments, labels, i + 1);
      var rest := SurvivorsFrom(comments, labels, i + 1);
      assert labels[..m][i] == labels[i];
      if labels[i] == Substantial {
        ReadAtCons(rest, comments, PositionsFrom(IsSubstantialFn, labels[..m], i + 1), i);
        assert SurvivorsFrom(comments, labels, i) == [comments[i]] + rest;
      } else {
        assert SurvivorsFrom(comments, labels, i) == rest;
      }
    }
  }

  /** The positions of the surviving comments. */
  function SurvivorPositions(comments: seq<string>, labels: seq<int>): seq<nat> {
    Positions(IsSubstantialFn, labels[..Min(|comments|, |labels|)])
  }

  /** `comment` at position `j` survives iff `j` is below both lengths and
      labelled 1; survivors keep their relative order. */
  lemma SurvivorsSpec(comments: seq<string>, labels: seq<int>)
    ensures var pos := SurvivorPositions(comments, labels);
            && ReadAt(Survivors(comments, labels), comments, pos)
            && (forall k, l :: 0 <= k < l < |pos| ==> pos[k] < pos[l])
            && (forall j :: 0 <= j < Min(|comments|, |labels|) ==> (j in pos <==> labels[j] == Substantial))
  {
    var m := Min(|comments|, |labels|);
    SurvivorsFromAt(comments, labels, 0);
    var pos := SurvivorPositions(comments, labels);
    forall j | 0 <= j < m
      ensures j in pos <==> labels[j] == Substantial
    {
      assert labels[..m][j] == labels[j];
      if j in pos {
        var k :| 0 <= k < |pos| && pos[k] == j;
      }
    }
  }

  /** When every comment is labelled 1, all of them survive. */
  lemma {:induction false} AllSubstantialSurvive(comments: seq<string>, labels: seq<int>, i: nat)
    requires |comments| <= |labels| && i <= |comments|
    requires forall k :: 0 <= k < |comments| ==> labels[k] == Substantial
    ensures SurvivorsFrom(comments, labels, i) == comments[i..]
    decreases |comments| - i
  {
    if i < |comments| {
      AllSubstantialSurvive(comments, labels, i + 1);
      assert comments[i..] == [comments[i]] + comments[i + 1..];
    }
  }

  /** `item.get('code_diff')` is truthy. */
  predicate HasDiff(item: Item) {
    item.codeDiff.Some? && item.codeDiff.value != ""
  }

  /** Whether an item is kept, given that the classifier labels its
      comments. */
  predicate Retains(classify: Classifier, item: Item) {
    && classify(item.comments).Ok?
    && HasDiff(item)
    && |Survivors(item.comments, classify(item.comments).value)| >= MinSurvivors
  }

  function RetainsFn(classify: Classifier): Item -> bool {
    item => Retains(classify, item)
  }

  /** The record of a kept item under `index`. */
  function Record(classify: Classifier, item: Item, index: nat): GatedItem
    requires Retains(classify, item)
  {
    GatedItem(index, Survivors(item.comments, classify(item.comments).value), item.codeDiff.value)
  }

  /** The records of the kept items, numbered `1..n`. */
  function Records(classify: Classifier, kept: seq<Item>): (r: seq<GatedItem>)
    requires forall k :: 0 <= k < |kept| ==> Retains(classify, kept[k])
    ensures |r| == |kept|
  {
    seq(|kept|, k requires 0 <= k < |kept| => Record(classify, kept[k], k + 1))
  }

  /** Whether the classifier raises on some item's comments. */
  predicate SomeUnclassified(classify: Classifier, data: seq<Item>) {
    exists k :: 0 <= k < |data| && classify(data[k].comments).Raised?
  }

  /** What `filter_comments` writes, when the classifier labels every item:
      one record per item with a code diff and at least four surviving
      comments, in input order and numbered `1..n`; the `k`-th record keeps
      the code diff of the `pos[k]`-th item and its surviving comments. */
  predicate GatedAt(classify: Classifier, data: seq<Item>, out: seq<GatedItem>) {
    var pos := Positions(RetainsFn(classify), data);
    && |out| == |pos| <= |data|
    && (forall j :: 0 <= j < |data| && Retains(classify, data[j]) ==> j in pos)
    && forall k :: 0 <= k < |pos| ==>
         && pos[k] < |data|
         && Retains(classify, data[pos[k]])
         && out[k].index == k + 1
         && out[k].codeDiff == data[pos[k]].codeDiff.value
         && out[k].filteredComments == Survivors(data[pos[k]].comments, classify(data[pos[k]].comments).value)
  }

  /** The records of the kept items, read against the input. */
  lemma RecordsAtPositions(classify: Classifier, data: seq<Item>)
    ensures var kept := Filter(RetainsFn(classify), data);
            && (forall k :: 0 <= k < |kept| ==> Retains(classify, kept[k]))
            && GatedAt(classify, data, Records(classify, kept))
  {
    FilterAtPositions(RetainsFn(classify), data);
  }

  /** The state after the first `i` items: every one was labelled, and
      `out` holds the records of the kept ones. */
  predicate Scanned(classify: Classifier, data: seq<Item>, i: nat, out: seq<GatedItem>)
    requires i <= |data|
  {
    && (forall k :: 0 <= k < i ==> classify(data[k].comments).Ok?)
    && var kept := Filter(RetainsFn(classify), data[..i]);
       && (forall k :: 0 <= k < |kept| ==> Retains(classify, kept[k]))
       && out == Records(classify, kept)
  }

  lemma ScannedNone(classify: Classifier, data: seq<Item>)
    ensures Scanned(classify, data, 0, [])
  {
    assert data[..0] == [];
  }

  /** Keeping one more item appends its record under the next index. */
  lemma RecordsAppend(classify: Classifier, kept: seq<Item>, item: Item)
    requires forall k :: 0 <= k < |kept| ==> Retains(classify, kept[k])
    requires Retains(classify, item)
    ensures forall k :: 0 <= k < |kept + [item]| ==> Retains(classify, (kept + [item])[k])
    ensures Records(classify, kept + [item]) == Records(classify, kept) + [Record(classify, item, |kept| + 1)]
  {
  }

  /** The kept prefix grows by the next item exactly when it is kept. */
  lemma FilterStep(classify: Classifier, data: seq<Item>, i: nat)
    requires i < |data|
    ensures Filter(RetainsFn(classify), data[..i + 1])
            == Filter(RetainsFn(classify), data[..i]) + (if Retains(classify, data[i]) then [data[i]] else [])
  {
    FilterConcat(RetainsFn(classify), data[..i], [data[i]]);
    assert data[..i + 1] == data[..i] + [data[i]];
  }

  /** Scanning one more labelled item appends its record exactly when it
      is kept. */
  lemma ScannedStep(classify: Classifier, data: seq<Item>, i: nat, out: seq<GatedItem>)
    requires i < |data| && Scanned(classify, data, i, out)
    requires classify(data[i].comments).Ok?
    ensures Retains(classify, data[i]) ==> Scanned(classify, data, i + 1, out + [Record(classify, data[i], |out| + 1)])
    ensures !Retains(classify, data[i]) ==> Scanned(classify, data, i + 1, out)
  {
    FilterStep(classify, data, i);
    if Retains(classify, data[i]) {
      RecordsAppend(classify, Filter(RetainsFn(classify), data[..i]), data[i]);
    }
  }

  /** At the end of the scan, the records are the gated output. */
  lemma ScannedAll(classify: Classifier, data: seq<Item>, out: seq<GatedItem>)
    requires Scanned(classify, data, |data|, out)
    ensures !SomeUnclassified(classify, data)
    ensures GatedAt(classify, data, out)
  {
    assert data[..|data|] == data;
    RecordsAtPositions(classify, data);
  }

  /** `filter_comments`. An exception from the classifier is caught by the
      outer handler, and nothing is written. Otherwise the output holds
      one record per item with a code diff and at least four surviving
      comments, in input order and numbered `1..n`. */
  method FilterComments(data: seq<Item>, classify: Classifier) returns (r: Result<seq<GatedItem>>)
    ensures r.Raised? <==> SomeUnclassified(classify, data)
    ensures r.Ok? ==> GatedAt(classify, data, r.value)
  {
    var out: seq<GatedItem> := [];
    var index := 1;
    var i := 0;
    ScannedNone(classify, data);
    while i < |data|
      invariant i <= |data|
      invariant Scanned(classify, data, i, out)
      invariant index == |out| + 1
    {
      var item := data[i];
      var labels := classify(item.comments);
      if labels.Raised? {
        return Raised(labels.error);
      }
      var survivors := Survivors(item.comments, labels.value);
      ScannedStep(classify, data, i, out);
      if item.codeDiff.Some? && item.codeDiff.value != "" && |survivors| >= MinSurvivors {
        out := out + [GatedItem(index, survivors, item.codeDiff.value)];
        index := index + 1;
      }
      i := i + 1;
    }
    ScannedAll(classify, data, out);
    r := Ok(out);
  }
}
