/** The token-budget step of `scripts/formatting/model_data_transform.py`:
    each item's kept comments are joined with `";\n"`, the token count is
    estimated as a quarter of the characters in the joined comments and the
    diff, and the items estimated under 32000 tokens become
    prompt/completion examples. */
module ModelData {
  import opened Text
  import opened Seqs

  const Separator := ";\n"
  const TokenBudget := 32000
  const CharsPerToken := 4

  /** One input item: `code_diff` and `filtered_comments`, empty when
      absent. */
  datatype Item = Item(codeDiff: string, comments: seq<string>)

  /** `preprocess`: the diff as prompt, the joined comments as completion.
      `characters` is the character count whose quarter is the
      `token_estimation` the record carries. */
  datatype TrainingExample = TrainingExample(prompt: string, completion: string, characters: nat)

  function JoinedComments(item: Item): string {
    Join(Separator, item.comments)
  }

  function Characters(item: Item): nat {
    |JoinedComments(item)| + |item.codeDiff|
  }

  /** `token_estimation < 32000`. The estimate is `characters / 4` in
      floating point, which is exact for any realistic length, so the test
      is `characters < 128000`. */
  predicate Fits(item: Item) {
    Characters(item) < TokenBudget * CharsPerToken
  }

  const FitsFn: Item -> bool := item => Fits(item)

  function Preprocess(item: Item): TrainingExample {
    TrainingExample(item.codeDiff, JoinedComments(item), Characters(item))
  }

  /** `get_model_data`: the examples of the items within the budget, in
      input order. */
  function GetModelData(data: seq<Item>): (out: seq<TrainingExample>)
    ensures |out| <= |data|
  {
    var kept := Filter(FitsFn, data);
    seq(|kept|, k requires 0 <= k < |kept| => Preprocess(kept[k]))
  }

  /** The budget in terms of the input: the comment lengths, two
      characters per separator and the diff length stay below 128000. */
  lemma FitsByLengths(item: Item)
    ensures |item.comments| == 0 ==> (Fits(item) <==> |item.codeDiff| < 128000)
    ensures |item.comments| > 0 ==>
              (Fits(item) <==> SumOfLengths(item.comments) + 2 * (|item.comments| - 1) + |item.codeDiff| < 128000)
  {
  }

  /** The output is the input read at the positions of the items within
      the budget, in order: the `k`-th example has the diff of the
      `pos[k]`-th item as prompt and its joined comments as completion,
      and estimates fewer than 32000 tokens. */
  lemma GetModelDataSpec(data: seq<Item>)
    ensures var out := GetModelData(data);
            var pos := Positions(FitsFn, data);
            && |out| == |pos|
            && (forall j :: 0 <= j < |data| && Fits(data[j]) ==> j in pos)
            && forall k :: 0 <= k < |out| ==>
                 && pos[k] < |data|
                 && out[k].prompt == data[pos[k]].codeDiff
                 && out[k].completion == Join(Separator, data[pos[k]].comments)
                 && out[k].characters < TokenBudget * CharsPerToken
  {
    FilterAtPositions(FitsFn, data);
  }
}
