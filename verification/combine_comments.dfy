/** The positional merge of `scripts/formatting/combine_comments.py`: the
    records of a first summary run are numbered `1..n`, the `i`-th record
    of a second run fills in the new summary of the `i`-th merged item, and
    exactly the items the second run reached are written. A second run
    longer than the first raises `IndexError` inside the handler, and then
    nothing is written. */
module CombineComments {
  import opened Wrappers

  /** One summary record, with `unsumarized_comments` and
      `summarized_comments` empty when absent. */
  datatype Summary = Summary(unsummarized: string, summarized: string)

  datatype Merged = Merged(
    index: nat,
    unsummarized: string,
    summarizedOld: string,
    oldLength: nat,
    summarizedNew: Option<string>,
    newLength: Option<nat>)

  /** The first loop. A first file that cannot be read leaves the list
      empty, since its handler only reports the error. */
  function Initial(first: Option<seq<Summary>>): (items: seq<Merged>)
    ensures |items| == |first.GetOr([])|
  {
    var data := first.GetOr([]);
    seq(|data|, i requires 0 <= i < |data| =>
          Merged(i + 1, data[i].unsummarized, data[i].summarized, |data[i].summarized|, None, None))
  }

  /** The second loop: the merged items reached by the second run, or
      `None` when it runs past the first list. */
  function Combine(first: Option<seq<Summary>>, second: seq<Summary>): (r: Option<seq<Merged>>)
    ensures r.Some? <==> |second| <= |first.GetOr([])|
    ensures r.Some? ==>
              && |r.value| == |second|
              && forall i :: 0 <= i < |second| ==>
                   var old1 := first.value[i];
                   r.value[i] == Merged(i + 1, old1.unsummarized, old1.summarized, |old1.summarized|,
                                        Some(second[i].summarized), Some(|second[i].summarized|))
  {
    var items := Initial(first);
    if |second| > |items| then None
    else Some(seq(|second|, i requires 0 <= i < |second| =>
                    items[i].(summarizedNew := Some(second[i].summarized),
                              newLength := Some(|second[i].summarized|))))
  }

  /** The merge is decided position by position: merging a prefix of the
      second run gives the same prefix of the output. */
  lemma CombinePrefix(first: Option<seq<Summary>>, second: seq<Summary>, m: nat)
    requires Combine(first, second).Some? && m <= |second|
    ensures Combine(first, second[..m]) == Some(Combine(first, second).value[..m])
  {
    var whole := Combine(first, second).value;
    var part := Combine(first, second[..m]).value;
    assert |part| == m;
    forall i | 0 <= i < m
      ensures part[i] == whole[i]
    {
      assert second[..m][i] == second[i];
    }
    assert part == whole[..m];
  }

  /** An unreadable first file leaves nothing to merge into: only an empty
      second run writes (an empty list). */
  lemma UnreadableFirst(second: seq<Summary>)
    ensures Combine(None, second) == if second == [] then Some([]) else None
  {
  }
}
