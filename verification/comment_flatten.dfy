/** The flattening of `scripts/formatting/comment_transform.py`: the
    comments of the first 34 PR items become one labelling entry each,
    ordered by item and then by comment, numbered `1..n` across items, with
    the PR title copied and no label yet. */
module CommentFlatten {
  import opened Wrappers
  import opened Seqs

  const ItemLimit := 34

  /** One PR item: `pr_title` and `comments`, empty when absent. */
  datatype PrItem = PrItem(prTitle: string, comments: seq<string>)

  /** An entry awaiting a label. */
  datatype Entry = Entry(index: nat, prTitle: string, comment: string, classLabel: Option<int>)

  /** The entries of one item, numbered from `next`. */
  function ItemEntries(item: PrItem, next: nat): (r: seq<Entry>)
    ensures |r| == |item.comments|
  {
    seq(|item.comments|, j requires 0 <= j < |item.comments| => Entry(next + j, item.prTitle, item.comments[j], None))
  }

  /** The number of comments of `items`. */
  function CommentCount(items: seq<PrItem>): nat {
    if |items| == 0 then 0 else |items[0].comments| + CommentCount(items[1..])
  }

  /** The number of comments of the items before the `i`-th. */
  function Offset(items: seq<PrItem>, i: nat): nat
    requires i <= |items|
  {
    CommentCount(items[..i])
  }

  /** The entries of `items`, item after item, numbered from `next`. */
  function Entries(items: seq<PrItem>, next: nat): seq<Entry> {
    if |items| == 0 then []
    else ItemEntries(items[0], next) + Entries(items[1..], next + |items[0].comments|)
  }

  /** One entry per comment, numbered consecutively from `next`. */
  lemma {:induction false} EntriesNumbered(items: seq<PrItem>, next: nat)
    ensures |Entries(items, next)| == CommentCount(items)
    ensures forall k :: 0 <= k < |Entries(items, next)| ==>
              Entries(items, next)[k].index == next + k && Entries(items, next)[k].classLabel == None
  {
    if |items| > 0 {
      EntriesNumbered(items[1..], next + |items[0].comments|);
    }
  }

  /** The entries of the `i`-th item fill the slice that starts after the
      comments of the items before it, and are numbered on from them. */
  lemma {:induction false} EntriesSlice(items: seq<PrItem>, next: nat, i: nat)
    requires i < |items|
    ensures Offset(items, i) + |items[i].comments| <= |Entries(items, next)|
    ensures Entries(items, next)[Offset(items, i)..Offset(items, i) + |items[i].comments|]
            == ItemEntries(items[i], next + Offset(items, i))
    decreases i
  {
    var first := ItemEntries(items[0], next);
    var next' := next + |items[0].comments|;
    var rest := Entries(items[1..], next');
    assert Entries(items, next) == first + rest;
    assert items[..0] == [];
    if i > 0 {
      OffsetStep(items, i);
      EntriesSlice(items[1..], next', i - 1);
      var lo := Offset(items[1..], i - 1);
      SliceOfSecond(first, rest, lo, lo + |items[i].comments|);
    } else {
      assert (first + rest)[..|first|] == first;
    }
  }

  lemma OffsetStep(items: seq<PrItem>, i: nat)
    requires 0 < i < |items|
    ensures items[1..][i - 1] == items[i]
    ensures Offset(items, i) == |items[0].comments| + Offset(items[1..], i - 1)
  {
    assert items[1..][..i - 1] == items[..i][1..];
  }

  /** Appending an item appends its entries, numbered on from the rest. */
  lemma {:induction false} EntriesAppend(items: seq<PrItem>, item: PrItem, next: nat)
    ensures Entries(items + [item], next) == Entries(items, next) + ItemEntries(item, next + CommentCount(items))
  {
    if |items| == 0 {
      assert items + [item] == [item];
    } else {
      assert (items + [item])[1..] == items[1..] + [item];
      EntriesAppend(items[1..], item, next + |items[0].comments|);
    }
  }

  /** `transform_json_file`: the entries of the first 34 items. */
  method TransformJsonFile(data: seq<PrItem>) returns (out: seq<Entry>)
    ensures out == Entries(Prefix(data, ItemLimit), 1)
  {
    var items := Prefix(data, ItemLimit);
    out := [];
    var index := 1;
    var i := 0;
    while i < |items|
      invariant i <= |items|
      invariant out == Entries(items[..i], 1)
      invariant index == |out| + 1 == Offset(items, i) + 1
    {
      var item := items[i];
      ghost var before := out;
      EntriesNumbered(items[..i], 1);
      var j := 0;
      while j < |item.comments|
        invariant j <= |item.comments|
        invariant out == before + ItemEntries(item, |before| + 1)[..j]
        invariant index == |before| + 1 + j
      {
        out := out + [Entry(index, item.prTitle, item.comments[j], None)];
        index := index + 1;
        j := j + 1;
      }
      assert ItemEntries(item, |before| + 1)[..j] == ItemEntries(item, |before| + 1);
      EntriesAppend(items[..i], item, 1);
      assert items[..i + 1] == items[..i] + [item];
      EntriesNumbered(items[..i + 1], 1);
      i := i + 1;
    }
    assert items[..i] == items;
  }

  /** One entry per comment, numbered `1..n`, each unlabelled; the
      entries of the `i`-th item fill the slice after the comments of the
      items before it. */
  lemma EntriesSpec(items: seq<PrItem>)
    ensures |Entries(items, 1)| == CommentCount(items)
    ensures forall k :: 0 <= k < |Entries(items, 1)| ==>
              Entries(items, 1)[k].index == k + 1 && Entries(items, 1)[k].classLabel == None
    ensures forall i :: 0 <= i < |items| ==>
              && Offset(items, i) + |items[i].comments| <= |Entries(items, 1)|
              && Entries(items, 1)[Offset(items, i)..Offset(items, i) + |items[i].comments|]
                 == ItemEntries(items[i], Offset(items, i) + 1)
  {
    EntriesNumbered(items, 1);
    forall i | 0 <= i < |items|
      ensures Offset(items, i) + |items[i].comments| <= |Entries(items, 1)|
      ensures Entries(items, 1)[Offset(items, i)..Offset(items, i) + |items[i].comments|]
              == ItemEntries(items[i], Offset(items, i) + 1)
    {
      EntriesSlice(items, 1, i);
    }
  }
}
