/** Order-preserving selection on sequences: the shape shared by every
    filter in the pipeline (`[x for x in xs if p(x)]`). */
module Seqs {
  import opened Wrappers

  /** `a` can be obtained from `b` by deleting elements: each element of `a`
      is matched, in order, with a distinct element of `b`. */
  ghost predicate IsSubseq<T>(a: seq<T>, b: seq<T>)
    decreases |b|
  {
    |a| == 0
    || (|b| > 0 && ((a[0] == b[0] && IsSubseq(a[1..], b[1..])) || IsSubseq(a, b[1..])))
  }

  lemma {:induction false} SubseqLength<T>(a: seq<T>, b: seq<T>)
    requires IsSubseq(a, b)
    ensures |a| <= |b|
    decreases |b|
  {
    if |a| > 0 {
      if a[0] == b[0] && IsSubseq(a[1..], b[1..]) {
        SubseqLength(a[1..], b[1..]);
      } else {
        SubseqLength(a, b[1..]);
      }
    }
  }

  lemma {:induction false} SubseqMembers<T>(a: seq<T>, b: seq<T>)
    requires IsSubseq(a, b)
    ensures forall x :: x in a ==> x in b
    decreases |b|
  {
    if |a| > 0 {
      if a[0] == b[0] && IsSubseq(a[1..], b[1..]) {
        SubseqMembers(a[1..], b[1..]);
        assert forall x :: x in a ==> x == a[0] || x in a[1..];
      } else {
        SubseqMembers(a, b[1..]);
      }
    }
  }

  lemma {:induction false} SubseqReflexive<T>(a: seq<T>)
    ensures IsSubseq(a, a)
  {
    if |a| > 0 {
      SubseqReflexive(a[1..]);
    }
  }

  /** Anything in front of `b` can be skipped. */
  lemma {:induction false} SubseqDropPrefix<T>(a: seq<T>, x: seq<T>, b: seq<T>)
    requires IsSubseq(a, b)
    ensures IsSubseq(a, x + b)
    decreases |x|
  {
    if |x| > 0 {
      assert (x + b)[1..] == x[1..] + b;
      SubseqDropPrefix(a, x[1..], b);
    } else {
      assert x + b == b;
    }
  }

  /** Subsequences of two parts concatenate to a subsequence of the whole. */
  lemma {:induction false} SubseqConcat<T>(a1: seq<T>, b1: seq<T>, a2: seq<T>, b2: seq<T>)
    requires IsSubseq(a1, b1) && IsSubseq(a2, b2)
    ensures IsSubseq(a1 + a2, b1 + b2)
    decreases |b1|
  {
    if |a1| == 0 {
      assert a1 + a2 == a2;
      SubseqDropPrefix(a2, b1, b2);
    } else {
      assert (b1 + b2)[1..] == b1[1..] + b2;
      if a1[0] == b1[0] && IsSubseq(a1[1..], b1[1..]) {
        SubseqConcat(a1[1..], b1[1..], a2, b2);
        assert (a1 + a2)[1..] == a1[1..] + a2;
      } else {
        SubseqConcat(a1, b1[1..], a2, b2);
      }
    }
  }

  /** `[x for x in s if p(x)]`. */
  function Filter<T(!new)>(p: T -> bool, s: seq<T>): (r: seq<T>)
    ensures |r| <= |s|
    ensures forall x :: x in r <==> x in s && p(x)
    ensures IsSubseq(r, s)
  {
    if |s| == 0 then []
    else
      var rest := Filter(p, s[1..]);
      assert forall x :: x in s <==> x == s[0] || x in s[1..];
      if p(s[0]) then
        assert ([s[0]] + rest)[1..] == rest;
        [s[0]] + rest
      else rest
  }

  /** Filtering a concatenation filters each part. */
  lemma {:induction false} FilterConcat<T(!new)>(p: T -> bool, a: seq<T>, b: seq<T>)
    ensures Filter(p, a + b) == Filter(p, a) + Filter(p, b)
  {
    if |a| > 0 {
      assert (a + b)[1..] == a[1..] + b;
      FilterConcat(p, a[1..], b);
    } else {
      assert a + b == b;
    }
  }

  /** A sequence whose every element passes is its own filter. */
  lemma {:induction false} FilterAllPass<T(!new)>(p: T -> bool, s: seq<T>)
    requires forall x :: x in s ==> p(x)
    ensures Filter(p, s) == s
  {
    if |s| > 0 {
      assert forall x :: x in s[1..] ==> x in s;
      FilterAllPass(p, s[1..]);
    }
  }

  /** Filtering twice with the same predicate filters once. */
  lemma FilterIdempotent<T(!new)>(p: T -> bool, s: seq<T>)
    ensures Filter(p, Filter(p, s)) == Filter(p, s)
  {
    FilterAllPass(p, Filter(p, s));
  }

  /** Filtering by `p` and then by `q` filters by their conjunction `pq`. */
  lemma {:induction false} FilterFilter<T(!new)>(p: T -> bool, q: T -> bool, pq: T -> bool, s: seq<T>)
    requires forall x :: pq(x) == (p(x) && q(x))
    ensures Filter(q, Filter(p, s)) == Filter(pq, s)
  {
    if |s| > 0 {
      FilterFilter(p, q, pq, s[1..]);
      if p(s[0]) {
        assert ([s[0]] + Filter(p, s[1..]))[1..] == Filter(p, s[1..]);
      }
    }
  }

  /** The positions `j` in `[i, |s|)` with `p(s[j])`, in ascending order. */
  function PositionsFrom<T>(p: T -> bool, s: seq<T>, i: nat): (r: seq<nat>)
    requires i <= |s|
    ensures forall k :: 0 <= k < |r| ==> i <= r[k] < |s| && p(s[r[k]])
    ensures forall k, l :: 0 <= k < l < |r| ==> r[k] < r[l]
    ensures forall j :: i <= j < |s| && p(s[j]) ==> j in r
    decreases |s| - i
  {
    if i == |s| then []
    else if p(s[i]) then [i] + PositionsFrom(p, s, i + 1)
    else PositionsFrom(p, s, i + 1)
  }

  function Positions<T>(p: T -> bool, s: seq<T>): seq<nat> {
    PositionsFrom(p, s, 0)
  }

  /** `r` is `s` read at the positions `pos`. */
  ghost predicate ReadAt<T>(r: seq<T>, s: seq<T>, pos: seq<nat>) {
    |r| == |pos| && forall k :: 0 <= k < |pos| ==> pos[k] < |s| && r[k] == s[pos[k]]
  }

  lemma ReadAtCons<T>(r: seq<T>, s: seq<T>, pos: seq<nat>, i: nat)
    requires ReadAt(r, s, pos) && i < |s|
    ensures ReadAt([s[i]] + r, s, [i] + pos)
  {
    forall k | 0 <= k < |pos| + 1
      ensures ([i] + pos)[k] < |s| && ([s[i]] + r)[k] == s[([i] + pos)[k]]
    {
      if k > 0 {
        assert ([s[i]] + r)[k] == r[k - 1] && ([i] + pos)[k] == pos[k - 1];
      }
    }
  }

  /** The filter of a suffix picks exactly the elements at the passing
      positions of that suffix, in order. */
  lemma {:induction false} FilterAtPositionsFrom<T(!new)>(p: T -> bool, s: seq<T>, i: nat)
    requires i <= |s|
    ensures ReadAt(Filter(p, s[i..]), s, PositionsFrom(p, s, i))
    decreases |s| - i
  {
    if i < |s| {
      assert s[i..][0] == s[i] && s[i..][1..] == s[i + 1..];
      FilterAtPositionsFrom(p, s, i + 1);
      if p(s[i]) {
        ReadAtCons(Filter(p, s[i + 1..]), s, PositionsFrom(p, s, i + 1), i);
      }
    }
  }

  /** `Filter(p, s)` is `s` read at exactly the passing positions, in
      ascending order. */
  lemma FilterAtPositions<T(!new)>(p: T -> bool, s: seq<T>)
    ensures var pos := Positions(p, s);
            |Filter(p, s)| == |pos|
            && forall k :: 0 <= k < |pos| ==> Filter(p, s)[k] == s[pos[k]]
  {
    assert s[0..] == s;
    FilterAtPositionsFrom(p, s, 0);
  }

  /** The same fact in the `ReadAt` form. */
  lemma FilterReadAt<T(!new)>(p: T -> bool, s: seq<T>)
    ensures ReadAt(Filter(p, s), s, Positions(p, s))
  {
    FilterAtPositions(p, s);
  }

  /** `[f(x) for x in s]`. */
  function Map<A, B>(f: A -> B, s: seq<A>): (r: seq<B>)
    ensures |r| == |s|
    ensures forall k :: 0 <= k < |s| ==> r[k] == f(s[k])
  {
    seq(|s|, k requires 0 <= k < |s| => f(s[k]))
  }

  /** The concatenation of a sequence of sequences. */
  function Flatten<T>(ss: seq<seq<T>>): seq<T> {
    if |ss| == 0 then [] else ss[0] + Flatten(ss[1..])
  }

  function TotalLength<T>(ss: seq<seq<T>>): nat {
    if |ss| == 0 then 0 else |ss[0]| + TotalLength(ss[1..])
  }

  lemma {:induction false} FlattenLength<T>(ss: seq<seq<T>>)
    ensures |Flatten(ss)| == TotalLength(ss)
  {
    if |ss| > 0 {
      FlattenLength(ss[1..]);
    }
  }

  lemma {:induction false} FlattenAppend<T>(ss: seq<seq<T>>, t: seq<T>)
    ensures Flatten(ss + [t]) == Flatten(ss) + t
  {
    if |ss| == 0 {
      assert ss + [t] == [t];
    } else {
      assert (ss + [t])[1..] == ss[1..] + [t];
      FlattenAppend(ss[1..], t);
    }
  }

  /** Filtering each part and concatenating the results filters the
      concatenation. */
  lemma {:induction false} FilterFlatten<T(!new)>(p: T -> bool, ss: seq<seq<T>>, fs: seq<seq<T>>)
    requires |fs| == |ss| && forall k :: 0 <= k < |ss| ==> fs[k] == Filter(p, ss[k])
    ensures Flatten(fs) == Filter(p, Flatten(ss))
  {
    if |ss| > 0 {
      FilterFlatten(p, ss[1..], fs[1..]);
      FilterConcat(p, ss[0], Flatten(ss[1..]));
    }
  }

  /** The `Some` results of `f` over `xs`, in order. */
  function FilterMap<A, B(!new)>(f: A -> Option<B>, xs: seq<A>): (r: seq<B>)
    ensures |r| <= |xs|
    ensures forall y :: y in r ==> exists x :: x in xs && f(x) == Some(y)
  {
    if |xs| == 0 then []
    else
      var rest := FilterMap(f, xs[1..]);
      assert forall x :: x in xs[1..] ==> x in xs;
      match f(xs[0])
      case None => rest
      case Some(y) => [y] + rest
  }

  lemma FilterMapOne<A, B(!new)>(f: A -> Option<B>, x: A)
    ensures FilterMap(f, [x]) == if f(x).Some? then [f(x).value] else []
  {
    assert [x][1..] == [];
  }

  /** When `f` either returns its argument or drops it, mapping changes
      nothing exactly when nothing is dropped. */
  lemma {:induction false} FilterMapFixed<T(!new)>(f: T -> Option<T>, xs: seq<T>)
    requires forall x :: x in xs ==> f(x) == Some(x) || f(x) == None
    ensures FilterMap(f, xs) == xs <==> forall x :: x in xs ==> f(x).Some?
  {
    if |xs| > 0 {
      var x := xs[0];
      var rest := FilterMap(f, xs[1..]);
      assert x in xs;
      assert forall y :: y in xs[1..] ==> y in xs;
      assert (forall y :: y in xs ==> f(y).Some?) <==> f(x).Some? && forall y :: y in xs[1..] ==> f(y).Some?;
      FilterMapFixed(f, xs[1..]);
      if f(x).Some? {
        assert FilterMap(f, xs) == [x] + rest;
        assert xs == [x] + xs[1..];
        assert ([x] + rest)[1..] == rest;
      }
    }
  }

  /** `f` as a test: whether it yields a value. */
  function Defined<A, B>(f: A -> Option<B>): A -> bool {
    x => f(x).Some?
  }

  /** `r` holds the values that `f` yields at the positions `pos` of `xs`. */
  ghost predicate YieldsAt<A, B>(r: seq<B>, f: A -> Option<B>, xs: seq<A>, pos: seq<nat>) {
    |r| == |pos| && forall k :: 0 <= k < |pos| ==> pos[k] < |xs| && f(xs[pos[k]]) == Some(r[k])
  }

  lemma YieldsAtCons<A, B>(r: seq<B>, f: A -> Option<B>, xs: seq<A>, pos: seq<nat>, i: nat)
    requires YieldsAt(r, f, xs, pos) && i < |xs| && f(xs[i]).Some?
    ensures YieldsAt([f(xs[i]).value] + r, f, xs, [i] + pos)
  {
    var r' := [f(xs[i]).value] + r;
    forall k | 0 <= k < |pos| + 1
      ensures ([i] + pos)[k] < |xs| && f(xs[([i] + pos)[k]]) == Some(r'[k])
    {
      if k > 0 {
        assert r'[k] == r[k - 1] && ([i] + pos)[k] == pos[k - 1];
      }
    }
  }

  /** The `Some` results of `f` over a suffix are the values it yields at
      the defined positions of that suffix, in order. */
  lemma {:induction false} FilterMapAtPositionsFrom<A, B(!new)>(f: A -> Option<B>, xs: seq<A>, i: nat)
    requires i <= |xs|
    ensures YieldsAt(FilterMap(f, xs[i..]), f, xs, PositionsFrom(Defined(f), xs, i))
    decreases |xs| - i
  {
    if i < |xs| {
      assert xs[i..][0] == xs[i] && xs[i..][1..] == xs[i + 1..];
      FilterMapAtPositionsFrom(f, xs, i + 1);
      var rest := FilterMap(f, xs[i + 1..]);
      var pos := PositionsFrom(Defined(f), xs, i + 1);
      if f(xs[i]).Some? {
        assert Defined(f)(xs[i]);
        assert FilterMap(f, xs[i..]) == [f(xs[i]).value] + rest;
        YieldsAtCons(rest, f, xs, pos, i);
      } else {
        assert !Defined(f)(xs[i]);
      }
    }
  }

  /** `FilterMap(f, xs)` holds exactly the values `f` yields, read at the
      positions where it yields one, in ascending order. */
  lemma FilterMapAtPositions<A, B(!new)>(f: A -> Option<B>, xs: seq<A>)
    ensures YieldsAt(FilterMap(f, xs), f, xs, Positions(Defined(f), xs))
    ensures forall j :: 0 <= j < |xs| && f(xs[j]).Some? ==> j in Positions(Defined(f), xs)
  {
    assert xs[0..] == xs;
    FilterMapAtPositionsFrom(f, xs, 0);
    forall j | 0 <= j < |xs| && f(xs[j]).Some?
      ensures j in Positions(Defined(f), xs)
    {
      assert Defined(f)(xs[j]);
    }
  }

  /** A slice of the second part of a concatenation. */
  lemma SliceOfSecond<T>(a: seq<T>, b: seq<T>, lo: nat, hi: nat)
    requires lo <= hi <= |b|
    ensures (a + b)[|a| + lo..|a| + hi] == b[lo..hi]
  {
  }

  /** Python's `s[:n]` for a non-negative `n`. */
  function Prefix<T>(s: seq<T>, n: nat): (r: seq<T>)
    ensures |r| == if n <= |s| then n else |s|
    ensures forall k :: 0 <= k < |r| ==> r[k] == s[k]
  {
    if n <= |s| then s[..n] else s
  }
}
