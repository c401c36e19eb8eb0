/** The code-diff filter of `scripts/formatting/codeDiff_display.py`.

    A diff is split by the block pattern `diff --git.*?(?=diff --git|$)` into
    file blocks, and each block by the hunk pattern `(@@.*?@@)(.*?)(?=@@|$)`
    into hunks. The model takes that segmentation as its input (a `Diff` of
    `Block`s of `Hunk`s whose concatenation is the text) and states the three
    regular-expression tests the filter makes at the character level, on the
    text they actually see:
      - a block survives only if the block text contains a counted header
        `@@\s*-\d+,\d+\s*\+\d+,\d+\s*@@`;
      - a hunk whose header carries counts survives only if the counts
        differ by at least 50; a hunk without counts always survives;
      - a filtered block survives only if `@@.*?@@` (no newline in between)
        still occurs in it.
    Everything the filter does is deletion: the text outside the blocks and
    the text of every surviving block outside its dropped hunks are kept as
    they were. */
module DiffFilter {
  import opened Wrappers
  import opened Text
  import opened Seqs

  const MinLinesChanged := 50

  /** A hunk: its header, from `@@` to the next `@@` inclusive, and the body
      up to the next `@@` or the end of the block. */
  datatype Hunk = Hunk(header: string, body: string)

  /** A `diff --git` block: the text before its first hunk, its hunks, and
      whatever follows the last hunk unmatched. */
  datatype Block = Block(head: string, hunks: seq<Hunk>, trailer: string)

  /** A code diff: the text before the first block, the blocks, and the text
      after the last one (the final newline the `$` anchor leaves out). */
  datatype Diff = Diff(prefix: string, blocks: seq<Block>, suffix: string)

  function RenderHunks(hs: seq<Hunk>): string {
    if |hs| == 0 then [] else hs[0].header + hs[0].body + RenderHunks(hs[1..])
  }

  function RenderBlock(b: Block): string {
    b.head + RenderHunks(b.hunks) + b.trailer
  }

  function RenderBlocks(bs: seq<Block>): string {
    if |bs| == 0 then [] else RenderBlock(bs[0]) + RenderBlocks(bs[1..])
  }

  /** The text a diff stands for. */
  function Render(d: Diff): string {
    d.prefix + RenderBlocks(d.blocks) + d.suffix
  }

  // ---------------------------------------------------------------------
  // The counted-header pattern `@@\s*-\d+,(\d+)\s*\+\d+,(\d+)\s*@@`
  // ---------------------------------------------------------------------

  /** `\d`, restricted to ASCII digits. */
  predicate IsDigit(c: char) {
    '0' <= c <= '9'
  }

  /** The end of the run of `\s` characters starting at `i`. */
  function SkipSpaces(t: string, i: nat): (j: nat)
    requires i <= |t|
    ensures i <= j <= |t|
    ensures j < |t| ==> !IsSpace(t[j])
    decreases |t| - i
  {
    if i < |t| && IsSpace(t[i]) then SkipSpaces(t, i + 1) else i
  }

  /** The end of the run of digits starting at `i`. */
  function SkipDigits(t: string, i: nat): (j: nat)
    requires i <= |t|
    ensures i <= j <= |t|
    ensures j < |t| ==> !IsDigit(t[j])
    decreases |t| - i
  {
    if i < |t| && IsDigit(t[i]) then SkipDigits(t, i + 1) else i
  }

  function DigitValue(c: char): nat {
    if IsDigit(c) then c as int - '0' as int else 0
  }

  /** `int()` of a string of digits (the matcher applies it to digit runs
      only). */
  function DecimalValue(s: string): nat {
    if |s| == 0 then 0
    else 10 * DecimalValue(s[..|s| - 1]) + DigitValue(s[|s| - 1])
  }

  predicate CharAt(t: string, i: nat, c: char) {
    i < |t| && t[i] == c
  }

  /** A captured number and the position after the match. */
  datatype Capture = Capture(value: nat, end: nat)

  /** `<sign>\d+,(\d+)` matched at position `i`: the captured count. Each
      digit run is followed by a character it cannot contain, so greedy
      matching never backtracks and the match is determined left to
      right. */
  function MatchRange(t: string, i: nat, sign: char): (r: Option<Capture>)
    requires i <= |t|
    ensures r.Some? ==> i + 4 <= r.value.end <= |t| && ',' in t
  {
    if !CharAt(t, i, sign) then None
    else
      var b := SkipDigits(t, i + 1);
      if b == i + 1 || !CharAt(t, b, ',') then None
      else
        var c := SkipDigits(t, b + 1);
        if c == b + 1 then None
        else
          assert t[b] in t;
          Some(Capture(DecimalValue(t[b + 1..c]), c))
  }

  /** The two captured counts: old and new line counts of a hunk. */
  datatype Counts = Counts(oldCount: nat, newCount: nat)

  /** `\+\d+,(\d+)\s*@@` at position `d`: the new count. */
  function MatchNew(t: string, d: nat): (r: Option<nat>)
    requires d <= |t|
  {
    match MatchRange(t, d, '+')
    case None => None
    case Some(after) => if AtAt(t, SkipSpaces(t, after.end)) then Some(after.value) else None
  }

  /** `-\d+,(\d+)\s*\+\d+,(\d+)\s*@@` at position `a`: both counts. */
  function MatchOldNew(t: string, a: nat): (r: Option<Counts>)
    requires a <= |t|
  {
    match MatchRange(t, a, '-')
    case None => None
    case Some(before) =>
      match MatchNew(t, SkipSpaces(t, before.end))
      case None => None
      case Some(n) => Some(Counts(before.value, n))
  }

  /** The counted-header pattern `@@\s*-\d+,(\d+)\s*\+\d+,(\d+)\s*@@`
      matched at the start of `t`. */
  function MatchCounts(t: string): (r: Option<Counts>)
    ensures r.Some? ==> ',' in t
  {
    if AtAt(t, 0) then MatchOldNew(t, SkipSpaces(t, 2)) else None
  }

  /** `re.search` / the first match of `re.findall`: the counts at the
      leftmost position where the pattern matches. */
  function SearchCounts(s: string): Option<Counts>
    decreases |s|
  {
    if MatchCounts(s).Some? then MatchCounts(s)
    else if |s| == 0 then None
    else SearchCounts(s[1..])
  }

  /** The search finds nothing only when the pattern matches nowhere. */
  lemma {:induction false} SearchNoneMatchesNowhere(s: string)
    requires SearchCounts(s).None?
    ensures forall i :: 0 <= i <= |s| ==> MatchCounts(s[i..]).None?
    decreases |s|
  {
    assert s[0..] == s;
    if |s| > 0 {
      SearchNoneMatchesNowhere(s[1..]);
      assert forall i :: 1 <= i <= |s| ==> s[i..] == s[1..][i - 1..];
    }
  }

  /** What the search finds is the match at the leftmost matching
      position. */
  lemma {:induction false} SearchIsLeftmost(s: string)
    requires SearchCounts(s).Some?
    ensures exists i :: 0 <= i <= |s| && MatchCounts(s[i..]) == SearchCounts(s)
                        && forall j :: 0 <= j < i ==> MatchCounts(s[j..]).None?
    decreases |s|
  {
    assert s[0..] == s;
    if MatchCounts(s).None? {
      SearchIsLeftmost(s[1..]);
      var i :| 0 <= i <= |s[1..]| && MatchCounts(s[1..][i..]) == SearchCounts(s)
               && forall j :: 0 <= j < i ==> MatchCounts(s[1..][j..]).None?;
      assert s[i + 1..] == s[1..][i..];
      forall j | 0 <= j < i + 1
        ensures MatchCounts(s[j..]).None?
      {
        if j > 0 {
          assert s[j..] == s[1..][j - 1..];
        }
      }
    }
  }

  /** A match at the start is what the search finds. */
  lemma SearchFindsStart(s: string, c: Counts)
    requires MatchCounts(s) == Some(c)
    ensures SearchCounts(s) == Some(c)
  {
  }

  /** A text without a comma contains no counted header. */
  lemma SearchNeedsComma(s: string)
    requires ',' !in s
    ensures SearchCounts(s).None?
  {
    forall i | 0 <= i <= |s|
      ensures MatchCounts(s[i..]).None?
    {
    }
    if SearchCounts(s).Some? {
      SearchIsLeftmost(s);
    }
  }

  lemma {:induction false} SkipSpacesAppend(t: string, u: string, i: nat)
    requires i <= |t| && SkipSpaces(t, i) < |t|
    ensures SkipSpaces(t + u, i) == SkipSpaces(t, i)
    decreases |t| - i
  {
    if IsSpace(t[i]) {
      SkipSpacesAppend(t, u, i + 1);
    }
  }

  lemma {:induction false} SkipDigitsAppend(t: string, u: string, i: nat)
    requires i <= |t| && SkipDigits(t, i) < |t|
    ensures SkipDigits(t + u, i) == SkipDigits(t, i)
    decreases |t| - i
  {
    if IsDigit(t[i]) {
      SkipDigitsAppend(t, u, i + 1);
    }
  }

  /** A range followed by more text reads only the text it spans. */
  lemma MatchRangeAppend(t: string, u: string, i: nat, sign: char)
    requires i <= |t| && MatchRange(t, i, sign).Some? && MatchRange(t, i, sign).value.end < |t|
    ensures MatchRange(t + u, i, sign) == MatchRange(t, i, sign)
  {
    var b := SkipDigits(t, i + 1);
    var c := SkipDigits(t, b + 1);
    assert (t + u)[i] == t[i] && (t + u)[b] == t[b];
    SkipDigitsAppend(t, u, i + 1);
    SkipDigitsAppend(t, u, b + 1);
    assert (t + u)[b + 1..c] == t[b + 1..c];
  }

  lemma MatchNewAppend(t: string, u: string, d: nat)
    requires d <= |t| && MatchNew(t, d).Some?
    ensures MatchNew(t + u, d) == MatchNew(t, d)
  {
    var after := MatchRange(t, d, '+').value;
    MatchRangeAppend(t, u, d, '+');
    SkipSpacesAppend(t, u, after.end);
  }

  lemma MatchOldNewAppend(t: string, u: string, a: nat)
    requires a <= |t| && MatchOldNew(t, a).Some?
    ensures MatchOldNew(t + u, a) == MatchOldNew(t, a)
  {
    var before := MatchRange(t, a, '-').value;
    MatchRangeAppend(t, u, a, '-');
    SkipSpacesAppend(t, u, before.end);
    MatchNewAppend(t, u, SkipSpaces(t, before.end));
  }

  /** A match reads only the text it spans: appending text leaves it
      unchanged. */
  lemma MatchCountsAppend(t: string, u: string)
    requires MatchCounts(t).Some?
    ensures MatchCounts(t + u) == MatchCounts(t)
  {
    SkipSpacesAppend(t, u, 2);
    MatchOldNewAppend(t, u, SkipSpaces(t, 2));
  }

  /** A match at any position is found by the search. */
  lemma {:induction false} SearchFinds(s: string, i: nat)
    requires i <= |s| && MatchCounts(s[i..]).Some?
    ensures SearchCounts(s).Some?
    decreases i
  {
    if i > 0 && MatchCounts(s).None? {
      assert s[1..][i - 1..] == s[i..];
      SearchFinds(s[1..], i - 1);
    }
  }

  lemma SearchFindsSuffix(s: string, i: nat, w: string)
    requires i <= |s| && s[i..] == w && MatchCounts(w).Some?
    ensures SearchCounts(s).Some?
  {
    SearchFinds(s, i);
  }

  /** A position where the pattern matches, when the search succeeds. */
  lemma SomeMatch(t: string) returns (i: nat)
    requires SearchCounts(t).Some?
    ensures i <= |t| && MatchCounts(t[i..]).Some?
  {
    SearchIsLeftmost(t);
    i :| 0 <= i <= |t| && MatchCounts(t[i..]) == SearchCounts(t);
  }

  lemma DropInfix(a: string, t: string, u: string, i: nat)
    requires i <= |t|
    ensures (a + t + u)[|a| + i..] == t[i..] + u
  {
  }

  /** A counted header found inside a text is found in any text around it. */
  lemma SearchCountsInfix(a: string, t: string, u: string)
    requires SearchCounts(t).Some?
    ensures SearchCounts(a + t + u).Some?
  {
    var i := SomeMatch(t);
    MatchCountsAppend(t[i..], u);
    DropInfix(a, t, u, i);
    SearchFindsSuffix(a + t + u, |a| + i, t[i..] + u);
  }

  // ---------------------------------------------------------------------
  // The counted-header pattern as a grammar
  // ---------------------------------------------------------------------

  /** The pieces a match of `@@\s*-\d+,(\d+)\s*\+\d+,(\d+)\s*@@` consists
      of: three runs of `\s` and four runs of digits. */
  datatype CountedHeader = CountedHeader(
    gap1: string, oldStart: string, oldCount: string,
    gap2: string, newStart: string, newCount: string, gap3: string)

  /** A non-empty run of `\d`. */
  predicate Digits(s: string) {
    |s| > 0 && forall k :: 0 <= k < |s| ==> IsDigit(s[k])
  }

  predicate WellFormedHeader(h: CountedHeader) {
    && AllSpace(h.gap1) && AllSpace(h.gap2) && AllSpace(h.gap3)
    && Digits(h.oldStart) && Digits(h.oldCount) && Digits(h.newStart) && Digits(h.newCount)
  }

  /** `<sign>x,y`. */
  function RangeText(sign: char, x: string, y: string): string {
    [sign] + x + [','] + y
  }

  /** The text the pattern matches for the pieces `h`. */
  function HeaderText(h: CountedHeader): string {
    "@@" + (h.gap1 + (RangeText('-', h.oldStart, h.oldCount) + (h.gap2
    + (RangeText('+', h.newStart, h.newCount) + (h.gap3 + "@@")))))
  }

  /** The two groups the pattern captures, as `int()` reads them. */
  function HeaderCounts(h: CountedHeader): Counts {
    Counts(DecimalValue(h.oldCount), DecimalValue(h.newCount))
  }

  /** `t` starts with a counted header whose captured groups read `c`. */
  ghost predicate StartsWithHeader(t: string, c: Counts) {
    exists h, rest :: WellFormedHeader(h) && t == HeaderText(h) + rest && HeaderCounts(h) == c
  }

  // The proofs below go through the lengths of the runs: the matcher is
  // related to runs at positions of `t`, and the runs to the pieces.

  /** The maximal run of `\s` at `i` has length `n`. */
  predicate SpaceRun(t: string, i: nat, n: nat) {
    i + n <= |t| && SkipSpaces(t, i) == i + n
  }

  /** `<sign>`, a maximal run of `n1` digits, a comma and a maximal run of
      `n2` digits at `i`. */
  predicate RangeRun(t: string, i: nat, sign: char, n1: nat, n2: nat) {
    && 0 < n1 && 0 < n2 && i + n1 + n2 + 2 <= |t|
    && t[i] == sign && SkipDigits(t, i + 1) == i + 1 + n1
    && t[i + 1 + n1] == ',' && SkipDigits(t, i + 2 + n1) == i + 2 + n1 + n2
  }

  /** The lengths of the seven runs of a counted header. */
  datatype RunLengths = RunLengths(g1: nat, a: nat, b: nat, g2: nat, c: nat, d: nat, g3: nat)

  /** Where each range starts (its `-` or `+`), where its captured count
      starts, and where it ends. */
  function MinusAt(n: RunLengths): nat { 2 + n.g1 }
  function OldCountAt(n: RunLengths): nat { MinusAt(n) + 2 + n.a }
  function OldEnd(n: RunLengths): nat { OldCountAt(n) + n.b }
  function PlusAt(n: RunLengths): nat { OldEnd(n) + n.g2 }
  function NewCountAt(n: RunLengths): nat { PlusAt(n) + 2 + n.c }
  function NewEnd(n: RunLengths): nat { NewCountAt(n) + n.d }

  /** `t` starts with a counted header whose runs have the lengths `n`. */
  predicate HeaderRuns(t: string, n: RunLengths) {
    && AtAt(t, 0) && SpaceRun(t, 2, n.g1) && RangeRun(t, MinusAt(n), '-', n.a, n.b)
    && SpaceRun(t, OldEnd(n), n.g2) && RangeRun(t, PlusAt(n), '+', n.c, n.d)
    && SpaceRun(t, NewEnd(n), n.g3) && AtAt(t, NewEnd(n) + n.g3)
  }

  /** The counts the runs `n` of `t` spell. */
  function RunCounts(t: string, n: RunLengths): Counts
    requires HeaderRuns(t, n)
  {
    Counts(DecimalValue(t[OldCountAt(n)..OldEnd(n)]), DecimalValue(t[NewCountAt(n)..NewEnd(n)]))
  }

  // Runs and the matcher.

  /** A range run is matched, capturing its second number, which runs
      from `j` to `e`. */
  lemma RangeRunMatch(t: string, i: nat, sign: char, n1: nat, n2: nat, j: nat, e: nat)
    requires RangeRun(t, i, sign, n1, n2) && j == i + 2 + n1 && e == j + n2
    ensures MatchRange(t, i, sign) == Some(Capture(DecimalValue(t[j..e]), e))
  {
  }

  /** The new range, its gap and `@@` give the new count. */
  lemma NewFromRuns(t: string, p: nat, c: nat, d: nat, j: nat, e: nat, g: nat)
    requires RangeRun(t, p, '+', c, d) && j == p + 2 + c && e == j + d
    requires SpaceRun(t, e, g) && AtAt(t, e + g)
    ensures MatchNew(t, p) == Some(DecimalValue(t[j..e]))
  {
    RangeRunMatch(t, p, '+', c, d, j, e);
  }

  /** The old range, its gap, and the new range with what follows it give
      both counts. */
  lemma OldNewFromRuns(t: string, m: nat, a: nat, b: nat, j: nat, e: nat, g: nat, p: nat, v: nat)
    requires RangeRun(t, m, '-', a, b) && j == m + 2 + a && e == j + b
    requires SpaceRun(t, e, g) && p == e + g && MatchNew(t, p) == Some(v)
    ensures MatchOldNew(t, m) == Some(Counts(DecimalValue(t[j..e]), v))
  {
    RangeRunMatch(t, m, '-', a, b, j, e);
  }

  /** `@@` and a leading gap before matched ranges give their counts. */
  lemma CountsFromOldNew(t: string, g: nat, m: nat, c: Counts)
    requires AtAt(t, 0) && SpaceRun(t, 2, g) && m == 2 + g && MatchOldNew(t, m) == Some(c)
    ensures MatchCounts(t) == Some(c)
  {
  }

  /** Runs of the lengths `n` are matched with their counts. */
  lemma CountsFromRuns(t: string, n: RunLengths)
    requires HeaderRuns(t, n)
    ensures MatchCounts(t) == Some(RunCounts(t, n))
  {
    var m, j1, e1, p, j2, e2 := MinusAt(n), OldCountAt(n), OldEnd(n), PlusAt(n), NewCountAt(n), NewEnd(n);
    NewFromRuns(t, p, n.c, n.d, j2, e2, n.g3);
    OldNewFromRuns(t, m, n.a, n.b, j1, e1, n.g2, p, DecimalValue(t[j2..e2]));
    CountsFromOldNew(t, n.g1, m, RunCounts(t, n));
  }

  /** A matched range is a range run ending where the match ends. */
  lemma RangeMatched(t: string, i: nat, sign: char) returns (n1: nat, n2: nat)
    requires i <= |t| && MatchRange(t, i, sign).Some?
    ensures RangeRun(t, i, sign, n1, n2) && MatchRange(t, i, sign).value.end == i + 2 + n1 + n2
  {
    var b := SkipDigits(t, i + 1);
    n1, n2 := b - i - 1, SkipDigits(t, b + 1) - b - 1;
  }

  /** Where the pieces of a match start and end: the old range from `m`
      to `e1`, the new range from `p` to `e2`, the closing `@@` at `q`. */
  lemma MatchedEnds(t: string) returns (m: nat, e1: nat, p: nat, e2: nat, q: nat)
    requires MatchCounts(t).Some?
    ensures AtAt(t, 0) && 2 <= m <= |t| && SkipSpaces(t, 2) == m
    ensures MatchRange(t, m, '-').Some? && MatchRange(t, m, '-').value.end == e1
    ensures e1 <= |t| && SkipSpaces(t, e1) == p
    ensures MatchRange(t, p, '+').Some? && MatchRange(t, p, '+').value.end == e2
    ensures e2 <= |t| && SkipSpaces(t, e2) == q && AtAt(t, q)
  {
    m := SkipSpaces(t, 2);
    e1 := MatchRange(t, m, '-').value.end;
    p := SkipSpaces(t, e1);
    e2 := MatchRange(t, p, '+').value.end;
    q := SkipSpaces(t, e2);
  }

  /** Runs found at the positions `m`, `e1`, `p` and `e2` of `t` are the
      runs of the lengths `n`. */
  lemma AssembleRuns(t: string, n: RunLengths, m: nat, e1: nat, p: nat, e2: nat)
    requires MinusAt(n) == m && OldEnd(n) == e1 && PlusAt(n) == p && NewEnd(n) == e2
    requires AtAt(t, 0) && SpaceRun(t, 2, n.g1) && RangeRun(t, m, '-', n.a, n.b)
    requires SpaceRun(t, e1, n.g2) && RangeRun(t, p, '+', n.c, n.d)
    requires SpaceRun(t, e2, n.g3) && AtAt(t, e2 + n.g3)
    ensures HeaderRuns(t, n)
  {
  }

  /** A match as runs, with the counts they spell. */
  lemma MatchedRuns(t: string) returns (n: RunLengths)
    requires MatchCounts(t).Some?
    ensures HeaderRuns(t, n) && MatchCounts(t) == Some(RunCounts(t, n))
  {
    var m, e1, p, e2, q := MatchedEnds(t);
    var a, b := RangeMatched(t, m, '-');
    var c, d := RangeMatched(t, p, '+');
    n := RunLengths(m - 2, a, b, p - e1, c, d, q - e2);
    AssembleRuns(t, n, m, e1, p, e2);
    CountsFromRuns(t, n);
  }

  // Runs and the pieces.

  lemma SuffixAfter(t: string, i: nat, s: string, u: string)
    requires i <= |t| && t[i..] == s + u
    ensures i + |s| <= |t| && t[i + |s|..] == u
  {
    assert t[i + |s|..] == t[i..][|s|..];
  }

  lemma Assoc(a: string, b: string, c: string)
    ensures (a + b) + c == a + (b + c)
  {
  }

  /** A header followed by more text, with the appends regrouped to the
      right. */
  lemma HeaderThen(h: CountedHeader, rest: string)
    ensures HeaderText(h) + rest ==
            "@@" + (h.gap1 + (RangeText('-', h.oldStart, h.oldCount) + (h.gap2
            + (RangeText('+', h.newStart, h.newCount) + (h.gap3 + ("@@" + rest))))))
  {
    var e := h.gap3 + "@@";
    var d := RangeText('+', h.newStart, h.newCount) + e;
    var c := h.gap2 + d;
    var b := RangeText('-', h.oldStart, h.oldCount) + c;
    var a := h.gap1 + b;
    Assoc("@@", a, rest);
    Assoc(h.gap1, b, rest);
    Assoc(RangeText('-', h.oldStart, h.oldCount), c, rest);
    Assoc(h.gap2, d, rest);
    Assoc(RangeText('+', h.newStart, h.newCount), e, rest);
    Assoc(h.gap3, "@@", rest);
  }

  /** A run of spaces followed by a non-space is skipped exactly. */
  lemma {:induction false} SkipSpacesOver(t: string, i: nat, s: string, u: string)
    requires i <= |t| && t[i..] == s + u && AllSpace(s)
    requires u == [] || !IsSpace(u[0])
    ensures SkipSpaces(t, i) == i + |s|
    decreases |s|
  {
    if |s| == 0 {
      assert t[i..] == u;
    } else {
      assert t[i] == s[0];
      assert t[i + 1..] == s[1..] + u;
      SkipSpacesOver(t, i + 1, s[1..], u);
    }
  }

  /** A run of digits followed by a non-digit is skipped exactly. */
  lemma {:induction false} SkipDigitsOver(t: string, i: nat, s: string, u: string)
    requires i <= |t| && t[i..] == s + u && forall k :: 0 <= k < |s| ==> IsDigit(s[k])
    requires u == [] || !IsDigit(u[0])
    ensures SkipDigits(t, i) == i + |s|
    decreases |s|
  {
    if |s| == 0 {
      assert t[i..] == u;
    } else {
      assert t[i] == s[0];
      assert t[i + 1..] == s[1..] + u;
      SkipDigitsOver(t, i + 1, s[1..], u);
    }
  }

  /** A gap of spaces at `i` before a non-space is a space run ending at
      `j`. */
  lemma GapRun(t: string, i: nat, j: nat, g: string, u: string)
    requires i <= |t| && t[i..] == g + u && AllSpace(g) && u != [] && !IsSpace(u[0])
    requires j == i + |g|
    ensures SpaceRun(t, i, |g|) && t[j..] == u
  {
    SuffixAfter(t, i, g, u);
    SkipSpacesOver(t, i, g, u);
  }

  /** The characters of `<sign>x,y` by position. */
  lemma RangeTextAt(sign: char, x: string, y: string)
    ensures var r := RangeText(sign, x, y);
            && |r| == |x| + |y| + 2 && r[0] == sign && r[1 + |x|] == ','
            && r[1..1 + |x|] == x && r[2 + |x|..] == y
  {
  }

  /** Where the pieces of `<sign>x,y` sit in a text that has it at `i`. */
  lemma RangeSlices(t: string, i: nat, sign: char, x: string, y: string, u: string)
    requires i <= |t| && t[i..] == RangeText(sign, x, y) + u
    ensures i + 2 + |x| + |y| <= |t| && t[i] == sign && t[i + 1 + |x|] == ','
    ensures t[i + 1..] == x + ([','] + y + u) && t[i + 2 + |x|..] == y + u
    ensures t[i + 2 + |x|..i + 2 + |x| + |y|] == y && t[i + 2 + |x| + |y|..] == u
  {
    var r := RangeText(sign, x, y);
    RangeTextAt(sign, x, y);
    SuffixAfter(t, i, r, u);
    assert t[i..i + |r|] == r;
    assert t[i + 1..] == t[i..][1..];
  }

  /** `<sign>x,y` at `i` before a non-digit is a range run ending at `e`. */
  lemma RangeRunOf(t: string, i: nat, e: nat, sign: char, x: string, y: string, u: string)
    requires i <= |t| && t[i..] == RangeText(sign, x, y) + u
    requires Digits(x) && Digits(y) && u != [] && !IsDigit(u[0])
    requires e == i + 2 + |x| + |y|
    ensures RangeRun(t, i, sign, |x|, |y|) && t[i + 2 + |x|..e] == y && t[e..] == u
  {
    RangeSlices(t, i, sign, x, y, u);
    SkipDigitsOver(t, i + 1, x, [','] + y + u);
    SkipDigitsOver(t, i + 2 + |x|, y, u);
  }

  /** A gap of spaces followed by text that is not a digit starts with a
      non-digit. */
  lemma GapStartsWithNonDigit(g: string, v: string)
    requires AllSpace(g) && v != [] && !IsDigit(v[0])
    ensures !IsDigit((g + v)[0])
  {
  }

  /** The lengths of the pieces of `h`. */
  function LengthsOf(h: CountedHeader): RunLengths {
    RunLengths(|h.gap1|, |h.oldStart|, |h.oldCount|, |h.gap2|, |h.newStart|, |h.newCount|, |h.gap3|)
  }

  /** The old range of `h` and its gap, at their places in `t`. */
  lemma OldRunsOf(t: string, h: CountedHeader, v: string)
    requires WellFormedHeader(h) && MinusAt(LengthsOf(h)) <= |t| && v != [] && v[0] == '+'
    requires t[MinusAt(LengthsOf(h))..] == RangeText('-', h.oldStart, h.oldCount) + (h.gap2 + v)
    ensures var n := LengthsOf(h);
            && RangeRun(t, MinusAt(n), '-', n.a, n.b) && SpaceRun(t, OldEnd(n), n.g2)
            && t[OldCountAt(n)..OldEnd(n)] == h.oldCount && t[PlusAt(n)..] == v
  {
    var n := LengthsOf(h);
    GapStartsWithNonDigit(h.gap2, v);
    RangeRunOf(t, MinusAt(n), OldEnd(n), '-', h.oldStart, h.oldCount, h.gap2 + v);
    GapRun(t, OldEnd(n), PlusAt(n), h.gap2, v);
  }

  /** The new range of `h`, its gap and `@@`, at their places in `t`. */
  lemma NewRunsOf(t: string, h: CountedHeader, rest: string)
    requires WellFormedHeader(h) && PlusAt(LengthsOf(h)) <= |t|
    requires t[PlusAt(LengthsOf(h))..] == RangeText('+', h.newStart, h.newCount) + (h.gap3 + ("@@" + rest))
    ensures var n := LengthsOf(h);
            && RangeRun(t, PlusAt(n), '+', n.c, n.d) && SpaceRun(t, NewEnd(n), n.g3)
            && AtAt(t, NewEnd(n) + n.g3) && t[NewCountAt(n)..NewEnd(n)] == h.newCount
  {
    var n := LengthsOf(h);
    var q := NewEnd(n) + n.g3;
    GapStartsWithNonDigit(h.gap3, "@@" + rest);
    RangeRunOf(t, PlusAt(n), NewEnd(n), '+', h.newStart, h.newCount, h.gap3 + ("@@" + rest));
    GapRun(t, NewEnd(n), q, h.gap3, "@@" + rest);
    assert t[q] == t[q..][0] && t[q + 1] == t[q..][1];
  }

  lemma SameCounts(t: string, n: RunLengths, b: string, d: string)
    requires HeaderRuns(t, n)
    requires t[OldCountAt(n)..OldEnd(n)] == b && t[NewCountAt(n)..NewEnd(n)] == d
    ensures RunCounts(t, n) == Counts(DecimalValue(b), DecimalValue(d))
  {
  }

  /** A counted header followed by any text has runs of its pieces'
      lengths, spelling its counts. */
  lemma RunsOfHeader(h: CountedHeader, rest: string)
    requires WellFormedHeader(h)
    ensures HeaderRuns(HeaderText(h) + rest, LengthsOf(h))
    ensures RunCounts(HeaderText(h) + rest, LengthsOf(h)) == HeaderCounts(h)
  {
    var t := HeaderText(h) + rest;
    var n := LengthsOf(h);
    var v := RangeText('+', h.newStart, h.newCount) + (h.gap3 + ("@@" + rest));
    var u := RangeText('-', h.oldStart, h.oldCount) + (h.gap2 + v);
    HeaderThen(h, rest);
    assert u[0] == '-' && v[0] == '+';
    assert t[2..] == h.gap1 + u;
    GapRun(t, 2, MinusAt(n), h.gap1, u);
    OldRunsOf(t, h, v);
    NewRunsOf(t, h, rest);
    SameCounts(t, n, h.oldCount, h.newCount);
  }

  /** A run skipped by `SkipSpaces` is all spaces. */
  lemma {:induction false} SkipSpacesSpans(t: string, i: nat)
    requires i <= |t|
    ensures AllSpace(t[i..SkipSpaces(t, i)])
    decreases |t| - i
  {
    if i < |t| && IsSpace(t[i]) {
      SkipSpacesSpans(t, i + 1);
      assert t[i..SkipSpaces(t, i)] == [t[i]] + t[i + 1..SkipSpaces(t, i + 1)];
    }
  }

  /** A run skipped by `SkipDigits` is all digits. */
  lemma {:induction false} SkipDigitsSpans(t: string, i: nat)
    requires i <= |t|
    ensures forall k :: 0 <= k < SkipDigits(t, i) - i ==> IsDigit(t[i..SkipDigits(t, i)][k])
    decreases |t| - i
  {
    if i < |t| && IsDigit(t[i]) {
      SkipDigitsSpans(t, i + 1);
      assert t[i..SkipDigits(t, i)] == [t[i]] + t[i + 1..SkipDigits(t, i + 1)];
    }
  }

  /** A range run at `i` is `<sign>x,y` with its two digit strings, the
      second from `j` to `e`. */
  lemma RangeTextOf(t: string, i: nat, sign: char, n1: nat, n2: nat, j: nat, e: nat)
    requires RangeRun(t, i, sign, n1, n2) && j == i + 2 + n1 && e == j + n2
    ensures Digits(t[i + 1..i + 1 + n1]) && Digits(t[j..e])
    ensures t[i..] == RangeText(sign, t[i + 1..i + 1 + n1], t[j..e]) + t[e..]
  {
    SkipDigitsSpans(t, i + 1);
    SkipDigitsSpans(t, j);
    assert t[i..] == [t[i]] + t[i + 1..i + 1 + n1] + [t[i + 1 + n1]] + t[j..e] + t[e..];
  }

  /** A space run from `i` to `j` is a gap followed by the rest of the
      text. */
  lemma GapOf(t: string, i: nat, j: nat)
    requires i <= j && SpaceRun(t, i, j - i)
    ensures AllSpace(t[i..j]) && t[i..] == t[i..j] + t[j..]
  {
    SkipSpacesSpans(t, i);
  }

  /** A range run at `i` and the space run after it, up to `p`, as
      pieces. */
  lemma RangeGapOf(t: string, i: nat, sign: char, n1: nat, n2: nat, j: nat, e: nat, p: nat)
    requires RangeRun(t, i, sign, n1, n2) && j == i + 2 + n1 && e == j + n2
    requires e <= p && SpaceRun(t, e, p - e)
    ensures Digits(t[i + 1..i + 1 + n1]) && Digits(t[j..e]) && AllSpace(t[e..p])
    ensures t[i..] == RangeText(sign, t[i + 1..i + 1 + n1], t[j..e]) + (t[e..p] + t[p..])
  {
    RangeTextOf(t, i, sign, n1, n2, j, e);
    GapOf(t, e, p);
  }

  /** The text after `@@` at `q`. */
  lemma AtAtThen(t: string, q: nat)
    requires AtAt(t, q)
    ensures t[q..] == "@@" + t[q + 2..]
  {
  }

  /** Texts whose suffixes are the pieces of `h`, one after another, are
      `h` followed by the rest. */
  lemma Reassemble(s0: string, s1: string, s2: string, s3: string, h: CountedHeader, rest: string)
    requires s0 == "@@" + s1 && s1 == h.gap1 + s2
    requires s2 == RangeText('-', h.oldStart, h.oldCount) + (h.gap2 + s3)
    requires s3 == RangeText('+', h.newStart, h.newCount) + (h.gap3 + ("@@" + rest))
    ensures s0 == HeaderText(h) + rest
  {
    HeaderThen(h, rest);
  }

  /** The new range at `p`, its gap and `@@` at `q`, as pieces. */
  lemma NewPiecesAt(t: string, p: nat, c: nat, j2: nat, e2: nat, q: nat)
    requires j2 == p + 2 + c && j2 <= e2 && RangeRun(t, p, '+', c, e2 - j2) && e2 <= q && SpaceRun(t, e2, q - e2)
    requires AtAt(t, q)
    ensures Digits(t[p + 1..p + 1 + c]) && Digits(t[j2..e2]) && AllSpace(t[e2..q])
    ensures t[p..] == RangeText('+', t[p + 1..p + 1 + c], t[j2..e2]) + (t[e2..q] + ("@@" + t[q + 2..]))
  {
    RangeGapOf(t, p, '+', c, e2 - j2, j2, e2, q);
    AtAtThen(t, q);
  }

  /** Runs at the positions `m` (`-`), `p` (`+`) and `q` (`@@`) cut `t`
      into a counted header and the rest. */
  lemma PiecesAt(t: string, m: nat, a: nat, j1: nat, e1: nat, p: nat, c: nat, j2: nat, e2: nat, q: nat)
    returns (h: CountedHeader, rest: string)
    requires AtAt(t, 0) && 2 <= m && SpaceRun(t, 2, m - 2)
    requires j1 == m + 2 + a && j1 <= e1 && RangeRun(t, m, '-', a, e1 - j1) && e1 <= p && SpaceRun(t, e1, p - e1)
    requires j2 == p + 2 + c && j2 <= e2 && RangeRun(t, p, '+', c, e2 - j2) && e2 <= q && SpaceRun(t, e2, q - e2)
    requires AtAt(t, q)
    ensures WellFormedHeader(h) && h.oldCount == t[j1..e1] && h.newCount == t[j2..e2]
    ensures t == HeaderText(h) + rest
  {
    GapOf(t, 2, m);
    RangeGapOf(t, m, '-', a, e1 - j1, j1, e1, p);
    NewPiecesAt(t, p, c, j2, e2, q);
    AtAtThen(t, 0);
    h := CountedHeader(t[2..m], t[m + 1..m + 1 + a], t[j1..e1], t[e1..p],
                       t[p + 1..p + 1 + c], t[j2..e2], t[e2..q]);
    rest := t[q + 2..];
    Reassemble(t, t[2..], t[m..], t[p..], h, rest);
  }

  /** Runs of the lengths `n` cut `t` into a counted header and the rest. */
  lemma HeaderOfRuns(t: string, n: RunLengths) returns (h: CountedHeader, rest: string)
    requires HeaderRuns(t, n)
    ensures WellFormedHeader(h) && HeaderCounts(h) == RunCounts(t, n) && t == HeaderText(h) + rest
  {
    var m, j1, e1, p, j2, e2 := MinusAt(n), OldCountAt(n), OldEnd(n), PlusAt(n), NewCountAt(n), NewEnd(n);
    h, rest := PiecesAt(t, m, n.a, j1, e1, p, n.c, j2, e2, e2 + n.g3);
  }

  // The two directions.

  /** Every decomposition of `t` into a counted header and the rest is the
      one the matcher reads: it reports that header's counts. */
  lemma MatchCountsComplete(h: CountedHeader, rest: string)
    requires WellFormedHeader(h)
    ensures MatchCounts(HeaderText(h) + rest) == Some(HeaderCounts(h))
  {
    RunsOfHeader(h, rest);
    CountsFromRuns(HeaderText(h) + rest, LengthsOf(h));
  }

  /** What a match consists of: a counted header whose groups are the
      reported counts, followed by the rest of the text. */
  lemma MatchCountsSound(t: string)
    requires MatchCounts(t).Some?
    ensures StartsWithHeader(t, MatchCounts(t).value)
  {
    var n := MatchedRuns(t);
    var h, rest := HeaderOfRuns(t, n);
  }

  /** The matcher agrees with the grammar: it reports `c` exactly when `t`
      starts with a counted header whose groups read `c`. */
  lemma MatchCountsIsGrammar(t: string, c: Counts)
    ensures MatchCounts(t) == Some(c) <==> StartsWithHeader(t, c)
  {
    if MatchCounts(t).Some? {
      MatchCountsSound(t);
    }
    if StartsWithHeader(t, c) {
      var h, rest :| WellFormedHeader(h) && t == HeaderText(h) + rest && HeaderCounts(h) == c;
      MatchCountsComplete(h, rest);
    }
  }

  // ---------------------------------------------------------------------
  // The filter
  // ---------------------------------------------------------------------

  /** `has_valid_hunk`: the block text contains a counted header. */
  predicate HasValidHunk(b: Block) {
    SearchCounts(RenderBlock(b)).Some?
  }

  function Abs(x: int): nat {
    if x < 0 then -x else x
  }

  /** `filter_small_diffs`: a hunk whose header carries counts survives when
      they differ by at least 50; a hunk without counts survives. */
  predicate KeepHunk(h: Hunk) {
    match SearchCounts(h.header)
    case None => true
    case Some(c) => Abs(c.newCount - c.oldCount) >= MinLinesChanged
  }

  const KeepsHunk: Hunk -> bool := (h: Hunk) => KeepHunk(h)

  /** `@@.*?@@` without `DOTALL`: two non-overlapping `@@` with no newline
      between them. */
  predicate HasHeaderLine(s: string) {
    exists i, j :: 0 <= i && i + 2 <= j && j + 2 <= |s| && AtAt(s, i) && AtAt(s, j) && '\n' !in s[i + 2..j]
  }

  /** `@@` at position `i`. */
  predicate AtAt(s: string, i: int) {
    0 <= i && i + 2 <= |s| && s[i] == '@' && s[i + 1] == '@'
  }

  /** `filter_diff` on one block: `None` when the block is replaced by the
      empty string. */
  function FilterBlock(b: Block): (r: Option<Block>)
    ensures r.None? <==>
              || !HasValidHunk(b)
              || !HasHeaderLine(RenderBlock(Block(b.head, Filter(KeepsHunk, b.hunks), b.trailer)))
    ensures r.Some? ==> r.value.head == b.head && r.value.trailer == b.trailer
    ensures r.Some? ==> IsSubseq(r.value.hunks, b.hunks)
    ensures r.Some? ==> forall h :: h in r.value.hunks <==> h in b.hunks && KeepHunk(h)
    ensures r.Some? ==> ReadAt(r.value.hunks, b.hunks, Positions(KeepsHunk, b.hunks))
    ensures r.Some? ==> forall j :: 0 <= j < |b.hunks| && KeepHunk(b.hunks[j]) ==> j in Positions(KeepsHunk, b.hunks)
  {
    FilterReadAt(KeepsHunk, b.hunks);
    if !HasValidHunk(b) then None
    else
      var filtered := Block(b.head, Filter(KeepsHunk, b.hunks), b.trailer);
      if HasHeaderLine(RenderBlock(filtered)) then Some(filtered) else None
  }

  const FilterBlockFn: Block -> Option<Block> := (b: Block) => FilterBlock(b)

  /** The surviving blocks, filtered, in their original order. */
  function FilterBlocks(bs: seq<Block>): seq<Block> {
    FilterMap(FilterBlockFn, bs)
  }

  /** `filter_codediffs`. */
  function FilterCodeDiffs(d: Diff): (r: Diff)
    ensures r.prefix == d.prefix && r.suffix == d.suffix
    ensures |r.blocks| <= |d.blocks|
    ensures forall x :: x in r.blocks ==> exists b :: b in d.blocks && FilterBlock(b) == Some(x)
    ensures var pos := Positions(Defined(FilterBlockFn), d.blocks);
            && |r.blocks| == |pos|
            && (forall k :: 0 <= k < |pos| ==> pos[k] < |d.blocks| && FilterBlock(d.blocks[pos[k]]) == Some(r.blocks[k]))
            && forall j :: 0 <= j < |d.blocks| && FilterBlock(d.blocks[j]).Some? ==> j in pos
  {
    FilterMapAtPositions(FilterBlockFn, d.blocks);
    Diff(d.prefix, FilterBlocks(d.blocks), d.suffix)
  }

  // ---------------------------------------------------------------------
  // The filter only deletes
  // ---------------------------------------------------------------------

  lemma {:induction false} HunksOnlyDeleted(p: Hunk -> bool, hs: seq<Hunk>)
    ensures IsSubseq(RenderHunks(Filter(p, hs)), RenderHunks(hs))
  {
    if |hs| == 0 {
      SubseqReflexive(RenderHunks(hs));
    } else {
      HunksOnlyDeleted(p, hs[1..]);
      var first := hs[0].header + hs[0].body;
      assert RenderHunks(hs) == first + RenderHunks(hs[1..]);
      if p(hs[0]) {
        assert Filter(p, hs) == [hs[0]] + Filter(p, hs[1..]);
        assert ([hs[0]] + Filter(p, hs[1..]))[1..] == Filter(p, hs[1..]);
        SubseqReflexive(first);
        SubseqConcat(first, first, RenderHunks(Filter(p, hs[1..])), RenderHunks(hs[1..]));
      } else {
        SubseqDropPrefix(RenderHunks(Filter(p, hs[1..])), first, RenderHunks(hs[1..]));
      }
    }
  }

  lemma BlockOnlyDeleted(b: Block)
    requires FilterBlock(b).Some?
    ensures IsSubseq(RenderBlock(FilterBlock(b).value), RenderBlock(b))
  {
    HunksOnlyDeleted(KeepsHunk, b.hunks);
    SubseqReflexive(b.head);
    SubseqReflexive(b.trailer);
    SubseqConcat(b.head, b.head, RenderHunks(Filter(KeepsHunk, b.hunks)), RenderHunks(b.hunks));
    SubseqConcat(b.head + RenderHunks(Filter(KeepsHunk, b.hunks)), b.head + RenderHunks(b.hunks),
                 b.trailer, b.trailer);
  }

  lemma {:induction false} BlocksOnlyDeleted(bs: seq<Block>)
    ensures IsSubseq(RenderBlocks(FilterBlocks(bs)), RenderBlocks(bs))
  {
    if |bs| == 0 {
      SubseqReflexive(RenderBlocks(bs));
    } else {
      BlocksOnlyDeleted(bs[1..]);
      var rest := FilterBlocks(bs[1..]);
      match FilterBlock(bs[0])
      case None =>
        SubseqDropPrefix(RenderBlocks(rest), RenderBlock(bs[0]), RenderBlocks(bs[1..]));
      case Some(x) =>
        assert ([x] + rest)[1..] == rest;
        BlockOnlyDeleted(bs[0]);
        SubseqConcat(RenderBlock(x), RenderBlock(bs[0]), RenderBlocks(rest), RenderBlocks(bs[1..]));
    }
  }

  /** Rendering the kept blocks between the original prefix and suffix
      deletes characters only. */
  lemma KeptBlocksOnlyDelete(d: Diff)
    ensures var out := Render(Diff(d.prefix, FilterBlocks(d.blocks), d.suffix));
            && IsSubseq(out, Render(d))
            && |out| <= |Render(d)|
            && out[..|d.prefix|] == d.prefix
            && out[|out| - |d.suffix|..] == d.suffix
  {
    var out := Render(Diff(d.prefix, FilterBlocks(d.blocks), d.suffix));
    BlocksOnlyDeleted(d.blocks);
    SubseqReflexive(d.prefix);
    SubseqReflexive(d.suffix);
    SubseqConcat(d.prefix, d.prefix, RenderBlocks(FilterBlocks(d.blocks)), RenderBlocks(d.blocks));
    SubseqConcat(d.prefix + RenderBlocks(FilterBlocks(d.blocks)), d.prefix + RenderBlocks(d.blocks),
                 d.suffix, d.suffix);
    SubseqLength(out, Render(d));
  }

  /** The filtered text is the original with some characters deleted: it is
      no longer, it keeps the text before the first block as its prefix and
      the text after the last block as its suffix. */
  lemma FilterOnlyDeletes(d: Diff)
    ensures var out := Render(FilterCodeDiffs(d));
            && IsSubseq(out, Render(d))
            && |out| <= |Render(d)|
            && out[..|d.prefix|] == d.prefix
            && out[|out| - |d.suffix|..] == d.suffix
  {
    KeptBlocksOnlyDelete(d);
    assert FilterCodeDiffs(d) == Diff(d.prefix, FilterBlocks(d.blocks), d.suffix);
  }

  // ---------------------------------------------------------------------
  // Filtering twice
  // ---------------------------------------------------------------------

  /** A surviving block loses no further hunks when filtered again; it
      survives again exactly when it still contains a counted header. */
  lemma RefilterBlock(b: Block)
    requires FilterBlock(b).Some?
    ensures var x := FilterBlock(b).value;
            FilterBlock(x) == if HasValidHunk(x) then Some(x) else None
  {
    var x := FilterBlock(b).value;
    assert forall h :: h in x.hunks ==> KeepsHunk(h);
    FilterAllPass(KeepsHunk, x.hunks);
  }

  /** Filtering a filtered diff again changes it exactly when some surviving
      block no longer contains a counted header. */
  lemma FilterTwice(d: Diff)
    ensures var once := FilterCodeDiffs(d);
            FilterCodeDiffs(once) == once <==> forall x :: x in once.blocks ==> HasValidHunk(x)
  {
    var once := FilterCodeDiffs(d);
    forall x | x in once.blocks
      ensures FilterBlockFn(x) == Some(x) || FilterBlockFn(x) == None
      ensures FilterBlockFn(x).Some? <==> HasValidHunk(x)
    {
      var b :| b in d.blocks && FilterBlock(b) == Some(x);
      RefilterBlock(b);
    }
    FilterMapFixed(FilterBlockFn, once.blocks);
  }

  /** A hunk's header occurs inside the rendering of the hunk list. */
  lemma {:induction false} HeaderInside(hs: seq<Hunk>, k: nat)
    requires k < |hs|
    ensures exists a, c :: RenderHunks(hs) == a + hs[k].header + c
  {
    if k == 0 {
      assert RenderHunks(hs) == [] + hs[0].header + (hs[0].body + RenderHunks(hs[1..]));
    } else {
      HeaderInside(hs[1..], k - 1);
      var a, c :| RenderHunks(hs[1..]) == a + hs[1..][k - 1].header + c;
      assert RenderHunks(hs) == (hs[0].header + hs[0].body + a) + hs[k].header + c;
    }
  }

  lemma Regroup(p: string, q: string, r: string, s: string, t: string)
    ensures p + (q + r + s) + t == (p + q) + r + (s + t)
  {
  }

  /** A block that kept a hunk with counted header contains a counted header. */
  lemma CountedHunkIsValid(b: Block, k: nat)
    requires k < |b.hunks| && SearchCounts(b.hunks[k].header).Some?
    ensures HasValidHunk(b)
  {
    HeaderInside(b.hunks, k);
    var a, c :| RenderHunks(b.hunks) == a + b.hunks[k].header + c;
    Regroup(b.head, a, b.hunks[k].header, c, b.trailer);
    SearchCountsInfix(b.head + a, b.hunks[k].header, c + b.trailer);
  }

  /** When every surviving block keeps a hunk with counted header, filtering
      is idempotent. */
  lemma CountedSurvivorsAreStable(d: Diff)
    requires forall x :: x in FilterCodeDiffs(d).blocks ==>
               exists k :: 0 <= k < |x.hunks| && SearchCounts(x.hunks[k].header).Some?
    ensures FilterCodeDiffs(FilterCodeDiffs(d)) == FilterCodeDiffs(d)
  {
    forall x | x in FilterCodeDiffs(d).blocks
      ensures HasValidHunk(x)
    {
      var k :| 0 <= k < |x.hunks| && SearchCounts(x.hunks[k].header).Some?;
      CountedHunkIsValid(x, k);
    }
    FilterTwice(d);
  }

  /** A header without counts. */
  const PlainHeader := "@@ x @@"

  /** The header pattern in terms of its two ranges. */
  lemma ComposeCounts(t: string, a: nat, before: Capture, n: nat)
    requires a <= |t| && MatchRange(t, a, '-') == Some(before)
    requires MatchNew(t, SkipSpaces(t, before.end)) == Some(n)
    ensures MatchOldNew(t, a) == Some(Counts(before.value, n))
  {
  }

  /** `t[i..i + n]` is all digits. */
  predicate DigitRun(t: string, i: nat, n: nat) {
    i + n <= |t| && forall k :: i <= k < i + n ==> IsDigit(t[k])
  }

  /** A run of `n` digits at `i` that ends the text or is followed by a
      non-digit is skipped in one step. */
  lemma {:induction false} SkipDigitsRun(t: string, i: nat, n: nat)
    requires DigitRun(t, i, n)
    requires i + n == |t| || !IsDigit(t[i + n])
    ensures SkipDigits(t, i) == i + n
    decreases n
  {
    if n > 0 {
      SkipDigitsRun(t, i + 1, n - 1);
    }
  }

  /** `<sign>` followed by `n1` digits, a comma and `n2` digits at `i` is
      matched as a range capturing the second number. */
  lemma MatchRangeAt(t: string, i: nat, sign: char, n1: nat, n2: nat)
    requires 0 < n1 && 0 < n2 && i + n1 + n2 + 2 <= |t|
    requires t[i] == sign && t[i + 1 + n1] == ','
    requires DigitRun(t, i + 1, n1) && DigitRun(t, i + 2 + n1, n2)
    requires i + 2 + n1 + n2 == |t| || !IsDigit(t[i + 2 + n1 + n2])
    ensures MatchRange(t, i, sign) ==
            Some(Capture(DecimalValue(t[i + 2 + n1..i + 2 + n1 + n2]), i + 2 + n1 + n2))
  {
    SkipDigitsRun(t, i + 1, n1);
    SkipDigitsRun(t, i + 2 + n1, n2);
  }

  /** A single space before a non-space is skipped in one step. */
  lemma SkipOneSpace(t: string, i: nat)
    requires i + 1 < |t| && t[i] == ' ' && !IsSpace(t[i + 1])
    ensures SkipSpaces(t, i) == i + 1
  {
    assert SkipSpaces(t, i + 1) == i + 1;
  }

  /** `+c,d @@` at `p`, closing the text, gives the new count `d`. */
  lemma NewAt(t: string, p: nat, nc: nat, nd: nat)
    requires 0 < nc && 0 < nd && |t| == p + nc + nd + 5
    requires t[p] == '+' && t[p + 1 + nc] == ','
    requires DigitRun(t, p + 1, nc) && DigitRun(t, p + 2 + nc, nd)
    requires t[p + 2 + nc + nd] == ' ' && t[p + 3 + nc + nd] == '@' && t[p + 4 + nc + nd] == '@'
    ensures MatchNew(t, p) == Some(DecimalValue(t[p + 2 + nc..p + 2 + nc + nd]))
  {
    MatchRangeAt(t, p, '+', nc, nd);
    SkipOneSpace(t, p + 2 + nc + nd);
  }

  /** `@@ ` followed by an old range, one space and a matching new part is
      counted by the two ranges. */
  lemma CountsFromStages(t: string, e1: nat, b: nat, d: nat)
    requires 3 < e1 && e1 + 1 < |t| && AtAt(t, 0) && t[2] == ' ' && t[3] == '-'
    requires MatchRange(t, 3, '-') == Some(Capture(b, e1))
    requires t[e1] == ' ' && t[e1 + 1] == '+'
    requires MatchNew(t, e1 + 1) == Some(d)
    ensures MatchCounts(t) == Some(Counts(b, d))
  {
    SkipOneSpace(t, e1);
    ComposeCounts(t, 3, Capture(b, e1), d);
    SkipOneSpace(t, 2);
  }

  /** `t` is a unified-diff hunk header `@@ -a,b +c,d @@` whose four
      numbers have `na`, `nb`, `nc` and `nd` digits. */
  predicate IsStandardHeader(t: string, na: nat, nb: nat, nc: nat, nd: nat) {
    && 0 < na && 0 < nb && 0 < nc && 0 < nd
    && |t| == na + nb + nc + nd + 11
    && t[0] == '@' && t[1] == '@' && t[2] == ' ' && t[3] == '-' && t[4 + na] == ','
    && t[5 + na + nb] == ' ' && t[6 + na + nb] == '+' && t[7 + na + nb + nc] == ','
    && t[8 + na + nb + nc + nd] == ' ' && t[9 + na + nb + nc + nd] == '@' && t[10 + na + nb + nc + nd] == '@'
    && DigitRun(t, 4, na) && DigitRun(t, 5 + na, nb)
    && DigitRun(t, 7 + na + nb, nc) && DigitRun(t, 8 + na + nb + nc, nd)
  }

  /** The counts written in a standard header: `b` and `d`. */
  function StandardCounts(t: string, na: nat, nb: nat, nc: nat, nd: nat): Counts
    requires IsStandardHeader(t, na, nb, nc, nd)
  {
    Counts(DecimalValue(t[5 + na..5 + na + nb]), DecimalValue(t[8 + na + nb + nc..8 + na + nb + nc + nd]))
  }

  /** A standard header is counted as `(b, d)`. */
  lemma StandardHeader(t: string, na: nat, nb: nat, nc: nat, nd: nat)
    requires IsStandardHeader(t, na, nb, nc, nd)
    ensures MatchCounts(t) == Some(StandardCounts(t, na, nb, nc, nd))
  {
    var e1 := 5 + na + nb;
    var c := StandardCounts(t, na, nb, nc, nd);
    NewAt(t, e1 + 1, nc, nd);
    MatchRangeAt(t, 3, '-', na, nb);
    CountsFromStages(t, e1, c.oldCount, c.newCount);
  }

  /** A hunk with a standard header survives exactly when its two counts
      differ by at least 50: `@@ -10,5 +10,8 @@` is dropped and
      `@@ -10,5 +10,60 @@` kept. */
  lemma StandardHunkKept(h: Hunk, na: nat, nb: nat, nc: nat, nd: nat)
    requires IsStandardHeader(h.header, na, nb, nc, nd)
    ensures var c := StandardCounts(h.header, na, nb, nc, nd);
            && SearchCounts(h.header) == Some(c)
            && (KeepHunk(h) <==> Abs(c.newCount - c.oldCount) >= MinLinesChanged)
  {
    StandardHeader(h.header, na, nb, nc, nd);
    SearchFindsStart(h.header, StandardCounts(h.header, na, nb, nc, nd));
  }

  /** A block with a counted header whose kept hunks still show a header
      line survives as those hunks. */
  lemma BlockSurvives(b: Block, x: Block)
    requires HasValidHunk(b) && x == Block(b.head, Filter(KeepsHunk, b.hunks), b.trailer)
    requires HasHeaderLine(RenderBlock(x))
    ensures FilterBlock(b) == Some(x)
  {
  }

  /** A hunk whose header holds no counted header is kept whatever its
      body; a header without a comma never holds one. */
  lemma UncountedHunkKept(h: Hunk)
    ensures SearchCounts(h.header).None? ==> KeepHunk(h)
    ensures ',' !in h.header ==> SearchCounts(h.header).None?
  {
    if ',' !in h.header {
      SearchNeedsComma(h.header);
    }
  }

  /** The plain header has no counts, so its hunk is kept. */
  lemma PlainHunkKept(body: string)
    ensures SearchCounts(PlainHeader).None? && KeepHunk(Hunk(PlainHeader, body))
  {
    assert PlainHeader[4] == ' ';
    assert ',' !in PlainHeader;
    UncountedHunkKept(Hunk(PlainHeader, body));
  }

  /** A head followed by the plain header still shows `@@ x @@` on one
      line. */
  lemma PlainHeaderLine(head: string)
    ensures HasHeaderLine(head + PlainHeader)
  {
    var s := head + PlainHeader;
    var i := |head|;
    assert s[i..] == PlainHeader;
    assert AtAt(s, i) && AtAt(s, i + 5) && s[i + 2..i + 5] == " x ";
  }

  /** A block whose only counted hunk is too small keeps just its
      uncounted hunk. */
  lemma PlainSurvivor(head: string, small: Hunk)
    requires SearchCounts(small.header).Some? && !KeepHunk(small)
    ensures FilterBlock(Block(head, [small, Hunk(PlainHeader, "")], "")) == Some(Block(head, [Hunk(PlainHeader, "")], ""))
  {
    var plain := Hunk(PlainHeader, "");
    var b := Block(head, [small, plain], "");
    var x := Block(head, [plain], "");
    CountedHunkIsValid(b, 0);
    PlainHunkKept("");
    PlainHeaderLine(head);
    assert Filter(KeepsHunk, [plain]) == [plain];
    assert Filter(KeepsHunk, b.hunks) == [plain];
    assert RenderHunks([plain]) == PlainHeader;
    assert RenderBlock(x) == head + PlainHeader;
    BlockSurvives(b, x);
  }

  /** Without a comma anywhere, the surviving block has no counted header
      and is dropped. */
  lemma PlainSurvivorDropped(head: string)
    requires ',' !in head
    ensures FilterBlock(Block(head, [Hunk(PlainHeader, "")], "")) == None
  {
    var x := Block(head, [Hunk(PlainHeader, "")], "");
    assert RenderHunks(x.hunks) == PlainHeader;
    assert RenderBlock(x) == head + PlainHeader;
    assert ',' !in RenderBlock(x);
    SearchNeedsComma(RenderBlock(x));
  }

  /** A block kept only for a hunk without counts is dropped by a second
      pass: the filter is not idempotent in general. Any standard header
      whose counts differ by less than 50 (see `StandardHunkKept`) serves
      as `small`. */
  lemma UncountedSurvivorIsUnstable(head: string, small: Hunk)
    requires ',' !in head
    requires SearchCounts(small.header).Some? && !KeepHunk(small)
    ensures var b := Block(head, [small, Hunk(PlainHeader, "")], "");
            var x := Block(head, [Hunk(PlainHeader, "")], "");
            && FilterCodeDiffs(Diff("", [b], "")).blocks == [x]
            && FilterCodeDiffs(Diff("", [x], "")).blocks == []
  {
    var b := Block(head, [small, Hunk(PlainHeader, "")], "");
    var x := Block(head, [Hunk(PlainHeader, "")], "");
    PlainSurvivor(head, small);
    PlainSurvivorDropped(head);
    FilterMapOne(FilterBlockFn, b);
    FilterMapOne(FilterBlockFn, x);
  }

  // ---------------------------------------------------------------------
  // getCodeDiff
  // ---------------------------------------------------------------------

  /** The record written per item. Both `codeDiff` and `filteredCodeDiff`
      hold the filtered text; `length` is the original's. */
  datatype DiffRecord = DiffRecord(
    index: nat,
    codeDiff: string,
    length: nat,
    filteredCodeDiff: string,
    filteredLength: nat)

  function MakeRecord(k: nat, item: Option<Diff>): DiffRecord {
    var d := item.GetOr(Diff("", [], ""));
    var filtered := Render(FilterCodeDiffs(d));
    DiffRecord(k + 1, filtered, |Render(d)|, filtered, |filtered|)
  }

  /** `getCodeDiff`: one record per item (a missing `code_diff` is the empty
      text), numbered from 1. The debug read `codeDiff_list[index]` raises
      `IndexError` outside Python's index range; the handler swallows it
      and nothing is written (`None`). */
  function GetCodeDiff(items: seq<Option<Diff>>, debugIndex: int): (r: Option<seq<DiffRecord>>)
    ensures r.Some? <==> -|items| <= debugIndex < |items|
    ensures r.Some? ==> |r.value| == |items|
    ensures r.Some? ==> forall k :: 0 <= k < |items| ==>
              && r.value[k].index == k + 1
              && r.value[k].codeDiff == r.value[k].filteredCodeDiff
              && r.value[k].filteredCodeDiff == Render(FilterCodeDiffs(items[k].GetOr(Diff("", [], ""))))
              && r.value[k].filteredLength == |r.value[k].filteredCodeDiff| <= r.value[k].length
              && (items[k].Some? ==> r.value[k].length == |Render(items[k].value)|)
              && (items[k].None? ==> r.value[k].length == 0)
  {
    var records := seq(|items|, k requires 0 <= k < |items| => MakeRecord(k, items[k]));
    forall k | 0 <= k < |items|
      ensures records[k].filteredLength <= records[k].length
    {
      FilterOnlyDeletes(items[k].GetOr(Diff("", [], "")));
    }
    if -|items| <= debugIndex < |items| then Some(records) else None
  }
}
