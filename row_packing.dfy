/**
 * The row discipline behind `patchworkMapper` (src/utils/swiss/patchwork-logic.js):
 * column spans laid out left to right in a 12-column grid, and the state of
 * its greedy packing loop, with one lemma per branch of the loop body.
 */
module RowPacking {
  import opened Wrappers
  import opened Sequences

  const Columns := 12

  /**
   * The width of the open (unfinished) row after placing the spans of `s` one
   * after another, each either continuing the open row or, once a row reaches
   * exactly 12, starting the next; `None` when some span is not positive or
   * overflows the row it lands in.
   */
  function Lay(s: seq<int>): Option<int> {
    if s == [] then Some(0)
    else
      match Lay(s[..|s| - 1])
      case None => None
      case Some(w) =>
        var x := s[|s| - 1];
        if 0 < x && w + x <= Columns then Some(if w + x == Columns then 0 else w + x) else None
  }

  /** Gapless: the spans fill whole rows of exactly 12 columns, with nothing left open. */
  predicate Gapless(s: seq<int>) {
    Lay(s) == Some(0)
  }

  lemma LayAppend(s: seq<int>, x: int)
    ensures Lay(s + [x]) ==
      match Lay(s)
      case None => None
      case Some(w) => if 0 < x && w + x <= Columns then Some(if w + x == Columns then 0 else w + x) else None
  {
    assert (s + [x])[..|s|] == s;
  }

  /** After a finished prefix, laying out `r` behaves as if `r` were laid out alone. */
  lemma {:induction false} LayAfterFinished(p: seq<int>, r: seq<int>)
    requires Gapless(p)
    ensures Lay(p + r) == Lay(r)
  {
    if r == [] {
      assert p + r == p;
    } else {
      var n := |r| - 1;
      LayAfterFinished(p, r[..n]);
      assert p + r == (p + r[..n]) + [r[n]];
      assert r == r[..n] + [r[n]];
      LayAppend(p + r[..n], r[n]);
      LayAppend(r[..n], r[n]);
    }
  }

  /** A single row of positive spans of total at most 12 lays out as one open row. */
  lemma {:induction false} LayOneRow(r: seq<int>)
    requires forall k :: 0 <= k < |r| ==> r[k] > 0
    requires Sum(r) <= Columns
    ensures Lay(r) == Some(if Sum(r) == Columns then 0 else Sum(r))
    ensures r != [] ==> Sum(r) > 0
  {
    if r != [] {
      var n := |r| - 1;
      assert r == r[..n] + [r[n]];
      LayOneRow(r[..n]);
      LayAppend(r[..n], r[n]);
    }
  }

  /** Widening the first span of a row by `g` widens the row by `g`. */
  lemma SumWidenFirst(r: seq<int>, g: int)
    requires r != []
    ensures Sum(r[0 := r[0] + g]) == Sum(r) + g
  {
    SumFront(r);
    SumFront(r[0 := r[0] + g]);
    assert r[0 := r[0] + g][1..] == r[1..];
  }

  /** The spans after `finalizeRow(row, gap)`: with a positive gap, the row's first article is widened by it. */
  function Finalized(s: seq<int>, row: seq<nat>, gap: int): seq<int> {
    if gap <= 0 || row == [] || row[0] >= |s| then s else s[row[0] := s[row[0]] + gap]
  }

  /** Row starts: positions at which everything before them fills whole rows. */
  predicate StartsRow(spans: seq<int>, i: nat)
    requires i <= |spans|
  {
    Lay(spans[..i]) == Some(0)
  }

  /**
   * The loop state before article `index`: the spans before `rowStart` fill whole
   * rows, each at least its preferred width and at most 12, and only a row's
   * first article is wider than preferred; the open row `rowStart..index` still
   * has its preferred widths, which add up to `rowWidth <= 12`.
   */
  ghost predicate Packing(s: seq<int>, prefs: seq<int>, rowStart: nat, index: nat, rowWidth: int)
    requires |s| == |prefs|
  {
    && rowStart <= index <= |s| && (index > 0 ==> rowStart < index)
    && Gapless(s[..rowStart])
    && (forall k :: rowStart <= k < index ==> s[k] == prefs[k])
    && 0 <= rowWidth == Sum(s[rowStart..index]) <= Columns
    && (rowStart < index ==> s[rowStart] <= rowWidth)
    && (forall k :: 0 <= k < rowStart ==> prefs[k] <= s[k] <= Columns)
    && (forall k {:trigger StartsRow(s, k)} :: 0 <= k < rowStart && !StartsRow(s, k) ==> s[k] == prefs[k])
  }

  /** The state after the last article: every span is placed and the rows are whole. */
  ghost predicate Packed(s: seq<int>, prefs: seq<int>)
    requires |s| == |prefs|
  {
    && Gapless(s)
    && (forall k :: 0 <= k < |s| ==> prefs[k] <= s[k] <= Columns)
    && (forall k {:trigger StartsRow(s, k)} :: 0 <= k < |s| - 1 && !StartsRow(s, k) ==> s[k] == prefs[k])
  }

  // ---------------------------------------------------------------------------
  // The greedy rule, stated on the preferred widths alone

  /**
   * The total preferred width of the open row just before article `k`: an
   * article that would overflow the open row starts the next one instead.
   */
  function OpenWidth(prefs: seq<int>, k: nat): int
    requires k <= |prefs|
  {
    if k == 0 then 0
    else
      var w := OpenWidth(prefs, k - 1);
      if w + prefs[k - 1] > Columns then prefs[k - 1] else w + prefs[k - 1]
  }

  /** Article `k` starts a row: it is the first, or its preferred width does not fit the open row. */
  predicate Breaks(prefs: seq<int>, k: nat)
    requires k < |prefs|
  {
    k == 0 || OpenWidth(prefs, k) + prefs[k] > Columns
  }

  /** The first article after `k` that starts a row, or `|prefs|` when none does. */
  function NextBreak(prefs: seq<int>, k: nat): (j: nat)
    requires k < |prefs|
    ensures k < j <= |prefs|
    ensures j < |prefs| ==> Breaks(prefs, j)
    ensures forall m :: k < m < j ==> !Breaks(prefs, m)
    decreases |prefs| - k
  {
    if k + 1 == |prefs| then |prefs|
    else if Breaks(prefs, k + 1) then k + 1
    else NextBreak(prefs, k + 1)
  }

  /**
   * The final column span of article `k` under the greedy rule: its preferred
   * width, except that the first article of a row that a later article closes
   * also takes the columns that row leaves empty, and the last article takes
   * whatever its row leaves (a whole row when it starts one).
   */
  function GreedySpan(prefs: seq<int>, k: nat): int
    requires k < |prefs|
  {
    if k == |prefs| - 1 then
      (if Breaks(prefs, k) then Columns else Columns - OpenWidth(prefs, k))
    else if Breaks(prefs, k) && NextBreak(prefs, k) < |prefs| then
      prefs[k] + (Columns - OpenWidth(prefs, NextBreak(prefs, k)))
    else prefs[k]
  }

  function GreedySpans(prefs: seq<int>): seq<int> {
    seq(|prefs|, k requires 0 <= k < |prefs| => GreedySpan(prefs, k))
  }

  lemma NextBreakIs(prefs: seq<int>, k: nat, j: nat)
    requires k < j <= |prefs|
    requires j < |prefs| ==> Breaks(prefs, j)
    requires forall m :: k < m < j ==> !Breaks(prefs, m)
    ensures NextBreak(prefs, k) == j
  {
  }

  lemma {:induction false} PrefixSumBound(s: seq<int>, k: nat)
    requires forall i :: 0 <= i < |s| ==> 0 < s[i]
    requires k <= |s|
    ensures Sum(s[..k]) <= Sum(s)
    decreases |s| - k
  {
    if k < |s| {
      PrefixSumBound(s, k + 1);
      assert s[..k + 1] == s[..k] + [s[k]];
      SumAppend(s[..k], s[k]);
    } else {
      assert s[..k] == s;
    }
  }

  /** While everything fits one row, the open row holds every article so far and none starts a row. */
  lemma {:induction false} FitsOpenRow(prefs: seq<int>, k: nat)
    requires forall i :: 0 <= i < |prefs| ==> 0 < prefs[i]
    requires Sum(prefs) <= Columns && k <= |prefs|
    ensures OpenWidth(prefs, k) == Sum(prefs[..k])
    ensures 0 < k < |prefs| ==> !Breaks(prefs, k)
  {
    if k > 0 {
      FitsOpenRow(prefs, k - 1);
      assert prefs[..k] == prefs[..k - 1] + [prefs[k - 1]];
      SumAppend(prefs[..k - 1], prefs[k - 1]);
      PrefixSumBound(prefs, k);
      if k < |prefs| {
        assert prefs[..k + 1] == prefs[..k] + [prefs[k]];
        SumAppend(prefs[..k], prefs[k]);
        PrefixSumBound(prefs, k + 1);
      }
    }
  }

  /**
   * Articles whose preferred widths add up to at most 12 share one row: each
   * keeps its preferred width and the last one takes the rest of the row.
   */
  lemma GreedyOneRow(prefs: seq<int>)
    requires forall i :: 0 <= i < |prefs| ==> 0 < prefs[i]
    requires prefs != [] && Sum(prefs) <= Columns
    ensures |GreedySpans(prefs)| == |prefs|
    ensures forall k :: 0 <= k < |prefs| - 1 ==> GreedySpans(prefs)[k] == prefs[k]
    ensures GreedySpans(prefs)[|prefs| - 1] == Columns - Sum(prefs[..|prefs| - 1])
  {
    forall k | 0 <= k < |prefs| {
      OneRowSpan(prefs, k);
    }
  }

  lemma OneRowSpan(prefs: seq<int>, k: nat)
    requires forall i :: 0 <= i < |prefs| ==> 0 < prefs[i]
    requires Sum(prefs) <= Columns && k < |prefs|
    ensures k == |prefs| - 1 ==> GreedySpan(prefs, k) == Columns - Sum(prefs[..k])
    ensures k < |prefs| - 1 ==> GreedySpan(prefs, k) == prefs[k]
  {
    var n := |prefs|;
    FitsOpenRow(prefs, k);
    if k == 0 && n > 1 {
      forall m | 0 < m < n ensures !Breaks(prefs, m) {
        FitsOpenRow(prefs, m);
      }
      NextBreakIs(prefs, 0, n);
    }
  }

  /**
   * The loop state against the greedy rule before article `index`: the open
   * row starts at a row break and holds no other, its width is the greedy open
   * width, and every span before it (every span, once the loop is done) is final.
   */
  ghost predicate GreedySoFar(s: seq<int>, prefs: seq<int>, rowStart: nat, index: nat, rowWidth: int)
    requires |s| == |prefs|
  {
    && rowStart <= index <= |s|
    && (index < |s| ==> rowWidth == OpenWidth(prefs, index))
    && (rowStart < |s| ==> Breaks(prefs, rowStart))
    && (index < |s| ==> forall m :: rowStart < m < index ==> !Breaks(prefs, m))
    && (index < |s| ==> forall k {:trigger GreedySpan(prefs, k)} :: 0 <= k < rowStart ==> s[k] == GreedySpan(prefs, k))
    && (index == |s| ==> forall k {:trigger GreedySpan(prefs, k)} :: 0 <= k < |s| ==> s[k] == GreedySpan(prefs, k))
  }

  /** Step 3 against the greedy rule: the article fits, so it does not start a row. */
  lemma GreedyJoin(s: seq<int>, t: seq<int>, prefs: seq<int>, rowStart: nat, index: nat, rowWidth: int)
    requires |s| == |prefs| && index + 1 < |s|
    requires GreedySoFar(s, prefs, rowStart, index, rowWidth) && (index > 0 ==> rowStart < index)
    requires rowWidth + prefs[index] <= Columns
    requires t == s[index := prefs[index]]
    ensures GreedySoFar(t, prefs, rowStart, index + 1, rowWidth + prefs[index])
  {
  }

  /** Step 2 against the greedy rule: the article that overflows closes the open row at a break. */
  lemma GreedyNewRow(s: seq<int>, closed: seq<int>, t: seq<int>, prefs: seq<int>, rowStart: nat, index: nat, rowWidth: int)
    requires |s| == |prefs| && index + 1 < |s|
    requires GreedySoFar(s, prefs, rowStart, index, rowWidth) && rowStart < index
    requires forall k :: rowStart <= k < index ==> s[k] == prefs[k]
    requires rowWidth + prefs[index] > Columns
    requires closed == s[rowStart := s[rowStart] + (Columns - rowWidth)]
    requires t == closed[index := prefs[index]]
    ensures GreedySoFar(t, prefs, index, index + 1, prefs[index])
  {
    NextBreakIs(prefs, rowStart, index);
    forall k | 0 <= k < index ensures t[k] == GreedySpan(prefs, k) {
      if rowStart < k {
        assert !Breaks(prefs, k);
      }
    }
  }

  /** The last article overflows the open row: it closes that row and takes a whole row. */
  lemma GreedyOwnRow(s: seq<int>, closed: seq<int>, t: seq<int>, prefs: seq<int>, rowStart: nat, rowWidth: int)
    requires |s| == |prefs| && |s| > 0
    requires GreedySoFar(s, prefs, rowStart, |s| - 1, rowWidth) && rowStart < |s| - 1
    requires forall k :: rowStart <= k < |s| - 1 ==> s[k] == prefs[k]
    requires rowWidth + prefs[|s| - 1] > Columns
    requires closed == s[rowStart := s[rowStart] + (Columns - rowWidth)]
    requires t == closed[|s| - 1 := Columns]
    ensures GreedySoFar(t, prefs, rowStart, |s|, rowWidth)
  {
    NextBreakIs(prefs, rowStart, |s| - 1);
    forall k | 0 <= k < |s| ensures t[k] == GreedySpan(prefs, k) {
      if rowStart < k < |s| - 1 {
        assert !Breaks(prefs, k);
      }
    }
  }

  /** The last article fits the open row (or is the only one): the open row never closes early. */
  lemma GreedyLastJoin(s: seq<int>, t: seq<int>, prefs: seq<int>, rowStart: nat, rowWidth: int)
    requires |s| == |prefs| && |s| > 0
    requires GreedySoFar(s, prefs, rowStart, |s| - 1, rowWidth) && (|s| > 1 ==> rowStart < |s| - 1)
    requires forall k :: rowStart <= k < |s| - 1 ==> s[k] == prefs[k]
    requires prefs[|s| - 1] <= Columns - rowWidth
    requires t == s[|s| - 1 := Columns - rowWidth]
    ensures GreedySoFar(t, prefs, rowStart, |s|, rowWidth)
  {
    var n := |s|;
    NextBreakIs(prefs, rowStart, n);
    forall k | 0 <= k < n ensures t[k] == GreedySpan(prefs, k) {
      if rowStart < k < n - 1 {
        assert !Breaks(prefs, k);
      }
    }
  }

  /**
   * The loop state of `patchworkMapper` before article `index`: `row` lists the
   * positions of the open row's articles, which start at `rowStart`.
   */
  ghost predicate LoopState(s: seq<int>, prefs: seq<int>, row: seq<nat>, rowStart: nat, index: nat, rowWidth: int)
    requires |s| == |prefs|
  {
    && rowStart <= index <= |s|
    && (index < |s| ==> |row| == index - rowStart && (forall k :: 0 <= k < |row| ==> row[k] == rowStart + k))
    && (index < |s| ==> Packing(s, prefs, rowStart, index, rowWidth))
    && (index == |s| ==> Packed(s, prefs))
    && GreedySoFar(s, prefs, rowStart, index, rowWidth)
  }

  /** Row starts depend only on the spans before them. */
  lemma SamePrefixSameStarts(s: seq<int>, t: seq<int>, m: nat)
    requires m <= |s| && m <= |t| && s[..m] == t[..m]
    ensures forall k :: 0 <= k <= m ==> StartsRow(s, k) == StartsRow(t, k)
  {
    forall k | 0 <= k <= m ensures StartsRow(s, k) == StartsRow(t, k) {
      assert s[..k] == s[..m][..k];
      assert t[..k] == t[..m][..k];
    }
  }

  /** Before the first article: no rows and an empty open row. */
  lemma PackingStart(s: seq<int>, prefs: seq<int>)
    requires |s| == |prefs|
    ensures Packing(s, prefs, 0, 0, 0)
    ensures s == [] ==> Packed(s, prefs)
    ensures GreedySoFar(s, prefs, 0, 0, 0)
  {
    assert s[..0] == [] && s[0..0] == [];
  }

  /** The loop state before the first article. */
  lemma LoopStart(s: seq<int>, prefs: seq<int>)
    requires |s| == |prefs|
    ensures LoopState(s, prefs, [], 0, 0, 0)
  {
    PackingStart(s, prefs);
  }

  /** After the last article: the layout is packed and the spans are the greedy ones. */
  lemma LoopDone(s: seq<int>, prefs: seq<int>, row: seq<nat>, rowStart: nat, rowWidth: int)
    requires |s| == |prefs|
    requires LoopState(s, prefs, row, rowStart, |s|, rowWidth)
    ensures Packed(s, prefs)
    ensures s == GreedySpans(prefs)
  {
    assert forall k :: 0 <= k < |s| ==> s[k] == GreedySpans(prefs)[k];
  }

  /** Step 3 as a loop step: the open row gains the article's position. */
  lemma JoinStep(s: seq<int>, t: seq<int>, prefs: seq<int>, row: seq<nat>, rowStart: nat, index: nat, rowWidth: int)
    requires |s| == |prefs| && index + 1 < |s|
    requires forall k :: 0 <= k < |prefs| ==> 0 < prefs[k] <= Columns
    requires LoopState(s, prefs, row, rowStart, index, rowWidth)
    requires rowWidth + prefs[index] <= Columns
    requires t == s[index := prefs[index]]
    ensures LoopState(t, prefs, row + [index], rowStart, index + 1, rowWidth + prefs[index])
  {
    JoinOpenRow(s, t, prefs, rowStart, index, rowWidth);
    GreedyJoin(s, t, prefs, rowStart, index, rowWidth);
  }

  /** Step 3: the article joins the open row with its preferred width. */
  lemma JoinOpenRow(s: seq<int>, t: seq<int>, prefs: seq<int>, rowStart: nat, index: nat, rowWidth: int)
    requires |s| == |prefs| && index < |s|
    requires Packing(s, prefs, rowStart, index, rowWidth)
    requires forall k :: 0 <= k < |prefs| ==> 0 < prefs[k] <= Columns
    requires rowWidth + prefs[index] <= Columns
    requires t == s[index := prefs[index]]
    ensures Packing(t, prefs, rowStart, index + 1, rowWidth + prefs[index])
  {
    assert t[..rowStart] == s[..rowStart];
    assert t[rowStart..index + 1] == s[rowStart..index] + [prefs[index]];
    SumAppend(s[rowStart..index], prefs[index]);
    SamePrefixSameStarts(s, t, rowStart);
  }

  /**
   * `finalizeRow(currentRow, 12 - currentRowWidth)` on a non-empty open row: the
   * row's first span grows by the gap, and everything before `index` is whole rows.
   */
  lemma CloseOpenRow(s: seq<int>, t: seq<int>, prefs: seq<int>, rowStart: nat, index: nat, rowWidth: int)
    requires |s| == |prefs| && index <= |s|
    requires forall k :: 0 <= k < |prefs| ==> 0 < prefs[k] <= Columns
    requires Packing(s, prefs, rowStart, index, rowWidth) && rowStart < index
    requires t == s[rowStart := s[rowStart] + (Columns - rowWidth)]
    ensures Gapless(t[..index])
    ensures forall k :: 0 <= k < index ==> prefs[k] <= t[k] <= Columns
    ensures forall k {:trigger StartsRow(t, k)} :: 0 <= k < index && !StartsRow(t, k) ==> t[k] == prefs[k]
  {
    var gap := Columns - rowWidth;
    var oldRow := s[rowStart..index];
    var newRow := t[rowStart..index];
    assert newRow == oldRow[0 := oldRow[0] + gap];
    SumWidenFirst(oldRow, gap);
    assert t[..rowStart] == s[..rowStart];
    assert forall k :: 0 <= k < |newRow| ==> newRow[k] == t[rowStart + k];
    LayOneRow(newRow);
    assert t[..index] == t[..rowStart] + newRow;
    LayAfterFinished(t[..rowStart], newRow);
    forall k | 0 <= k < index && !StartsRow(t, k)
      ensures t[k] == prefs[k]
    {
      if k < rowStart {
        assert t[..k] == s[..k];
        assert !StartsRow(s, k);
      }
    }
  }

  /** After closing the open row, the article opens a new row with its preferred width. */
  lemma StartNewRow(s: seq<int>, t: seq<int>, prefs: seq<int>, index: nat)
    requires |s| == |prefs| && index < |s|
    requires Gapless(s[..index])
    requires forall k :: 0 <= k < index ==> prefs[k] <= s[k] <= Columns
    requires forall k {:trigger StartsRow(s, k)} :: 0 <= k < index && !StartsRow(s, k) ==> s[k] == prefs[k]
    requires 0 < prefs[index] <= Columns
    requires t == s[index := prefs[index]]
    ensures Packing(t, prefs, index, index + 1, prefs[index])
  {
    assert t[..index] == s[..index];
    assert t[index..index + 1] == [] + [prefs[index]];
    SumAppend([], prefs[index]);
    SamePrefixSameStarts(s, t, index);
  }

  /** The last article, when it overflows a non-empty open row, gets a full row of its own. */
  lemma LastOnOwnRow(s: seq<int>, t: seq<int>, prefs: seq<int>)
    requires |s| == |prefs| && |s| > 0
    requires Gapless(s[..|s| - 1]) && prefs[|s| - 1] <= Columns
    requires forall k :: 0 <= k < |s| - 1 ==> prefs[k] <= s[k] <= Columns
    requires forall k {:trigger StartsRow(s, k)} :: 0 <= k < |s| - 1 && !StartsRow(s, k) ==> s[k] == prefs[k]
    requires t == s[|s| - 1 := Columns]
    ensures Packed(t, prefs)
  {
    var n := |s| - 1;
    assert t[..n] == s[..n];
    assert Gapless(t) by {
      assert t == t[..n] + [Columns];
      LayAppend(t[..n], Columns);
    }
    forall k | 0 <= k < |t|
      ensures prefs[k] <= t[k] <= Columns
    {
      if k < n {
        assert t[k] == s[k];
      }
    }
    SamePrefixSameStarts(s, t, n);
    forall k | 0 <= k < n && !StartsRow(t, k) ensures t[k] == prefs[k] {
      assert !StartsRow(s, k);
    }
  }

  /** A finished prefix followed by one row of positive spans adding up to 12 is whole rows. */
  lemma CompleteRow(p: seq<int>, row: seq<int>)
    requires Gapless(p)
    requires forall k :: 0 <= k < |row| ==> row[k] > 0
    requires Sum(row) == Columns
    ensures Gapless(p + row)
  {
    LayOneRow(row);
    LayAfterFinished(p, row);
  }

  /** The last article takes the rest of the open row, which then adds up to exactly 12. */
  lemma LastJoinsRow(s: seq<int>, t: seq<int>, prefs: seq<int>, rowStart: nat, rowWidth: int)
    requires |s| == |prefs| && |s| > 0
    requires forall k :: 0 <= k < |prefs| ==> 0 < prefs[k] <= Columns
    requires Packing(s, prefs, rowStart, |s| - 1, rowWidth)
    requires prefs[|s| - 1] <= Columns - rowWidth
    requires t == s[|s| - 1 := Columns - rowWidth]
    ensures Packed(t, prefs)
  {
    LastJoinsRowGapless(s, t, rowStart, rowWidth);
    LastJoinsRowBounds(s, t, prefs, rowStart, rowWidth);
    LastJoinsRowPreferred(s, t, prefs, rowStart, rowWidth);
  }

  lemma LastJoinsRowGapless(s: seq<int>, t: seq<int>, rowStart: nat, rowWidth: int)
    requires rowStart < |s| && Gapless(s[..rowStart])
    requires forall k :: rowStart <= k < |s| - 1 ==> s[k] > 0
    requires rowWidth == Sum(s[rowStart..|s| - 1]) < Columns
    requires t == s[|s| - 1 := Columns - rowWidth]
    ensures Gapless(t)
  {
    var n := |s| - 1;
    var rowItems := t[rowStart..];
    assert t[..rowStart] == s[..rowStart];
    assert rowItems == s[rowStart..n] + [Columns - rowWidth];
    SumAppend(s[rowStart..n], Columns - rowWidth);
    assert t == t[..rowStart] + rowItems;
    CompleteRow(t[..rowStart], rowItems);
  }

  lemma LastJoinsRowBounds(s: seq<int>, t: seq<int>, prefs: seq<int>, rowStart: nat, rowWidth: int)
    requires |s| == |prefs| && |s| > 0
    requires forall k :: 0 <= k < |prefs| ==> 0 < prefs[k] <= Columns
    requires Packing(s, prefs, rowStart, |s| - 1, rowWidth)
    requires prefs[|s| - 1] <= Columns - rowWidth
    requires t == s[|s| - 1 := Columns - rowWidth]
    ensures forall k :: 0 <= k < |t| ==> prefs[k] <= t[k] <= Columns
  {
    forall k | 0 <= k < |t| ensures prefs[k] <= t[k] <= Columns {
      if k < |s| - 1 {
        assert t[k] == s[k];
      }
    }
  }

  lemma LastJoinsRowPreferred(s: seq<int>, t: seq<int>, prefs: seq<int>, rowStart: nat, rowWidth: int)
    requires |s| == |prefs| && |s| > 0
    requires forall k :: 0 <= k < |prefs| ==> 0 < prefs[k] <= Columns
    requires Packing(s, prefs, rowStart, |s| - 1, rowWidth)
    requires prefs[|s| - 1] <= Columns - rowWidth
    requires t == s[|s| - 1 := Columns - rowWidth]
    ensures forall k {:trigger StartsRow(t, k)} :: 0 <= k < |t| - 1 && !StartsRow(t, k) ==> t[k] == prefs[k]
  {
    SamePrefixSameStarts(s, t, rowStart);
    forall k | 0 <= k < |t| - 1 && !StartsRow(t, k) ensures t[k] == prefs[k] {
      if k < rowStart {
        assert !StartsRow(s, k);
      }
    }
  }

  /** Step 2, not the last article: close the open row, then open a new one with the article. */
  lemma NewRowStep(s: seq<int>, closed: seq<int>, t: seq<int>, prefs: seq<int>, row: seq<nat>, rowStart: nat, index: nat, rowWidth: int)
    requires |s| == |prefs| && index + 1 < |s|
    requires forall k :: 0 <= k < |prefs| ==> 0 < prefs[k] <= Columns
    requires LoopState(s, prefs, row, rowStart, index, rowWidth)
    requires rowWidth + prefs[index] > Columns
    requires closed == Finalized(s, row, Columns - rowWidth)
    requires t == closed[index := prefs[index]]
    ensures LoopState(t, prefs, [index], index, index + 1, prefs[index])
  {
    assert row != [] && row[0] == rowStart;
    if rowWidth == Columns {
      assert s[rowStart := s[rowStart] + 0] == s;
    }
    CloseOpenRow(s, closed, prefs, rowStart, index, rowWidth);
    StartNewRow(closed, t, prefs, index);
    GreedyNewRow(s, closed, t, prefs, rowStart, index, rowWidth);
  }

  /** Step 2, the last article overflows a non-empty open row: close it, then a full row of its own. */
  lemma OwnRowStep(s: seq<int>, closed: seq<int>, t: seq<int>, prefs: seq<int>, row: seq<nat>, rowStart: nat, index: nat, rowWidth: int)
    requires |s| == |prefs| && index + 1 == |s|
    requires forall k :: 0 <= k < |prefs| ==> 0 < prefs[k] <= Columns
    requires LoopState(s, prefs, row, rowStart, index, rowWidth)
    requires rowWidth > 0 && prefs[index] > Columns - rowWidth
    requires closed == Finalized(s, row, Columns - rowWidth)
    requires t == closed[index := Columns]
    ensures LoopState(t, prefs, row, rowStart, index + 1, rowWidth)
  {
    assert row != [] && row[0] == rowStart;
    assert closed == s[rowStart := s[rowStart] + (Columns - rowWidth)] by {
      if rowWidth == Columns {
        assert s[rowStart := s[rowStart] + 0] == s;
      }
    }
    assert rowStart < |s| - 1 by {
      assert Packing(s, prefs, rowStart, |s| - 1, rowWidth);
    }
    OwnRowPacked(s, closed, t, prefs, rowStart, rowWidth);
    GreedyOwnRow(s, closed, t, prefs, rowStart, rowWidth);
  }

  lemma OwnRowPacked(s: seq<int>, closed: seq<int>, t: seq<int>, prefs: seq<int>, rowStart: nat, rowWidth: int)
    requires |s| == |prefs| && 0 <= rowStart < |s| - 1
    requires forall k :: 0 <= k < |prefs| ==> 0 < prefs[k] <= Columns
    requires Packing(s, prefs, rowStart, |s| - 1, rowWidth)
    requires closed == s[rowStart := s[rowStart] + (Columns - rowWidth)]
    requires t == closed[|s| - 1 := Columns]
    ensures Packed(t, prefs)
  {
    CloseOpenRow(s, closed, prefs, rowStart, |s| - 1, rowWidth);
    LastOnOwnRow(closed, t, prefs);
  }

  /** Step 2, the last article fits the open row (or has a row to itself): it takes the rest of the row. */
  lemma LastJoinStep(s: seq<int>, t: seq<int>, prefs: seq<int>, row: seq<nat>, rowStart: nat, index: nat, rowWidth: int)
    requires |s| == |prefs| && index + 1 == |s|
    requires forall k :: 0 <= k < |prefs| ==> 0 < prefs[k] <= Columns
    requires LoopState(s, prefs, row, rowStart, index, rowWidth)
    requires prefs[index] <= Columns - rowWidth
    requires t == s[index := Columns - rowWidth]
    ensures LoopState(t, prefs, row, rowStart, index + 1, rowWidth)
  {
    LastJoinsRow(s, t, prefs, rowStart, rowWidth);
    GreedyLastJoin(s, t, prefs, rowStart, rowWidth);
  }

  /** A single article fills a whole row. */
  lemma {:induction false} SingleSpanIsFullRow(s: seq<int>)
    requires |s| == 1 && Gapless(s)
    ensures s[0] == Columns
  {
    assert s == [] + [s[0]];
    LayAppend([], s[0]);
  }
}
