/**
 * `patchworkMapper` (src/utils/swiss/patchwork-logic.js): greedy row packing
 * of ranked articles into a 12-column grid. Each article asks for a width from
 * its score; a row is closed when the next article does not fit, and
 * `finalizeRow` hands the row's leftover columns to the row's first article.
 * The `_gridClass` strings `col-span-N` are modelled by their number N.
 */
module Patchwork {
  import opened Wrappers
  import opened Scoring
  import opened Sorting
  import opened Sequences
  import opened Ranking
  import opened RowPacking

  /** Step 1 of the loop: 12 for a hero, 8 featured, 6 half, otherwise 4. */
  function PreferredWidth(score: int): (w: int)
    ensures w == Columns <==> score >= 2500
    ensures w == 8 <==> 2000 <= score < 2500
    ensures w == 6 <==> 1800 <= score < 2000
    ensures w == 4 <==> score < 1800
  {
    if score >= 2500 then 12
    else if score >= 2000 then 8
    else if score >= 1800 then 6
    else 4
  }

  /** A higher score never asks for a narrower column span. */
  lemma PreferredWidthMonotone(s1: int, s2: int)
    requires s1 <= s2
    ensures PreferredWidth(s1) <= PreferredWidth(s2)
  {
  }

  /** The preferred width of each ranked article, in order, each between 4 and 12. */
  function Preferences(scored: seq<Scored>): (p: seq<int>)
    ensures |p| == |scored|
    ensures forall i :: 0 <= i < |p| ==> p[i] == PreferredWidth(scored[i].score)
    ensures forall i :: 0 <= i < |p| ==> 4 <= p[i] <= Columns
  {
    seq(|scored|, i requires 0 <= i < |scored| => PreferredWidth(scored[i].score))
  }

  /** Among the ranked articles, a higher score never gets a smaller preferred width. */
  lemma PreferencesMonotone(scored: seq<Scored>)
    ensures forall i, j :: 0 <= i < |scored| && 0 <= j < |scored| && scored[i].score <= scored[j].score
              ==> Preferences(scored)[i] <= Preferences(scored)[j]
  {
    forall i, j | 0 <= i < |scored| && 0 <= j < |scored| && scored[i].score <= scored[j].score
      ensures Preferences(scored)[i] <= Preferences(scored)[j]
    {
      PreferredWidthMonotone(scored[i].score, scored[j].score);
    }
  }

  // ---------------------------------------------------------------------------
  // The mapper

  /**
   * `finalizeRow(row, gap)`: `row` holds the positions (in the result) of the
   * open row's articles and `spans[i]` is the column span of result `i`. With
   * a positive gap and a non-empty row, only the first article's span grows,
   * by exactly `gap`.
   */
  method FinalizeRow(spans: array<int>, row: seq<nat>, gap: int)
    requires row != [] ==> row[0] < spans.Length
    modifies spans
    ensures gap <= 0 || row == [] ==> spans[..] == old(spans[..])
    ensures gap > 0 && row != [] ==> spans[..] == old(spans[..])[row[0] := old(spans[row[0]]) + gap]
    ensures spans[..] == Finalized(old(spans[..]), row, gap)
  {
    if gap <= 0 || row == [] {
      return;
    }
    var first := row[0];
    spans[first] := spans[first] + gap;
  }

  /** An output record: the article with `_score` and its final column span. */
  datatype Placed = Placed(article: Article, score: int, span: int)

  function SpanOf(p: Placed): int {
    p.span
  }

  /** The output records: each ranked article with its `_score` and final span. */
  function Assemble(scored: seq<Scored>, spans: seq<int>): seq<Placed>
    requires |spans| == |scored|
  {
    seq(|scored|, i requires 0 <= i < |scored| => Placed(scored[i].article, scored[i].score, spans[i]))
  }

  /** A packed span sequence read back through the output records. */
  lemma PackedPlaced(r: seq<Placed>, prefs: seq<int>)
    requires |prefs| == |r|
    requires forall i :: 0 <= i < |r| ==> prefs[i] == PreferredWidth(r[i].score)
    requires Packed(MapSeq(SpanOf, r), prefs)
    ensures forall i :: 0 <= i < |r| ==> PreferredWidth(r[i].score) <= r[i].span <= Columns
    ensures Gapless(MapSeq(SpanOf, r))
    ensures forall i :: 0 <= i < |r| - 1 && !StartsRow(MapSeq(SpanOf, r), i)
              ==> r[i].span == PreferredWidth(r[i].score)
  {
  }

  /**
   * The body of the `forEach` callback for the article at `index`, given the
   * open row and its width: an article that fits joins the open row with its
   * preferred width; one that does not closes the open row (which hands its
   * gap to its first article) and opens the next; the last article takes the
   * rest of the open row, or closes it and takes a row of its own when it
   * does not fit a non-empty row.
   */
  method PlaceArticle(spans: array<int>, row: seq<nat>, rowWidth: int, index: nat, preferred: int,
                      ghost prefs: seq<int>, ghost rowStart: nat)
    returns (newRow: seq<nat>, newWidth: int, ghost newStart: nat)
    requires spans.Length == |prefs| && index < spans.Length
    requires forall k :: 0 <= k < |prefs| ==> 0 < prefs[k] <= Columns
    requires preferred == prefs[index]
    requires LoopState(spans[..], prefs, row, rowStart, index, rowWidth)
    modifies spans
    ensures LoopState(spans[..], prefs, newRow, newStart, index + 1, newWidth)
    ensures index < spans.Length - 1 && rowWidth + preferred <= Columns ==>
      newRow == row + [index] && newWidth == rowWidth + preferred &&
      spans[..] == old(spans[..])[index := preferred]
    ensures index < spans.Length - 1 && rowWidth + preferred > Columns ==>
      newRow == [index] && newWidth == preferred &&
      spans[..] == Finalized(old(spans[..]), row, Columns - rowWidth)[index := preferred]
    ensures index == spans.Length - 1 && preferred > Columns - rowWidth && rowWidth > 0 ==>
      spans[..] == Finalized(old(spans[..]), row, Columns - rowWidth)[index := Columns]
    ensures index == spans.Length - 1 && !(preferred > Columns - rowWidth && rowWidth > 0) ==>
      spans[..] == old(spans[..])[index := if Columns - rowWidth != 0 then Columns - rowWidth else preferred]
  {
    var isLastItem := index == spans.Length - 1;
    ghost var before := spans[..];
    if rowWidth + preferred > Columns || isLastItem {
      if isLastItem {
        var remainingSpace := Columns - rowWidth;
        if preferred > remainingSpace && rowWidth > 0 {
          FinalizeRow(spans, row, Columns - rowWidth);
          ghost var closed := spans[..];
          spans[index] := Columns;
          OwnRowStep(before, closed, spans[..], prefs, row, rowStart, index, rowWidth);
        } else {
          var span := if remainingSpace != 0 then remainingSpace else preferred;
          assert span == remainingSpace;
          spans[index] := span;
          LastJoinStep(before, spans[..], prefs, row, rowStart, index, rowWidth);
        }
        newRow, newWidth, newStart := row, rowWidth, rowStart;
      } else {
        FinalizeRow(spans, row, Columns - rowWidth);
        ghost var closed := spans[..];
        spans[index] := preferred;
        NewRowStep(before, closed, spans[..], prefs, row, rowStart, index, rowWidth);
        newRow, newWidth, newStart := [index], preferred, index;
      }
    } else {
      spans[index] := preferred;
      JoinStep(before, spans[..], prefs, row, rowStart, index, rowWidth);
      newRow, newWidth, newStart := row + [index], rowWidth + preferred, rowStart;
    }
  }

  /**
   * The `forEach` loop of `patchworkMapper` over the ranked articles, on
   * their column spans: the spans are those of the greedy rule, fill whole
   * rows, lie between the preferred width and 12, and only a row's first
   * article (or the very last article) is wider than it asked for.
   */
  method PackSpans(scored: seq<Scored>) returns (spans: array<int>)
    ensures spans.Length == |scored|
    ensures spans[..] == GreedySpans(Preferences(scored))
    ensures Packed(spans[..], Preferences(scored))
  {
    var n := |scored|;
    ghost var prefs := Preferences(scored);
    spans := new int[n];
    var row: seq<nat> := [];
    var rowWidth := 0;
    ghost var rowStart := 0;
    var index := 0;
    LoopStart(spans[..], prefs);
    while index < n
      invariant 0 <= index <= n
      invariant LoopState(spans[..], prefs, row, rowStart, index, rowWidth)
    {
      var preferred := PreferredWidth(scored[index].score);
      row, rowWidth, rowStart := PlaceArticle(spans, row, rowWidth, index, preferred, prefs, rowStart);
      index := index + 1;
    }
    LoopDone(spans[..], prefs, row, rowStart, rowWidth);
  }

  /**
   * `result`: each ranked article, in order, with its score and the span the
   * loop gave it, so the output records carry the greedy spans and the row
   * discipline.
   */
  method PackRows(scored: seq<Scored>) returns (r: seq<Placed>)
    ensures |r| == |scored|
    ensures MapSeq(SpanOf, r) == GreedySpans(Preferences(scored))
    ensures forall i :: 0 <= i < |r| ==> r[i].article == scored[i].article && r[i].score == scored[i].score
    ensures forall i :: 0 <= i < |r| ==> PreferredWidth(r[i].score) <= r[i].span <= Columns
    ensures Gapless(MapSeq(SpanOf, r))
    ensures forall i :: 0 <= i < |r| - 1 && !StartsRow(MapSeq(SpanOf, r), i)
              ==> r[i].span == PreferredWidth(r[i].score)
  {
    var spans := PackSpans(scored);
    AssembledGreedy(scored, spans[..]);
    r := Assemble(scored, spans[..]);
  }

  /** The output records of a finished loop carry the greedy spans and the row discipline. */
  lemma AssembledGreedy(scored: seq<Scored>, s: seq<int>)
    requires |s| == |scored|
    requires s == GreedySpans(Preferences(scored)) && Packed(s, Preferences(scored))
    ensures var r := Assemble(scored, s);
      && |r| == |scored|
      && (forall i :: 0 <= i < |r| ==> r[i].article == scored[i].article && r[i].score == scored[i].score)
      && MapSeq(SpanOf, r) == GreedySpans(Preferences(scored))
      && (forall i :: 0 <= i < |r| ==> PreferredWidth(r[i].score) <= r[i].span <= Columns)
      && Gapless(MapSeq(SpanOf, r))
      && (forall i :: 0 <= i < |r| - 1 && !StartsRow(MapSeq(SpanOf, r), i) ==> r[i].span == PreferredWidth(r[i].score))
  {
    var r := Assemble(scored, s);
    assert MapSeq(SpanOf, r) == s;
    PackedPlaced(r, Preferences(scored));
  }

  /** `patchworkMapper`: filter out pages, score, rank, then pack the rows. */
  method PatchworkMapper(articles: seq<Article>) returns (r: seq<Placed>)
    ensures |r| == CountNonPages(articles)
    ensures forall i :: 0 <= i < |r| ==> Scored(r[i].article, r[i].score) == Ranked(articles)[i]
    ensures MapSeq(SpanOf, r) == GreedySpans(Preferences(Ranked(articles)))
    ensures forall i :: 0 <= i < |r| ==> PreferredWidth(r[i].score) <= r[i].span <= Columns
    ensures Gapless(MapSeq(SpanOf, r))
    ensures forall i :: 0 <= i < |r| - 1 && !StartsRow(MapSeq(SpanOf, r), i)
              ==> r[i].span == PreferredWidth(r[i].score)
    ensures |r| == 1 ==> r[0].span == Columns
  {
    var scoredArticles := Ranked(articles);
    r := PackRows(scoredArticles);
    if |r| == 1 {
      SingleSpanIsFullRow(MapSeq(SpanOf, r));
    }
  }
}
