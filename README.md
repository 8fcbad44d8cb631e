# Article ranking, grid layout and scroll logic of o-m.kr, in Dafny

This project models the logic core of a content-driven website: how articles
are scored and ranked, and how the three grid mappers place them in a
12-column grid. It also models the scroll index logic and section traversal
of the two scrollytelling templates, and a handful of small helpers: relative
times, revision selection, label truncation and the content loader's uid and
type mapping. It then proves what that code promises about its results.

One Dafny module per source file:

- **`Scoring`** (`scoring.dfy`). `getArticleScore` is an additive integer
  score. Dates are integer millisecond timestamps.
- **`Sorting`**, **`Sequences`** (`sorting.dfy`). A stable insertion sort by
  a comparator, standing for `Array.prototype.sort`, with its permutation,
  ordering and stability proved. Also sequence helpers: map, sum, and
  removing an element from a multiset.
- **`Ranking`** (`ranking.dfy`):
  - the three-key comparator shared by `gridMapper` and `patchworkMapper`
    (score descending, release date descending, id ascending);
  - the score-only comparator of `gridMapper12`;
  - the filter, scoring and sort front half that all mappers share.
- **`GridMapper`** (`grid_mapper.dfy`). `gridMapper` and
  `mapScoreToGridClass`.
- **`RowPacking`**, **`Patchwork`** (`row_packing.dfy`, `patchwork.dfy`).
  `patchworkMapper`: greedy row packing into 12 columns. Spans are an
  `array<int>` that `finalizeRow` updates in place. The loop body is one
  method per `forEach` callback, proved against a loop-state predicate:
  - the spans are exactly those of the greedy rule, stated on the preferred
    widths alone (a row breaks where the next article would overflow it);
  - gapless rows;
  - spans between the preferred width and 12;
  - only the first article of a row is ever widened.
- **`GridCells`**, **`GridPacking`** (`grid_cells.dfy`, `grid_packing.dfy`).
  `gridMapper12`:
  - candidate shapes;
  - `canPlace` and `place` on an `array2<bool>` occupancy matrix;
  - the first-fit and first-free-cell scans;
  - the packing loop.
  A ghost set of occupied cells carries the capacity argument: every article
  gets a slot, and no two slots overlap.
- **`ScrollerControl`** (`scroller_controller.dfy`). The
  `ScrollerController` class:
  - `bisect`;
  - the index clamp and change detection of `handleScroll`;
  - `on` and `trigger` over a callback registry.

  A callback is an id, and a call is an entry in a log.
- **`Sections`** (`sections.dfy`):
  - `chart.activate` as a `Chart` class whose log records the sections
    whose activate function ran;
  - `getWords`' filler flag and minute;
  - `getFillerWords`;
  - `groupByWord`.
- **`TimeUtils`** (`relative_time.dfy`):
  - `getRelativeTime` and `getRelativeTimeDiff`, for a given elapsed time;
  - `getFirstRevision` and `getLastRevision`.
- **`EnergyLayout`** (`energy_layout.dfy`). `getTruncatedLabel`, and the
  column, row and row-count arithmetic of `getLayout`.
- **`ContentLoader`** (`content_loader.dfy`):
  - uid derivation;
  - `.md`/`.mdx` filtering;
  - the legacy `typeMap`;
  - entry construction in the `articles` loader.
- **`Wrappers`**, **`Division`** (`wrappers.dfy`, `division.dfy`). `Option`,
  and facts about floored division.

The randomized variant in `src/utils/grid-mapper-12 JSON.js` is not
modelled.

## Model

| member | source | states |
|---|---|---|
| Scoring.CeilDivIsCeiling | src/utils/scoring.js:34 | `Math.ceil(n / d)` is the least number of whole `d`-blocks that covers `n`. |
| Scoring.EffectiveIndex | src/utils/scoring.js:21 | The effective index is never 0. A present non-zero `highlight.index` is used as it is. |
| Scoring.IndexTerm | src/utils/scoring.js:21-22 | For an index in 1..5 the index term is between 200 and 1000. |
| Scoring.DateTerm | src/utils/scoring.js:30-36 | The date term is 0 when either date is absent, and is always a multiple of 10. |
| Scoring.Score | src/utils/scoring.js:7-44 | A page scores 0. A non-page article with an index in 1..5 scores at least 200. |
| Scoring.ListedAddsThousand | src/utils/scoring.js:16-18 | A listed non-page article scores exactly 1000 more than the same article unlisted. |
| Scoring.MissingIndexIsFive | src/utils/scoring.js:21 | An absent highlight index scores exactly like index 5. |
| Scoring.AuthorAddsFifty | src/utils/scoring.js:25-26 | One more author adds exactly 50 to a non-page article's score. |
| Scoring.DateTermSymmetric | src/utils/scoring.js:30-36 | Swapping the release and creation dates leaves the date term unchanged. |
| Scoring.DateTermCountsStartedDays | src/utils/scoring.js:30-36 | The date term is 10 times the number of started days between the two dates. |
| Scoring.GraphicsAddsThreeHundred | src/utils/scoring.js:39-41 | A graphics article scores exactly 300 more than the same article with any other non-page type. |
| Ranking.StrLeTotal | src/utils/grid-mapper.js:38 | The id order (`localeCompare` taken as lexicographic) relates every pair of ids. |
| Ranking.StrLeTransitive | src/utils/grid-mapper.js:38 | The id order is transitive. |
| Ranking.StrLeAntisymmetric | src/utils/grid-mapper.js:38 | Two ids that each sort no later than the other are equal. |
| Ranking.RankLeIsTotalPreorder | src/utils/grid-mapper.js:28-39 | The three-key comparator orders every pair consistently (total and transitive), so the sort is well defined. |
| Ranking.RankTieMeansSameKey | src/utils/grid-mapper.js:28-39 | The comparator ties two entries only when score, release date and id all agree. |
| Ranking.ScoreLeIsTotalPreorder | src/utils/grid-mapper-12.js:38 | The score-only comparator orders every pair consistently. |
| Ranking.WithScores | src/utils/grid-mapper.js:24-27 | Each article gets, in place and order, `_score` equal to its `getArticleScore`. |
| Ranking.NonPages | src/utils/grid-mapper.js:23 | No page is kept. Every non-page article is kept exactly as often as it occurs. |
| Ranking.NonPagesLength | src/utils/grid-mapper.js:23 | The filtered list has one entry per non-page input. |
| Ranking.Ranked | src/utils/swiss/patchwork-logic.js:27-39 | The ranked list has one entry per non-page article, is sorted by the three-key comparator, and is a permutation of the scored non-page articles. |
| GridMapper.MapScoreToGridClass | src/utils/grid-mapper.js:9-13 | The hero class is given iff the score is at least 2500. Every other score, including the "featured" band, gets the standard class. |
| GridMapper.RankedEntriesAreScored | src/utils/grid-mapper.js:23-27 | Every ranked entry is a non-page article carrying its own score. |
| GridMapper.RankedIsPermutation | src/utils/grid-mapper.js:22-39 | The ranked list's articles are exactly the non-page inputs, each as often as it occurs. |
| GridMapper.ScoringKeepsArticles | src/utils/grid-mapper.js:24-27 | Attaching scores keeps the articles and their order. |
| GridMapper.WithClassKeepsOrder | src/utils/grid-mapper.js:40-43 | Attaching the grid class keeps the ranked order. |
| GridMapper.WithClassKeepsArticles | src/utils/grid-mapper.js:40-43 | Attaching the grid class keeps the articles, each as often. |
| GridMapper.GridMapper | src/utils/grid-mapper.js:21-44 | The output has one entry per non-page article. No entry is a page. Each carries its own score and the class for that score. The output is ordered by the three-key comparator and is a permutation of the non-page inputs. |
| GridMapper.GridMapperScoreDescending | src/utils/grid-mapper.js:30 | No entry precedes an entry with a higher score. |
| Sorting.InsertionSort | src/utils/swiss/patchwork-logic.js:33-39 | The sort returns a permutation of its input that is sorted by the comparator. |
| Sorting.InsertionSortOfSorted | src/utils/grid-mapper-12.js:73 | Sorting an already sorted list leaves it unchanged. |
| Sorting.InsertionSortIsStable | src/utils/grid-mapper-12.js:38 | Elements the comparator ties leave the sort in the order they entered it. |
| Patchwork.PreferredWidth | src/utils/swiss/patchwork-logic.js:47-50 | The width is 12 iff the score is at least 2500, 8 iff it is in 2000..2499, 6 iff it is in 1800..1999, and 4 iff it is below 1800. |
| Patchwork.Preferences | src/utils/swiss/patchwork-logic.js:45-50 | Each ranked article's preferred width, in order, each within 4..12. |
| Patchwork.PreferencesMonotone | src/utils/swiss/patchwork-logic.js:45-50 | A higher score never gets a smaller preferred width. |
| Patchwork.PreferredWidthMonotone | src/utils/swiss/patchwork-logic.js:47-50 | A higher score never asks for a narrower span. |
| Patchwork.FinalizeRow | src/utils/swiss/patchwork-logic.js:94-101 | With a non-positive gap or an empty row, no span changes. Otherwise only the row's first span grows, by exactly the gap. |
| Patchwork.PackedPlaced | src/utils/swiss/patchwork-logic.js:45-88 | The loop's final state, read through the output records, gives span bounds, whole rows and preferred widths off the row heads. |
| Patchwork.PlaceArticle | src/utils/swiss/patchwork-logic.js:45-86 | Per branch, the new open row, its width and the new spans. An article that fits joins the open row at its preferred width. One that does not fit closes the row, which hands its gap to its first article, and opens a new row of its own width. The last article takes the rest of the open row. If it does not fit a non-empty row, it closes that row and takes 12. The loop state, greedy rule included, is preserved. |
| Patchwork.PackSpans | src/utils/swiss/patchwork-logic.js:45-86 | The spans the loop leaves are exactly GreedySpans of the preferred widths, and they are packed: whole rows of 12, each span between its preferred width and 12. |
| RowPacking.LoopDone | src/utils/swiss/patchwork-logic.js:45-86 | After the last article, the loop state gives a packed layout equal to the greedy spans. |
| Patchwork.AssembledGreedy | src/utils/swiss/patchwork-logic.js:41-88 | Output records built from greedy, packed spans carry the greedy spans, whole rows, bounds and preferred widths off the row heads. |
| Patchwork.PackRows | src/utils/swiss/patchwork-logic.js:41-88 | The loop gives one output per article, in order. The spans equal GreedySpans of the preferred widths. Every span lies between the preferred width and 12. The spans fill whole rows of exactly 12. Only a row's first article, or the last article, is wider than preferred. |
| Patchwork.PatchworkMapper | src/utils/swiss/patchwork-logic.js:26-89 | PackRows' guarantees, the greedy spans included, hold for the ranked non-page articles. A single article gets span 12. |
| RowPacking.LayAfterFinished | src/utils/swiss/patchwork-logic.js:73-75 | After whole rows, laying out further spans starts from an empty row. |
| RowPacking.SumWidenFirst | src/utils/swiss/patchwork-logic.js:100 | Widening a row's first span by the gap widens the row by the gap. |
| RowPacking.PackingStart | src/utils/swiss/patchwork-logic.js:41-43 | Before the first article: no rows and an empty open row of width 0. |
| RowPacking.JoinStep | src/utils/swiss/patchwork-logic.js:79-84 | An article that fits joins the open row at its preferred width, and the loop state is kept. |
| RowPacking.JoinOpenRow | src/utils/swiss/patchwork-logic.js:81-83 | Joining adds the preferred width to the open row's width, which stays at most 12. |
| RowPacking.CloseOpenRow | src/utils/swiss/patchwork-logic.js:71 | `finalizeRow(currentRow, 12 - currentRowWidth)` turns the open row into a whole row of exactly 12, with every span within bounds. |
| RowPacking.StartNewRow | src/utils/swiss/patchwork-logic.js:73-77 | The article that did not fit opens a new row at its preferred width. |
| RowPacking.LastOnOwnRow | src/utils/swiss/patchwork-logic.js:59-63 | A last article that does not fit the non-empty open row gets a full row of its own, and the layout is packed. |
| RowPacking.CompleteRow | src/utils/swiss/patchwork-logic.js:58-66 | Whole rows followed by positive spans summing to 12 are whole rows. |
| RowPacking.LastJoinsRow | src/utils/swiss/patchwork-logic.js:64-68 | A last article that fits takes the rest of the open row, and the layout is packed. |
| RowPacking.LastJoinsRowGapless | src/utils/swiss/patchwork-logic.js:58-66 | The last article's `remainingSpace` completes the open row to exactly 12. |
| RowPacking.LastJoinsRowBounds | src/utils/swiss/patchwork-logic.js:64-68 | After the last article joins, every span lies between its preferred width and 12. |
| RowPacking.LastJoinsRowPreferred | src/utils/swiss/patchwork-logic.js:64-68 | After the last article joins, every span except a row head and the last keeps its preferred width. |
| RowPacking.NewRowStep | src/utils/swiss/patchwork-logic.js:69-78 | Closing the row and opening a new one with the article keeps the loop state. |
| RowPacking.OwnRowStep | src/utils/swiss/patchwork-logic.js:59-63 | Closing the row and giving the last article a row of its own packs the layout. |
| RowPacking.LastJoinStep | src/utils/swiss/patchwork-logic.js:64-68 | The last article joining the open row packs the layout. |
| RowPacking.SingleSpanIsFullRow | src/utils/swiss/patchwork-logic.js:52-66 | In a gapless layout of one span, that span is 12. |
| RowPacking.NextBreak | src/utils/swiss/patchwork-logic.js:54 | The first later article that starts a row: every article in between fits its open row. |
| RowPacking.FitsOpenRow | src/utils/swiss/patchwork-logic.js:54 | While everything fits one row, the open row's width is the sum so far and no article starts a row. |
| RowPacking.GreedyOneRow | src/utils/swiss/patchwork-logic.js:54-84 | Articles whose preferred widths add up to at most 12 share one row. Each keeps its preferred width and the last takes the rest, so [4, 4, 4] stays [4, 4, 4]. |
| RowPacking.GreedyJoin | src/utils/swiss/patchwork-logic.js:79-84 | An article that fits is not a row break, and the open row's width grows by its preferred width. |
| RowPacking.GreedyNewRow | src/utils/swiss/patchwork-logic.js:69-78 | An article that overflows is a row break. Closing the row gives its first article exactly the greedy span. |
| RowPacking.GreedyOwnRow | src/utils/swiss/patchwork-logic.js:59-63 | A last article that overflows is a row break. It gets 12, and the closed row's head gets its greedy span. |
| RowPacking.GreedyLastJoin | src/utils/swiss/patchwork-logic.js:64-68 | A last article that fits takes 12 less the open width. The head of its row keeps its preferred width. |
| RowPacking.OwnRowPacked | src/utils/swiss/patchwork-logic.js:59-63 | Closing the open row and giving the last article 12 packs the layout. |
| GridCells.RowCellsCount | src/utils/grid-mapper-12.js:150-152 | One row of a `w`-wide rectangle covers exactly `w` cells. |
| GridCells.RectCellsCount | src/utils/grid-mapper-12.js:148-154 | A `w` by `h` rectangle covers exactly `w * h` cells. |
| GridCells.DisjointMeansNoOverlap | src/utils/grid-mapper-12.js:104-130 | Non-empty rectangles that share no cell do not overlap in rows and columns. |
| GridPacking.MinArea | src/utils/grid-mapper-12.js:57-60 | The minimum area is 24 iff the hierarchy is 1, 16 iff it is 2, and otherwise 8. |
| GridPacking.BaseArea | src/utils/grid-mapper-12.js:65 | The base area is the larger of the hierarchy's minimum and the rounded share. |
| GridPacking.TotalRows | src/utils/grid-mapper-12.js:70 | At least 12 rows. Their cells hold the total area. The count is the fewest such rows above 12. |
| GridPacking.ExactQuotient | src/utils/grid-mapper-12.js:88-90 | A width that divides the area has a height with `w * h == area`, at least 1 for a positive area. |
| GridPacking.CandidateStep | src/utils/grid-mapper-12.js:87-92 | Trying width `w` keeps the candidates complete and widest-first down to `w`. |
| GridPacking.CandidatesDone | src/utils/grid-mapper-12.js:87-101 | After width 1, the candidates are exactly the dividing widths, with `w * h == area`, ending with the 1-wide shape. So the list is never empty and the approximate branch is unreachable. |
| GridPacking.Candidates | src/utils/grid-mapper-12.js:84-101 | The candidate loop yields every exact shape, widest first and each once. Width 1 is always among them. |
| GridPacking.FitsIsDisjoint | src/utils/grid-mapper-12.js:138-146 | A rectangle that `canPlace` accepts shares no cell with the occupied cells. |
| GridPacking.OccupiedGrows | src/utils/grid-mapper-12.js:148-154 | After marking a rectangle, the occupied cells are the old ones plus the rectangle's. |
| GridPacking.CanPlace | src/utils/grid-mapper-12.js:138-146 | True iff the rectangle is inside the rows and 12 columns and every covered cell is free. |
| GridPacking.Place | src/utils/grid-mapper-12.js:148-154 | Exactly the rectangle's cells become occupied. Every other cell is unchanged. |
| GridPacking.FitAt | src/utils/grid-mapper-12.js:107-114 | The first candidate, in list order, that can be placed at the cell, or none. |
| GridPacking.FirstFit | src/utils/grid-mapper-12.js:104-117 | The row-major scan stops at the first free cell where some candidate fits, with the first such candidate. When it finds none, every cell was passed by. |
| GridPacking.FirstFree | src/utils/grid-mapper-12.js:120-130 | The first free cell in row-major order, or none when every cell is occupied. |
| GridPacking.SlotsExtend | src/utils/grid-mapper-12.js:104-130 | A rectangle placed on free cells keeps all slots disjoint and adds exactly `w * h` occupied cells. |
| GridPacking.FullMatrix | src/utils/grid-mapper-12.js:119-130 | A fully occupied matrix has `rows * 12` occupied cells. |
| GridPacking.FitsIsFreeIn | src/utils/grid-mapper-12.js:138-146 | The `canPlace` test on the matrix is the same as "inside the matrix and clear of the occupied cells". |
| GridPacking.PassedMeansNoShape | src/utils/grid-mapper-12.js:104-117 | At a free cell the scan passed by, no exact shape of the area fits. |
| GridPacking.ScanIsExactPlacement | src/utils/grid-mapper-12.js:84-117 | The slot the scan stops at is the first free cell, in row-major order, where an exact shape fits, with the widest exact shape that fits there. |
| GridPacking.FirstFitRuleUnique | src/utils/grid-mapper-12.js:104-130 | The first-fit rule leaves no choice: two slots that both meet it are equal. |
| GridPacking.EmptyMatrixFullWidth | src/utils/grid-mapper-12.js:84-117 | On an empty matrix, an area of whole 12-cell rows goes to the top-left corner, 12 columns wide. |
| GridPacking.FallbackIsSingleCell | src/utils/grid-mapper-12.js:119-130 | When the scan passed every cell, the first free cell as a 1x1 slot is the rule's fallback. |
| GridPacking.PlaceFirstFree | src/utils/grid-mapper-12.js:119-130 | The first free cell becomes a 1x1 slot, the rule's fallback, and only that cell becomes occupied. No slot only when the matrix is full. |
| GridPacking.PlaceTile | src/utils/grid-mapper-12.js:80-131 | The slot is the one the first-fit rule gives on the cells occupied before. That is the first free cell where an exact shape fits, with the widest such shape. If no shape fits anywhere, it is the first free cell, 1x1. Slots stay disjoint and occupancy grows by exactly the slot. No slot only when the matrix is full. |
| GridPacking.ScoreRanked | src/utils/grid-mapper-12.js:34-38 | One entry per non-page article, sorted by score descending, a permutation of the scored non-page articles. |
| GridPacking.ResortByScore | src/utils/grid-mapper-12.js:73 | Sorting the score-sorted list again changes nothing. |
| GridPacking.SumPrefixBound | src/utils/grid-mapper-12.js:66 | The area accumulated so far never exceeds the total of all base areas. |
| GridPacking.AssignAreas | src/utils/grid-mapper-12.js:55-67 | Each article's base area, in order, is at least 8. `totalAssignedArea` is their sum. |
| GridPacking.FirstFitLayoutExtend | src/utils/grid-mapper-12.js:79-133 | A tile placed by the first-fit rule on the tiles before it extends a first-fit layout, and adds its cells. |
| GridPacking.FirstFitLayoutUnique | src/utils/grid-mapper-12.js:79-133 | Base areas and the row count fix the whole layout: two first-fit layouts of the same areas agree slot by slot. |
| GridPacking.FirstTileFullWidth | src/utils/grid-mapper-12.js:104-117 | In a first-fit layout, a first tile whose area is whole rows sits full-width at the top-left corner. |
| GridPacking.PackNext | src/utils/grid-mapper-12.js:79-133 | One article of the packing loop keeps the invariant. Earlier slots stay disjoint and in the matrix. The occupied cells are exactly the slots' cells. Each tile sits where the first-fit rule puts it. Occupancy stays within the summed areas. The new tile has a slot. |
| GridPacking.TilesDone | src/utils/grid-mapper-12.js:79-135 | After the last article, every tile has its slot in the matrix, and the layout is the first-fit one. |
| GridPacking.PackTiles | src/utils/grid-mapper-12.js:76-135 | When the areas fit the matrix, every article gets a slot inside it, of its exact area or 1x1, and no two slots share a cell. Each slot is the one the first-fit rule gives on the slots before it. |
| GridPacking.PlaceScored | src/utils/grid-mapper-12.js:42-135 | Steps 1-3 keep the articles and order. Every tile has its hierarchy and base area and a slot inside the `totalRows` matrix, exact-area or 1x1. No two slots overlap. Each slot is where the first-fit rule puts it. |
| GridPacking.GridMapper12 | src/utils/grid-mapper-12.js:33-136 | The output has one tile per non-page article, in non-increasing score order, each with a non-overlapping slot in the matrix, placed by the first-fit rule (empty input gives empty output). |
| GridPacking.TopTileFullWidth | src/utils/grid-mapper-12.js:79-117 | The top-ranked article, when its base area is whole rows, gets the full-width block at the top-left corner: area 24 gives 12x2 at (0, 0). |
| GridPacking.TilesDoNotOverlap | src/utils/grid-mapper-12.js:104-130 | Slots inside the matrix that share no cell do not overlap. |
| ScrollerControl.CountAtMost | src/graphics/template/scroller2/js/ScrollerController.js:93-105 | The bisect-right position counts offsets at most `x`, so it is never more than the length. |
| ScrollerControl.SplitIsCount | src/graphics/template/scroller2/js/ScrollerController.js:96-105 | A split position, with everything before it `<= x` and everything after it `> x`, is the count of entries `<= x`. |
| ScrollerControl.CountAtMostMonotone | src/graphics/template/scroller2/js/ScrollerController.js:96-105 | A larger scroll position never counts fewer sections. |
| ScrollerControl.ActiveIndex | src/graphics/template/scroller2/js/ScrollerController.js:71-72 | The clamped index is at most the last section, and not negative when there is a section. |
| ScrollerControl.ActiveIndexMonotone | src/graphics/template/scroller2/js/ScrollerController.js:71-72 | Scrolling further down never makes an earlier section active. |
| ScrollerControl.ScrollerController.constructor | src/graphics/template/scroller2/js/ScrollerController.js:7-25 | The controller starts with no offsets, index -1, progress 0 and empty `active`, `progress` and `resize` callback lists. |
| ScrollerControl.ScrollerController.Bisect | src/graphics/template/scroller2/js/ScrollerController.js:96-105 | The result is in `[0, length]`. For sorted offsets it is the bisect-right position: entries before it are `<= x` and entries from it on are `> x`. |
| ScrollerControl.ScrollerController.Trigger | src/graphics/template/scroller2/js/ScrollerController.js:120-124 | A known event's callbacks run in registration order. An unknown event does nothing. No other state changes. |
| ScrollerControl.ScrollerController.On | src/graphics/template/scroller2/js/ScrollerController.js:110-115 | Registers the callback only for `active`, `progress` or `resize`, ignores other names, and returns the controller. |
| ScrollerControl.ScrollerController.HandleResize | src/graphics/template/scroller2/js/ScrollerController.js:49-62 | There is one top per section. Offsets are the section tops less the container top, one per section, so the controller is valid again. The `resize` callbacks then get them. |
| ScrollerControl.ScrollerController.HandleScroll | src/graphics/template/scroller2/js/ScrollerController.js:67-91 | The index ends at most the last section, and is the clamped bisect-right position for sorted offsets. `active` callbacks run only when the index changes, with the new index. `progress` callbacks run on every call. |
| ScrollerControl.ScrollerController.Init | src/graphics/template/scroller2/js/ScrollerController.js:30-36 | After `init`, the offsets match the sections and the active index is the one for the current scroll position. Progress is computed for that position. The log gains the `resize` calls, then the `active` calls if the index changed, then the `progress` calls. |
| TimeUtils.PositiveQuotient | src/assets/scripts/utils.js:5-16 | A floored unit count is positive exactly from one whole unit on. |
| TimeUtils.BucketBands | src/assets/scripts/utils.js:5-17 | Each unit covers its band of elapsed time (years from 365 days, months from 30 days, down to "just now" under a minute, negatives included). The amount is the whole number of units, at least 1. |
| TimeUtils.MonthsAtMostTwelve | src/assets/scripts/utils.js:9-13 | A month count is between 1 and 12: 360 to 364 days read as 12 months. |
| TimeUtils.Decimal | src/assets/scripts/utils.js:12-16 | The amount is written as a non-empty run of decimal digits that denotes it, with no leading zero except for "0" itself. |
| TimeUtils.RelativeTimeJustNow | src/assets/scripts/utils.js:1-18 | `getRelativeTime` says "방금 전" iff less than a minute has passed. Otherwise the text starts with a digit. |
| TimeUtils.RelativeTimeDiff | src/assets/scripts/utils.js:71-88 | The amount is absent exactly when the tag is "now". |
| TimeUtils.RelativeTimeDiffBands | src/assets/scripts/utils.js:75-87 | `getRelativeTimeDiff` gives `["", "now"]` iff under a minute. Otherwise it gives the whole number of years, months, days, hours or minutes with its tag. |
| TimeUtils.MonthAndMinuteShareTag | src/assets/scripts/utils.js:83-86 | One minute and thirty days give the same `[1, "m"]`: the tag alone does not tell them apart. |
| TimeUtils.OldestFrom | src/assets/scripts/utils.js:58-60 | The `reduce` keeps an earliest revision of least timestamp. |
| TimeUtils.NewestFrom | src/assets/scripts/utils.js:65-67 | The `reduce` keeps an earliest revision of greatest timestamp. |
| TimeUtils.FirstRevision | src/assets/scripts/utils.js:57-62 | For a non-empty list, a revision with the least timestamp, the first of them on ties. |
| TimeUtils.LastRevision | src/assets/scripts/utils.js:64-69 | For a non-empty list, a revision with the greatest timestamp, the first of them on ties. |
| TimeUtils.FirstNotAfterLast | src/assets/scripts/utils.js:57-69 | The first revision is never newer than the last. |
| EnergyLayout.TruncatedLabel | src/assets/scripts/energy-chart/layout.js:1-3 | Text of at most 10 characters is returned as is. Longer text becomes its first 10 characters and "…", 11 characters in all. |
| EnergyLayout.TruncatedLabelFixedPoints | src/assets/scripts/energy-chart/layout.js:2 | A label is unchanged exactly when it is short or already ten characters and an ellipsis. |
| EnergyLayout.TruncatedLabelIdempotent | src/assets/scripts/energy-chart/layout.js:2 | Truncating twice is truncating once. |
| EnergyLayout.PositionOf | src/assets/scripts/energy-chart/layout.js:23-24 | The column is below `totalColumns`, and `row * totalColumns + column` gives the index back. |
| EnergyLayout.PositionsDistinct | src/assets/scripts/energy-chart/layout.js:23-24 | Two items never get the same cell. |
| EnergyLayout.Layout | src/assets/scripts/energy-chart/layout.js:20-40 | One item per datum, in order, each with its cell and truncated label. No two items share a cell, and every item's row is below the row count the height is sized for. |
| EnergyLayout.LayoutCells | src/assets/scripts/energy-chart/layout.js:23-24 | The cells of the first `n` items are pairwise distinct and lie in rows below the row count. |
| EnergyLayout.RowCountCoversItems | src/assets/scripts/energy-chart/layout.js:42-43 | Every item's row is below the row count the height is sized for. |
| EnergyLayout.RowCountSpareRow | src/assets/scripts/energy-chart/layout.js:42-43 | When the items fill their last row exactly, the row count leaves one empty row. |
| ContentLoader.ToSlashes | src/content.config.ts:86 | Every backslash becomes a slash, every other character stays, and no backslash remains. |
| ContentLoader.StripMarkdownExtension | src/content.config.ts:86 | One trailing `.md` or `.mdx` is removed (adding it back gives the input). Other names are unchanged. |
| ContentLoader.Uid | src/content.config.ts:86 | A non-empty frontmatter uid wins. Otherwise the uid is the slashed relative path without its extension. |
| ContentLoader.DerivedUidShape | src/content.config.ts:86 | A uid derived from a Markdown path holds no backslash, and adding `.md` or `.mdx` gives back the slashed path. |
| ContentLoader.MapType | src/content.config.ts:89-97 | page → document, article → letter, graphics → poster. Any other type is unchanged. |
| ContentLoader.MapTypeIdempotent | src/content.config.ts:89-97 | Mapping twice is mapping once, and no legacy name survives. |
| ContentLoader.MakeEntry | src/content.config.ts:99-105 | The computed uid, mapped type and body override the frontmatter. A frontmatter `id` overrides the uid as `id`. |
| ContentLoader.MarkdownFiles | src/content.config.ts:81 | Exactly the `.md`/`.mdx` files are kept. |
| ContentLoader.MarkdownFilesCount | src/content.config.ts:81 | Every Markdown file is kept as many times as it occurs, and no other file is kept. |
| ContentLoader.MarkdownFilesSubMultiset | src/content.config.ts:81 | The kept files are a sub-multiset of the walked files. |
| ContentLoader.MarkdownFilesAppend | src/content.config.ts:77-81 | The filter works file by file, so it keeps the walk order. |
| ContentLoader.Load | src/content.config.ts:74-111 | One entry per Markdown file, in walk order, each built by `MakeEntry`. No entry has type page, article or graphics. |
| Sections.TraversalForward | src/graphics/template/scroller/js/sections.js:798-805 | Moving down from `last` to `active` runs `last+1 .. active` in ascending order. |
| Sections.TraversalBackward | src/graphics/template/scroller/js/sections.js:800-805 | Moving up runs `last-1` down to `active`. |
| Sections.TraversalEmpty | src/graphics/template/scroller/js/sections.js:800-802 | Nothing runs exactly when the section does not change. |
| Sections.TraversalMembers | src/graphics/template/scroller/js/sections.js:800-805 | A section runs iff it lies strictly past `last` and up to and including `active`. |
| Sections.TraversalConcat | src/graphics/template/scroller/js/sections.js:798-807 | Two moves in the same direction run the same sections as one move to the end. |
| Sections.FirstActivation | src/graphics/template/scroller/js/sections.js:14-15 | With `lastIndex` starting at -1, the first `activate(0)` runs section 0 alone. |
| Sections.Chart.constructor | src/graphics/template/scroller/js/sections.js:14-15 | `activeIndex` starts at 0 and `lastIndex` at -1, with nothing activated yet. |
| Sections.Chart.Activate | src/graphics/template/scroller/js/sections.js:798-807 | Afterwards both indices are `index`, and the sections traversed from the old `lastIndex` have run, in traversal order. |
| Sections.Prepare | src/graphics/template/scroller/js/sections.js:720-724 | `filler` is true iff the raw field is "1". The minute is the whole minute the time falls in. |
| Sections.GetWords | src/graphics/template/scroller/js/sections.js:717-735 | Every row is kept, in order, with its word and time. A word is a filler exactly when its field reads "1". Its minute is the whole minute its time falls in. |
| Sections.GetFillerWords | src/graphics/template/scroller/js/sections.js:743-747 | Only filler words taken from the input are kept. |
| Sections.GetFillerWordsCount | src/graphics/template/scroller/js/sections.js:743-747 | Every filler word is kept as often as it occurs. No other word is kept. |
| Sections.GetFillerWordsAppend | src/graphics/template/scroller/js/sections.js:743-747 | The filter works piecewise, so the original order is kept. |
| Sections.AddOne | src/graphics/template/scroller/js/sections.js:786 | Grouping one more word adds its key and raises its count by exactly one. |
| Sections.AddOneTotal | src/graphics/template/scroller/js/sections.js:786-789 | One more word adds one to the total count. |
| Sections.AddOnePositive | src/graphics/template/scroller/js/sections.js:786-789 | Counts stay positive. |
| Sections.AddOneDistinct | src/graphics/template/scroller/js/sections.js:786-789 | Keys stay distinct. |
| Sections.Groups | src/graphics/template/scroller/js/sections.js:786-789 | There is one group per distinct word, with count at least 1. Each count is the word's number of occurrences, and the counts add up to the number of words. |
| Sections.FirstIndex | src/graphics/template/scroller/js/sections.js:786 | The position of the first word with a given spelling, or the number of words when there is none. |
| Sections.AddOneKeys | src/graphics/template/scroller/js/sections.js:786 | A repeated word leaves the keys where they are. A new word is appended as a group of one. |
| Sections.FirstIndexAppend | src/graphics/template/scroller/js/sections.js:786 | A later word moves no first occurrence. A new spelling is first seen where it is appended. |
| Sections.SpeltFirstIndex | src/graphics/template/scroller/js/sections.js:786 | A spelling occurs iff its first position lies inside the words. |
| Sections.AddOneOrder | src/graphics/template/scroller/js/sections.js:786 | Keeping the keys and appending a new word's key keeps the groups in order of first occurrence. |
| Sections.GroupsFirstOccurrenceOrder | src/graphics/template/scroller/js/sections.js:786-789 | The groups come in order of the first occurrence of their words. |
| Sections.LookupFinds | src/graphics/template/scroller/js/sections.js:786-789 | With distinct keys, a group's count is the one recorded for its key. |
| Sections.CountAtLeastIsTotalPreorder | src/graphics/template/scroller/js/sections.js:790 | The count comparator orders every pair consistently. |
| Sections.GroupByWord | src/graphics/template/scroller/js/sections.js:783-791 | The groups are sorted by count, largest first, and form a permutation of the grouping. |
| Sections.TotalPermutation | src/graphics/template/scroller/js/sections.js:790 | Sorting does not change the total count. |
| Sections.DistinctKeysPermutation | src/graphics/template/scroller/js/sections.js:790 | Sorting keeps the keys distinct. |
| Sections.GroupByWordProperties | src/graphics/template/scroller/js/sections.js:783-791 | One entry per distinct word, with count equal to its occurrences and at least 1. The counts sum to the input length. Entries are in descending count order. |
| Sections.GroupByWordStable | src/graphics/template/scroller/js/sections.js:786-790 | Words with the same count keep their order in the grouping, which `GroupsFirstOccurrenceOrder` shows is the order of first occurrence. |
| Sections.FillerRowsMatch | src/graphics/template/scroller/js/sections.js:171-173 | The filler words are as many as the rows whose raw field is "1". |
| Sections.FillerCountsTotal | src/graphics/template/scroller/js/sections.js:171-177 | The bar chart's counts add up to the number of rows marked as filler. |

## Left out

- Floating-point statistics in `gridMapper12` are not computed: `getStats`, with its square root, the z-score thresholds of `getHierarchy`, and the `rawArea` ratio with its `Math.round`. Each article's hierarchy and rounded share are given as functions of its score (`hierarchyOf`, `roundedAreaOf`).
- GridPacking.GridMapper12: when every score is 0, `totalScore` is 0 and the real ratio is NaN, so `Math.max` yields NaN. The model assumes the given rounded share is an integer and does not cover that case.
- GridPacking.Candidates: the approximate-shape branch (lines 95-101 of grid-mapper-12.js) is not modelled, because it is unreachable for an integer area (shown by `CandidatesDone`).
- The `_gridClass` strings are modelled by their numbers: patchwork spans, and `gridMapper12` slots as rectangles. `parseInt` on the class string in `finalizeRow` is the span itself.
- `mapScoreToPatchworkClass` is not modelled: `patchworkMapper` never calls it.
- Ranking.ReleaseKey: an absent release date is taken as timestamp 0. In JavaScript, `new Date(undefined).getTime()` is NaN and the comparator then returns NaN, which `sort` does not order consistently.
- `localeCompare` is modelled as plain lexicographic order by character code. Locale collation is not modelled.
- `Array.prototype.sort` is modelled by a stable insertion sort. For a comparator that is a total preorder, every stable sort gives this same result.
- Dates and clocks: timestamps are integer milliseconds. `getRelativeTime` and `getRelativeTimeDiff` take the elapsed time `now - date` as a parameter, and date parsing is not modelled.
- TimeUtils.FirstRevision and TimeUtils.LastRevision return `None` on an empty list, where `reduce` without an initial value throws.
- `addMethods`, `getTimestamp`, `shareThis`, `toKODate` and `toDate` are not modelled: they are browser or `Intl` plumbing.
- EnergyLayout.TruncatedLabel counts characters. JavaScript's `length` and `substring` count UTF-16 code units, so the two differ only for text outside the Basic Multilingual Plane.
- Not modelled in `getLayout`:
  - the pixel sizes, radii and `d3.scaleSqrt`;
  - the assignments to the globals `labelHeight` and `config.height`, which a row count times a float cell height gives.
- ContentLoader.Load takes the walked files as a list, in walk order, with their frontmatter parsed. `fs` access, the recursive `walk` and `gray-matter` are not modelled.
- ContentLoader.Uid and ContentLoader.MapType take frontmatter values to be strings. Not modelled:
  - non-string values;
  - type names such as `toString` or `constructor`, for which the plain-object `typeMap` lookup finds an `Object.prototype` member.
- ScrollerControl.ScrollerController.HandleScroll: the progress ratio is a real division, taken as 0 when the previous or the current offset is missing. JavaScript would produce NaN when only one of them is `undefined`.
- The unsigned shift `(low + high) >>> 1` in `bisect` is halving with floor, exact for array lengths below 2^31.
- Not modelled in ScrollerController.js:
  - `destroy` and the window listeners;
  - the DOM queries in `init` and `handleResize`, replaced by the container top and section tops (one per section) as parameters.
- Scroll positions, section tops and `window.innerHeight / 2` are whole pixels (`int`). In the browser they are floats, and half of an odd `innerHeight` ends in .5. `bisect` and the clamp only compare these values, and the progress ratio is already a real division.
- `on` and `trigger` use the plain callbacks object. Event names that are `Object.prototype` members are not modelled.
- Sections.Chart.Activate records which sections ran and does not run the chart's `activateFunctions` bodies (DOM transitions). An index with no activate function would throw in JavaScript and is not modelled.
- Sections.GetWords is modelled on values: JavaScript changes each row object in place and returns the same objects.
- Not modelled in `getWords`:
  - `col`, `x`, `row` and `y`, which depend on the float `numPerRow` and `squareSize`;
  - the `+d.time` string-to-number parse, since the time is given as a real.
- `getHistogram`, `setupVis`, the `show*` and `update*` functions and `chart.update` are not modelled: they are d3 rendering.
- `src/utils/grid-mapper-12 JSON.js` is not modelled: its 12-column mapper draws its layout with the unseeded `Math.random`, and its recursive width partition `distribute` only feeds that mapper.
- `scroller.js`, which duplicates the controller with `d3.bisect` and `window`, is not part of this model.
