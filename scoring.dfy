/**
 * The article scorer: an additive integer importance score computed from an
 * article's metadata (src/utils/scoring.js). Dates are integer millisecond
 * timestamps; a date the frontmatter leaves out is `None`.
 */
module Scoring {
  import opened Wrappers

  /** The `highlight` object of an article's frontmatter. `index` is `None` when absent. */
  datatype Highlight = Highlight(listed: bool, index: Option<int>)

  /** The article fields the scorer and the grid mappers read. */
  datatype Article = Article(
    id: string,
    kind: string,                  // the frontmatter `type`
    highlight: Option<Highlight>,
    authors: Option<seq<string>>,
    releaseDate: Option<int>,
    createdDate: Option<int>)

  /** Milliseconds in one day: 1000 * 60 * 60 * 24. */
  const DayMs: nat := 86400000

  /** `n / d` rounded up, for a non-negative numerator (JavaScript's `Math.ceil(n / d)`). */
  function CeilDiv(n: nat, d: nat): nat
    requires d > 0
  {
    (n + d - 1) / d
  }

  /** `CeilDiv` is the least multiple count that covers `n`: `(q - 1) * d < n <= q * d`. */
  lemma {:induction false} CeilDivIsCeiling(n: nat, d: nat)
    requires d > 0
    ensures var q := CeilDiv(n, d);
      q * d >= n && (q == 0 || (q - 1) * d < n)
  {
    var q := CeilDiv(n, d);
    var m := n + d - 1;
    assert m == q * d + m % d;
    assert 0 <= m % d < d;
    if q > 0 {
      assert (q - 1) * d == q * d - d;
    }
  }

  /** `data.highlight?.listed`: undefined highlight counts as not listed. */
  predicate IsListed(a: Article) {
    a.highlight.Some? && a.highlight.value.listed
  }

  /** `data.highlight?.index || 5`: an absent or zero index becomes 5. */
  function EffectiveIndex(a: Article): (i: int)
    ensures i != 0
    ensures a.highlight.Some? && a.highlight.value.index.Some? && a.highlight.value.index.value != 0
            ==> i == a.highlight.value.index.value
  {
    match a.highlight
    case None => 5
    case Some(h) =>
      match h.index
      case None => 5
      case Some(k) => if k == 0 then 5 else k
  }

  /** `data.authors?.length || 0`. */
  function AuthorCount(a: Article): nat {
    match a.authors
    case None => 0
    case Some(s) => |s|
  }

  /** Term 1: +1000 when listed. */
  function ListedTerm(a: Article): int {
    if IsListed(a) then 1000 else 0
  }

  /** Term 2: `(6 - index) * 200`, from +1000 for index 1 down to +200 for index 5. */
  function IndexTerm(a: Article): (t: int)
    ensures 1 <= EffectiveIndex(a) <= 5 ==> 200 <= t <= 1000
  {
    (6 - EffectiveIndex(a)) * 200
  }

  /** Term 3: +50 per author. */
  function AuthorTerm(a: Article): int {
    AuthorCount(a) * 50
  }

  /** The absolute difference of two timestamps, in milliseconds. */
  function AbsDiff(x: int, y: int): nat {
    if x >= y then x - y else y - x
  }

  /**
   * Term 4: ten points per started day between creation and release
   * (`Math.ceil(|release - created| / DayMs) * 10`), or nothing when either date is absent.
   */
  function DateTerm(a: Article): (t: nat)
    ensures a.releaseDate.None? || a.createdDate.None? ==> t == 0
    ensures t % 10 == 0
  {
    if a.releaseDate.Some? && a.createdDate.Some? then
      CeilDiv(AbsDiff(a.releaseDate.value, a.createdDate.value), DayMs) * 10
    else
      0
  }

  /** Term 5: +300 for graphics. */
  function TypeBonus(a: Article): int {
    if a.kind == "graphics" then 300 else 0
  }

  /** `getArticleScore`: 0 for a page, otherwise the sum of the five terms. */
  function Score(a: Article): (r: int)
    ensures a.kind == "page" ==> r == 0
    ensures a.kind != "page" && 1 <= EffectiveIndex(a) <= 5 ==> r >= 200
  {
    if a.kind == "page" then 0
    else ListedTerm(a) + IndexTerm(a) + AuthorTerm(a) + DateTerm(a) + TypeBonus(a)
  }

  // ---------------------------------------------------------------------------
  // Each term's contribution, stated by comparing two articles that differ in
  // one field only.

  /** Listing a non-page article adds exactly 1000. */
  lemma ListedAddsThousand(a: Article, h: Highlight)
    requires a.kind != "page"
    ensures Score(a.(highlight := Some(h.(listed := true))))
         == Score(a.(highlight := Some(h.(listed := false)))) + 1000
  {
  }

  /** An absent highlight index scores exactly like index 5. */
  lemma MissingIndexIsFive(a: Article, listed: bool)
    ensures Score(a.(highlight := Some(Highlight(listed, None))))
         == Score(a.(highlight := Some(Highlight(listed, Some(5)))))
  {
  }

  /** One more author adds exactly 50 to a non-page article. */
  lemma AuthorAddsFifty(a: Article, names: seq<string>, extra: string)
    requires a.kind != "page"
    ensures Score(a.(authors := Some(names + [extra]))) == Score(a.(authors := Some(names))) + 50
  {
  }

  /** The date term does not depend on which date is the release and which the creation. */
  lemma DateTermSymmetric(a: Article)
    ensures DateTerm(a.(releaseDate := a.createdDate, createdDate := a.releaseDate)) == DateTerm(a)
  {
  }

  /**
   * The date term is ten times the number of started days: with `d` the
   * absolute difference, `DateTerm == 10 * q` where `(q - 1) * DayMs < d <= q * DayMs`.
   */
  lemma {:induction false} DateTermCountsStartedDays(a: Article)
    requires a.releaseDate.Some? && a.createdDate.Some?
    ensures var d := AbsDiff(a.releaseDate.value, a.createdDate.value);
      var q := DateTerm(a) / 10;
      DateTerm(a) == 10 * q && q * DayMs >= d && (q == 0 || (q - 1) * DayMs < d)
  {
    CeilDivIsCeiling(AbsDiff(a.releaseDate.value, a.createdDate.value), DayMs);
  }

  /** Graphics earns exactly 300 more than any other non-page kind with the same fields. */
  lemma GraphicsAddsThreeHundred(a: Article, other: string)
    requires other != "page" && other != "graphics"
    ensures Score(a.(kind := "graphics")) == Score(a.(kind := other)) + 300
  {
  }
}
