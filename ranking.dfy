/**
 * The ordering the grid mappers sort scored articles by: score descending, then
 * release date descending, then id ascending (src/utils/grid-mapper.js and
 * src/utils/swiss/patchwork-logic.js share this comparator), and the
 * score-only ordering of src/utils/grid-mapper-12.js.
 */
module Ranking {
  import opened Wrappers
  import opened Scoring
  import opened Sorting

  /** An article with its `_score` attached (`{ ...article, _score }`). */
  datatype Scored = Scored(article: Article, score: int)

  /** Plain lexicographic order on strings, standing for `localeCompare(...) <= 0`. */
  predicate StrLe(a: string, b: string) {
    |a| == 0 || (|b| > 0 && (a[0] < b[0] || (a[0] == b[0] && StrLe(a[1..], b[1..]))))
  }

  lemma {:induction false} StrLeTotal(a: string, b: string)
    ensures StrLe(a, b) || StrLe(b, a)
  {
    if |a| > 0 && |b| > 0 && a[0] == b[0] {
      StrLeTotal(a[1..], b[1..]);
    }
  }

  lemma {:induction false} StrLeTransitive(a: string, b: string, c: string)
    requires StrLe(a, b) && StrLe(b, c)
    ensures StrLe(a, c)
  {
    if |a| > 0 && a[0] == b[0] && b[0] == c[0] {
      StrLeTransitive(a[1..], b[1..], c[1..]);
    }
  }

  /** Two ids that each sort no later than the other are the same id. */
  lemma {:induction false} StrLeAntisymmetric(a: string, b: string)
    requires StrLe(a, b) && StrLe(b, a)
    ensures a == b
  {
    if |a| > 0 {
      StrLeAntisymmetric(a[1..], b[1..]);
      assert a == [a[0]] + a[1..] && b == [b[0]] + b[1..];
    }
  }

  /** `new Date(releaseDate).getTime()`; an absent release date is taken as timestamp 0. */
  function ReleaseKey(e: Scored): int {
    e.article.releaseDate.GetOr(0)
  }

  /** The comparator of `gridMapper` and `patchworkMapper`: true when `a` may precede `b`. */
  predicate RankLe(a: Scored, b: Scored) {
    || a.score > b.score
    || (a.score == b.score && ReleaseKey(a) > ReleaseKey(b))
    || (a.score == b.score && ReleaseKey(a) == ReleaseKey(b) && StrLe(a.article.id, b.article.id))
  }

  /** The comparator of `gridMapper12`: `b._score - a._score <= 0`. */
  predicate ScoreLe(a: Scored, b: Scored) {
    a.score >= b.score
  }

  lemma RankLeIsTotalPreorder()
    ensures TotalPreorder(RankLe)
  {
    forall a: Scored, b: Scored ensures RankLe(a, b) || RankLe(b, a) {
      StrLeTotal(a.article.id, b.article.id);
    }
    forall a: Scored, b: Scored, c: Scored | RankLe(a, b) && RankLe(b, c) ensures RankLe(a, c) {
      if a.score == b.score == c.score && ReleaseKey(a) == ReleaseKey(b) == ReleaseKey(c) {
        StrLeTransitive(a.article.id, b.article.id, c.article.id);
      }
    }
  }

  /** Two entries are tied under `RankLe` only when score, release key and id all agree. */
  lemma RankTieMeansSameKey(a: Scored, b: Scored)
    requires RankLe(a, b) && RankLe(b, a)
    ensures a.score == b.score && ReleaseKey(a) == ReleaseKey(b) && a.article.id == b.article.id
  {
    StrLeAntisymmetric(a.article.id, b.article.id);
  }

  lemma ScoreLeIsTotalPreorder()
    ensures TotalPreorder(ScoreLe)
  {
  }

  /** `articles.map(a => ({ ...a, _score: getArticleScore(a) }))`. */
  function WithScores(s: seq<Article>): (r: seq<Scored>)
    ensures |r| == |s|
    ensures forall i :: 0 <= i < |s| ==> r[i] == Scored(s[i], Score(s[i]))
  {
    if s == [] then [] else [Scored(s[0], Score(s[0]))] + WithScores(s[1..])
  }

  /** `articles.filter(a => a.data.type !== 'page')`. */
  function NonPages(s: seq<Article>): (r: seq<Article>)
    ensures forall i :: 0 <= i < |r| ==> r[i].kind != "page"
    ensures multiset(r) <= multiset(s)
    ensures forall a :: a in s && a.kind != "page" ==> multiset(r)[a] == multiset(s)[a]
  {
    if s == [] then []
    else
      assert s == [s[0]] + s[1..];
      (if s[0].kind != "page" then [s[0]] else []) + NonPages(s[1..])
  }

  /** The number of non-page articles. */
  function CountNonPages(s: seq<Article>): nat {
    if s == [] then 0 else (if s[0].kind != "page" then 1 else 0) + CountNonPages(s[1..])
  }

  lemma {:induction false} NonPagesLength(s: seq<Article>)
    ensures |NonPages(s)| == CountNonPages(s)
  {
    if s != [] {
      NonPagesLength(s[1..]);
    }
  }

  /** Filter, score and sort with the three-key comparator: the shared front half of both mappers. */
  function Ranked(articles: seq<Article>): (r: seq<Scored>)
    ensures |r| == CountNonPages(articles)
    ensures Sorted(r, RankLe)
    ensures multiset(r) == multiset(WithScores(NonPages(articles)))
  {
    RankLeIsTotalPreorder();
    NonPagesLength(articles);
    InsertionSort(WithScores(NonPages(articles)), RankLe)
  }
}
