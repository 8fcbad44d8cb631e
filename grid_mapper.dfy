/**
 * `gridMapper` (src/utils/grid-mapper.js): drops pages, scores the rest,
 * sorts them by the three-key ranking and gives each a column-span class.
 */
module GridMapper {
  import opened Scoring
  import opened Sorting
  import opened Sequences
  import opened Ranking

  const HeroClass := "col-span-12 lg:col-span-8"
  const FeaturedClass := "col-span-12 md:col-span-6 lg:col-span-4"
  const StandardClass := "col-span-12 md:col-span-6 lg:col-span-4"

  /**
   * `mapScoreToGridClass`. The "featured" branch (score >= 1800) returns the
   * same string as the default, so there are only two distinct classes.
   */
  function MapScoreToGridClass(score: int): (c: string)
    ensures c == HeroClass <==> score >= 2500
    ensures c == StandardClass <==> score < 2500
  {
    if score >= 2500 then HeroClass
    else if score >= 1800 then FeaturedClass
    else StandardClass
  }

  /** An output record: the article with `_score` and `_gridClass` attached. */
  datatype GridEntry = GridEntry(article: Article, score: int, gridClass: string)

  function WithClass(e: Scored): GridEntry {
    GridEntry(e.article, e.score, MapScoreToGridClass(e.score))
  }

  function ArticleOf(e: Scored): Article {
    e.article
  }

  function EntryArticle(g: GridEntry): Article {
    g.article
  }

  /** Every ranked entry is a non-page article carrying its own score. */
  lemma RankedEntriesAreScored(articles: seq<Article>)
    ensures forall e :: e in Ranked(articles) ==> e.article.kind != "page" && e.score == Score(e.article)
  {
    var pool := WithScores(NonPages(articles));
    forall e | e in Ranked(articles)
      ensures e.article.kind != "page" && e.score == Score(e.article)
    {
      assert e in multiset(pool);
      var k :| 0 <= k < |pool| && pool[k] == e;
    }
  }

  /** The articles of the ranked list are exactly the non-page inputs, each as often. */
  lemma RankedIsPermutation(articles: seq<Article>)
    ensures multiset(MapSeq(ArticleOf, Ranked(articles))) == multiset(NonPages(articles))
  {
    MapSeqPermutation(ArticleOf, Ranked(articles), WithScores(NonPages(articles)));
    ScoringKeepsArticles(NonPages(articles));
  }

  /** Scoring a list of articles keeps the articles, in order. */
  lemma ScoringKeepsArticles(s: seq<Article>)
    ensures MapSeq(ArticleOf, WithScores(s)) == s
  {
    var r := MapSeq(ArticleOf, WithScores(s));
    assert forall i :: 0 <= i < |s| ==> r[i] == s[i];
  }

  /** Attaching the class keeps the ranked order. */
  lemma WithClassKeepsOrder(articles: seq<Article>)
    ensures var r := MapSeq(WithClass, Ranked(articles));
      forall i, j :: 0 <= i < j < |r| ==>
        RankLe(Scored(r[i].article, r[i].score), Scored(r[j].article, r[j].score))
  {
    var ranked := Ranked(articles);
    var r := MapSeq(WithClass, ranked);
    forall i, j | 0 <= i < j < |r|
      ensures RankLe(Scored(r[i].article, r[i].score), Scored(r[j].article, r[j].score))
    {
      assert Scored(r[i].article, r[i].score) == ranked[i];
      assert Scored(r[j].article, r[j].score) == ranked[j];
    }
  }

  /** Attaching the class keeps the articles. */
  lemma WithClassKeepsArticles(articles: seq<Article>)
    ensures multiset(MapSeq(EntryArticle, MapSeq(WithClass, Ranked(articles))))
         == multiset(NonPages(articles))
  {
    var ranked := Ranked(articles);
    RankedIsPermutation(articles);
    assert MapSeq(EntryArticle, MapSeq(WithClass, ranked)) == MapSeq(ArticleOf, ranked);
  }

  function GridMapper(articles: seq<Article>): (r: seq<GridEntry>)
    ensures |r| == CountNonPages(articles)
    ensures forall i :: 0 <= i < |r| ==>
      && r[i].article.kind != "page"
      && r[i].score == Score(r[i].article)
      && r[i].gridClass == MapScoreToGridClass(r[i].score)
    ensures forall i, j :: 0 <= i < j < |r| ==>
      RankLe(Scored(r[i].article, r[i].score), Scored(r[j].article, r[j].score))
    ensures multiset(MapSeq(EntryArticle, r)) == multiset(NonPages(articles))
  {
    RankedEntriesAreScored(articles);
    WithClassKeepsOrder(articles);
    WithClassKeepsArticles(articles);
    MapSeq(WithClass, Ranked(articles))
  }

  /** Score order dominates: an entry never precedes one with a higher score. */
  lemma {:induction false} GridMapperScoreDescending(articles: seq<Article>, i: int, j: int)
    requires 0 <= i < j < |GridMapper(articles)|
    ensures GridMapper(articles)[i].score >= GridMapper(articles)[j].score
  {
    var r := GridMapper(articles);
    assert RankLe(Scored(r[i].article, r[i].score), Scored(r[j].article, r[j].score));
  }
}
