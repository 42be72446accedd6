/**
  The cold-start recommender (`generate_recommendations_for_new_book`) for
  a book that is not in the corpus: the description fetched for it is
  scored against every corpus row, and the five best rows are returned.

  The TF-IDF transform and the cosine similarity are not modelled; they
  are the `similarity` parameter, which maps the stripped description to
  one score per corpus row. `argsort` is taken to be a stable ascending
  sort; numpy's default sort does not promise any order among equal
  scores, so the contracts below that speak of the source's promise leave
  the order of ties open.
 */
module ColdStart {
  import opened Text
  import opened Ranking
  import opened Database

  /** `scores.argsort()`: positions by ascending score. */
  function ArgSort(scores: seq<real>): seq<nat> {
    Rank(scores, StableAscending)
  }

  /** `scores.argsort()[-5:][::-1]`: the last five positions of the argsort, best first. */
  function SelectTop(scores: seq<real>): (r: seq<nat>)
    ensures |r| == Min(TopCount, |scores|)
    ensures forall k :: 0 <= k < |r| ==> r[k] < |scores|
    ensures Distinct(r)
    ensures forall a, b :: 0 <= a < b < |r| ==> scores[r[a]] >= scores[r[b]]
  {
    var a := ArgSort(scores);
    var m := Min(TopCount, |a|);
    SelectTopIsRankPrefix(scores);
    Reverse(a[|a| - m..])
  }

  /** The best-first order the reversed stable argsort yields: higher positions win ties. */
  const BestFirst := Flip(StableAscending)

  /** The reversed tail of the ascending argsort is the head of the best-first ranking. */
  lemma SelectTopIsRankPrefix(scores: seq<real>)
    ensures var a := ArgSort(scores);
            var m := Min(TopCount, |a|);
            Reverse(a[|a| - m..]) == Rank(scores, BestFirst)[..m]
    ensures Ordered(scores, BestFirst, Rank(scores, BestFirst)[..Min(TopCount, |scores|)])
  {
    var a := ArgSort(scores);
    var m := Min(TopCount, |a|);
    ReverseRank(scores, StableAscending);
    ReverseSuffix(a, m);
    OrderedPrefix(scores, BestFirst, Rank(scores, BestFirst), m);
  }

  /** Every selected row scores at least as high as every row left out. */
  lemma SelectTopIsBest(scores: seq<real>, x: nat, k: nat)
    requires x in SelectTop(scores)
    requires k < |scores| && k !in SelectTop(scores)
    ensures scores[x] >= scores[k]
  {
    SelectTopIsRankPrefix(scores);
    var full := Rank(scores, BestFirst);
    var m := Min(TopCount, |scores|);
    var r := SelectTop(scores);
    assert r == full[..m];
    var p :| 0 <= p < |r| && r[p] == x;
    assert k in full;
    var q :| 0 <= q < |full| && full[q] == k;
    if q < m {
      assert false;
    }
    assert Precedes(scores, BestFirst, full[p], full[q]);
  }

  /**
    What `generate_recommendations_for_new_book` gives back: the list of
    books, or the error the scorer raises when it is handed a corpus of no
    rows (`cosine_similarity` refuses an empty second matrix, and nothing in
    the service catches that error).
   */
  datatype Scored = Recommended(books: seq<Book>) | EmptyCorpusError

  /**
    `generate_recommendations_for_new_book`: nothing for a blank
    description; otherwise the stripped description is scored, which fails
    on an empty corpus and otherwise yields the books at the five
    best-scoring rows, best first.
   */
  function ColdStartRecommend(books: seq<Book>, description: string, similarity: string -> seq<real>): (r: Scored)
    requires forall d :: |similarity(d)| == |books|
    ensures r.EmptyCorpusError? <==> !IsBlank(description) && |books| == 0
    ensures IsBlank(description) ==> r == Recommended([])
    ensures r.Recommended? && !IsBlank(description) ==> |r.books| == Min(TopCount, |books|) > 0
    ensures r.Recommended? ==> forall k :: 0 <= k < |r.books| ==> r.books[k] in books
  {
    StripEmptyIff(description);
    var text := Strip(description);
    if |text| == 0 then Recommended([])
    else if |books| == 0 then EmptyCorpusError
    else Recommended(Project(books, SelectTop(similarity(text))))
  }

  /** A blank description is never scored: the result does not depend on the scorer. */
  lemma BlankIgnoresScorer(books: seq<Book>, description: string, f: string -> seq<real>, g: string -> seq<real>)
    requires forall d :: |f(d)| == |books|
    requires forall d :: |g(d)| == |books|
    requires IsBlank(description)
    ensures ColdStartRecommend(books, description, f) == ColdStartRecommend(books, description, g) == Recommended([])
  {
  }

  /** Whitespace around the description does not change what is scored or returned. */
  lemma OnlyStrippedTextIsScored(books: seq<Book>, d1: string, d2: string, f: string -> seq<real>)
    requires forall d :: |f(d)| == |books|
    ensures Strip(d1) == Strip(d2) ==> ColdStartRecommend(books, d1, f) == ColdStartRecommend(books, d2, f)
  {
  }
}
