/**
  The public operation `recommend_book` and the external-lookup path
  `get_recommendations_from_api`, as a function from the request title to
  an outcome.

  The loaded artefacts are a `Catalog` value. The network lookup
  `fetch_book_data_from_google` is the `fetch` parameter: it yields the
  returned title and description, or `None` for no result and for every
  transport or parsing failure. The fuzzy ratio is the `ratio` parameter.
  Every raised "not found" error is the one `NotFound` outcome; the error
  the scorer raises on an empty corpus, which nothing catches, is the
  `Unhandled` outcome.
 */
module Service {
  import opened Wrappers
  import opened Text
  import opened Ranking
  import opened Database
  import opened ColdStart
  import opened Matching

  /** What the book API returned: `{'title': ..., 'description': ...}`. */
  datatype Fetched = Fetched(title: string, description: string)

  /**
    The answer to one request: a list of books, the 404 "not found" error,
    or an error that escapes the handler (the framework answers 500).
   */
  datatype Outcome = Success(books: seq<Book>) | NotFound | Unhandled

  /**
    The artefacts loaded at start-up: the book table, the book-to-book
    similarity matrix, and the scorer that maps a new description to its
    similarity with every book (TF-IDF transform plus cosine similarity).
   */
  datatype Catalog = Catalog(books: seq<Book>, similarities: seq<seq<real>>, similarity: string -> seq<real>)

  /** The artefacts agree in size: one matrix row and column, and one score, per book. */
  ghost predicate ValidCatalog(c: Catalog) {
    IsSquare(c.similarities, |c.books|) && forall d :: |c.similarity(d)| == |c.books|
  }

  /**
    `get_recommendations_from_api(title)` once the fetch has answered: not
    found when nothing was fetched, when the fetched title does not match,
    or when the cold-start path returns nothing; the cold-start path's
    error on an empty corpus escapes.
   */
  function ApiRecommend(c: Catalog, title: string, fetched: Option<Fetched>, ratio: (string, string) -> real): (r: Outcome)
    requires ValidCatalog(c)
    ensures r.Success? ==> 0 < |r.books| <= TopCount
    ensures r.Success? ==> forall k :: 0 <= k < |r.books| ==> r.books[k] in c.books
    ensures r.NotFound? <==>
      || fetched.None?
      || !IsValidBookMatch(ratio, title, fetched.value.title, DefaultThreshold)
      || IsBlank(fetched.value.description)
    ensures r.Unhandled? <==>
      && fetched.Some?
      && IsValidBookMatch(ratio, title, fetched.value.title, DefaultThreshold)
      && !IsBlank(fetched.value.description)
      && |c.books| == 0
  {
    match fetched
    case None => NotFound
    case Some(data) =>
      if !IsValidBookMatch(ratio, title, data.title, DefaultThreshold) then NotFound
      else
        match ColdStartRecommend(c.books, data.description, c.similarity)
        case EmptyCorpusError => Unhandled
        case Recommended(recommended) =>
          if |recommended| == 0 then NotFound else Success(recommended)
  }

  /**
    `recommend_book`: collapse the whitespace of the request title; a title
    found in the corpus is answered from the similarity matrix, any other
    goes to the external lookup with the collapsed title.
   */
  function RecommendBook(c: Catalog, raw: string, fetch: string -> Option<Fetched>, ratio: (string, string) -> real): (r: Outcome)
    requires ValidCatalog(c)
    ensures FindBook(c.books, Collapse(raw)).Some? ==> r.Success? && |r.books| == Min(TopCount, |c.books| - 1)
    ensures FindBook(c.books, Collapse(raw)).None? ==> r == ApiRecommend(c, Collapse(raw), fetch(Collapse(raw)), ratio)
    ensures r.Success? ==> forall k :: 0 <= k < |r.books| ==> r.books[k] in c.books
  {
    var title := Collapse(raw);
    match FindBook(c.books, title)
    case Some(i) => Success(DatabaseRecommend(c.books, c.similarities, i))
    case None => ApiRecommend(c, title, fetch(title), ratio)
  }

  /**
    A title found in the corpus is answered from the similarity matrix with
    the first matching row, and the lookup and ratio are never consulted.
   */
  lemma ExactMatchUsesDatabase(c: Catalog, raw: string, fetch1: string -> Option<Fetched>, fetch2: string -> Option<Fetched>,
                               ratio1: (string, string) -> real, ratio2: (string, string) -> real, i: nat)
    requires ValidCatalog(c) && i < |c.books|
    ensures c.books[i].title == NormalizedKey(raw) && (forall j :: 0 <= j < i ==> c.books[j].title != NormalizedKey(raw)) ==>
              && RecommendBook(c, raw, fetch1, ratio1) == Success(DatabaseRecommend(c.books, c.similarities, i))
              && RecommendBook(c, raw, fetch1, ratio1) == RecommendBook(c, raw, fetch2, ratio2)
  {
    if c.books[i].title == NormalizedKey(raw) && (forall j :: 0 <= j < i ==> c.books[j].title != NormalizedKey(raw)) {
      assert FindBook(c.books, Collapse(raw)) == Some(i);
    }
  }

  /** Not found is only ever reached through the external lookup. */
  lemma NotFoundOnlyForUnknownTitles(c: Catalog, raw: string, fetch: string -> Option<Fetched>, ratio: (string, string) -> real)
    requires ValidCatalog(c)
    ensures RecommendBook(c, raw, fetch, ratio).NotFound? ==> forall j :: 0 <= j < |c.books| ==> c.books[j].title != NormalizedKey(raw)
  {
  }

  /**
    An empty list is a successful answer only on the matrix path for a
    one-book corpus; the external path turns an empty list into not found.
   */
  lemma EmptySuccessOnlyForSingleBook(c: Catalog, raw: string, fetch: string -> Option<Fetched>, ratio: (string, string) -> real)
    requires ValidCatalog(c)
    requires RecommendBook(c, raw, fetch, ratio) == Success([])
    ensures |c.books| == 1 && c.books[0].title == NormalizedKey(raw)
  {
  }

  /** A failed fetch is not found, whatever else holds. */
  lemma FetchFailureIsNotFound(c: Catalog, title: string, ratio: (string, string) -> real)
    requires ValidCatalog(c)
    ensures ApiRecommend(c, title, None, ratio) == NotFound
  {
  }

  /**
    With an empty corpus, a fetched book that passes the title check and has
    a description reaches the scorer, whose error escapes: the answer is
    neither a list nor not found.
   */
  lemma EmptyCorpusIsUnhandled(c: Catalog, title: string, data: Fetched, ratio: (string, string) -> real)
    requires ValidCatalog(c) && |c.books| == 0
    requires IsValidBookMatch(ratio, title, data.title, DefaultThreshold)
    requires !IsBlank(data.description)
    ensures ApiRecommend(c, title, Some(data), ratio) == Unhandled
  {
  }

  /**
    A fetched book that passes the title check and has a description is
    answered with the five best-scoring corpus books for the stripped
    description.
   */
  lemma ApiSuccess(c: Catalog, title: string, data: Fetched, ratio: (string, string) -> real)
    requires ValidCatalog(c) && |c.books| > 0
    requires IsValidBookMatch(ratio, title, data.title, DefaultThreshold)
    requires !IsBlank(data.description)
    ensures ApiRecommend(c, title, Some(data), ratio)
            == Success(Project(c.books, SelectTop(c.similarity(Strip(data.description)))))
  {
    StripEmptyIff(data.description);
  }
}
