# Book recommendation service — Dafny model

This project models the request path of a small book recommendation web
service (`backend/main.py`). A request carries a book title. If the title
(after whitespace collapsing, lower-casing and stripping) names a book in the
corpus, the service answers with the five books whose precomputed similarity
to it is highest, skipping the first entry of the sorted row. Otherwise it
asks an external book API for the title's description. It checks that the
returned title plausibly matches the request, then ranks the corpus by
similarity to that description ("cold start"). Every failure on that external
path that the code checks for becomes the same "not found" answer. The one
error it does not check for, scoring against an empty corpus, escapes the
handler.

Modules, leaf first:

- `Wrappers`: `Option`.
- `Text`: `str.split()`, `' '.join(...)`, `str.lower()` and `str.strip()` on
  `seq<char>`. It also defines the collapsed shape that `' '.join(s.split())`
  produces.
- `Ranking`: the stable sort of a score row's positions. It is defined as the
  unique permutation that is strictly ordered by score and then by position.
  Insertion computes it, and `RankUnique` shows that any sorting algorithm
  with that ordering gives the same sequence.
- `Database`: the book record, the lookup key, `find_book_in_database`
  (`FindBook`) and `get_recommendations_from_database` (`TopAfterFirst`,
  `DatabaseRecommend`).
- `ColdStart`: the `argsort()[-5:][::-1]` selection (`SelectTop`) and
  `generate_recommendations_for_new_book` (`ColdStartRecommend`).
- `Matching`: `is_valid_book_match`.
- `Service`: `get_recommendations_from_api` (`ApiRecommend`) and
  `recommend_book` (`RecommendBook`), with the `Outcome` datatype
  `Success(books) | NotFound | Unhandled`.

The loaded artefacts are immutable parameters (the `Catalog` datatype). The
book table is a `seq<Book>`, and its pandas index is assumed to be the
default `0..N-1`. Under that assumption the label `find_book_in_database`
returns (backend/main.py:67) is also the position used by `similarities[...]`
and `books.iloc[...]`. The similarity matrix is a square `seq<seq<real>>`,
and `ValidCatalog` requires that its size equals the number of books. Scores
are exact `real`s, because only their order matters here.

Behaviour of the code that the model keeps as written:

- The matrix path drops whatever entry sorts first, and that entry is the
  book itself only when its own score is the strict maximum of its row, or
  it is the lowest-positioned of the maximal ties. `SelfRecommendedIff`
  states exactly when the book is recommended to itself: at least one and
  at most five columns precede it in the stable descending sort.
  `SelfRecommendedOnTie` shows a two-book row `[1.0, 1.0]` where book 1 is
  recommended to itself.
- numpy's default `argsort` gives no order among equal scores. The model
  fixes the reversed stable ascending argsort, which puts, among equal
  scores, the higher position first (`SelectTopIsRankPrefix`). The
  contracts of `SelectTop` and `SelectTopIsBest` leave the order of ties
  open.
- On the matrix path, a one-book corpus gives a successful empty answer.
  Only the external path turns an empty list into "not found"
  (`EmptySuccessOnlyForSingleBook`).
- With an empty corpus, a fetched book that passes the title check and has
  a non-blank description is scored against a TF-IDF matrix of no rows.
  scikit-learn's `cosine_similarity` rejects an input with no samples, and
  nothing in backend/main.py catches that error, so the request fails with
  status 500 rather than "not found". The model gives `EmptyCorpusError` in
  `ColdStartRecommend` and `Unhandled` in `ApiRecommend` for exactly that
  case.

## Model

| member | source | states |
|---|---|---|
| Text.Strip | backend/main.py:64 | The stripped title is a contiguous slice of the input. Only whitespace was removed before and after it, and its first and last characters are not whitespace. |
| Text.StripEmptyIff | backend/main.py:123-125 | A description strips to the empty string exactly when all of its characters are whitespace. |
| Text.SplitGivesWords | backend/main.py:54 | Every item `str.split()` returns is non-empty and contains no whitespace. `Text.SplitIsRuns` adds that the items are the maximal such runs. |
| Text.SplitKeepsText | backend/main.py:54 | The items of `str.split()`, concatenated, are exactly the non-whitespace characters of the input, in order. |
| Text.SplitIsRuns | backend/main.py:54 | `str.split()` returns exactly the maximal whitespace-free runs: a list of words is the result for `s` if and only if `s` is those words interleaved with all-whitespace separators, every separator between two words non-empty. |
| Text.SplitJoin | backend/main.py:54 | Splitting words joined with single spaces gives back the same words. |
| Text.CollapseSpec | backend/main.py:54 | `' '.join(title.split())` has no leading or trailing whitespace and no two adjacent whitespace characters. Its only whitespace is plain spaces. It keeps the input's non-whitespace characters in order, and it splits into the same words as the input. |
| Text.CollapseFixesCollapsed | backend/main.py:54 | A title already in collapsed form is unchanged by `' '.join(title.split())`. |
| Text.CollapseIdempotent | backend/main.py:54 | Collapsing whitespace twice gives the same result as collapsing it once. |
| Text.CollapseKeepsWords | backend/main.py:54 | The collapsed title splits into the same words as the raw request title. |
| Text.LowerIsLower | backend/main.py:64 | `lower()` leaves no upper-case letter, and it changes nothing in a string that is already lower-case. |
| Database.NormalizedKeySpec | backend/main.py:54-64 | The key a request title is compared by is collapsed and lower-case. It holds the request's non-whitespace characters, lower-cased, and normalising it again changes nothing. |
| Database.HobbitExample | backend/main.py:54-64 | "  The   Hobbit " and "the hobbit" both normalise to the stored title "the hobbit". |
| Database.FindBook | backend/main.py:63-69 | The lookup returns the smallest index whose stored title equals `title.lower().strip()`. It returns nothing exactly when no stored title equals it. |
| Database.TopAfterFirst | backend/main.py:74-80 | For a row of N scores, the matrix path returns exactly min(5, N-1) distinct positions in [0, N). Their scores are non-increasing, and equal scores keep ascending position order. |
| Database.TopAfterFirstIsBest | backend/main.py:74-80 | Apart from the dropped first entry, every returned position scores at least as high as every position left out. On equal scores it has the lower position. |
| Database.SelfExcluded | backend/main.py:74-80 | The book itself is not recommended when its score beats every other column, or ties only with higher columns. |
| Database.SelfRecommendedOnTie | backend/main.py:74-80 | The code drops the first sorted entry, not the book: for book 1 with row [1.0, 1.0], the result is [1]. |
| Database.SelfRecommendedIff | backend/main.py:74-80 | The book is among its own recommendations exactly when between one and five columns precede it in the stable descending sort (a higher score, or an equal score at a lower position). |
| Database.SelfRecommendedInSmallCorpus | backend/main.py:74-80 | In a corpus of at most six books, one column that outscores the book, or ties with it at a lower position, makes the book recommended to itself. |
| Database.DuneExample | backend/main.py:74-80 | The row [0.1, 0.3, 1.0, 0.9, 0.2, 0.5, 0.05] of book 2 yields positions [3, 5, 1, 4, 0]. |
| Database.DatabaseRecommend | backend/main.py:71-80 | For a corpus of N ≥ 1 books, the matrix path returns min(5, N-1) books, all taken from the corpus. |
| Ranking.Rank | backend/main.py:74-78 | The stable descending sort of `enumerate(row)` is a permutation of all positions. Each entry strictly precedes the next: a higher score, or an equal score and a lower position. |
| Ranking.RankUnique | backend/main.py:74-78 | Any permutation of the positions with that ordering equals the computed sort. So the result does not depend on the sorting algorithm and is deterministic. |
| Ranking.RankPosition | backend/main.py:74-78 | In any ranking, the place of a position is the number of positions that precede it under the order. |
| Ranking.ReverseRank | backend/main.py:130 | Read back to front, the stable ascending argsort is the ranking by descending score with higher positions first on ties. |
| ColdStart.SelectTop | backend/main.py:130 | `argsort()[-5:][::-1]` over N scores gives min(5, N) distinct positions in [0, N), in non-increasing score order. |
| ColdStart.SelectTopIsRankPrefix | backend/main.py:130 | The reversed last five entries of the argsort are the first five entries of the best-first ranking. |
| ColdStart.SelectTopIsBest | backend/main.py:129-133 | Every selected row scores at least as high as every row not selected. |
| ColdStart.ColdStartRecommend | backend/main.py:122-133 | An empty or all-whitespace description gives `[]`. Any other description gives min(5, N) corpus books, or the scorer's error exactly when the corpus is empty. |
| ColdStart.BlankIgnoresScorer | backend/main.py:123-126 | For a blank description the result is `[]` whatever the scorer, so the text is never transformed. |
| ColdStart.OnlyStrippedTextIsScored | backend/main.py:123-129 | Two descriptions that strip to the same text give the same recommendations. |
| Matching.IsValidBookMatch | backend/main.py:137-140 | The match is accepted whenever the lower-cased search title occurs in the lower-cased API title, whatever the ratio. Otherwise it is accepted exactly when the ratio reaches the threshold. |
| Matching.EmptySearchMatches | backend/main.py:139-140 | An empty search title matches every API title. |
| Matching.PrefixMatches | backend/main.py:139-140 | An API title that starts with the search title, ignoring case, always matches. |
| Matching.MatchIgnoresCase | backend/main.py:138-139 | Titles that differ only in letter case get the same verdict. |
| Matching.DuneSeriesMatches | backend/main.py:137-140 | "Dune" matches "Dune: The Complete Series" at the default threshold 0.6, whatever the ratio. |
| Matching.DuneFoundationRejected | backend/main.py:137-140 | "Dune" does not match "Foundation" when their ratio is below 0.6, because "dune" does not occur in "foundation". |
| Service.ApiRecommend | backend/main.py:84-99 | The external path returns not found exactly when the fetch gave nothing, the title check failed, or the description is blank. It fails with an unhandled error (the scoring at backend/main.py:128-129 on an empty corpus) exactly when all three checks pass and the corpus is empty. Any success holds 1 to 5 corpus books. |
| Service.RecommendBook | backend/main.py:53-60 | An exact match succeeds with min(5, N-1) books from the matrix. A miss is decided by the external path with the collapsed title. |
| Service.ExactMatchUsesDatabase | backend/main.py:53-58 | A title whose key first matches row i is answered with the matrix recommendations for i. The fetch and the ratio are never consulted. |
| Service.NotFoundOnlyForUnknownTitles | backend/main.py:53-60 | A not-found answer means no stored title equals the request's normalised key. |
| Service.EmptySuccessOnlyForSingleBook | backend/main.py:53-99 | A successful empty answer happens only for a one-book corpus whose single title matches the request. |
| Service.FetchFailureIsNotFound | backend/main.py:87-89 | A fetch that returns nothing gives not found. |
| Service.EmptyCorpusIsUnhandled | backend/main.py:95-99 | With an empty corpus, a fetched book that passes the title check and has a non-blank description gets the unhandled error, not "not found" and not a list. |
| Service.ApiSuccess | backend/main.py:84-99 | A fetched book that passes the title check and has a non-blank description is answered with the top-five books for the stripped description. |

## Left out

- Start-up loading of the book table, the similarity matrix, the vectorizer and the TF-IDF matrix (backend/main.py:14-25): this is disk I/O and deserialisation. The loaded artefacts are the immutable `Catalog` parameter.
- FastAPI setup, CORS middleware, the pydantic request/response classes and the root endpoint (backend/main.py:28-50): framework plumbing.
- `fetch_book_data_from_google` (backend/main.py:101-120): a network call with a 5-second timeout and a broad exception catch. It is the `fetch` parameter returning `Option<Fetched>`, where `None` stands for "no items" and for every failure.
- The TF-IDF transform and `cosine_similarity` (backend/main.py:128-129): library numerics. They are the `similarity` scorer of the `Catalog`, which gives one score per book.
- `SequenceMatcher.ratio()` (backend/main.py:138): a library call. It is the `ratio` parameter, applied to the two lower-cased titles.
- Text.IsSpace: covers only the ASCII whitespace Python's `str.isspace` accepts (tab through carriage return, 0x1C-0x1F, space). `Text.LowerChar` maps only `A`-`Z`, so other Unicode whitespace and case mappings are not modelled.
- Floating-point scores: NaN and rounding are not modelled. Scores are exact reals, so only their order matters.
- ColdStart.SelectTop: fixes one order among equal scores, the reversed stable argsort. numpy's default `argsort` does not promise that order, so no contract about the source promises it either.
- `print` logging and the text of the 404 error message (backend/main.py:142-146). Every raised 404 is the single `NotFound` outcome, and the error that escapes the handler is the single `Unhandled` outcome, without its message.
- The browser front end (frontend/main.js): DOM handling and an HTTP call.
