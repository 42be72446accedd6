/**
  The corpus of known books and the recommender over the precomputed
  similarity matrix (`find_book_in_database` and
  `get_recommendations_from_database` in backend/main.py).

  The book table's pandas index is taken to be the default `0..N-1`, so the
  label that `find_book_in_database` returns is also a valid position for
  `similarities[...]` and `books.iloc[...]`.
 */
module Database {
  import opened Wrappers
  import opened Text
  import opened Ranking

  /** How many books a recommendation holds at most (`[1:6]` and `[-5:]`). */
  const TopCount: nat := 5

  /** One row of the book table, projected to the columns the service returns. */
  datatype Book = Book(title: string, authors: string, thumbnail: string)

  /** Similarity of book `i` to book `j` is `m[i][j]`. */
  predicate IsSquare(m: seq<seq<real>>, n: nat) {
    |m| == n && forall i :: 0 <= i < n ==> |m[i]| == n
  }

  /** `title.lower().strip()`: the form the stored titles are compared against. */
  function LookupKey(title: string): string {
    Strip(Lower(title))
  }

  /** The key a raw request title is looked up by: `' '.join(raw.split())`, then `LookupKey`. */
  function NormalizedKey(raw: string): string {
    LookupKey(Collapse(raw))
  }

  /** A lower-case, collapsed title is its own lookup key. */
  lemma LookupKeyOfCollapsedLower(s: string)
    requires IsCollapsed(s) && IsLower(s)
    ensures LookupKey(s) == s
  {
    LowerIsLower(s);
    StripNoEdges(s);
  }

  /**
    The normalised title is collapsed (no leading, trailing or doubled
    whitespace), lower-case, keeps the request's non-whitespace characters
    up to case, and normalising it again changes nothing.
   */
  lemma NormalizedKeySpec(raw: string)
    ensures IsCollapsed(NormalizedKey(raw)) && IsLower(NormalizedKey(raw))
    ensures NonSpace(NormalizedKey(raw)) == Lower(NonSpace(raw))
    ensures NormalizedKey(NormalizedKey(raw)) == NormalizedKey(raw)
  {
    var c := Collapse(raw);
    CollapseSpec(raw);
    LowerKeepsCollapsed(c);
    LowerIsLower(c);
    var l := Lower(c);
    LookupKeyOfCollapsedLower(l);
    assert NormalizedKey(raw) == l;
    NonSpaceLower(c);
    NonSpaceLower(raw);
    CollapseFixesCollapsed(l);
  }

  /** Lower-casing commutes with dropping whitespace. */
  lemma {:induction false} NonSpaceLower(s: string)
    ensures NonSpace(Lower(s)) == Lower(NonSpace(s))
  {
    if |s| > 0 {
      NonSpaceLower(s[1..]);
      assert Lower(s)[1..] == Lower(s[1..]);
      var h := if IsSpace(s[0]) then [] else [s[0]];
      assert NonSpace(s) == h + NonSpace(s[1..]);
      assert Lower(h + NonSpace(s[1..])) == Lower(h) + Lower(NonSpace(s[1..]));
    }
  }

  /** The slices of the example title that the word steps below use. */
  lemma HobbitSlices(raw: string, u: string)
    requires raw == "  The   Hobbit " && u == "   Hobbit "
    ensures raw[2..5] == "The" && raw[5..] == u
    ensures u[3..9] == "Hobbit" && u[9..] == " "
  {
  }

  /** The first word of the example title is `The`. */
  lemma HobbitFirstWord(raw: string)
    requires raw == "  The   Hobbit "
    ensures raw[5..] == "   Hobbit "
    ensures Split(raw) == ["The"] + Split(raw[5..])
  {
    SplitNextWord(raw, 2, 3);
    HobbitSlices(raw, "   Hobbit ");
  }

  /** After `The`, the next word is `Hobbit`, followed only by a space. */
  lemma HobbitSecondWord(u: string)
    requires u == "   Hobbit "
    ensures u[9..] == " "
    ensures Split(u) == ["Hobbit"] + Split(u[9..])
  {
    SplitNextWord(u, 3, 6);
    HobbitSlices("  The   Hobbit ", u);
  }

  /** `"  The   Hobbit ".split()` is `["The", "Hobbit"]`. */
  lemma HobbitSplit(raw: string)
    requires raw == "  The   Hobbit "
    ensures Split(raw) == ["The", "Hobbit"]
  {
    HobbitFirstWord(raw);
    var u := raw[5..];
    HobbitSecondWord(u);
    SplitBlank(u[9..]);
  }

  /** `"The Hobbit".lower()` is the stored title. */
  lemma HobbitLower(c: string, stored: string)
    requires c == "The Hobbit" && stored == "the hobbit"
    ensures Lower(c) == stored
  {
    assert LowerChar(c[0]) == stored[0] && LowerChar(c[4]) == stored[4];
    forall k | 0 <= k < |c| && k != 0 && k != 4
      ensures LowerChar(c[k]) == c[k] == stored[k]
    {
    }
  }

  /** The stored title is already collapsed and lower-case. */
  lemma HobbitStored(stored: string)
    requires stored == "the hobbit"
    ensures IsCollapsed(stored) && IsLower(stored)
  {
    assert forall k :: 0 <= k < |stored| && IsSpace(stored[k]) ==> k == 3;
  }

  /** `' '.join("  The   Hobbit ".split())` is `"The Hobbit"`. */
  lemma HobbitCollapse(raw: string)
    requires raw == "  The   Hobbit "
    ensures Collapse(raw) == "The Hobbit"
  {
    HobbitSplit(raw);
    HobbitJoin(["The", "Hobbit"]);
  }

  /** `' '.join(["The", "Hobbit"])` is `"The Hobbit"`. */
  lemma HobbitJoin(ws: seq<string>)
    requires ws == ["The", "Hobbit"]
    ensures Join(ws) == "The Hobbit"
  {
    assert Join(ws[1..]) == "Hobbit";
  }

  /** Two spellings that differ only in case and spacing reach the same stored title. */
  lemma HobbitExample(raw: string, stored: string)
    requires raw == "  The   Hobbit " && stored == "the hobbit"
    ensures NormalizedKey(raw) == stored
    ensures NormalizedKey(stored) == stored
  {
    HobbitCollapse(raw);
    HobbitLower("The Hobbit", stored);
    HobbitStored(stored);
    LookupKeyOfCollapsedLower(stored);
    CollapseFixesCollapsed(stored);
  }

  /** Index of the first book at or after `from` whose stored title is `key`. */
  function FindFrom(books: seq<Book>, key: string, from: nat): (r: Option<nat>)
    requires from <= |books|
    ensures r.Some? ==> from <= r.value < |books| && books[r.value].title == key
    ensures r.Some? ==> forall j :: from <= j < r.value ==> books[j].title != key
    ensures r.None? <==> forall j :: from <= j < |books| ==> books[j].title != key
    decreases |books| - from
  {
    if from == |books| then None
    else if books[from].title == key then Some(from)
    else FindFrom(books, key, from + 1)
  }

  /**
    `find_book_in_database`: the first row whose stored title equals
    `title.lower().strip()`, or `None` when there is none.
   */
  function FindBook(books: seq<Book>, title: string): (r: Option<nat>)
    ensures r.Some? ==> r.value < |books| && books[r.value].title == LookupKey(title)
    ensures r.Some? ==> forall j :: 0 <= j < r.value ==> books[j].title != LookupKey(title)
    ensures r.None? <==> forall j :: 0 <= j < |books| ==> books[j].title != LookupKey(title)
  {
    FindFrom(books, LookupKey(title), 0)
  }

  /** Python's `s[lo:hi]` for `0 <= lo <= hi`: bounds beyond the end are cut back. */
  function Slice(s: seq<nat>, lo: nat, hi: nat): (r: seq<nat>)
    requires lo <= hi
    ensures |r| == Min(hi, |s|) - Min(lo, |s|)
    ensures forall k :: 0 <= k < |r| ==> r[k] == s[lo + k]
  {
    s[Min(lo, |s|)..Min(hi, |s|)]
  }

  /**
    The column positions `get_recommendations_from_database` returns for
    similarity row `row`: the stable descending sort of `enumerate(row)`,
    without its first entry, next five entries (`[1:6]`).
   */
  function TopAfterFirst(row: seq<real>): (r: seq<nat>)
    requires |row| > 0
    ensures |r| == Min(TopCount, |row| - 1)
    ensures forall k :: 0 <= k < |r| ==> r[k] < |row|
    ensures Distinct(r)
    ensures forall a, b :: 0 <= a < b < |r| ==> row[r[a]] >= row[r[b]]
    ensures forall a, b :: 0 <= a < b < |r| && row[r[a]] == row[r[b]] ==> r[a] < r[b]
  {
    var ranked := Rank(row, StableDescending);
    var r := Slice(ranked, 1, 1 + TopCount);
    assert forall a, b :: 0 <= a < b < |r| ==> Precedes(row, StableDescending, r[a], r[b]) by {
      forall a, b | 0 <= a < b < |r|
        ensures Precedes(row, StableDescending, r[a], r[b])
      {
        assert r[a] == ranked[1 + a] && r[b] == ranked[1 + b];
      }
    }
    assert Ordered(row, StableDescending, r);
    OrderedDistinct(row, StableDescending, r);
    r
  }

  /**
    Apart from the dropped first entry, a recommended column scores at least
    as high as every column left out, and wins ties by lower position.
   */
  lemma TopAfterFirstIsBest(row: seq<real>, x: nat, k: nat)
    requires |row| > 0
    requires x in TopAfterFirst(row)
    requires k < |row| && k !in TopAfterFirst(row) && k != Rank(row, StableDescending)[0]
    ensures row[x] >= row[k]
    ensures row[x] == row[k] ==> x < k
  {
    var ranked := Rank(row, StableDescending);
    var r := TopAfterFirst(row);
    var p :| 0 <= p < |r| && r[p] == x;
    assert x == ranked[1 + p];
    assert k in ranked;
    var q :| 0 <= q < |ranked| && ranked[q] == k;
    if q <= TopCount {
      assert false;
    }
    assert Precedes(row, StableDescending, ranked[1 + p], ranked[q]);
  }

  /**
    The book itself is left out when its own score comes first in the stable
    sort: it beats every other column, or ties only with higher positions.
   */
  lemma SelfExcluded(row: seq<real>, self: nat)
    requires self < |row|
    requires forall k :: 0 <= k < |row| && k != self ==> row[self] > row[k] || (row[self] == row[k] && self < k)
    ensures self !in TopAfterFirst(row)
  {
    var ranked := Rank(row, StableDescending);
    HeadOfRanking(row, StableDescending, ranked, self);
    OrderedDistinct(row, StableDescending, ranked);
    var r := TopAfterFirst(row);
    forall p | 0 <= p < |r|
      ensures r[p] != self
    {
      assert r[p] == ranked[1 + p];
    }
  }

  /**
    Exactly when the book is recommended to itself: some column precedes it
    in the stable descending sort (a higher score, or an equal score at a
    lower position), and at most five do.
   */
  lemma SelfRecommendedIff(row: seq<real>, self: nat)
    requires self < |row|
    ensures self in TopAfterFirst(row) <==> 1 <= |Preceding(row, StableDescending, self)| <= TopCount
  {
    var ranked := Rank(row, StableDescending);
    assert self in ranked;
    var q :| 0 <= q < |ranked| && ranked[q] == self;
    RankPosition(row, StableDescending, ranked, q);
    OrderedDistinct(row, StableDescending, ranked);
    var r := TopAfterFirst(row);
    if 1 <= q <= TopCount {
      assert r[q - 1] == self;
    }
    if self in r {
      var p :| 0 <= p < |r| && r[p] == self;
      assert ranked[1 + p] == self;
    }
  }

  /**
    In a corpus of at most six books, the book is recommended to itself as
    soon as one other column outscores it, or ties with it at a lower position.
   */
  lemma SelfRecommendedInSmallCorpus(row: seq<real>, self: nat, k: nat)
    requires self < |row| <= 1 + TopCount && k < |row|
    requires row[k] > row[self] || (row[k] == row[self] && k < self)
    ensures self in TopAfterFirst(row)
  {
    var ranked := Rank(row, StableDescending);
    assert self in ranked;
    var q :| 0 <= q < |ranked| && ranked[q] == self;
    RankPosition(row, StableDescending, ranked, q);
    assert k in Preceding(row, StableDescending, self);
    SelfRecommendedIff(row, self);
  }

  /**
    The first sorted entry is dropped, not the book itself: when a lower
    position ties with the book's own score, the book is recommended to
    itself and the tying book is not.
   */
  lemma SelfRecommendedOnTie()
    ensures TopAfterFirst([1.0, 1.0]) == [1]
  {
    var row := [1.0, 1.0];
    var r := [0, 1];
    assert IsRanking(row, StableDescending, r) by {
      assert forall k: nat :: k < 2 ==> k in r by {
        assert r[0] == 0 && r[1] == 1;
      }
    }
    RankUnique(row, StableDescending, r);
  }

  /** An example: the book at index 2 of a seven-book corpus. */
  lemma DuneExample()
    ensures TopAfterFirst([0.1, 0.3, 1.0, 0.9, 0.2, 0.5, 0.05]) == [3, 5, 1, 4, 0]
  {
    var row := [0.1, 0.3, 1.0, 0.9, 0.2, 0.5, 0.05];
    var r := [2, 3, 5, 1, 4, 0, 6];
    assert IsRanking(row, StableDescending, r) by {
      forall k: nat | k < 7
        ensures k in r
      {
        if k == 0 { assert r[5] == k; }
        else if k == 1 { assert r[3] == k; }
        else if k == 2 { assert r[0] == k; }
        else if k == 3 { assert r[1] == k; }
        else if k == 4 { assert r[4] == k; }
        else if k == 5 { assert r[2] == k; }
        else { assert r[6] == k; }
      }
    }
    RankUnique(row, StableDescending, r);
    assert Rank(row, StableDescending)[1..6] == [3, 5, 1, 4, 0];
  }

  function Project(books: seq<Book>, idx: seq<nat>): (r: seq<Book>)
    requires forall k :: 0 <= k < |idx| ==> idx[k] < |books|
    ensures |r| == |idx|
    ensures forall k :: 0 <= k < |idx| ==> r[k] == books[idx[k]]
  {
    seq(|idx|, k requires 0 <= k < |idx| => books[idx[k]])
  }

  /**
    `get_recommendations_from_database(i)`: the books at the positions
    `TopAfterFirst` picks from row `i` of the similarity matrix.
   */
  function DatabaseRecommend(books: seq<Book>, sim: seq<seq<real>>, i: nat): (r: seq<Book>)
    requires IsSquare(sim, |books|) && i < |books|
    ensures |r| == Min(TopCount, |books| - 1)
    ensures forall k :: 0 <= k < |r| ==> r[k] in books
  {
    Project(books, TopAfterFirst(sim[i]))
  }
}
