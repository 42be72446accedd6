/**
  The guard on the external lookup (`is_valid_book_match`): the title the
  book API returned is trusted when it is similar enough to the requested
  one, or when it contains it.

  `difflib.SequenceMatcher(...).ratio()` is not modelled; it is the `ratio`
  parameter, applied to the two lower-cased titles.
 */
module Matching {
  import opened Text

  /** The default `threshold` of `is_valid_book_match`. */
  const DefaultThreshold: real := 0.6

  /** `needle` occurs in `hay` starting at position `i`. */
  predicate OccursAt(hay: string, needle: string, i: int) {
    0 <= i <= |hay| - |needle| && hay[i..i + |needle|] == needle
  }

  /** Python's `needle in hay` on strings. */
  predicate Contains(hay: string, needle: string) {
    exists i | 0 <= i <= |hay| - |needle| :: OccursAt(hay, needle, i)
  }

  /**
    `is_valid_book_match(search, api, threshold)`: the lower-cased search
    title occurs in the lower-cased API title, or their similarity ratio
    reaches the threshold.
   */
  function IsValidBookMatch(ratio: (string, string) -> real, search: string, api: string, threshold: real): (ok: bool)
    ensures Contains(Lower(api), Lower(search)) ==> ok
    ensures !Contains(Lower(api), Lower(search)) ==> (ok <==> ratio(Lower(search), Lower(api)) >= threshold)
  {
    var titleSimilarity := ratio(Lower(search), Lower(api));
    var keywordMatch := Contains(Lower(api), Lower(search));
    titleSimilarity >= threshold || keywordMatch
  }

  /** An empty search title is contained in every title, so it always matches. */
  lemma EmptySearchMatches(ratio: (string, string) -> real, api: string, threshold: real)
    ensures IsValidBookMatch(ratio, "", api, threshold)
  {
    assert OccursAt(Lower(api), Lower(""), 0);
  }

  /** A title that starts with the search title, ignoring case, always matches. */
  lemma PrefixMatches(ratio: (string, string) -> real, search: string, api: string, threshold: real)
    requires |search| <= |api| && Lower(api)[..|search|] == Lower(search)
    ensures IsValidBookMatch(ratio, search, api, threshold)
  {
    assert OccursAt(Lower(api), Lower(search), 0);
  }

  /** The validator ignores case in both titles. */
  lemma MatchIgnoresCase(ratio: (string, string) -> real, s1: string, s2: string, a1: string, a2: string, threshold: real)
    requires Lower(s1) == Lower(s2) && Lower(a1) == Lower(a2)
    ensures IsValidBookMatch(ratio, s1, a1, threshold) == IsValidBookMatch(ratio, s2, a2, threshold)
  {
  }

  lemma DuneLower(search: string, api: string)
    requires search == "Dune" && api == "Dune: The Complete Series"
    ensures |search| <= |api| && Lower(api)[..|search|] == Lower(search)
  {
  }

  /** "Dune" is accepted for "Dune: The Complete Series" whatever the ratio. */
  lemma DuneSeriesMatches(ratio: (string, string) -> real, search: string, api: string)
    requires search == "Dune" && api == "Dune: The Complete Series"
    ensures IsValidBookMatch(ratio, search, api, DefaultThreshold)
  {
    DuneLower(search, api);
    PrefixMatches(ratio, search, api, DefaultThreshold);
  }

  lemma DuneNotInFoundation(s: string, a: string)
    requires s == "dune" && a == "foundation"
    ensures !Contains(a, s)
  {
    forall i | 0 <= i <= |a| - |s|
      ensures !OccursAt(a, s, i)
    {
      var w := a[i..i + |s|];
      assert w[0] == a[i] && w[1] == a[i + 1];
    }
  }

  /** "Dune" is rejected for "Foundation" when their ratio is below the default threshold. */
  lemma DuneFoundationRejected(ratio: (string, string) -> real, search: string, api: string)
    requires search == "Dune" && api == "Foundation"
    requires ratio("dune", "foundation") < DefaultThreshold
    ensures !IsValidBookMatch(ratio, search, api, DefaultThreshold)
  {
    assert Lower(search) == "dune";
    assert Lower(api) == "foundation";
    DuneNotInFoundation("dune", "foundation");
  }
}
