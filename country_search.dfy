/** The search list of `src/map/Countries.js`: `match` tests a search string
    against a country name, case-insensitively, and the component turns the
    matching catalog entries into checkbox rows. `toLowerCase` is modelled
    on ASCII letters only; `indexOf` is JavaScript's first-occurrence search. */
module CountrySearch {
  import opened Catalog
  import opened Seqs
  import opened FavoritesStore

  /** Lower-case one character: `A`..`Z` become `a`..`z`, everything else is kept. */
  function LowerChar(c: char): (r: char)
    ensures !('A' <= r <= 'Z')
    ensures 'A' <= c <= 'Z' ==> r as int == c as int + 32
    ensures !('A' <= c <= 'Z') ==> r == c
  {
    if 'A' <= c <= 'Z' then (c as int + 32) as char else c
  }

  /** `toLowerCase` on ASCII letters. */
  function Lower(s: string): (r: string)
    ensures |r| == |s|
    ensures forall i :: 0 <= i < |r| ==> r[i] == LowerChar(s[i])
  {
    seq(|s|, i requires 0 <= i < |s| => LowerChar(s[i]))
  }

  /** Lower-casing twice is lower-casing once. */
  lemma LowerIdempotent(s: string)
    ensures Lower(Lower(s)) == Lower(s)
  {
  }

  /** `needle` occurs in `haystack` starting at index `i`. */
  predicate OccursAt(haystack: string, needle: string, i: int)
  {
    0 <= i && i + |needle| <= |haystack| && haystack[i..i + |needle|] == needle
  }

  /** `needle` is a substring of `haystack`. */
  ghost predicate IsSubstring(needle: string, haystack: string)
  {
    exists i :: OccursAt(haystack, needle, i)
  }

  /** `haystack.indexOf(needle, k)`: the first occurrence at or after `k`, or -1. */
  function IndexOfFrom(haystack: string, needle: string, k: nat): (r: int)
    ensures r == -1 || (k <= r && OccursAt(haystack, needle, r))
    ensures r >= 0 ==> forall j :: k <= j < r ==> !OccursAt(haystack, needle, j)
    ensures r == -1 ==> forall j :: k <= j ==> !OccursAt(haystack, needle, j)
    decreases |haystack| - k
  {
    if k + |needle| > |haystack| then -1
    else if haystack[k..k + |needle|] == needle then k
    else IndexOfFrom(haystack, needle, k + 1)
  }

  /** `haystack.indexOf(needle)`: the least index where `needle` occurs, or -1
      when it occurs nowhere. An empty needle occurs at 0. */
  function IndexOf(haystack: string, needle: string): (r: int)
    ensures r >= 0 ==> OccursAt(haystack, needle, r)
    ensures r >= 0 ==> forall j :: 0 <= j < r ==> !OccursAt(haystack, needle, j)
    ensures r == -1 <==> !IsSubstring(needle, haystack)
    ensures r >= -1
  {
    IndexOfFrom(haystack, needle, 0)
  }

  /** `match({ needle, haystack })`. */
  function Match(needle: string, haystack: string): (r: bool)
    ensures r <==> IsSubstring(Lower(needle), Lower(haystack))
  {
    assert OccursAt(Lower(haystack), [], 0);
    |needle| == 0 || IndexOf(Lower(haystack), Lower(needle)) > -1
  }

  /** An empty needle matches every haystack. */
  lemma MatchEmptyNeedle(haystack: string)
    ensures Match("", haystack)
  {
  }

  /** `match` ignores the case of the needle and of the haystack. */
  lemma MatchCaseInsensitive(needle: string, haystack: string)
    ensures Match(Lower(needle), haystack) == Match(needle, haystack)
    ensures Match(needle, Lower(haystack)) == Match(needle, haystack)
  {
    LowerIdempotent(needle);
    LowerIdempotent(haystack);
  }

  /** A needle of spaces is not treated as empty: it does not match a name
      without a space. */
  lemma WhitespaceNeedleIsNotEmpty()
    ensures !Match(" ", "France")
  {
    var hay := Lower("France");
    assert hay == "france";
    assert Lower(" ") == " ";
    forall i
      ensures !OccursAt(hay, " ", i)
    {
      if 0 <= i < |hay| {
        assert hay[i..i + 1] == [hay[i]];
      }
    }
  }

  /** The callback `c => match({ needle: search, haystack: c.name })`. */
  function Matches(search: string): (test: Country -> bool)
    ensures forall c :: test(c) <==> IsSubstring(Lower(search), Lower(c.name))
  {
    (c: Country) => Match(search, c.name)
  }

  /** `countries.filter(...)` with the search string. */
  function FilterCountries(countries: seq<Country>, search: string): (r: seq<Country>)
    ensures forall c :: c in r ==> c in countries && Match(search, c.name)
  {
    Keep(countries, Matches(search))
  }

  /** The filtered list keeps catalog order and holds exactly the catalog
      entries whose name matches. */
  lemma FilterExact(countries: seq<Country>, search: string)
    ensures IsSubsequence(FilterCountries(countries, search), countries)
    ensures forall c :: c in FilterCountries(countries, search) <==>
                        c in countries && IsSubstring(Lower(search), Lower(c.name))
  {
    KeepIsSubsequence(countries, Matches(search));
    forall c | c in countries && Match(search, c.name)
      ensures c in FilterCountries(countries, search)
    {
      KeepComplete(countries, Matches(search), c);
    }
  }

  /** An empty search keeps the whole catalog, in order. */
  lemma FilterEmptySearch(countries: seq<Country>)
    ensures FilterCountries(countries, "") == countries
  {
    KeepAll(countries, Matches(""));
  }

  /** Filtering the filtered list again with the same search changes nothing. */
  lemma FilterIdempotent(countries: seq<Country>, search: string)
    ensures FilterCountries(FilterCountries(countries, search), search) == FilterCountries(countries, search)
  {
    KeepIdempotent(countries, Matches(search));
  }

  /** The filter does not depend on the case of the search string. */
  lemma FilterCaseInsensitive(countries: seq<Country>, search: string)
    ensures FilterCountries(countries, Lower(search)) == FilterCountries(countries, search)
  {
    forall c | c in countries
      ensures Matches(Lower(search))(c) == Matches(search)(c)
    {
      MatchCaseInsensitive(search, c.name);
    }
    KeepAgree(countries, Matches(Lower(search)), Matches(search));
  }

  /** One rendered row: the checkbox's key, its label and its `checked` flag. */
  datatype Row = Row(code: string, name: string, checked: bool)

  /** The `.map(c => <Country>…)` over the filtered list: one row per matching
      country, checked when `isFavorite(code)`. */
  function Rows(countries: seq<Country>, search: string, favorites: Favorites): (rows: seq<Row>)
    ensures |rows| == |FilterCountries(countries, search)|
  {
    var shown := FilterCountries(countries, search);
    seq(|shown|, i requires 0 <= i < |shown| => Row(shown[i].code, shown[i].name, IsFavorite(favorites, shown[i].code)))
  }

  /** There is one row per matching country, in catalog order, and a row is
      checked exactly when its code is a key of the favourites map. */
  lemma RowsExact(countries: seq<Country>, search: string, favorites: Favorites)
    requires AllTrue(favorites)
    ensures forall i :: 0 <= i < |Rows(countries, search, favorites)| ==>
      var row := Rows(countries, search, favorites)[i];
      var c := FilterCountries(countries, search)[i];
      && row.code == c.code && row.name == c.name
      && (row.checked <==> c.code in favorites)
      && c in countries && Match(search, c.name)
  {
  }

  /** With an empty search there is a row for every catalog country. */
  lemma RowsEmptySearch(countries: seq<Country>, favorites: Favorites)
    ensures |Rows(countries, "", favorites)| == |countries|
    ensures forall i :: 0 <= i < |countries| ==> Rows(countries, "", favorites)[i].code == countries[i].code
  {
    FilterEmptySearch(countries);
  }
}
