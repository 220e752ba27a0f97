/** The older favourites store of `src/MapProvider.js`, used by `src/Map.js`.
    Its toggle is the same copy-then-delete-or-assign as in
    `src/map/MapProvider.js`, it has no clear action, and its `isFavorite`
    returns the raw property value (`true` or `undefined`) instead of a
    boolean. */
module LegacyFavorites {
  import opened Catalog
  import opened Seqs
  import opened Wrappers
  import opened FavoritesStore

  /** JavaScript truthiness of a property read that yields a boolean or `undefined`. */
  predicate Truthy(v: Option<bool>)
  {
    v.Some? && v.value
  }

  /** `isFavorite`: the raw property read `favorites[code]`. */
  function RawIsFavorite(favorites: Favorites, code: string): (r: Option<bool>)
    ensures r.Some? <==> code in favorites
    ensures r.Some? ==> r.value == favorites[code]
  {
    if code in favorites then Some(favorites[code]) else None
  }

  /** The callback `c => favorites[c.country_code]`. */
  function HasTruthyEntry(favorites: Favorites): Country -> bool
  {
    (c: Country) => Truthy(RawIsFavorite(favorites, c.code))
  }

  /** `favoriteCountries`: the catalog filtered by the truthiness of the entry. */
  function LegacyFavoriteCountries(countries: seq<Country>, favorites: Favorites): (r: seq<Country>)
    ensures forall c :: c in r ==> c in countries && Truthy(RawIsFavorite(favorites, c.code))
  {
    Keep(countries, HasTruthyEntry(favorites))
  }

  /** The component state: `useState({})` and the toggle action. */
  class LegacyStore {
    var favorites: Favorites

    ghost predicate Valid()
      reads this
    {
      AllTrue(favorites)
    }

    /** `useState({})`: the store starts with no favourites. */
    constructor ()
      ensures Valid() && favorites == map[]
    {
      favorites := map[];
    }

    /** `toggleFavorite`: copy the map, delete or set the code's entry, and
        install the copy as the new state. */
    method ToggleFavorite(code: string)
      requires Valid()
      modifies this
      ensures Valid()
      ensures favorites == Toggled(old(favorites), code)
      ensures code in favorites <==> code !in old(favorites)
    {
      var newFavorites := favorites;
      if code in newFavorites && newFavorites[code] {
        newFavorites := newFavorites - {code};
      } else {
        newFavorites := newFavorites[code := true];
      }
      favorites := newFavorites;
    }
  }

  /** The raw `isFavorite` is `true` or `undefined` in the store's states, and
      its truthiness is membership. Its truthiness always agrees with the
      boolean-coerced `isFavorite` of `src/map/MapProvider.js`. */
  lemma RawIsFavoriteTruthiness(favorites: Favorites, code: string)
    requires AllTrue(favorites)
    ensures RawIsFavorite(favorites, code) == (if code in favorites then Some(true) else None)
    ensures Truthy(RawIsFavorite(favorites, code)) <==> code in favorites
    ensures Truthy(RawIsFavorite(favorites, code)) == IsFavorite(favorites, code)
  {
  }

  /** Both providers derive the same `favoriteCountries` from the same map. */
  lemma {:induction false} LegacyFavoriteCountriesAgree(countries: seq<Country>, favorites: Favorites)
    ensures LegacyFavoriteCountries(countries, favorites) == FavoriteCountries(countries, favorites)
  {
    KeepAgree(countries, HasTruthyEntry(favorites), IsFavoriteCountry(favorites));
  }

  /** `favoriteCountries` keeps catalog order and holds exactly the catalog
      entries whose code maps to a truthy value. */
  lemma LegacyFavoriteCountriesExact(countries: seq<Country>, favorites: Favorites)
    ensures IsSubsequence(LegacyFavoriteCountries(countries, favorites), countries)
    ensures forall c :: c in LegacyFavoriteCountries(countries, favorites) <==>
                        c in countries && Truthy(RawIsFavorite(favorites, c.code))
  {
    LegacyFavoriteCountriesAgree(countries, favorites);
    FavoriteCountriesExact(countries, favorites);
  }

  /** `favoriteCount` is the number of keys of the store's map. */
  lemma LegacyFavoriteCount(favorites: Favorites)
    requires AllTrue(favorites)
    ensures FavoriteCount(favorites) == |set k | k in favorites && Truthy(RawIsFavorite(favorites, k))|
  {
    assert (set k | k in favorites && Truthy(RawIsFavorite(favorites, k))) == favorites.Keys;
  }
}
