/** The favourites store of `src/map/MapProvider.js`: a JavaScript object used
    as a dictionary from country code to `true`, with toggle and clear actions
    and three values derived from it. A property read `favorites[code]` is
    modelled as `code in favorites && favorites[code]` (its truthiness). */
module FavoritesStore {
  import opened Catalog
  import opened Seqs

  type Favorites = map<string, bool>

  /** The store only ever writes `true`, so every key is a favourite. */
  predicate AllTrue(favorites: Favorites)
  {
    forall k :: k in favorites ==> favorites[k]
  }

  /** `isFavorite`: the boolean-coerced property read `!!favorites[code]`. */
  function IsFavorite(favorites: Favorites, code: string): (r: bool)
    ensures r ==> code in favorites
    ensures AllTrue(favorites) ==> (r <==> code in favorites)
  {
    code in favorites && favorites[code]
  }

  /** The map `toggleFavorite(code)` hands to `setFavorites`: a copy of the
      old map with the code's entry deleted when it was truthy and set to
      `true` otherwise. */
  function Toggled(favorites: Favorites, code: string): (r: Favorites)
    ensures IsFavorite(favorites, code) ==> code !in r
    ensures !IsFavorite(favorites, code) ==> code in r && r[code]
    ensures forall k :: k != code ==> (k in r <==> k in favorites)
    ensures forall k :: k != code && k in r ==> r[k] == favorites[k]
  {
    if IsFavorite(favorites, code) then favorites - {code} else favorites[code := true]
  }

  /** `favoriteCount`: `Object.keys(favorites).length`, every key counted. */
  function FavoriteCount(favorites: Favorites): (n: nat)
    ensures n == 0 <==> favorites == map[]
  {
    |favorites.Keys|
  }

  /** The callback `c => isFavorite(c.country_code)`. */
  function IsFavoriteCountry(favorites: Favorites): Country -> bool
  {
    (c: Country) => IsFavorite(favorites, c.code)
  }

  /** `favoriteCountries`: the catalog filtered by `isFavorite`. */
  function FavoriteCountries(countries: seq<Country>, favorites: Favorites): (r: seq<Country>)
    ensures forall c :: c in r ==> c in countries && IsFavorite(favorites, c.code)
  {
    Keep(countries, IsFavoriteCountry(favorites))
  }

  /** The component state: `useState({})` and the two actions that replace it. */
  class Store {
    var favorites: Favorites

    ghost predicate Valid()
      reads this
    {
      AllTrue(favorites)
    }

    /** `useState({})`: the store starts with no favourites. */
    constructor ()
      ensures Valid() && favorites == map[]
    {
      favorites := map[];
    }

    /** `toggleFavorite`: copy the map, delete or set the code's entry, and
        install the copy as the new state. */
    method ToggleFavorite(code: string)
      requires Valid()
      modifies this
      ensures Valid()
      ensures favorites == Toggled(old(favorites), code)
      ensures code in favorites <==> code !in old(favorites)
    {
      var newFavorites := favorites;
      if code in newFavorites && newFavorites[code] {
        newFavorites := newFavorites - {code};
      } else {
        newFavorites := newFavorites[code := true];
      }
      favorites := newFavorites;
    }

    /** `clearFavorites`: replace the state with the empty map. */
    method ClearFavorites()
      modifies this
      ensures Valid() && favorites == map[] && FavoriteCount(favorites) == 0
    {
      favorites := map[];
    }
  }

  /** Toggling a code that is not a favourite adds it with value `true`. */
  lemma ToggleAddsAbsent(favorites: Favorites, code: string)
    requires code !in favorites
    ensures Toggled(favorites, code) == favorites[code := true]
    ensures FavoriteCount(Toggled(favorites, code)) == FavoriteCount(favorites) + 1
  {
    assert Toggled(favorites, code).Keys == favorites.Keys + {code};
  }

  /** Toggling a favourite deletes its entry. */
  lemma ToggleRemovesPresent(favorites: Favorites, code: string)
    requires IsFavorite(favorites, code)
    ensures Toggled(favorites, code) == favorites - {code}
    ensures FavoriteCount(Toggled(favorites, code)) == FavoriteCount(favorites) - 1
  {
    assert Toggled(favorites, code).Keys == favorites.Keys - {code};
  }

  /** Toggling keeps the store's invariant that every value is `true`. */
  lemma ToggleKeepsAllTrue(favorites: Favorites, code: string)
    requires AllTrue(favorites)
    ensures AllTrue(Toggled(favorites, code))
  {
  }

  /** Toggling the same code twice gives back the original map. This needs the
      store's invariant: a stored `false` would be replaced by `true` and then
      deleted. */
  lemma ToggleTwiceRestores(favorites: Favorites, code: string)
    requires AllTrue(favorites)
    ensures Toggled(Toggled(favorites, code), code) == favorites
  {
    var once := Toggled(favorites, code);
    var twice := Toggled(once, code);
    assert forall k :: k in twice <==> k in favorites;
  }

  /** The involution fails without the invariant. */
  lemma ToggleTwiceNeedsAllTrue()
    ensures Toggled(Toggled(map["FR" := false], "FR"), "FR") != map["FR" := false]
  {
    var once := Toggled(map["FR" := false], "FR");
    assert once == map["FR" := true];
    assert "FR" !in Toggled(once, "FR");
  }

  /** `favoriteCountries` is exactly the catalog entries whose code is a
      favourite, in catalog order. */
  lemma FavoriteCountriesExact(countries: seq<Country>, favorites: Favorites)
    ensures IsSubsequence(FavoriteCountries(countries, favorites), countries)
    ensures forall c :: c in FavoriteCountries(countries, favorites) <==>
                        c in countries && IsFavorite(favorites, c.code)
  {
    var p := IsFavoriteCountry(favorites);
    KeepIsSubsequence(countries, p);
    forall c | c in countries && IsFavorite(favorites, c.code)
      ensures c in FavoriteCountries(countries, favorites)
    {
      KeepComplete(countries, p, c);
    }
  }

  /** The codes of `favoriteCountries` are the favourite codes the catalog knows. */
  lemma FavoriteCodes(countries: seq<Country>, favorites: Favorites)
    requires AllTrue(favorites)
    ensures CodesOf(FavoriteCountries(countries, favorites)) == CodesOf(countries) * favorites.Keys
  {
    FavoriteCountriesExact(countries, favorites);
    var fc := FavoriteCountries(countries, favorites);
    forall k | k in CodesOf(countries) * favorites.Keys
      ensures k in CodesOf(fc)
    {
      var c :| c in countries && c.code == k;
      assert c in fc;
    }
  }

  /** A favourite code outside the catalog is counted but yields no country,
      so with distinct catalog codes `|favoriteCountries| <= favoriteCount`. */
  lemma {:induction false} FavoriteCountriesAtMostCount(countries: seq<Country>, favorites: Favorites)
    requires DistinctCodes(countries)
    ensures |FavoriteCountries(countries, favorites)| <= FavoriteCount(favorites)
  {
    var fc := FavoriteCountries(countries, favorites);
    KeepDistinct(countries, IsFavoriteCountry(favorites), CountryCode);
    DistinctCodesCardinality(fc);
    assert CodesOf(fc) <= favorites.Keys;
    assert |CodesOf(fc)| <= |favorites.Keys| by {
      SubsetCardinality(CodesOf(fc), favorites.Keys);
    }
  }

  /** `clearFavorites` leaves no favourite country and a count of 0. */
  lemma ClearedIsEmpty(countries: seq<Country>)
    ensures FavoriteCount(map[]) == 0
    ensures FavoriteCountries(countries, map[]) == []
  {
    KeepNone(countries, IsFavoriteCountry(map[]));
  }
}
