# Favourite countries: a verified model

This project models the "favourite countries" demo of a React teaching
repository, together with the counter reducer from its lecture notes.

The demo has three parts, each in two variants:

- **Favourites store.** A provider holds a plain object from country code to
  `true`. `toggleFavorite` copies the object, then deletes the code's key or
  sets it to `true`. `clearFavorites` replaces the object with `{}`. The
  provider derives `isFavorite`, `favoriteCount` and `favoriteCountries` (the
  catalog filtered by favourite codes). The two providers are
  `src/map/MapProvider.js` (module `FavoritesStore`) and the older
  `src/MapProvider.js` (module `LegacyFavorites`). The older one has no clear
  action, and its `isFavorite` returns the raw value (`true` or `undefined`).
- **Search list.** A case-insensitive substring match of the search string
  against country names. It keeps catalog order and renders one checkbox row
  per match. The variants are `src/map/Countries.js` (module `CountrySearch`)
  and the list in `src/Map.js` (module `LegacyCountries`).
- **Marker reconciler.** A map component keeps a `markers` ref holding an
  array of `{ country_code, marker }` entries. On mount it creates the map
  and empties the array. On each change it:
  - calls `remove()` on the markers of codes that are no longer favourites;
  - creates a marker for every favourite that has no entry;
  - fits the camera to a box seeded with the first favourite and extended by
    every favourite.

  The two variants are `src/map/CountryMap.js` (module `CountryMapView`) and
  the component in `src/Map.js` (module `LegacyMap`). Their shared parts live
  in module `Markers`: the entries, the mount effect, the two `forEach`
  loops and the camera step.

The map library is modelled as a log of commands (module `MapLibrary`):
creating the map, adding a marker, removing a marker, and fitting the bounds.
Marker objects become numbered handles. The markers on the map are what the
log's add and remove commands leave behind. The component's refs are a class
(`Markers.Refs`) whose fields are the `markers` array, the command log and
the next fresh handle. Its methods are the loops of the effects. Each
variant's `Reconcile` method is proved against a pure function `Run` of the
old state. The properties are then proved about `Run` as lemmas.

What is proved:

- For `src/Map.js`, markers and favourites correspond one to one after every
  run. The entries' codes are exactly the favourites' codes, with no
  duplicates. The markers on the map are exactly the entries' markers.
- For `src/map/CountryMap.js`, an entry whose marker was removed stays in the
  array. Its code then never gets a marker again. See "## Findings".

The catalog (`countries.json`) is a parameter: a sequence of countries, each
with a code, a name and a position. `toLowerCase` is modelled on ASCII
letters.

## Model

| member | source | states |
|---|---|---|
| Seqs.Keep | src/map/MapProvider.js:30 | `Array.prototype.filter`, used at every filter of the demo: the result holds only elements that pass, and (KeepMembers, KeepIsSubsequence) exactly those, in input order |
| FavoritesStore.IsFavorite | src/map/MapProvider.js:23 | `isFavorite` is a boolean that holds only for keys of the map, and exactly for the keys when every stored value is `true` |
| FavoritesStore.Toggled | src/map/MapProvider.js:9-19 | toggling deletes the code when its value is truthy and sets it to `true` otherwise; every other key and value is unchanged |
| FavoritesStore.FavoriteCount | src/map/MapProvider.js:29 | `favoriteCount` is zero exactly when the map is empty |
| FavoritesStore.FavoriteCountries | src/map/MapProvider.js:30 | `favoriteCountries` holds only catalog countries whose code is a favourite |
| FavoritesStore.Store.constructor | src/map/MapProvider.js:7 | the store starts with the empty map |
| FavoritesStore.Store.ToggleFavorite | src/map/MapProvider.js:9-19 | the new state is the toggled copy of the old one; the code becomes a key exactly when it was not one; only `true` is ever stored |
| FavoritesStore.Store.ClearFavorites | src/map/MapProvider.js:21 | the new state is the empty map |
| FavoritesStore.ToggleAddsAbsent | src/map/MapProvider.js:14-15 | toggling an absent code adds it with value `true` |
| FavoritesStore.ToggleRemovesPresent | src/map/MapProvider.js:12-13 | toggling a present code deletes its key |
| FavoritesStore.ToggleKeepsAllTrue | src/map/MapProvider.js:9-19 | toggling keeps every stored value `true` |
| FavoritesStore.ToggleTwiceRestores | src/map/MapProvider.js:9-19 | toggling the same code twice gives back the original map |
| FavoritesStore.ToggleTwiceNeedsAllTrue | src/map/MapProvider.js:12-15 | a stored `false` would not come back after two toggles, so the round trip depends on only `true` being stored |
| FavoritesStore.FavoriteCountriesExact | src/map/MapProvider.js:30 | `favoriteCountries` is a subsequence of the catalog and holds exactly the catalog entries whose code is a favourite |
| FavoritesStore.FavoriteCodes | src/map/MapProvider.js:30 | the codes of `favoriteCountries` are the catalog codes that are keys of the map |
| FavoritesStore.FavoriteCountriesAtMostCount | src/map/MapProvider.js:29-30 | with distinct catalog codes, there are at most `favoriteCount` favourite countries (keys outside the catalog are counted too) |
| FavoritesStore.ClearedIsEmpty | src/map/MapProvider.js:21-30 | after clearing, `favoriteCount` is 0 and `favoriteCountries` is empty |
| LegacyFavorites.RawIsFavorite | src/MapProvider.js:21 | `isFavorite` returns the stored value for a key and `undefined` for a missing code |
| LegacyFavorites.LegacyFavoriteCountries | src/MapProvider.js:28 | holds only catalog countries whose entry is truthy |
| LegacyFavorites.LegacyStore.constructor | src/MapProvider.js:7 | the store starts with the empty map |
| LegacyFavorites.LegacyStore.ToggleFavorite | src/MapProvider.js:9-19 | the new state is the same toggled copy as in the newer provider, so the toggle lemmas apply to it; only `true` is ever stored |
| LegacyFavorites.RawIsFavoriteTruthiness | src/MapProvider.js:15-21 | in the store's states the raw `isFavorite` is `true` or `undefined`; its truthiness is membership and agrees with the boolean `isFavorite` |
| LegacyFavorites.LegacyFavoriteCountriesAgree | src/MapProvider.js:28 | both providers derive the same `favoriteCountries` from the same map |
| LegacyFavorites.LegacyFavoriteCountriesExact | src/MapProvider.js:28 | `favoriteCountries` keeps catalog order and holds exactly the entries whose code maps to a truthy value |
| LegacyFavorites.LegacyFavoriteCount | src/MapProvider.js:27 | `favoriteCount` is the number of keys, all of them truthy |
| CountrySearch.Lower | src/map/Countries.js:27 | lower-casing keeps the length and lower-cases each ASCII letter |
| CountrySearch.LowerIdempotent | src/map/Countries.js:27 | lower-casing twice is lower-casing once |
| CountrySearch.IndexOf | src/map/Countries.js:27 | `indexOf` returns the first occurrence, and -1 exactly when the needle does not occur |
| CountrySearch.Match | src/map/Countries.js:26-27 | `match` holds exactly when the lower-cased needle is a substring of the lower-cased haystack |
| CountrySearch.MatchEmptyNeedle | src/map/Countries.js:27 | an empty needle matches any haystack |
| CountrySearch.MatchCaseInsensitive | src/map/Countries.js:27 | lower-casing the needle or the haystack does not change `match` |
| CountrySearch.WhitespaceNeedleIsNotEmpty | src/map/Countries.js:26-27 | a needle of one space is not treated as empty: it does not match "France" |
| CountrySearch.Matches | src/map/Countries.js:34 | the filter callback holds exactly when the lower-cased search is a substring of the lower-cased name |
| CountrySearch.FilterCountries | src/map/Countries.js:33-34 | the filtered list holds only catalog countries whose name matches |
| CountrySearch.FilterExact | src/map/Countries.js:33-34 | the filtered list is a subsequence of the catalog holding exactly the entries whose name contains the search, ignoring case |
| CountrySearch.FilterEmptySearch | src/map/Countries.js:34 | an empty search keeps the whole catalog in order |
| CountrySearch.FilterIdempotent | src/map/Countries.js:34 | filtering the result again with the same search changes nothing |
| CountrySearch.FilterCaseInsensitive | src/map/Countries.js:34 | the result does not depend on the case of the search |
| CountrySearch.Rows | src/map/Countries.js:33-47 | there is one row per filtered country |
| CountrySearch.RowsExact | src/map/Countries.js:35-39 | row `i` has the code and name of the `i`-th match and is checked exactly when the code is a favourite |
| CountrySearch.RowsEmptySearch | src/map/Countries.js:33-39 | with an empty search there is one row per catalog country, in catalog order |
| MapLibrary.Extend | src/map/CountryMap.js:53-55 | `extend` gives a well-formed box holding the old box and the point, each side taken from one of them |
| Markers.Mounted | src/map/CountryMap.js:18-30 | after mount the map is created once, centred at (-74.5, 40), with no markers and an empty `markers` array |
| Markers.Refs.constructor | src/map/CountryMap.js:18-30 | the mount effect produces the mounted state |
| Markers.Refs.RemoveMarkers | src/map/CountryMap.js:36 | the removal loop appends one `remove` per entry, in order, and changes nothing else |
| Markers.Refs.AddMissing | src/map/CountryMap.js:39-47 | the addition loop leaves the array, the handle counter and the log as the addition pass specifies |
| Markers.Refs.FitCamera | src/map/CountryMap.js:50-61 | the camera step appends the camera command and changes nothing else |
| Markers.RemoveAll | src/map/CountryMap.js:36 | the removal loop issues one `remove` per entry, in order, each for that entry's marker |
| Markers.AddOne | src/map/CountryMap.js:40-46 | one iteration never shrinks the array, the log or the counter, and leaves the favourite with an entry; an existing entry means nothing changes, otherwise one entry, one handle and one command are added |
| Markers.AddPass | src/map/CountryMap.js:39-47 | the addition pass keeps the old array as a prefix and hands out one fresh handle and one command per pushed entry |
| Markers.RemoveAllEffect | src/map/CountryMap.js:36 | the removal loop takes exactly the entries' markers off the map and issues a `remove` for each entry |
| Markers.AddPassGrows | src/map/CountryMap.js:39-47 | the addition pass only pushes onto the array and only hands out new handles |
| Markers.AddPassCovers | src/map/CountryMap.js:39-47 | after the addition pass every favourite's code has an entry |
| Markers.AddPassNoDup | src/map/CountryMap.js:40-46 | the addition pass never adds a second entry for a code |
| Markers.AddPassPushed | src/map/CountryMap.js:40-46 | each pushed entry has a favourite's code and a handle created in this pass |
| Markers.AddPassEffect | src/map/CountryMap.js:41 | the addition pass puts exactly its fresh handles on the map, with add commands only |
| Markers.AddPassHandles | src/map/CountryMap.js:41-45 | the handles in the array after the pass are the old ones plus the fresh ones |
| Markers.AddPassUnique | src/map/CountryMap.js:41-45 | no handle is held by two entries after the pass, and all are below the counter |
| Markers.AddPassNoop | src/map/CountryMap.js:40 | when every favourite already has an entry, the pass changes nothing and issues nothing |
| Markers.ExtendAll | src/map/CountryMap.js:53-55 | folding `extend` over the favourites gives a box holding the seed and every favourite's position, each side attained |
| Markers.FitTo | src/map/CountryMap.js:51-55 | the fitted box holds every favourite's position, and each of its sides is some favourite's coordinate |
| Markers.FitToIsLeast | src/map/CountryMap.js:51-55 | any box holding every favourite's position holds the fitted box |
| Markers.FitToSingle | src/map/CountryMap.js:55 | for one favourite the box is that favourite's point |
| Markers.FitToPair | src/map/CountryMap.js:53-55 | for two favourites the box is the componentwise minimum and maximum |
| Markers.Camera | src/map/CountryMap.js:50-61 | the camera command is issued exactly when there is a favourite, with the fitted box, padding 80 and duration 200 |
| Markers.CameraLast | src/map/CountryMap.js:50-61 | after marker commands, a `fitBounds` appears exactly when there are favourites, it comes last, and the map is not created again |
| CountryMapView.IsStale | src/map/CountryMap.js:33 | the callback holds exactly for entries whose code is not a favourite, which under the only-`true` invariant means not a key |
| CountryMapView.Run | src/map/CountryMap.js:32-62 | one run only appends to the log, never shrinks the array and only advances the handle counter; the rest of its effect is stated by the `Run…` lemmas below |
| CountryMapView.MarkersToRemove | src/map/CountryMap.js:33 | `markersToRemove` holds exactly the entries whose code is not a favourite |
| CountryMapView.Reconcile | src/map/CountryMap.js:32-62 | the update effect is a run of `Run`; it keeps the state consistent, never shrinks the array, leaves every favourite with an entry, and leaves no marker of a non-favourite on the map |
| CountryMapView.RunDisplayed | src/map/CountryMap.js:33-47 | after a run the map shows the old markers minus those of non-favourite entries, plus the fresh ones |
| CountryMapView.RunConsistent | src/map/CountryMap.js:39-47 | a run keeps one entry per code and per handle, and only entries' markers on the map |
| CountryMapView.RunGrows | src/map/CountryMap.js:39-47 | a run never shrinks the array and leaves every favourite with an entry |
| CountryMapView.RunHidesStale | src/map/CountryMap.js:33-36 | after a run no entry of a non-favourite has its marker on the map |
| CountryMapView.RunLog | src/map/CountryMap.js:32-62 | a run appends the removals, the additions and the camera command to the log |
| CountryMapView.RunRemovesStale | src/map/CountryMap.js:33-36 | every entry of a non-favourite gets a `remove` call on every run |
| CountryMapView.RunCamera | src/map/CountryMap.js:49-61 | a run moves the camera only when there is a favourite, as its last command, with padding 80 and duration 200, and never creates the map again |
| CountryMapView.RerunAddsNothing | src/map/CountryMap.js:39-47 | re-running with the same favourites pushes no entry and creates no marker |
| CountryMapView.StaleEntryStaysHidden | src/map/CountryMap.js:33-47 | an entry whose marker is off the map stays in the array, stays off the map, and is the only entry for its code |
| CountryMapView.ToggleOffOnLeavesNoMarker | src/map/CountryMap.js:33-47 | after toggling a country on, off and on, it is a favourite with an entry but no marker on the map |
| LegacyMap.IsListed | src/Map.js:71 | the `isFavorite` callback holds exactly for entries whose code is one of the favourites' codes |
| LegacyMap.IsUnlisted | src/Map.js:73 | the callback holds exactly for entries whose code is none of the favourites' codes |
| LegacyMap.Run | src/Map.js:70-101 | one run only appends to the log, only advances the handle counter, and keeps every entry whose code is still a favourite's; the rest of its effect is stated by the `Run…` lemmas below |
| LegacyMap.MarkersToRemove | src/Map.js:73 | `markersToRemove` holds exactly the entries whose code is not among the favourites |
| LegacyMap.MarkersToKeep | src/Map.js:74 | the pruned array holds exactly the entries whose code is among the favourites |
| LegacyMap.Reconcile | src/Map.js:70-101 | the update effect is a run of `Run`; it keeps the state consistent, and afterwards the entries' codes are exactly the favourites' codes |
| LegacyMap.PruneSplit | src/Map.js:73-74 | the kept and removed entries split the handles, with no handle in both |
| LegacyMap.RunDisplayed | src/Map.js:73-87 | after a run the map shows the old markers minus those of removed entries, plus the fresh ones |
| LegacyMap.RunConsistent | src/Map.js:71-87 | a run keeps one entry per code and per handle, and the map shows exactly the entries' markers |
| LegacyMap.RunCodes | src/Map.js:71-87 | after a run the entries' codes are exactly the favourites' codes |
| LegacyMap.RunOneToOne | src/Map.js:71-87 | after a run markers and favourites correspond one to one |
| LegacyMap.FavoritesOnMap | src/Map.js:70-101 | with the older provider, the codes with a marker are the catalog codes that are keys of the favourites map |
| LegacyMap.RunDropsStale | src/Map.js:73-77 | every dropped entry's marker is off the map and the entry is gone from the array |
| LegacyMap.RunLog | src/Map.js:70-101 | a run appends the removals, the additions and the camera command to the log |
| LegacyMap.RunCamera | src/Map.js:89-100 | a run moves the camera only when there is a favourite, as its last command, with padding 80 and duration 200 |
| LegacyMap.PruneNothing | src/Map.js:73-74 | when every entry's code is a favourite's, pruning keeps the whole array and removes nothing |
| LegacyMap.RerunOnlyMovesCamera | src/Map.js:70-101 | re-running with the same favourites removes and adds nothing and only moves the camera |
| LegacyMap.ToggleOffOnShowsFreshMarker | src/Map.js:74-87 | after toggling a country on, off and on, the first marker stays off the map and a fresh marker is shown for it |
| LegacyCountries.LegacyMatches | src/Map.js:111-113 | the filter callback, with its `!search` test, agrees with the newer `match` on every country |
| LegacyCountries.LegacyFilter | src/Map.js:110-113 | the filtered list holds only catalog countries that pass the search test |
| LegacyCountries.LegacyFilterAgrees | src/Map.js:110-113 | the `!search` test adds nothing: the list equals the newer filter and holds exactly the entries whose name contains the search, ignoring case |
| LegacyCountries.LegacyRows | src/Map.js:110-118 | there is one row per filtered country |
| LegacyCountries.LegacyRowsAgree | src/Map.js:114-118 | both search lists render the same rows from the same favourites |
| CounterReducer.Reduce | src/LectureNotes.js:132-141 | `increment` adds one, `decrement` subtracts one, and any other type throws |
| CounterReducer.IncrementThenDecrement | src/LectureNotes.js:132-141 | `increment` then `decrement` gives back the original count |
| CounterReducer.DispatchAllCount | src/LectureNotes.js:132-141 | a run of dispatches completes exactly when every action is known, and the count moves by the increments minus the decrements |
| CounterReducer.DispatchFromInitial | src/LectureNotes.js:144-146 | from the initial `{ count: 0 }`, known actions end at the increments minus the decrements |
| CounterReducer.UnknownThrows | src/LectureNotes.js:138-139 | an action of any other type throws |

## Left out

- Rendering is not modelled: JSX, styled-components, context wiring, the header and the layout components.
- The map library's internals are not modelled: projection, drawing and camera animation. Its calls are commands in a log. Marker objects are numbered handles from a counter.
- MapLibrary.Extend: `LngLatBounds.extend` is taken to be the componentwise minimum and maximum over real coordinates. Antimeridian wrapping and floating-point rounding are not modelled.
- The access token, the config import and the `window.innerHeight` sizing are environment input and are not modelled.
- `src/hooks.js`, `src/Effects.js` and the rest of `src/LectureNotes.js` are not part of this model. They are timers, window listeners and logging demos.
- `countries.json` is not part of this model. The catalog is a parameter.
- CountrySearch.Lower: `toLowerCase` is modelled on ASCII letters only; Unicode case mapping is not.
- CounterReducer.Reduce: JavaScript numbers are unbounded integers here, so precision loss beyond 2^53 is not modelled. The thrown `Error` is one `Thrown` outcome with no message.
- React's scheduling is not modelled: when effects run, batching, and re-renders. Each effect run is one call of `Reconcile`, and its inputs are the provider's current values.
- The copy `{ ...favorites }` is implicit, because maps are values. For the same reason the reducer cannot modify its input state.
- LegacyCountries.LegacyRows: a row whose raw `isFavorite` is `undefined` is unchecked. React's uncontrolled-input behaviour for `checked={undefined}` is not modelled.
- The code has no persistence to storage, no subscriber registry and no deferring of reconciliation until the map is ready, so there is nothing of these to model.
- A search of spaces only is not treated as empty: the code checks only the length, and the model does the same.
- FavoritesStore.IsFavorite: country codes are assumed not to be names of `Object.prototype` properties (`constructor`, `toString`, `valueOf`, `hasOwnProperty`, `__proto__` and the like). For such a code a read of the plain object finds the inherited property: `isFavorite` is true on `{}`, so `favoriteCountries` lists a catalog country with that code although no favourite is stored. The model reads own keys only. No ISO country code is such a name.
- FavoritesStore.Toggled: for a code naming an `Object.prototype` property, the source takes the delete branch, which deletes nothing, so the code can never be added; for `__proto__` the assignment creates no key. The model adds or removes the key in every case.
- LegacyFavorites.RawIsFavorite: for a code naming an `Object.prototype` property the raw read returns the inherited value (a function), not `true` or `undefined`; the model returns `undefined` (`None`).

## Findings

| source | as written | input that shows it | evidently intended | confidence | as-written member | corrected member |
|---|---|---|---|---|---|---|
| src/map/CountryMap.js:33-47 | `remove()` is called on the markers of non-favourites, but their entries stay in `markers.current`; the `find` at line 40 then sees the stale entry, so no marker is created when the code becomes a favourite again | catalog with one country `US`; toggle `US` on, off, on | a favourite has exactly one marker on the map, as in `src/Map.js`, which drops the entries at line 74 | high (proved about the model; not executed) | CountryMapView.ToggleOffOnLeavesNoMarker | LegacyMap.RunOneToOne |
