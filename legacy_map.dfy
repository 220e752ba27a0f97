/** The map component of `src/Map.js`. Its update effect depends on
    `favoriteCountries` only, and differs from `src/map/CountryMap.js` in one
    step: after computing the entries to remove it reassigns
    `markers.current` to the entries whose code is still among the
    favourites, so a removed marker's entry does not stay behind. */
module LegacyMap {
  import opened Catalog
  import opened Seqs
  import opened MapLibrary
  import opened FavoritesStore
  import opened LegacyFavorites
  import opened Markers

  /** The callback `isFavorite = m => favoriteCountries.find(...)`, read as a truth value. */
  function IsListed(favoriteCountries: seq<Country>): (listed: Entry -> bool)
    ensures forall m :: listed(m) <==> m.code in CodesOf(favoriteCountries)
  {
    (m: Entry) => Listed(favoriteCountries, m.code)
  }

  /** The callback `m => !isFavorite(m)`. */
  function IsUnlisted(favoriteCountries: seq<Country>): (unlisted: Entry -> bool)
    ensures forall m :: unlisted(m) <==> m.code !in CodesOf(favoriteCountries)
  {
    (m: Entry) => !Listed(favoriteCountries, m.code)
  }

  /** `markersToRemove`: the entries whose code is not among the favourites. */
  function MarkersToRemove(markers: seq<Entry>, favoriteCountries: seq<Country>): (r: seq<Entry>)
    ensures forall e :: e in r <==> e in markers && !Listed(favoriteCountries, e.code)
  {
    KeepMembers(markers, IsUnlisted(favoriteCountries));
    Keep(markers, IsUnlisted(favoriteCountries))
  }

  /** `markers.current.filter(isFavorite)`: the entries that stay. */
  function MarkersToKeep(markers: seq<Entry>, favoriteCountries: seq<Country>): (r: seq<Entry>)
    ensures forall e :: e in r <==> e in markers && Listed(favoriteCountries, e.code)
  {
    KeepMembers(markers, IsListed(favoriteCountries));
    Keep(markers, IsListed(favoriteCountries))
  }

  /** One run of the update effect on the component's state. */
  function Run(s: Surface, favoriteCountries: seq<Country>): (r: Surface)
    ensures s.log <= r.log && s.next <= r.next
    ensures forall e :: e in s.markers && Listed(favoriteCountries, e.code) ==> e in r.markers
  {
    var kept := MarkersToKeep(s.markers, favoriteCountries);
    var added := AddPass(kept, s.next, favoriteCountries);
    Surface(added.markers,
            s.log + RemoveAll(MarkersToRemove(s.markers, favoriteCountries)) + added.cmds + Camera(favoriteCountries),
            added.next)
  }

  /** What holds between runs: one entry per code, one entry per handle, the
      handles all handed out, and the markers on the map are exactly the
      entries' markers. */
  ghost predicate Consistent(s: Surface)
  {
    && NoDupCodes(s.markers)
    && UniqueMarkers(s.markers)
    && Below(s.markers, s.next)
    && Displayed(s.log) == MarkerIds(s.markers)
  }

  /** The mount effect leaves the refs consistent. */
  lemma MountedConsistent()
    ensures Consistent(Mounted())
  {
  }

  /** The update effect (dependencies `[favoriteCountries]`) on the
      component's refs. */
  method Reconcile(refs: Refs, favoriteCountries: seq<Country>)
    requires Consistent(refs.Snapshot())
    modifies refs
    ensures Consistent(refs.Snapshot())
    ensures refs.Snapshot() == Run(old(refs.Snapshot()), favoriteCountries)
    ensures EntryCodes(refs.markers) == CodesOf(favoriteCountries)
  {
    ghost var s := refs.Snapshot();
    var markersToRemove := MarkersToRemove(refs.markers, favoriteCountries);
    refs.markers := MarkersToKeep(refs.markers, favoriteCountries);
    refs.RemoveMarkers(markersToRemove);
    refs.AddMissing(favoriteCountries);
    refs.FitCamera(favoriteCountries);
    assert refs.Snapshot() == Run(s, favoriteCountries);
    RunConsistent(s, favoriteCountries);
    RunCodes(s, favoriteCountries);
  }

  /** The kept and the removed entries together hold every handle, and with
      one entry per handle no handle is both kept and removed. */
  lemma PruneSplit(markers: seq<Entry>, favoriteCountries: seq<Country>)
    requires UniqueMarkers(markers)
    ensures MarkerIds(markers) == MarkerIds(MarkersToKeep(markers, favoriteCountries))
                                  + MarkerIds(MarkersToRemove(markers, favoriteCountries))
    ensures MarkerIds(MarkersToKeep(markers, favoriteCountries))
            !! MarkerIds(MarkersToRemove(markers, favoriteCountries))
  {
    var kept := MarkersToKeep(markers, favoriteCountries);
    var dropped := MarkersToRemove(markers, favoriteCountries);
    forall e1, e2 | e1 in kept && e2 in dropped
      ensures e1.marker != e2.marker
    {
      var i :| 0 <= i < |markers| && markers[i] == e1;
      var j :| 0 <= j < |markers| && markers[j] == e2;
      if i < j {
        assert EntryMarker(markers[i]) != EntryMarker(markers[j]);
      } else if j < i {
        assert EntryMarker(markers[j]) != EntryMarker(markers[i]);
      }
    }
  }

  /** The markers on the map after a run: the old ones minus the removed
      entries' markers, plus the fresh handles of this run. */
  lemma RunDisplayed(s: Surface, favoriteCountries: seq<Country>)
    ensures Displayed(Run(s, favoriteCountries).log)
            == (Displayed(s.log) - MarkerIds(MarkersToRemove(s.markers, favoriteCountries)))
               + Range(s.next, Run(s, favoriteCountries).next)
  {
    var fc := favoriteCountries;
    var kept := MarkersToKeep(s.markers, fc);
    var added := AddPass(kept, s.next, fc);
    var removals := RemoveAll(MarkersToRemove(s.markers, fc));
    ApplyConcat({}, s.log + removals + added.cmds, Camera(fc));
    ApplyConcat({}, s.log + removals, added.cmds);
    ApplyConcat({}, s.log, removals);
    RemoveAllEffect(Displayed(s.log), MarkersToRemove(s.markers, fc));
    AddPassEffect(Apply({}, s.log + removals), kept, s.next, fc);
    ApplyNoMarkers(Apply({}, s.log + removals + added.cmds), Camera(fc));
  }

  /** A run keeps the state consistent. */
  lemma RunConsistent(s: Surface, favoriteCountries: seq<Country>)
    requires Consistent(s)
    ensures Consistent(Run(s, favoriteCountries))
  {
    var fc := favoriteCountries;
    var kept := MarkersToKeep(s.markers, fc);
    KeepDistinct(s.markers, IsListed(fc), EntryCode);
    KeepDistinct(s.markers, IsListed(fc), EntryMarker);
    AddPassNoDup(kept, s.next, fc);
    AddPassUnique(kept, s.next, fc);
    AddPassHandles(kept, s.next, fc);
    PruneSplit(s.markers, fc);
    RunDisplayed(s, fc);
  }

  /** After a run the entries' codes are exactly the favourites' codes. */
  lemma RunCodes(s: Surface, favoriteCountries: seq<Country>)
    ensures EntryCodes(Run(s, favoriteCountries).markers) == CodesOf(favoriteCountries)
  {
    var fc := favoriteCountries;
    var kept := MarkersToKeep(s.markers, fc);
    var r := Run(s, fc);
    AddPassGrows(kept, s.next, fc);
    AddPassPushed(kept, s.next, fc);
    AddPassCovers(kept, s.next, fc);
    forall e | e in r.markers
      ensures e.code in CodesOf(fc)
    {
      var i :| 0 <= i < |r.markers| && r.markers[i] == e;
      if i < |kept| {
        assert kept[i] == e;
      }
    }
  }

  /** After a run from a consistent state, markers and favourites correspond
      one to one: every favourite's code has exactly one entry, every entry
      is a favourite's, and the markers on the map are exactly the entries'
      markers, no two entries sharing one. */
  lemma RunOneToOne(s: Surface, favoriteCountries: seq<Country>)
    requires Consistent(s)
    ensures var r := Run(s, favoriteCountries);
      && EntryCodes(r.markers) == CodesOf(favoriteCountries)
      && NoDupCodes(r.markers)
      && UniqueMarkers(r.markers)
      && Displayed(r.log) == MarkerIds(r.markers)
  {
    RunConsistent(s, favoriteCountries);
    RunCodes(s, favoriteCountries);
  }

  /** With the provider of `src/MapProvider.js`, the countries with a marker
      on the map are the catalog countries whose code is a key of the map. */
  lemma FavoritesOnMap(s: Surface, countries: seq<Country>, favorites: Favorites)
    requires Consistent(s) && AllTrue(favorites)
    ensures var r := Run(s, LegacyFavoriteCountries(countries, favorites));
      && EntryCodes(r.markers) == CodesOf(countries) * favorites.Keys
      && Displayed(r.log) == MarkerIds(r.markers)
  {
    LegacyFavoriteCountriesAgree(countries, favorites);
    FavoriteCodes(countries, favorites);
    RunOneToOne(s, LegacyFavoriteCountries(countries, favorites));
  }

  /** An entry whose code is no longer a favourite loses its marker and its
      place in `markers.current`. */
  lemma RunDropsStale(s: Surface, favoriteCountries: seq<Country>)
    requires Consistent(s)
    ensures var r := Run(s, favoriteCountries);
      forall e :: e in s.markers && !Listed(favoriteCountries, e.code) ==>
        e.marker !in Displayed(r.log) && e !in r.markers
  {
    var fc := favoriteCountries;
    var r := Run(s, fc);
    RunDisplayed(s, fc);
    RunCodes(s, fc);
    forall e | e in s.markers && !Listed(fc, e.code)
      ensures e.marker !in Displayed(r.log) && e !in r.markers
    {
      assert e.marker in MarkerIds(MarkersToRemove(s.markers, fc));
      assert e.code !in CodesOf(fc);
      assert e.code !in EntryCodes(r.markers);
    }
  }

  /** The commands a run appends to the log. */
  lemma RunLog(s: Surface, favoriteCountries: seq<Country>)
    ensures var kept := MarkersToKeep(s.markers, favoriteCountries);
      && s.log <= Run(s, favoriteCountries).log
      && Run(s, favoriteCountries).log[|s.log|..]
         == RemoveAll(MarkersToRemove(s.markers, favoriteCountries))
            + AddPass(kept, s.next, favoriteCountries).cmds + Camera(favoriteCountries)
  {
    var fc := favoriteCountries;
    var removals := RemoveAll(MarkersToRemove(s.markers, fc));
    var adds := AddPass(MarkersToKeep(s.markers, fc), s.next, fc).cmds;
    ConcatAssoc(s.log, removals, adds, Camera(fc));
    AfterPrefix(s.log, removals + adds + Camera(fc));
  }

  /** The camera is moved only when there is a favourite, as the last command
      of the run, to the fitted box with padding 80 and duration 200; the map
      is never created again. */
  lemma RunCamera(s: Surface, favoriteCountries: seq<Country>)
    ensures var tail := Run(s, favoriteCountries).log[|s.log|..];
      && (forall c :: c in tail ==> !c.CreateMap?)
      && ((exists c :: c in tail && c.FitBounds?) <==> favoriteCountries != [])
      && (favoriteCountries != [] ==> tail[|tail| - 1] == FitBounds(FitTo(favoriteCountries), 80, 200))
  {
    var fc := favoriteCountries;
    var kept := MarkersToKeep(s.markers, fc);
    RunLog(s, fc);
    RemoveAllEffect({}, MarkersToRemove(s.markers, fc));
    AddPassEffect({}, kept, s.next, fc);
    CameraLast(RemoveAll(MarkersToRemove(s.markers, fc)) + AddPass(kept, s.next, fc).cmds, fc);
  }

  /** When every entry's code is among the favourites, pruning keeps the
      whole array and removes nothing. */
  lemma PruneNothing(markers: seq<Entry>, favoriteCountries: seq<Country>)
    requires EntryCodes(markers) <= CodesOf(favoriteCountries)
    ensures MarkersToKeep(markers, favoriteCountries) == markers
    ensures MarkersToRemove(markers, favoriteCountries) == []
  {
    forall e | e in markers
      ensures Listed(favoriteCountries, e.code)
    {
      assert e.code in EntryCodes(markers);
    }
    KeepAll(markers, IsListed(favoriteCountries));
    KeepNone(markers, IsUnlisted(favoriteCountries));
  }

  /** Re-running the effect with the same favourites removes nothing, adds
      nothing and only moves the camera again. */
  lemma RerunOnlyMovesCamera(s: Surface, favoriteCountries: seq<Country>)
    ensures var r := Run(s, favoriteCountries);
      Run(r, favoriteCountries) == Surface(r.markers, r.log + Camera(favoriteCountries), r.next)
  {
    var fc := favoriteCountries;
    var r := Run(s, fc);
    RunCodes(s, fc);
    PruneNothing(r.markers, fc);
    forall f | f in fc
      ensures HasEntry(r.markers, f.code)
    {
      assert f.code in EntryCodes(r.markers);
    }
    AddPassNoop(r.markers, r.next, fc);
    assert RemoveAll([]) == [];
  }

  /** Toggling a country on, off and on again: the first marker is removed
      and stays off the map, and after the third run the country has an
      entry whose marker is a fresh one, shown on the map. */
  lemma ToggleOffOnShowsFreshMarker()
    ensures var countries := [UnitedStates()];
            var on := map["US" := true];
            var s1 := Run(Mounted(), LegacyFavoriteCountries(countries, on));
            var s3 := Run(Run(s1, LegacyFavoriteCountries(countries, map[])),
                          LegacyFavoriteCountries(countries, on));
      && HasEntry(s1.markers, "US")
      && HasEntry(s3.markers, "US")
      && (forall e :: e in s3.markers && e.code == "US" ==> e.marker in Displayed(s3.log))
      && (forall e1, e3 :: e1 in s1.markers && e3 in s3.markers ==>
            e1.marker != e3.marker && e1.marker !in Displayed(s3.log))
  {
    var countries := [UnitedStates()];
    var on: Favorites := map["US" := true];
    var off: Favorites := map[];
    var fcOn := LegacyFavoriteCountries(countries, on);
    var fcOff := LegacyFavoriteCountries(countries, off);
    LegacyFavoriteCountriesAgree(countries, off);
    ClearedIsEmpty(countries);
    assert fcOff == [];
    var s0 := Mounted();
    var s1 := Run(s0, fcOn);
    var s2 := Run(s1, fcOff);
    var s3 := Run(s2, fcOn);
    FavoritesOnMap(s0, countries, on);
    assert "US" in EntryCodes(s1.markers);
    RunConsistent(s0, fcOn);
    RunConsistent(s1, fcOff);
    RunCodes(s1, fcOff);
    assert s2.markers == [];
    AddPassGrows(MarkersToKeep(s1.markers, fcOff), s1.next, fcOff);
    FavoritesOnMap(s2, countries, on);
    assert "US" in EntryCodes(s3.markers);
    assert MarkersToKeep(s2.markers, fcOn) == [];
    AddPassPushed([], s2.next, fcOn);
    forall e3 | e3 in s3.markers
      ensures s2.next <= e3.marker
    {
      var i :| 0 <= i < |s3.markers| && s3.markers[i] == e3;
    }
  }
}

/** The search list of `src/Map.js`: the same case-insensitive filter as in
    `src/map/Countries.js`, written with an extra `!search` test, and rows
    checked by the raw `isFavorite` of `src/MapProvider.js`. */
module LegacyCountries {
  import opened Catalog
  import opened Seqs
  import opened FavoritesStore
  import opened LegacyFavorites
  import opened CountrySearch

  /** The filter callback: `!search || search.length === 0 || name.toLowerCase().indexOf(search.toLowerCase()) > -1`.
      A string is falsy exactly when it is empty. */
  function LegacyMatches(search: string): (test: Country -> bool)
    ensures forall c :: test(c) <==> Match(search, c.name)
  {
    (c: Country) => search == "" || |search| == 0 || IndexOf(Lower(c.name), Lower(search)) > -1
  }

  /** The filtered catalog. */
  function LegacyFilter(countries: seq<Country>, search: string): (r: seq<Country>)
    ensures forall c :: c in r ==> c in countries && LegacyMatches(search)(c)
  {
    Keep(countries, LegacyMatches(search))
  }

  /** The `!search` test adds nothing: the filter keeps exactly the entries
      whose name contains the search string, ignoring case, as in
      `src/map/Countries.js`. */
  lemma LegacyFilterAgrees(countries: seq<Country>, search: string)
    ensures LegacyFilter(countries, search) == FilterCountries(countries, search)
    ensures forall c :: c in LegacyFilter(countries, search) <==>
                        c in countries && IsSubstring(Lower(search), Lower(c.name))
  {
    KeepAgree(countries, LegacyMatches(search), Matches(search));
    FilterExact(countries, search);
  }

  /** The rendered rows: one per matching country, checked when the raw
      `isFavorite` is truthy. */
  function LegacyRows(countries: seq<Country>, search: string, favorites: Favorites): (rows: seq<Row>)
    ensures |rows| == |LegacyFilter(countries, search)|
  {
    var shown := LegacyFilter(countries, search);
    seq(|shown|, i requires 0 <= i < |shown| =>
      Row(shown[i].code, shown[i].name, Truthy(RawIsFavorite(favorites, shown[i].code))))
  }

  /** Both search lists render the same rows from the same favourites. */
  lemma LegacyRowsAgree(countries: seq<Country>, search: string, favorites: Favorites)
    ensures LegacyRows(countries, search, favorites) == Rows(countries, search, favorites)
  {
    LegacyFilterAgrees(countries, search);
  }
}
