/** The map component of `src/map/CountryMap.js`. On mount it creates the map
    and sets `markers.current = []`; whenever `favoriteCountries` or
    `isFavorite` change it calls `remove()` on the markers of entries that are
    no longer favourites, pushes an entry with a new marker for every
    favourite that has none, and fits the camera to the favourites.

    It never takes entries out of `markers.current`: a removed marker's entry
    stays behind, and the `find` on the next addition pass still sees it. */
module CountryMapView {
  import opened Catalog
  import opened Seqs
  import opened MapLibrary
  import opened FavoritesStore
  import opened Markers

  /** The callback `m => !isFavorite(m.country_code)`. */
  function IsStale(favorites: Favorites): (stale: Entry -> bool)
    ensures forall m :: stale(m) <==> !IsFavorite(favorites, m.code)
    ensures forall m :: AllTrue(favorites) ==> (stale(m) <==> m.code !in favorites)
  {
    (m: Entry) => !IsFavorite(favorites, m.code)
  }

  /** `markersToRemove`: the entries whose code is no longer a favourite. */
  function MarkersToRemove(markers: seq<Entry>, favorites: Favorites): (r: seq<Entry>)
    ensures forall e :: e in r <==> e in markers && !IsFavorite(favorites, e.code)
  {
    KeepMembers(markers, IsStale(favorites));
    Keep(markers, IsStale(favorites))
  }

  /** One run of the update effect on the component's state. */
  function Run(s: Surface, countries: seq<Country>, favorites: Favorites): (r: Surface)
    ensures s.log <= r.log
    ensures s.markers <= r.markers && s.next <= r.next
  {
    var fc := FavoriteCountries(countries, favorites);
    var added := AddPass(s.markers, s.next, fc);
    Surface(added.markers,
            s.log + RemoveAll(MarkersToRemove(s.markers, favorites)) + added.cmds + Camera(fc),
            added.next)
  }

  /** What holds between runs: one entry per code, one entry per handle, the
      handles all handed out, and only handles held by an entry on the map. */
  ghost predicate Consistent(s: Surface)
  {
    && NoDupCodes(s.markers)
    && UniqueMarkers(s.markers)
    && Below(s.markers, s.next)
    && Displayed(s.log) <= MarkerIds(s.markers)
  }

  /** The mount effect leaves the refs consistent. */
  lemma MountedConsistent()
    ensures Consistent(Mounted())
  {
  }

  /** The update effect (dependencies `[favoriteCountries, isFavorite]`) on
      the component's refs, given the provider's catalog and favourites map. */
  method Reconcile(refs: Refs, countries: seq<Country>, favorites: Favorites)
    requires Consistent(refs.Snapshot())
    modifies refs
    ensures Consistent(refs.Snapshot())
    ensures refs.Snapshot() == Run(old(refs.Snapshot()), countries, favorites)
    ensures old(refs.markers) <= refs.markers
    ensures forall f :: f in FavoriteCountries(countries, favorites) ==> HasEntry(refs.markers, f.code)
    ensures forall e :: e in refs.markers && !IsFavorite(favorites, e.code) ==> e.marker !in Displayed(refs.log)
  {
    ghost var s := refs.Snapshot();
    var favoriteCountries := FavoriteCountries(countries, favorites);
    var markersToRemove := MarkersToRemove(refs.markers, favorites);
    refs.RemoveMarkers(markersToRemove);
    refs.AddMissing(favoriteCountries);
    refs.FitCamera(favoriteCountries);
    assert refs.Snapshot() == Run(s, countries, favorites);
    RunConsistent(s, countries, favorites);
    RunGrows(s, countries, favorites);
    RunHidesStale(s, countries, favorites);
  }

  /** The markers on the map after a run: the old ones minus the stale
      entries' markers, plus the fresh handles of this run. */
  lemma RunDisplayed(s: Surface, countries: seq<Country>, favorites: Favorites)
    ensures Displayed(Run(s, countries, favorites).log)
            == (Displayed(s.log) - MarkerIds(MarkersToRemove(s.markers, favorites)))
               + Range(s.next, Run(s, countries, favorites).next)
  {
    var fc := FavoriteCountries(countries, favorites);
    var added := AddPass(s.markers, s.next, fc);
    var removals := RemoveAll(MarkersToRemove(s.markers, favorites));
    ApplyConcat({}, s.log + removals + added.cmds, Camera(fc));
    ApplyConcat({}, s.log + removals, added.cmds);
    ApplyConcat({}, s.log, removals);
    RemoveAllEffect(Displayed(s.log), MarkersToRemove(s.markers, favorites));
    AddPassEffect(Apply({}, s.log + removals), s.markers, s.next, fc);
    ApplyNoMarkers(Apply({}, s.log + removals + added.cmds), Camera(fc));
  }

  /** A run keeps the state consistent. */
  lemma RunConsistent(s: Surface, countries: seq<Country>, favorites: Favorites)
    requires Consistent(s)
    ensures Consistent(Run(s, countries, favorites))
  {
    var fc := FavoriteCountries(countries, favorites);
    AddPassNoDup(s.markers, s.next, fc);
    AddPassUnique(s.markers, s.next, fc);
    AddPassHandles(s.markers, s.next, fc);
    RunDisplayed(s, countries, favorites);
  }

  /** A run never shrinks `markers.current`, and afterwards every favourite
      has an entry. */
  lemma RunGrows(s: Surface, countries: seq<Country>, favorites: Favorites)
    ensures s.markers <= Run(s, countries, favorites).markers
    ensures s.next <= Run(s, countries, favorites).next
    ensures forall f :: f in FavoriteCountries(countries, favorites) ==>
                        HasEntry(Run(s, countries, favorites).markers, f.code)
  {
    var fc := FavoriteCountries(countries, favorites);
    AddPassGrows(s.markers, s.next, fc);
    AddPassCovers(s.markers, s.next, fc);
  }

  /** After a run no entry whose code is not a favourite has its marker on
      the map. */
  lemma RunHidesStale(s: Surface, countries: seq<Country>, favorites: Favorites)
    requires Consistent(s)
    ensures var r := Run(s, countries, favorites);
      forall e :: e in r.markers && !IsFavorite(favorites, e.code) ==> e.marker !in Displayed(r.log)
  {
    var r := Run(s, countries, favorites);
    var fc := FavoriteCountries(countries, favorites);
    AddPassGrows(s.markers, s.next, fc);
    AddPassPushed(s.markers, s.next, fc);
    RunDisplayed(s, countries, favorites);
    forall e | e in r.markers && !IsFavorite(favorites, e.code)
      ensures e.marker !in Displayed(r.log)
    {
      var i :| 0 <= i < |r.markers| && r.markers[i] == e;
      if i < |s.markers| {
        assert s.markers[i] == e;
      } else {
        assert false;
      }
    }
  }

  /** The commands a run appends to the log: the removals, the additions and
      the camera move. */
  lemma RunLog(s: Surface, countries: seq<Country>, favorites: Favorites)
    ensures var fc := FavoriteCountries(countries, favorites);
      && s.log <= Run(s, countries, favorites).log
      && Run(s, countries, favorites).log[|s.log|..]
         == RemoveAll(MarkersToRemove(s.markers, favorites)) + AddPass(s.markers, s.next, fc).cmds + Camera(fc)
  {
    var fc := FavoriteCountries(countries, favorites);
    var removals := RemoveAll(MarkersToRemove(s.markers, favorites));
    var adds := AddPass(s.markers, s.next, fc).cmds;
    ConcatAssoc(s.log, removals, adds, Camera(fc));
    AfterPrefix(s.log, removals + adds + Camera(fc));
  }

  /** A run issues a `remove()` for every entry whose code is not a favourite,
      even one whose marker was removed on an earlier run. */
  lemma RunRemovesStale(s: Surface, countries: seq<Country>, favorites: Favorites)
    ensures forall e :: e in s.markers && !IsFavorite(favorites, e.code) ==>
      RemoveMarker(e.marker) in Run(s, countries, favorites).log[|s.log|..]
  {
    RunLog(s, countries, favorites);
    RemoveAllEffect({}, MarkersToRemove(s.markers, favorites));
  }

  /** The camera is moved only when there is a favourite, as the last command
      of the run, to the fitted box with padding 80 and duration 200; the map
      is never created again. */
  lemma RunCamera(s: Surface, countries: seq<Country>, favorites: Favorites)
    ensures var tail := Run(s, countries, favorites).log[|s.log|..];
            var fc := FavoriteCountries(countries, favorites);
      && (forall c :: c in tail ==> !c.CreateMap?)
      && ((exists c :: c in tail && c.FitBounds?) <==> fc != [])
      && (fc != [] ==> tail[|tail| - 1] == FitBounds(FitTo(fc), 80, 200))
  {
    var fc := FavoriteCountries(countries, favorites);
    var removals := RemoveAll(MarkersToRemove(s.markers, favorites));
    var adds := AddPass(s.markers, s.next, fc).cmds;
    RunLog(s, countries, favorites);
    RemoveAllEffect({}, MarkersToRemove(s.markers, favorites));
    AddPassEffect({}, s.markers, s.next, fc);
    CameraLast(removals + adds, fc);
  }

  /** Each provider render re-runs the effect; with unchanged favourites the
      re-run pushes no entry and creates no marker. */
  lemma RerunAddsNothing(s: Surface, countries: seq<Country>, favorites: Favorites)
    requires Consistent(s)
    ensures var r := Run(s, countries, favorites);
      Run(r, countries, favorites).markers == r.markers && Run(r, countries, favorites).next == r.next
  {
    var r := Run(s, countries, favorites);
    RunGrows(s, countries, favorites);
    AddPassNoop(r.markers, r.next, FavoriteCountries(countries, favorites));
  }

  /** An entry whose marker is off the map stays in `markers.current` with
      its marker off the map, and is the only entry for its code: the `find`
      at the addition pass sees it, so no new marker is created even when its
      code is a favourite again. */
  lemma StaleEntryStaysHidden(s: Surface, countries: seq<Country>, favorites: Favorites, e: Entry)
    requires Consistent(s)
    requires e in s.markers && e.marker !in Displayed(s.log)
    ensures var r := Run(s, countries, favorites);
      && e in r.markers
      && e.marker !in Displayed(r.log)
      && (forall e2 :: e2 in r.markers && e2.code == e.code ==> e2 == e)
  {
    var r := Run(s, countries, favorites);
    RunConsistent(s, countries, favorites);
    RunGrows(s, countries, favorites);
    RunDisplayed(s, countries, favorites);
    var i :| 0 <= i < |s.markers| && s.markers[i] == e;
    assert r.markers[i] == e;
    forall e2 | e2 in r.markers && e2.code == e.code
      ensures e2 == e
    {
      var j :| 0 <= j < |r.markers| && r.markers[j] == e2;
      assert i == j;
    }
  }

  /** Toggling a country on, off and on again: after the third run the country
      is a favourite and has an entry, but no marker of its is on the map. */
  lemma ToggleOffOnLeavesNoMarker()
    ensures var countries := [UnitedStates()];
            var on := map["US" := true];
            var s3 := Run(Run(Run(Mounted(), countries, on), countries, map[]), countries, on);
      && FavoriteCountries(countries, on) == countries
      && HasEntry(s3.markers, "US")
      && (forall e :: e in s3.markers && e.code == "US" ==> e.marker !in Displayed(s3.log))
  {
    var countries := [UnitedStates()];
    var on: Favorites := map["US" := true];
    var off: Favorites := map[];
    assert countries[1..] == [];
    assert FavoriteCountries(countries, on) == countries;
    var s0 := Mounted();
    assert Consistent(s0);
    var s1 := Run(s0, countries, on);
    RunConsistent(s0, countries, on);
    RunGrows(s0, countries, on);
    RunDisplayed(s0, countries, on);
    assert UnitedStates() in FavoriteCountries(countries, on);
    var e :| e in s1.markers && e.code == "US";
    assert e.marker in Displayed(s1.log);
    var s2 := Run(s1, countries, off);
    RunConsistent(s1, countries, off);
    RunGrows(s1, countries, off);
    RunHidesStale(s1, countries, off);
    assert e in s2.markers by {
      assert s1.markers <= s2.markers;
    }
    assert e.marker !in Displayed(s2.log);
    StaleEntryStaysHidden(s2, countries, on, e);
  }
}
