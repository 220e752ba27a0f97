/** The parts of the marker reconciliation that `src/map/CountryMap.js` and
    `src/Map.js` share word for word: the `markers.current` entries, the mount
    effect, the removal `forEach`, the addition `forEach` and the camera fit. */
module Markers {
  import opened Catalog
  import opened Seqs
  import opened MapLibrary

  /** One element of `markers.current`: `{ country_code, marker }`. */
  datatype Entry = Entry(code: string, marker: MarkerId)

  /** The component's refs and what the map library has been told so far:
      `markers.current`, the command log, and the next fresh marker handle. */
  datatype Surface = Surface(markers: seq<Entry>, log: seq<Command>, next: MarkerId)

  /** The options of `fitBounds`. */
  const Padding: int := 80
  const Duration: int := 200

  /** The options of `new mapboxgl.Map`. */
  const Container: string := "map"
  const Style: string := "mapbox://styles/mapbox/streets-v11"
  const StartCenter: LngLat := LngLat(-74.5, 40.0)
  const StartZoom: int := 9

  /** The mount effect: the map is created, and `markers.current = []`. */
  function Mounted(): (s: Surface)
    ensures s.markers == [] && Displayed(s.log) == {}
    ensures |s.log| == 1 && s.log[0].CreateMap? && s.log[0].center == LngLat(-74.5, 40.0)
  {
    var log := [CreateMap(Container, Style, StartCenter, StartZoom)];
    ApplyNoMarkers({}, log);
    Surface([], log, 0)
  }

  function EntryCode(e: Entry): string { e.code }
  function EntryMarker(e: Entry): MarkerId { e.marker }

  /** No country has two entries. */
  predicate NoDupCodes(markers: seq<Entry>)
  {
    DistinctBy(markers, EntryCode)
  }

  /** No marker handle is held by two entries. */
  predicate UniqueMarkers(markers: seq<Entry>)
  {
    DistinctBy(markers, EntryMarker)
  }

  /** Every held handle was handed out before `next`. */
  predicate Below(markers: seq<Entry>, next: MarkerId)
  {
    forall e :: e in markers ==> e.marker < next
  }

  function EntryCodes(markers: seq<Entry>): set<string>
  {
    set e | e in markers :: e.code
  }

  function MarkerIds(markers: seq<Entry>): set<MarkerId>
  {
    set e | e in markers :: e.marker
  }

  /** `markers.current.find(m => m.country_code === code)` finds something. */
  predicate HasEntry(markers: seq<Entry>, code: string)
  {
    exists e :: e in markers && e.code == code
  }

  /** The handles `lo`, ..., `hi - 1`. */
  function Range(lo: MarkerId, hi: MarkerId): (r: set<MarkerId>)
    ensures forall k :: k in r <==> lo <= k < hi
    decreases hi - lo
  {
    if hi <= lo then {} else Range(lo, hi - 1) + {hi - 1}
  }

  /** `entries.forEach(m => m.marker.remove())`. */
  function RemoveAll(entries: seq<Entry>): (cmds: seq<Command>)
    ensures |cmds| == |entries|
    ensures forall i :: 0 <= i < |entries| ==> cmds[i] == RemoveMarker(entries[i].marker)
    decreases |entries|
  {
    if entries == [] then []
    else RemoveAll(entries[..|entries| - 1]) + [RemoveMarker(entries[|entries| - 1].marker)]
  }

  /** The removal pass takes exactly the entries' markers off the map, and
      issues a `remove()` for each entry. */
  lemma {:induction false} RemoveAllEffect(shown: set<MarkerId>, entries: seq<Entry>)
    ensures Apply(shown, RemoveAll(entries)) == shown - MarkerIds(entries)
    ensures forall e :: e in entries ==> RemoveMarker(e.marker) in RemoveAll(entries)
    ensures forall c :: c in RemoveAll(entries) ==> c.RemoveMarker?
    decreases |entries|
  {
    if entries != [] {
      var init := entries[..|entries| - 1];
      var last := entries[|entries| - 1];
      RemoveAllEffect(shown, init);
      ApplySnoc(shown, RemoveAll(init), RemoveMarker(last.marker));
      assert entries == init + [last];
      assert MarkerIds(entries) == MarkerIds(init) + {last.marker};
    }
  }

  /** The result of the addition `forEach`: the grown array, the next fresh
      handle, and the commands issued. */
  datatype Added = Added(markers: seq<Entry>, next: MarkerId, cmds: seq<Command>)

  /** One iteration: if no entry has the favourite's code, create a marker at
      its position and push an entry for it. */
  function AddOne(a: Added, f: Country): (r: Added)
    ensures a.markers <= r.markers && a.cmds <= r.cmds && a.next <= r.next
    ensures HasEntry(r.markers, f.code)
    ensures HasEntry(a.markers, f.code) ==> r == a
    ensures !HasEntry(a.markers, f.code) ==>
      |r.markers| == |a.markers| + 1 && r.next == a.next + 1 && |r.cmds| == |a.cmds| + 1
  {
    if HasEntry(a.markers, f.code) then a
    else Added(a.markers + [Entry(f.code, a.next)], a.next + 1, a.cmds + [AddMarker(a.next, f.lnglat)])
  }

  /** `favoriteCountries.forEach(...)` over `markers`, from handle `next` on. */
  function AddPass(markers: seq<Entry>, next: MarkerId, favoriteCountries: seq<Country>): (r: Added)
    ensures markers <= r.markers
    ensures r.next == next + (|r.markers| - |markers|)
    ensures |r.cmds| == r.next - next
    decreases |favoriteCountries|
  {
    if favoriteCountries == [] then Added(markers, next, [])
    else AddOne(AddPass(markers, next, favoriteCountries[..|favoriteCountries| - 1]),
                favoriteCountries[|favoriteCountries| - 1])
  }

  /** What the addition pass guarantees: `markers` is kept as a prefix; each
      pushed entry is a favourite's code with a fresh consecutive handle and a
      matching marker command at that favourite's position; every favourite
      ends up with an entry; and no code gets a second entry. */
  ghost predicate AddedFrom(markers: seq<Entry>, next: MarkerId, fc: seq<Country>, a: Added)
  {
    && markers <= a.markers
    && a.next == next + (|a.markers| - |markers|)
    && |a.cmds| == |a.markers| - |markers|
    && (forall i :: |markers| <= i < |a.markers| ==>
          a.markers[i].marker == next + (i - |markers|) && a.markers[i].code in CodesOf(fc))
    && (forall i :: 0 <= i < |a.cmds| ==>
          exists f :: f in fc && f.code == a.markers[|markers| + i].code && a.cmds[i] == AddMarker(next + i, f.lnglat))
    && (forall f :: f in fc ==> HasEntry(a.markers, f.code))
    && (NoDupCodes(markers) ==> NoDupCodes(a.markers))
  }

  lemma AddOneFacts(markers: seq<Entry>, next: MarkerId, init: seq<Country>, b: Added, f: Country)
    requires AddedFrom(markers, next, init, b)
    ensures AddedFrom(markers, next, init + [f], AddOne(b, f))
  {
    var fc := init + [f];
    assert forall c :: c in init ==> c in fc;
    assert f in fc;
    var a := AddOne(b, f);
    if !HasEntry(b.markers, f.code) {
      var k := |b.markers|;
      assert a.markers[k] == Entry(f.code, b.next);
      assert a.cmds[k - |markers|] == AddMarker(next + (k - |markers|), f.lnglat);
      forall e | e in b.markers
        ensures e in a.markers
      {
      }
      if NoDupCodes(markers) {
        forall i, j | 0 <= i < j < |a.markers|
          ensures EntryCode(a.markers[i]) != EntryCode(a.markers[j])
        {
          if j == k {
            assert a.markers[i] in b.markers;
          } else {
            assert a.markers[i] == b.markers[i] && a.markers[j] == b.markers[j];
          }
        }
      }
    }
  }

  lemma {:induction false} AddPassFacts(markers: seq<Entry>, next: MarkerId, fc: seq<Country>)
    ensures AddedFrom(markers, next, fc, AddPass(markers, next, fc))
    decreases |fc|
  {
    if fc != [] {
      var init := fc[..|fc| - 1];
      AddPassFacts(markers, next, init);
      AddOneFacts(markers, next, init, AddPass(markers, next, init), fc[|fc| - 1]);
      assert init + [fc[|fc| - 1]] == fc;
    }
  }

  /** The pass keeps `markers` as a prefix and only moves `next` forward. */
  lemma AddPassGrows(markers: seq<Entry>, next: MarkerId, fc: seq<Country>)
    ensures markers <= AddPass(markers, next, fc).markers
    ensures next <= AddPass(markers, next, fc).next
  {
    AddPassFacts(markers, next, fc);
  }

  /** After the pass every favourite has an entry. */
  lemma AddPassCovers(markers: seq<Entry>, next: MarkerId, fc: seq<Country>)
    ensures forall f :: f in fc ==> HasEntry(AddPass(markers, next, fc).markers, f.code)
  {
    AddPassFacts(markers, next, fc);
  }

  /** The pass never gives a code a second entry. */
  lemma AddPassNoDup(markers: seq<Entry>, next: MarkerId, fc: seq<Country>)
    requires NoDupCodes(markers)
    ensures NoDupCodes(AddPass(markers, next, fc).markers)
  {
    AddPassFacts(markers, next, fc);
  }

  /** Every pushed entry is a favourite's code with a handle from `next` on. */
  lemma AddPassPushed(markers: seq<Entry>, next: MarkerId, fc: seq<Country>)
    ensures var a := AddPass(markers, next, fc);
      forall i :: |markers| <= i < |a.markers| ==>
        a.markers[i].code in CodesOf(fc) && next <= a.markers[i].marker < a.next
  {
    AddPassFacts(markers, next, fc);
  }

  /** A run of marker commands with consecutive handles adds exactly those handles. */
  lemma {:induction false} ApplyAddRun(shown: set<MarkerId>, cmds: seq<Command>, next: MarkerId)
    requires forall i :: 0 <= i < |cmds| ==> cmds[i].AddMarker? && cmds[i].marker == next + i
    ensures Apply(shown, cmds) == shown + Range(next, next + |cmds|)
    decreases |cmds|
  {
    if cmds != [] {
      var init := cmds[..|cmds| - 1];
      ApplyAddRun(shown, init, next);
      assert Range(next, next + |cmds|) == Range(next, next + |init|) + {next + |init|};
    }
  }

  /** The addition pass puts the fresh handles `next`, ..., `a.next - 1` on the
      map and issues nothing but marker additions. */
  lemma AddPassEffect(shown: set<MarkerId>, markers: seq<Entry>, next: MarkerId, fc: seq<Country>)
    ensures Apply(shown, AddPass(markers, next, fc).cmds) == shown + Range(next, AddPass(markers, next, fc).next)
    ensures forall c :: c in AddPass(markers, next, fc).cmds ==> c.AddMarker?
  {
    var a := AddPass(markers, next, fc);
    AddPassFacts(markers, next, fc);
    forall i | 0 <= i < |a.cmds|
      ensures a.cmds[i].AddMarker? && a.cmds[i].marker == next + i
    {
    }
    ApplyAddRun(shown, a.cmds, next);
  }

  /** After the addition pass the array holds the old handles plus the fresh ones. */
  lemma AddPassHandles(markers: seq<Entry>, next: MarkerId, fc: seq<Country>)
    ensures MarkerIds(AddPass(markers, next, fc).markers) == MarkerIds(markers) + Range(next, AddPass(markers, next, fc).next)
  {
    var a := AddPass(markers, next, fc);
    AddPassFacts(markers, next, fc);
    forall k | k in Range(next, a.next)
      ensures k in MarkerIds(a.markers)
    {
      assert a.markers[|markers| + (k - next)] in a.markers;
    }
    forall e | e in a.markers
      ensures e.marker in MarkerIds(markers) + Range(next, a.next)
    {
      var i :| 0 <= i < |a.markers| && a.markers[i] == e;
      if i < |markers| {
        assert markers[i] == e;
      }
    }
    forall e | e in markers
      ensures e.marker in MarkerIds(a.markers)
    {
      var i :| 0 <= i < |markers| && markers[i] == e;
      assert a.markers[i] == e;
    }
  }

  /** Fresh handles keep every handle held by at most one entry. */
  lemma AddPassUnique(markers: seq<Entry>, next: MarkerId, fc: seq<Country>)
    requires UniqueMarkers(markers) && Below(markers, next)
    ensures UniqueMarkers(AddPass(markers, next, fc).markers)
    ensures Below(AddPass(markers, next, fc).markers, AddPass(markers, next, fc).next)
  {
    var a := AddPass(markers, next, fc);
    AddPassFacts(markers, next, fc);
    forall i, j | 0 <= i < j < |a.markers|
      ensures EntryMarker(a.markers[i]) != EntryMarker(a.markers[j])
    {
      if j < |markers| {
        assert a.markers[i] == markers[i] && a.markers[j] == markers[j];
      } else if i < |markers| {
        assert a.markers[i] == markers[i] && markers[i] in markers;
      }
    }
    forall e | e in a.markers
      ensures e.marker < a.next
    {
      var i :| 0 <= i < |a.markers| && a.markers[i] == e;
      if i < |markers| {
        assert markers[i] == e;
      }
    }
  }

  /** When every favourite already has an entry, the pass pushes nothing and
      issues no command. */
  lemma {:induction false} AddPassNoop(markers: seq<Entry>, next: MarkerId, fc: seq<Country>)
    requires forall f :: f in fc ==> HasEntry(markers, f.code)
    ensures AddPass(markers, next, fc) == Added(markers, next, [])
    decreases |fc|
  {
    if fc != [] {
      AddPassNoop(markers, next, fc[..|fc| - 1]);
      assert fc[|fc| - 1] in fc;
    }
  }

  /** `favoriteCountries.reduce((bounds, { lnglat }) => bounds.extend(lnglat), b)`:
      the result holds the start box and every position, and each of its four
      sides comes from the start box or from one of the positions. */
  function ExtendAll(b: Bounds, countries: seq<Country>): (r: Bounds)
    requires WellFormed(b)
    ensures WellFormed(r)
    ensures forall q :: Contains(b, q) ==> Contains(r, q)
    ensures forall c :: c in countries ==> Contains(r, c.lnglat)
    ensures r.sw.lng == b.sw.lng || exists c :: c in countries && r.sw.lng == c.lnglat.lng
    ensures r.sw.lat == b.sw.lat || exists c :: c in countries && r.sw.lat == c.lnglat.lat
    ensures r.ne.lng == b.ne.lng || exists c :: c in countries && r.ne.lng == c.lnglat.lng
    ensures r.ne.lat == b.ne.lat || exists c :: c in countries && r.ne.lat == c.lnglat.lat
    decreases |countries|
  {
    if countries == [] then b
    else
      var rest := countries[1..];
      assert forall c :: c in rest ==> c in countries;
      ExtendAll(Extend(b, countries[0].lnglat), rest)
  }

  /** The box handed to `fitBounds`: seeded with the first favourite's
      position, then extended by every favourite's position. It is the least
      box holding all of them: it holds each, and each side is attained. */
  function FitTo(favoriteCountries: seq<Country>): (r: Bounds)
    requires |favoriteCountries| > 0
    ensures WellFormed(r)
    ensures forall c :: c in favoriteCountries ==> Contains(r, c.lnglat)
    ensures exists c :: c in favoriteCountries && r.sw.lng == c.lnglat.lng
    ensures exists c :: c in favoriteCountries && r.sw.lat == c.lnglat.lat
    ensures exists c :: c in favoriteCountries && r.ne.lng == c.lnglat.lng
    ensures exists c :: c in favoriteCountries && r.ne.lat == c.lnglat.lat
  {
    var first := favoriteCountries[0];
    assert first in favoriteCountries;
    ExtendAll(Bounds(first.lnglat, first.lnglat), favoriteCountries)
  }

  /** Any box that holds every favourite's position holds the fitted box. */
  lemma FitToIsLeast(favoriteCountries: seq<Country>, other: Bounds)
    requires |favoriteCountries| > 0
    requires forall c :: c in favoriteCountries ==> Contains(other, c.lnglat)
    ensures Contains(other, FitTo(favoriteCountries).sw) && Contains(other, FitTo(favoriteCountries).ne)
  {
    var r := FitTo(favoriteCountries);
    var a :| a in favoriteCountries && r.sw.lng == a.lnglat.lng;
    var b :| b in favoriteCountries && r.sw.lat == b.lnglat.lat;
    var c :| c in favoriteCountries && r.ne.lng == c.lnglat.lng;
    var d :| d in favoriteCountries && r.ne.lat == d.lnglat.lat;
    assert Contains(other, a.lnglat) && Contains(other, b.lnglat);
    assert Contains(other, c.lnglat) && Contains(other, d.lnglat);
  }

  /** A single favourite gives the degenerate box at its position. */
  lemma FitToSingle(c: Country)
    ensures FitTo([c]) == Bounds(c.lnglat, c.lnglat)
  {
    var p := c.lnglat;
    assert [c][1..] == [];
    assert Extend(Bounds(p, p), p) == Bounds(p, p);
  }

  /** Two favourites: the box's corners are the componentwise minimum and
      maximum of their positions. */
  lemma FitToPair(c: Country, d: Country)
    ensures FitTo([c, d]) == Bounds(LngLat(Min(c.lnglat.lng, d.lnglat.lng), Min(c.lnglat.lat, d.lnglat.lat)),
                                    LngLat(Max(c.lnglat.lng, d.lnglat.lng), Max(c.lnglat.lat, d.lnglat.lat)))
  {
    var p := c.lnglat;
    assert [c, d][1..] == [d];
    assert [d][1..] == [];
    assert Extend(Bounds(p, p), p) == Bounds(p, p);
  }

  /** The camera step: `fitBounds(bounds, { padding: 80, duration: 200 })`
      when there is at least one favourite, nothing otherwise. */
  function Camera(favoriteCountries: seq<Country>): (cmds: seq<Command>)
    ensures cmds == [] <==> favoriteCountries == []
    ensures favoriteCountries != [] ==> cmds == [FitBounds(FitTo(favoriteCountries), 80, 200)]
    ensures forall c :: c in cmds ==> !c.AddMarker? && !c.RemoveMarker?
  {
    if |favoriteCountries| > 0 then [FitBounds(FitTo(favoriteCountries), Padding, Duration)] else []
  }

  /** Marker commands followed by the camera step: no map creation, a
      `fitBounds` exactly when there are favourites, and it comes last. */
  lemma CameraLast(marks: seq<Command>, fc: seq<Country>)
    requires forall c :: c in marks ==> c.AddMarker? || c.RemoveMarker?
    ensures forall c :: c in marks + Camera(fc) ==> !c.CreateMap?
    ensures (exists c :: c in marks + Camera(fc) && c.FitBounds?) <==> fc != []
    ensures fc != [] ==> (marks + Camera(fc))[|marks + Camera(fc)| - 1] == FitBounds(FitTo(fc), 80, 200)
  {
    if fc != [] {
      var t := marks + Camera(fc);
      assert t[|t| - 1] in t;
    }
  }

  /** A map component's two refs, `map` and `markers`, together with the
      calls made on the map library through them. */
  class Refs {
    var markers: seq<Entry>      // markers.current
    var log: seq<Command>        // every call made on map.current and its markers
    var nextMarker: MarkerId     // the handle the next `new Marker()` returns

    function Snapshot(): Surface
      reads this
    {
      Surface(markers, log, nextMarker)
    }

    /** The mount effect (`[]` dependencies, so it runs once). */
    constructor ()
      ensures Snapshot() == Mounted()
    {
      markers := [];
      log := [CreateMap(Container, Style, StartCenter, StartZoom)];
      nextMarker := 0;
    }

    /** `markersToRemove.forEach(m => m.marker.remove())`. */
    method RemoveMarkers(markersToRemove: seq<Entry>)
      modifies this
      ensures log == old(log) + RemoveAll(markersToRemove)
      ensures markers == old(markers) && nextMarker == old(nextMarker)
    {
      var i := 0;
      while i < |markersToRemove|
        invariant 0 <= i <= |markersToRemove|
        invariant log == old(log) + RemoveAll(markersToRemove[..i])
        invariant markers == old(markers) && nextMarker == old(nextMarker)
      {
        assert markersToRemove[..i + 1][..i] == markersToRemove[..i];
        log := log + [RemoveMarker(markersToRemove[i].marker)];
        i := i + 1;
      }
      assert markersToRemove[..i] == markersToRemove;
    }

    /** `favoriteCountries.forEach(...)`: for each favourite that no entry's
        `find` matches, create a marker at its position and push an entry. */
    method AddMissing(favoriteCountries: seq<Country>)
      modifies this
      ensures var a := AddPass(old(markers), old(nextMarker), favoriteCountries);
        markers == a.markers && nextMarker == a.next && log == old(log) + a.cmds
    {
      var j := 0;
      while j < |favoriteCountries|
        invariant 0 <= j <= |favoriteCountries|
        invariant var a := AddPass(old(markers), old(nextMarker), favoriteCountries[..j]);
          markers == a.markers && nextMarker == a.next && log == old(log) + a.cmds
      {
        var f := favoriteCountries[j];
        assert favoriteCountries[..j + 1][..j] == favoriteCountries[..j];
        if !HasEntry(markers, f.code) {
          var marker := nextMarker;
          nextMarker := nextMarker + 1;
          log := log + [AddMarker(marker, f.lnglat)];
          markers := markers + [Entry(f.code, marker)];
        }
        j := j + 1;
      }
      assert favoriteCountries[..j] == favoriteCountries;
    }

    /** The camera step: when there is a favourite, fold `extend` over the
        favourites from the first one's point and call `fitBounds`. */
    method FitCamera(favoriteCountries: seq<Country>)
      modifies this
      ensures log == old(log) + Camera(favoriteCountries)
      ensures markers == old(markers) && nextMarker == old(nextMarker)
    {
      if |favoriteCountries| > 0 {
        var bounds := FitTo(favoriteCountries);
        log := log + [FitBounds(bounds, Padding, Duration)];
      }
    }
  }
}
