/** The map library (mapbox-gl) as seen by the reconcilers: every call they
    make becomes a command appended to a log, marker objects become numbered
    handles, and the markers currently on the map are what the log's add and
    remove commands leave behind. `LngLatBounds.extend` is taken to be the
    componentwise minimum/maximum of the box and the point. */
module MapLibrary {
  import opened Catalog

  /** A marker object handed out by `new mapboxgl.Marker()`. */
  type MarkerId = nat

  /** `LngLatBounds`: the south-west and north-east corners of a box. */
  datatype Bounds = Bounds(sw: LngLat, ne: LngLat)

  datatype Command =
    | CreateMap(container: string, style: string, center: LngLat, zoom: int)  // new mapboxgl.Map({...})
    | AddMarker(marker: MarkerId, at: LngLat)                                 // new Marker().setLngLat(at).addTo(map)
    | RemoveMarker(marker: MarkerId)                                          // marker.remove()
    | FitBounds(bounds: Bounds, padding: int, duration: int)                  // map.fitBounds(bounds, {padding, duration})

  /** The point lies inside the box (borders included). */
  predicate Contains(b: Bounds, p: LngLat)
  {
    b.sw.lng <= p.lng <= b.ne.lng && b.sw.lat <= p.lat <= b.ne.lat
  }

  /** The box's corners are ordered. */
  predicate WellFormed(b: Bounds)
  {
    b.sw.lng <= b.ne.lng && b.sw.lat <= b.ne.lat
  }

  function Min(x: real, y: real): real { if x <= y then x else y }
  function Max(x: real, y: real): real { if x <= y then y else x }

  /** `bounds.extend(p)`: the least box holding the old box and the point. */
  function Extend(b: Bounds, p: LngLat): (r: Bounds)
    requires WellFormed(b)
    ensures WellFormed(r) && Contains(r, p)
    ensures forall q :: Contains(b, q) ==> Contains(r, q)
    ensures r.sw.lng == b.sw.lng || r.sw.lng == p.lng
    ensures r.sw.lat == b.sw.lat || r.sw.lat == p.lat
    ensures r.ne.lng == b.ne.lng || r.ne.lng == p.lng
    ensures r.ne.lat == b.ne.lat || r.ne.lat == p.lat
  {
    Bounds(LngLat(Min(b.sw.lng, p.lng), Min(b.sw.lat, p.lat)),
           LngLat(Max(b.ne.lng, p.lng), Max(b.ne.lat, p.lat)))
  }

  /** What one command does to the set of markers on the map. */
  function Effect(shown: set<MarkerId>, c: Command): set<MarkerId>
  {
    match c
    case AddMarker(m, _) => shown + {m}
    case RemoveMarker(m) => shown - {m}
    case _ => shown
  }

  /** The markers on the map after the commands, starting from `shown`. */
  function Apply(shown: set<MarkerId>, cmds: seq<Command>): set<MarkerId>
    decreases |cmds|
  {
    if cmds == [] then shown
    else Effect(Apply(shown, cmds[..|cmds| - 1]), cmds[|cmds| - 1])
  }

  /** The markers on the map after the whole log. */
  function Displayed(log: seq<Command>): set<MarkerId>
  {
    Apply({}, log)
  }

  lemma ApplySnoc(shown: set<MarkerId>, cmds: seq<Command>, c: Command)
    ensures Apply(shown, cmds + [c]) == Effect(Apply(shown, cmds), c)
  {
    assert (cmds + [c])[..|cmds|] == cmds;
  }

  /** Running two command lists one after the other. */
  lemma {:induction false} ApplyConcat(shown: set<MarkerId>, a: seq<Command>, b: seq<Command>)
    ensures Apply(shown, a + b) == Apply(Apply(shown, a), b)
    decreases |b|
  {
    if b == [] {
      assert a + b == a;
    } else {
      var init := b[..|b| - 1];
      var last := b[|b| - 1];
      assert a + b == (a + init) + [last];
      assert b == init + [last];
      ApplyConcat(shown, a, init);
      ApplySnoc(shown, a + init, last);
      ApplySnoc(Apply(shown, a), init, last);
    }
  }


  /** Commands that neither add nor remove markers leave the map's markers alone. */
  lemma {:induction false} ApplyNoMarkers(shown: set<MarkerId>, cmds: seq<Command>)
    requires forall c :: c in cmds ==> !c.AddMarker? && !c.RemoveMarker?
    ensures Apply(shown, cmds) == shown
    decreases |cmds|
  {
    if cmds != [] {
      ApplyNoMarkers(shown, cmds[..|cmds| - 1]);
    }
  }
}
