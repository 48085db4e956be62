/**
 * The coordinate helpers of `utils/extract_route_from_ridewithgps.py`:
 * reading (lat, lon) pairs out of a Ride with GPS JSON payload, with range
 * checks and a swap for [lon, lat] entries. Its polyline encoder is the
 * copy in `Coordinates`.
 */
module RideWithGps {
  import opened Wrappers
  import opened Text
  import opened PyValue
  import opened Coordinates

  predicate InLat(x: real)
  {
    -90.0 <= x <= 90.0
  }

  predicate InLon(x: real)
  {
    -180.0 <= x <= 180.0
  }

  // ------------------------------------------------------------------ [a, b] entries

  /**
   * `_latlon_from_sequence`: the first two values as (lat, lon) when they
   * are in range in that order, swapped when only the other order is in
   * range, else `None`; `None` as well for a short entry or a value `float`
   * rejects.
   */
  function LatLonFromSequence(entry: seq<Value>, floatOf: string -> Option<real>): (r: Option<Point>)
    ensures |entry| < 2 ==> r.None?
    ensures r.Some? ==> InLat(r.value.0) && InLon(r.value.1)
    ensures |entry| >= 2 ==>
      var first, second := ToFloat(entry[0], floatOf), ToFloat(entry[1], floatOf);
      && (first.None? || second.None? ==> r.None?)
      && (first.Some? && second.Some? ==>
            && (InLat(first.value) && InLon(second.value) ==> r == Some((first.value, second.value)))
            && (!(InLat(first.value) && InLon(second.value)) && InLon(first.value) && InLat(second.value) ==>
                  r == Some((second.value, first.value)))
            && (r.Some? ==> r == Some((first.value, second.value)) || r == Some((second.value, first.value))))
  {
    if |entry| < 2 then None
    else
      var first := ToFloat(entry[0], floatOf);
      var second := ToFloat(entry[1], floatOf);
      if first.None? || second.None? then None
      else if InLat(first.value) && InLon(second.value) then Some((first.value, second.value))
      else if InLon(first.value) && InLat(second.value) then Some((second.value, first.value))
      else None
  }

  // ------------------------------------------------------------------ guessing keys

  /** The number `float` makes of the value of entry `i`. */
  function NumberAt(entry: Entries, i: nat, floatOf: string -> Option<real>): Option<real>
    requires i < |entry|
  {
    ToFloat(entry[i].1, floatOf)
  }

  predicate LatAt(entry: Entries, i: nat, floatOf: string -> Option<real>)
    requires i < |entry|
  {
    NumberAt(entry, i, floatOf).Some? && InLat(NumberAt(entry, i, floatOf).value)
  }

  predicate LonAt(entry: Entries, i: nat, floatOf: string -> Option<real>)
    requires i < |entry|
  {
    NumberAt(entry, i, floatOf).Some? && InLon(NumberAt(entry, i, floatOf).value)
  }

  /** The first of the first `n` entries whose number is a latitude. */
  function FirstLat(entry: Entries, n: nat, floatOf: string -> Option<real>): (r: Option<nat>)
    requires n <= |entry|
    ensures r.Some? ==>
      && r.value < n && LatAt(entry, r.value, floatOf)
      && forall j :: 0 <= j < r.value ==> !LatAt(entry, j, floatOf)
    ensures r.None? ==> forall j :: 0 <= j < n ==> !LatAt(entry, j, floatOf)
  {
    if n == 0 then None
    else
      var f := FirstLat(entry, n - 1, floatOf);
      if f.Some? then f
      else if LatAt(entry, n - 1, floatOf) then Some(n - 1)
      else None
  }

  /** The first of the first `n` entries, other than `skip`, whose number is a longitude. */
  function FirstLonOther(entry: Entries, n: nat, skip: Option<nat>, floatOf: string -> Option<real>): (r: Option<nat>)
    requires n <= |entry|
    ensures r.Some? ==>
      && r.value < n && Some(r.value) != skip && LonAt(entry, r.value, floatOf)
      && forall j :: 0 <= j < r.value && Some(j) != skip ==> !LonAt(entry, j, floatOf)
    ensures r.None? ==> forall j :: 0 <= j < n && Some(j) != skip ==> !LonAt(entry, j, floatOf)
  {
    if n == 0 then None
    else
      var f := FirstLonOther(entry, n - 1, skip, floatOf);
      if f.Some? then f
      else if Some(n - 1) != skip && LonAt(entry, n - 1, floatOf) then Some(n - 1)
      else None
  }

  lemma {:induction false} SkipBeyond(entry: Entries, n: nat, s: nat, floatOf: string -> Option<real>)
    requires n <= |entry| && n <= s
    ensures FirstLonOther(entry, n, Some(s), floatOf) == FirstLonOther(entry, n, None, floatOf)
  {
    if n > 0 {
      SkipBeyond(entry, n - 1, s, floatOf);
    }
  }

  function KeyAt(entry: Entries, i: Option<nat>): Option<string>
    requires i.Some? ==> i.value < |entry|
  {
    if i.Some? then Some(entry[i.value].0) else None
  }

  /**
   * `_guess_lat_lon_keys`: the key of the first value in [-90, 90] is the
   * latitude; the key of the first other value in [-180, 180] is the
   * longitude. Values `float` rejects are skipped.
   */
  method GuessLatLonKeys(entry: Entries, floatOf: string -> Option<real>)
    returns (latCandidate: Option<string>, lonCandidate: Option<string>)
    ensures latCandidate == KeyAt(entry, FirstLat(entry, |entry|, floatOf))
    ensures lonCandidate == KeyAt(entry, FirstLonOther(entry, |entry|, FirstLat(entry, |entry|, floatOf), floatOf))
  {
    latCandidate, lonCandidate := None, None;
    for i := 0 to |entry|
      invariant latCandidate == KeyAt(entry, FirstLat(entry, i, floatOf))
      invariant lonCandidate == KeyAt(entry, FirstLonOther(entry, i, FirstLat(entry, i, floatOf), floatOf))
    {
      var (key, value) := entry[i];
      var numeric := ToFloat(value, floatOf);
      if numeric.None? {
        continue;
      }
      if InLat(numeric.value) && latCandidate.None? {
        SkipBeyond(entry, i, i, floatOf);
        latCandidate := Some(key);
      } else if InLon(numeric.value) && lonCandidate.None? {
        lonCandidate := Some(key);
      }
    }
  }

  /** What `_guess_lat_lon_keys` returns. */
  function GuessedKeys(entry: Entries, floatOf: string -> Option<real>): (Option<string>, Option<string>)
  {
    var lat := FirstLat(entry, |entry|, floatOf);
    (KeyAt(entry, lat), KeyAt(entry, FirstLonOther(entry, |entry|, lat, floatOf)))
  }

  // ------------------------------------------------------------------ whole sequences

  /** The pair one entry of a coordinate list gives. */
  function EntryPoint(entry: Value, floatOf: string -> Option<real>): Option<Point>
  {
    match entry
    case Dict(d) => LatLonFromDict(d, GuessedKeys(d, floatOf), floatOf)
    case List(items) => if |items| >= 2 then LatLonFromSequence(items, floatOf) else None
    case _ => None
  }

  /** `EntryPoint` as the reader the entry loop takes. */
  function Reader(floatOf: string -> Option<real>): Value -> Option<Point>
  {
    v => EntryPoint(v, floatOf)
  }

  /**
   * What `_coerce_coordinate_sequence` returns: a dict delegates to its
   * "coordinates" value, else its "points" value (a key holding `None`
   * counts as absent); a list gives the pairs of its entries without
   * back-to-back repeats; anything else gives `[]`.
   */
  function Coerced(data: Value, floatOf: string -> Option<real>): (r: seq<Point>)
    ensures data.List? ==> |r| <= |data.items| && NoBackToBack(r)
    ensures !data.List? && !data.Dict? ==> r == []
    decreases data
  {
    match data
    case Dict(d) =>
      var coordinates := Get(d, "coordinates");
      var points := Get(d, "points");
      if coordinates.Some? && coordinates.value != Null then
        GetSmaller(d, "coordinates");
        Coerced(coordinates.value, floatOf)
      else if points.Some? && points.value != Null then
        GetSmaller(d, "points");
        Coerced(points.value, floatOf)
      else []
    case List(items) =>
      KeepNewShape(items, Reader(floatOf), None);
      KeepNew(items, Reader(floatOf), None)
    case _ => []
  }

  /** `_coerce_coordinate_sequence`. */
  method CoerceCoordinateSequence(data: Value, floatOf: string -> Option<real>) returns (coords: seq<Point>)
    ensures coords == Coerced(data, floatOf)
    decreases data
  {
    if data.Dict? {
      var coordinates := Get(data.entries, "coordinates");
      if coordinates.Some? && coordinates.value != Null {
        GetSmaller(data.entries, "coordinates");
        coords := CoerceCoordinateSequence(coordinates.value, floatOf);
        return;
      }
      var points := Get(data.entries, "points");
      if points.Some? && points.value != Null {
        GetSmaller(data.entries, "points");
        coords := CoerceCoordinateSequence(points.value, floatOf);
        return;
      }
      return [];
    }
    if !data.List? {
      return [];
    }
    coords := CollectPoints(data.items, Reader(floatOf));
  }

  /** Every pair read from a [a, b] entry is in range, whichever order the entry used. */
  lemma {:induction false} SequenceEntriesInRange(items: seq<Value>, floatOf: string -> Option<real>)
    requires forall i :: 0 <= i < |items| ==> items[i].List?
    ensures forall k :: 0 <= k < |Coerced(List(items), floatOf)| ==>
      InLat(Coerced(List(items), floatOf)[k].0) && InLon(Coerced(List(items), floatOf)[k].1)
  {
    var point := Reader(floatOf);
    forall k | 0 <= k < |KeepNew(items, point, None)|
      ensures InLat(KeepNew(items, point, None)[k].0) && InLon(KeepNew(items, point, None)[k].1)
    {
      var i := KeepNewSource(items, point, None, k);
      assert EntryPoint(items[i], floatOf) == Some(KeepNew(items, point, None)[k]);
    }
  }

  /** A dict holding a non-`None` "coordinates" value is read through it, whatever else it holds. */
  lemma {:induction false} CoordinatesFirst(d: Entries, floatOf: string -> Option<real>)
    requires Get(d, "coordinates").Some? && Get(d, "coordinates").value != Null
    ensures Coerced(Dict(d), floatOf) == Coerced(Get(d, "coordinates").value, floatOf)
  {
  }

  /** Without a usable "coordinates" value, a dict holding a non-`None` "points" value is read through it. */
  lemma {:induction false} PointsSecond(d: Entries, floatOf: string -> Option<real>)
    requires GetOrNull(d, "coordinates") == Null && GetOrNull(d, "points") != Null
    ensures Coerced(Dict(d), floatOf) == Coerced(GetOrNull(d, "points"), floatOf)
  {
  }

  /** A dict with neither a usable "coordinates" nor a usable "points" value gives no pairs. */
  lemma {:induction false} NoRouteKeys(d: Entries, floatOf: string -> Option<real>)
    requires GetOrNull(d, "coordinates") == Null && GetOrNull(d, "points") == Null
    ensures Coerced(Dict(d), floatOf) == []
  {
  }

  // ------------------------------------------------------------------ the payload walk

  /** The route-like keys `_extract_coordinates` reads directly. */
  predicate IsPointsKey(lowered: string)
  {
    lowered in ["track_points", "trackpoints", "points", "coordinates", "course_points"]
  }

  /** What one dict entry yields in `_extract_coordinates`: non-empty pairs, or nothing. */
  function PointsHit(key: string, value: Value, floatOf: string -> Option<real>): (r: Option<seq<Point>>)
    ensures r.Some? ==> r.value != []
  {
    var lowered := AsciiLower(key);
    if IsPointsKey(lowered) then
      var coords := Coerced(value, floatOf);
      if coords != [] then Some(coords) else None
    else if lowered == "route_path" && value.Dict? then
      var coords := Coerced(GetOrNull(value.entries, "coordinates"), floatOf);
      if coords != [] then Some(coords) else None
    else None
  }

  /**
   * `_extract_coordinates`: the pairs of the first dict entry, in
   * breadth-first order, that names a list of points and gives at least
   * one pair; `[]` when none does.
   */
  method ExtractCoordinates(payload: Value, floatOf: string -> Option<real>) returns (coords: seq<Point>)
    ensures coords == (var h := FirstHit(BfsOrder([payload]), (k, v) => PointsHit(k, v, floatOf));
                       if h.Some? then h.value else [])
  {
    var found := SearchEntries(payload, (k, v) => PointsHit(k, v, floatOf));
    coords := if found.Some? then found.value else [];
  }

  /**
   * The walk returns `[]` exactly when no visited dict entry yields pairs,
   * and otherwise the pairs of the earliest visited node that yields any.
   */
  lemma {:induction false} ExtractCoordinatesFirst(payload: Value, floatOf: string -> Option<real>)
    ensures var hit := (k, v) => PointsHit(k, v, floatOf);
      var nodes := BfsOrder([payload]);
      var h := FirstHit(nodes, hit);
      && (h.None? <==> forall i :: 0 <= i < |nodes| ==> NodeHit(nodes[i], hit).None?)
      && (h.Some? ==>
            && h.value != []
            && exists i :: 0 <= i < |nodes| && NodeHit(nodes[i], hit) == h &&
                 forall e :: 0 <= e < i ==> NodeHit(nodes[e], hit).None?)
  {
    var hit := (k, v) => PointsHit(k, v, floatOf);
    var nodes := BfsOrder([payload]);
    FirstHitFirst(nodes, hit);
    var h := FirstHit(nodes, hit);
    if h.Some? {
      var i :| 0 <= i < |nodes| && NodeHit(nodes[i], hit) == h;
      EntryHitFirst(nodes[i].entries, hit);
    }
  }
}
