/**
 * The route helpers of `extract_events_from_json.py`: the breadth-first
 * walk that keeps the longest list of (lat, lon) pairs found anywhere in a
 * stored JSON payload, the reading of one node as such a list, and the
 * guessing of latitude and longitude keys by name or, failing that, by the
 * two smallest digit-only keys. Its polyline encoder is the copy in
 * `Coordinates`.
 */
module JsonRoute {
  import opened Wrappers
  import opened Text
  import opened PyValue
  import opened Coordinates

  // ------------------------------------------------------------------ [a, b] entries

  /**
   * `_latlon_from_sequence`: the first two values as floats, in the order
   * given, with no range check; `None` when there are fewer than two or
   * `float` rejects one of them.
   */
  function LatLonFromSequence(entry: seq<Value>, floatOf: string -> Option<real>): (r: Option<Point>)
    ensures r.Some? <==>
      |entry| >= 2 && ToFloat(entry[0], floatOf).Some? && ToFloat(entry[1], floatOf).Some?
    ensures r.Some? ==> r.value.0 == ToFloat(entry[0], floatOf).value && r.value.1 == ToFloat(entry[1], floatOf).value
  {
    if |entry| < 2 then None
    else
      var lat := ToFloat(entry[0], floatOf);
      var lon := ToFloat(entry[1], floatOf);
      if lat.Some? && lon.Some? then Some((lat.value, lon.value)) else None
  }

  // ------------------------------------------------------------------ guessing keys

  predicate IsLatName(key: string)
  {
    StartsWith(AsciiLower(key), "lat")
  }

  predicate IsLonName(key: string)
  {
    StartsWith(AsciiLower(key), "lon") || StartsWith(AsciiLower(key), "lng")
  }

  /** `key.isdigit()` for ASCII digits: non-empty and digits only. */
  predicate IsDigits(key: string)
  {
    key != [] && forall i :: 0 <= i < |key| ==> IsDigit(key[i])
  }

  /** The first of `keys` that `p` accepts. */
  function FirstWith(keys: seq<string>, p: string -> bool): (r: Option<string>)
    ensures r.Some? ==> r.value in keys && p(r.value)
    ensures r.None? <==> forall i :: 0 <= i < |keys| ==> !p(keys[i])
  {
    if keys == [] then None
    else if p(keys[0]) then Some(keys[0])
    else
      var r := FirstWith(keys[1..], p);
      assert forall i :: 0 < i < |keys| ==> keys[i] == keys[1..][i - 1];
      r
  }

  /** Where the key `FirstWith` returns sits: no earlier key is accepted. */
  lemma {:induction false} FirstWithIndex(keys: seq<string>, p: string -> bool) returns (i: nat)
    requires FirstWith(keys, p).Some?
    ensures i < |keys| && keys[i] == FirstWith(keys, p).value
    ensures forall j :: 0 <= j < i ==> !p(keys[j])
  {
    if p(keys[0]) {
      i := 0;
    } else {
      i := FirstWithIndex(keys[1..], p);
      i := i + 1;
    }
  }

  /** `[key for key in entry.keys() if isinstance(key, str) and key.isdigit()]`. */
  function NumericKeys(keys: seq<string>): (r: seq<string>)
    ensures multiset(r) <= multiset(keys)
    ensures forall i :: 0 <= i < |r| ==> IsDigits(r[i])
    ensures forall i :: 0 <= i < |keys| && IsDigits(keys[i]) ==> keys[i] in r
  {
    if keys == [] then []
    else
      assert keys == [keys[0]] + keys[1..];
      assert forall i :: 0 < i < |keys| ==> keys[i] == keys[1..][i - 1];
      (if IsDigits(keys[0]) then [keys[0]] else []) + NumericKeys(keys[1..])
  }

  /**
   * What `_guess_lat_lon_keys` returns for a dict with these keys: the
   * first key that lower-cases to a "lat" prefix and the first with a
   * "lon" or "lng" prefix when both exist (such keys are never empty, so
   * the truthiness test is a presence test); else the two smallest
   * digit-only keys when there are two; else neither.
   */
  function GuessedKeys(keys: seq<string>): (Option<string>, Option<string>)
  {
    var lat, lon := FirstWith(keys, IsLatName), FirstWith(keys, IsLonName);
    if lat.Some? && lon.Some? then (lat, lon)
    else
      var numeric := NumericKeys(keys);
      if |numeric| >= 2 then
        var sorted := SortText(numeric);
        (Some(sorted[0]), Some(sorted[1]))
      else (None, None)
  }

  lemma {:induction false} LatNotLon(key: string)
    requires IsLatName(key)
    ensures !IsLonName(key)
  {
    var lower := AsciiLower(key);
    assert lower[1] == lower[..3][1] == 'a';
  }

  /** `_guess_lat_lon_keys`: one pass for the named keys, then the digit-only fallback. */
  method GuessLatLonKeys(entry: Entries) returns (latKey: Option<string>, lonKey: Option<string>)
    ensures (latKey, lonKey) == GuessedKeys(Keys(entry))
  {
    var keys := Keys(entry);
    latKey, lonKey := None, None;
    for i := 0 to |keys|
      invariant FirstWith(keys, IsLatName) == if latKey.Some? then latKey else FirstWith(keys[i..], IsLatName)
      invariant FirstWith(keys, IsLonName) == if lonKey.Some? then lonKey else FirstWith(keys[i..], IsLonName)
    {
      var key := keys[i];
      var lower := AsciiLower(key);
      assert keys[i..][1..] == keys[i + 1..];
      if StartsWith(lower, "lat") && latKey.None? {
        latKey := Some(key);
        LatNotLon(key);
      } else if StartsWith(lower, "lon") || StartsWith(lower, "lng") {
        if lonKey.None? {
          lonKey := Some(key);
        }
      } else if StartsWith(lower, "lat") {
        LatNotLon(key);
      }
    }
    assert keys[|keys|..] == [];
    if latKey.Some? && lonKey.Some? {
      return;
    }
    var numeric := NumericKeys(keys);
    if |numeric| >= 2 {
      numeric := SortText(numeric);
      return Some(numeric[0]), Some(numeric[1]);
    }
    return None, None;
  }

  /**
   * The fallback takes the smallest digit-only key and then the smallest
   * of the others, both among the dict's keys; with fewer than two such
   * keys, and no named pair, nothing is guessed.
   */
  lemma {:induction false} GuessedKeysSmallest(keys: seq<string>)
    requires FirstWith(keys, IsLatName).None? || FirstWith(keys, IsLonName).None?
    ensures var numeric := NumericKeys(keys);
      var guess := GuessedKeys(keys);
      && (|numeric| < 2 ==> guess == (None, None))
      && (|numeric| >= 2 ==>
            && guess.0.Some? && guess.1.Some?
            && guess.0.value in keys && IsDigits(guess.0.value)
            && guess.1.value in multiset(numeric) - multiset{guess.0.value}
            && (forall k :: k in numeric ==> LexLe(guess.0.value, k))
            && (forall k :: k in multiset(numeric) - multiset{guess.0.value} ==> LexLe(guess.1.value, k)))
  {
    var numeric := NumericKeys(keys);
    if |numeric| >= 2 {
      var t := SortText(numeric);
      SortTextFirstTwo(numeric);
      FallbackGuess(keys);
      NumericKeysMember(keys, t[0]);
    } else {
      FallbackGuess(keys);
    }
  }

  /** Without a named pair, the guess is the fallback on the digit-only keys. */
  lemma {:induction false} FallbackGuess(keys: seq<string>)
    requires FirstWith(keys, IsLatName).None? || FirstWith(keys, IsLonName).None?
    ensures var numeric := NumericKeys(keys);
      GuessedKeys(keys) == if |numeric| >= 2 then (Some(SortText(numeric)[0]), Some(SortText(numeric)[1])) else (None, None)
  {
  }

  /** A digit-only key the fallback considers is one of the dict's keys. */
  lemma {:induction false} NumericKeysMember(keys: seq<string>, key: string)
    requires key in NumericKeys(keys)
    ensures key in keys && IsDigits(key)
  {
    var numeric := NumericKeys(keys);
    assert key in multiset(numeric);
    assert key in multiset(keys);
  }

  // ------------------------------------------------------------------ whole sequences

  /** The pair one entry of a coordinate list gives. */
  function EntryPoint(entry: Value, floatOf: string -> Option<real>): Option<Point>
  {
    match entry
    case Dict(d) => LatLonFromDict(d, GuessedKeys(Keys(d)), floatOf)
    case List(items) => if |items| >= 2 then LatLonFromSequence(items, floatOf) else None
    case _ => None
  }

  /** `EntryPoint` as the reader the entry loop takes. */
  function Reader(floatOf: string -> Option<real>): Value -> Option<Point>
  {
    v => EntryPoint(v, floatOf)
  }

  /**
   * What `_coerce_coordinate_sequence` returns: a dict delegates to its
   * "coordinates" value, else its "points" value, else its "track_points"
   * value (a key holding `None` counts as absent); a list gives the pairs
   * of its entries without back-to-back repeats; a string or a scalar
   * gives `[]`.
   */
  function Coerced(data: Value, floatOf: string -> Option<real>): (r: seq<Point>)
    ensures data.List? ==> |r| <= |data.items| && NoBackToBack(r)
    ensures !data.List? && !data.Dict? ==> r == []
    decreases data
  {
    match data
    case Dict(d) =>
      var coordinates := Get(d, "coordinates");
      var points := Get(d, "points");
      var trackPoints := Get(d, "track_points");
      if coordinates.Some? && coordinates.value != Null then
        GetSmaller(d, "coordinates");
        Coerced(coordinates.value, floatOf)
      else if points.Some? && points.value != Null then
        GetSmaller(d, "points");
        Coerced(points.value, floatOf)
      else if trackPoints.Some? && trackPoints.value != Null then
        GetSmaller(d, "track_points");
        Coerced(trackPoints.value, floatOf)
      else []
    case List(items) =>
      KeepNewShape(items, Reader(floatOf), None);
      KeepNew(items, Reader(floatOf), None)
    case _ => []
  }

  /** `_coerce_coordinate_sequence`. */
  method CoerceCoordinateSequence(data: Value, floatOf: string -> Option<real>) returns (coords: seq<Point>)
    ensures coords == Coerced(data, floatOf)
    decreases data
  {
    if data.Dict? {
      var nested := Get(data.entries, "coordinates");
      if nested.Some? && nested.value != Null {
        GetSmaller(data.entries, "coordinates");
        coords := CoerceCoordinateSequence(nested.value, floatOf);
        return;
      }
      nested := Get(data.entries, "points");
      if nested.Some? && nested.value != Null {
        GetSmaller(data.entries, "points");
        coords := CoerceCoordinateSequence(nested.value, floatOf);
        return;
      }
      nested := Get(data.entries, "track_points");
      if nested.Some? && nested.value != Null {
        GetSmaller(data.entries, "track_points");
        coords := CoerceCoordinateSequence(nested.value, floatOf);
        return;
      }
      return [];
    }
    if !data.List? {
      return [];
    }
    coords := CollectPoints(data.items, Reader(floatOf));
  }

  /** A dict holding a non-`None` "coordinates" value is read through it, whatever else it holds. */
  lemma {:induction false} CoordinatesFirst(d: Entries, floatOf: string -> Option<real>)
    requires GetOrNull(d, "coordinates") != Null
    ensures Coerced(Dict(d), floatOf) == Coerced(GetOrNull(d, "coordinates"), floatOf)
  {
  }

  /** Without a usable "coordinates" value, a non-`None` "points" value is read next. */
  lemma {:induction false} PointsSecond(d: Entries, floatOf: string -> Option<real>)
    requires GetOrNull(d, "coordinates") == Null && GetOrNull(d, "points") != Null
    ensures Coerced(Dict(d), floatOf) == Coerced(GetOrNull(d, "points"), floatOf)
  {
  }

  /** With neither of those, a non-`None` "track_points" value is read last. */
  lemma {:induction false} TrackPointsThird(d: Entries, floatOf: string -> Option<real>)
    requires GetOrNull(d, "coordinates") == Null && GetOrNull(d, "points") == Null
    requires GetOrNull(d, "track_points") != Null
    ensures Coerced(Dict(d), floatOf) == Coerced(GetOrNull(d, "track_points"), floatOf)
  {
  }

  /** A dict with none of the three keys holding a value gives no pairs. */
  lemma {:induction false} NoRouteKeys(d: Entries, floatOf: string -> Option<real>)
    requires GetOrNull(d, "coordinates") == Null && GetOrNull(d, "points") == Null
    requires GetOrNull(d, "track_points") == Null
    ensures Coerced(Dict(d), floatOf) == []
  {
  }

  // ------------------------------------------------------------------ the payload walk

  /**
   * The sequence the walk ends with after visiting `nodes`, starting from
   * `best`: a node's pairs replace the current best only when strictly
   * longer.
   */
  function Densest(nodes: seq<Value>, floatOf: string -> Option<real>, best: seq<Point>): seq<Point>
  {
    if nodes == [] then best
    else
      var coords := Coerced(nodes[0], floatOf);
      Densest(nodes[1..], floatOf, if coords != [] && |coords| > |best| then coords else best)
  }

  /**
   * `_collect_coordinates`: a breadth-first walk from the payload that
   * reads every node and keeps the longest sequence of pairs.
   */
  method CollectCoordinates(payload: Value, floatOf: string -> Option<real>) returns (best: seq<Point>)
    ensures best == Densest(BfsOrder([payload]), floatOf, [])
  {
    var queue := [payload];
    best := [];
    while queue != []
      invariant Densest(BfsOrder(queue), floatOf, best) == Densest(BfsOrder([payload]), floatOf, [])
      decreases ItemsSize(queue)
    {
      ghost var before := queue;
      QueueShrinks(before);
      var current := queue[0];
      queue := queue[1..];
      assert BfsOrder(before) == [current] + BfsOrder(queue + Children(current));
      ghost var previous := best;
      var coords := CoerceCoordinateSequence(current, floatOf);
      if coords != [] && |coords| > |best| {
        best := coords;
      }
      if current.Dict? {
        queue := queue + Values(current.entries);
      } else if current.List? {
        queue := queue + current.items;
      }
      assert queue == before[1..] + Children(current);
      assert Densest([current] + BfsOrder(queue), floatOf, previous) == Densest(BfsOrder(queue), floatOf, best) by {
        assert ([current] + BfsOrder(queue))[1..] == BfsOrder(queue);
      }
    }
  }

  /**
   * The node whose pairs the walk keeps (`-1` when it keeps `best`): no
   * node gives more pairs, and every node before it gives strictly fewer.
   */
  lemma {:induction false} DensestPick(nodes: seq<Value>, floatOf: string -> Option<real>, best: seq<Point>)
    returns (i: int)
    ensures -1 <= i < |nodes|
    ensures |best| <= |Densest(nodes, floatOf, best)|
    ensures forall j :: 0 <= j < |nodes| ==> |Coerced(nodes[j], floatOf)| <= |Densest(nodes, floatOf, best)|
    ensures i == -1 ==> Densest(nodes, floatOf, best) == best
    ensures i >= 0 ==>
      && Densest(nodes, floatOf, best) == Coerced(nodes[i], floatOf)
      && |best| < |Densest(nodes, floatOf, best)|
      && forall j :: 0 <= j < i ==> |Coerced(nodes[j], floatOf)| < |Densest(nodes, floatOf, best)|
  {
    if nodes == [] {
      i := -1;
    } else {
      var coords := Coerced(nodes[0], floatOf);
      var next := if coords != [] && |coords| > |best| then coords else best;
      var r := Densest(nodes, floatOf, best);
      assert r == Densest(nodes[1..], floatOf, next);
      var rest := DensestPick(nodes[1..], floatOf, next);
      ConsAtMost(nodes, v => |Coerced(v, floatOf)|, |r|);
      if rest >= 0 {
        i := rest + 1;
        ConsBelow(nodes, floatOf, rest, |r|);
      } else if next == coords && coords != best {
        i := 0;
      } else {
        i := -1;
      }
    }
  }

  /** A bound on the first node and on the rest bounds every node. */
  lemma {:induction false} ConsAtMost<T>(xs: seq<T>, size: T -> nat, n: nat)
    requires xs != [] && size(xs[0]) <= n
    requires forall j :: 0 <= j < |xs| - 1 ==> size(xs[1..][j]) <= n
    ensures forall j :: 0 <= j < |xs| ==> size(xs[j]) <= n
  {
    forall j | 0 < j < |xs|
      ensures size(xs[j]) <= n
    {
      assert xs[j] == xs[1..][j - 1];
    }
  }

  /** A strict bound on the first node and on the tail before `i` holds before `i + 1`. */
  lemma {:induction false} ConsBelow(nodes: seq<Value>, floatOf: string -> Option<real>, i: nat, n: nat)
    requires nodes != [] && i < |nodes[1..]| && |Coerced(nodes[0], floatOf)| < n
    requires forall j :: 0 <= j < i ==> |Coerced(nodes[1..][j], floatOf)| < n
    ensures forall j :: 0 <= j < i + 1 ==> |Coerced(nodes[j], floatOf)| < n
  {
    forall j | 0 < j < i + 1
      ensures |Coerced(nodes[j], floatOf)| < n
    {
      assert nodes[j] == nodes[1..][j - 1];
    }
  }

  /**
   * The walk returns a longest sequence among the nodes it visits, the
   * earliest in breadth-first order on a tie, and `[]` only when no node
   * gives any pair.
   */
  lemma {:induction false} CollectCoordinatesLongest(payload: Value, floatOf: string -> Option<real>)
    ensures var nodes := BfsOrder([payload]);
      var best := Densest(nodes, floatOf, []);
      && (forall j :: 0 <= j < |nodes| ==> |Coerced(nodes[j], floatOf)| <= |best|)
      && (best == [] <==> forall j :: 0 <= j < |nodes| ==> Coerced(nodes[j], floatOf) == [])
      && (best != [] ==>
            exists i :: 0 <= i < |nodes| && Coerced(nodes[i], floatOf) == best &&
              forall j :: 0 <= j < i ==> |Coerced(nodes[j], floatOf)| < |best|)
  {
    var nodes := BfsOrder([payload]);
    var i := DensestPick(nodes, floatOf, []);
  }
}
