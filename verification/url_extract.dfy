/**
 * The route helpers of `extract_events_from_url.py` that work on values
 * already fetched: the breadth-first search of a Garmin JSON payload for an
 * encoded polyline (or a list of point dicts to encode), the encoding of
 * such point dicts, and the two mappings of SVG pixel coordinates, onto a
 * geographic bounding box or onto the unit square. Its polyline encoder is
 * the copy in `Coordinates`.
 */
module UrlExtract {
  import opened Wrappers
  import opened Text
  import opened PyValue
  import opened Coordinates
  import Polyline

  // ------------------------------------------------------------------ point dicts

  /**
   * The pair read from the chosen latitude and longitude values: none when
   * either is `None` or `float` rejects it.
   */
  function PairOf(lat: Value, lon: Value, floatOf: string -> Option<real>): (r: Option<Point>)
    ensures lat.Null? || lon.Null? ==> r.None?
  {
    if lat.Null? || lon.Null? then None
    else
      var x, y := ToFloat(lat, floatOf), ToFloat(lon, floatOf);
      if x.Some? && y.Some? then Some((x.value, y.value)) else None
  }

  /** `point.get("latitude") or point.get("lat")`. */
  function LatOf(d: Entries): Value
  {
    Or(GetOrNull(d, "latitude"), GetOrNull(d, "lat"))
  }

  /** `point.get("longitude") or point.get("lon")`. */
  function LonOf(d: Entries): Value
  {
    Or(GetOrNull(d, "longitude"), GetOrNull(d, "lon"))
  }

  /**
   * The pair `_encode_from_points` reads from one point. Only a dict
   * counts. A falsy "latitude" (0.0 included) defers to "lat", a falsy
   * "longitude" to "lon".
   */
  function DictPoint(point: Value, floatOf: string -> Option<real>): (r: Option<Point>)
    ensures !point.Dict? ==> r.None?
  {
    if point.Dict? then PairOf(LatOf(point.entries), LonOf(point.entries), floatOf) else None
  }

  /** The pairs of the points that give one, in order; repeats are kept. */
  function PointsFrom(points: seq<Value>, floatOf: string -> Option<real>): (r: seq<Point>)
    ensures |r| <= |points|
  {
    if points == [] then []
    else
      PairsOf(points[0], floatOf) + PointsFrom(points[1..], floatOf)
  }

  /** No pair is read exactly when no point gives one. */
  lemma {:induction false} PointsFromEmpty(points: seq<Value>, floatOf: string -> Option<real>)
    ensures PointsFrom(points, floatOf) == [] <==> forall i :: 0 <= i < |points| ==> DictPoint(points[i], floatOf).None?
  {
    if points != [] {
      PointsFromEmpty(points[1..], floatOf);
      assert forall i :: 0 < i < |points| ==> points[i] == points[1..][i - 1];
    }
  }

  /** The point each kept pair comes from: a dict that gives exactly that pair. */
  lemma {:induction false} PointsFromSource(points: seq<Value>, floatOf: string -> Option<real>, k: nat) returns (i: nat)
    requires k < |PointsFrom(points, floatOf)|
    ensures i < |points| && points[i].Dict?
    ensures DictPoint(points[i], floatOf) == Some(PointsFrom(points, floatOf)[k])
  {
    assert points != [];
    var head := PairsOf(points[0], floatOf);
    var rest := PointsFrom(points[1..], floatOf);
    PointsFromFirst(points, floatOf, head, rest);
    if k < |head| {
      i := 0;
    } else {
      var j := PointsFromSource(points[1..], floatOf, k - |head|);
      ConcatIndex(head, rest, k);
      assert points[1..][j] == points[j + 1];
      i := j + 1;
    }
  }

  /** The pair one point gives, as a list of zero or one pairs. */
  function PairsOf(point: Value, floatOf: string -> Option<real>): (r: seq<Point>)
    ensures |r| <= 1 && (r != [] ==> point.Dict? && DictPoint(point, floatOf) == Some(r[0]))
  {
    var p := DictPoint(point, floatOf);
    if p.Some? then [p.value] else []
  }

  lemma {:induction false} PointsFromFirst(points: seq<Value>, floatOf: string -> Option<real>, head: seq<Point>, rest: seq<Point>)
    requires points != [] && head == PairsOf(points[0], floatOf) && rest == PointsFrom(points[1..], floatOf)
    ensures PointsFrom(points, floatOf) == head + rest
  {
  }

  lemma {:induction false} ConcatIndex(head: seq<Point>, rest: seq<Point>, k: nat)
    requires |head| <= k < |head + rest|
    ensures (head + rest)[k] == rest[k - |head|]
  {
  }

  /**
   * A falsy "latitude" is as good as none: the point reads as if the key
   * were missing.
   */
  lemma {:induction false} FalsyLatitudeDefers(d: Entries, floatOf: string -> Option<real>)
    requires Get(d, "latitude").Some? && !Truthy(Get(d, "latitude").value)
    ensures DictPoint(Dict(d), floatOf) == DictPoint(Dict(Remove(d, "latitude")), floatOf)
  {
    var e := Remove(d, "latitude");
    RemoveGet(d, "latitude", "latitude");
    RemoveGet(d, "latitude", "lat");
    RemoveGet(d, "latitude", "longitude");
    RemoveGet(d, "latitude", "lon");
    assert LatOf(d) == GetOrNull(d, "lat") == LatOf(e);
    assert LonOf(d) == LonOf(e);
  }

  /** A point on the equator given only by "latitude" is dropped, because 0.0 is falsy. */
  lemma {:induction false} EquatorDropped(lon: real, floatOf: string -> Option<real>)
    ensures DictPoint(Dict([("latitude", Float(0.0)), ("longitude", Float(lon))]), floatOf).None?
  {
    var d := [("latitude", Float(0.0)), ("longitude", Float(lon))];
    assert Get(d, "lat").None? by {
      assert d[0].0 != "lat" && d[1].0 != "lat";
    }
    assert LatOf(d) == Null;
  }

  /** What `_encode_from_points` returns: `None` without pairs, else their encoding at precision 5. */
  function EncodedFromPoints(points: seq<Value>, floatOf: string -> Option<real>, scale: (real, int) -> int): Option<string>
  {
    var coords := PointsFrom(points, floatOf);
    if coords == [] then None
    else Some(Polyline.EncodeInts(Polyline.Scaled(coords, 5, scale), 0, 0))
  }

  /** The loop of `_encode_from_points`: the pair of each point that gives one. */
  method CollectDictPoints(points: seq<Value>, floatOf: string -> Option<real>) returns (coords: seq<Point>)
    ensures coords == PointsFrom(points, floatOf)
  {
    coords := [];
    for k := 0 to |points|
      invariant coords + PointsFrom(points[k..], floatOf) == PointsFrom(points, floatOf)
    {
      var point := points[k];
      PointsFromAt(points, floatOf, k);
      var pair: Option<Point> := None;
      if point.Dict? {
        var lat := LatOf(point.entries);
        var lon := LonOf(point.entries);
        if !lat.Null? && !lon.Null? {
          var x, y := ToFloat(lat, floatOf), ToFloat(lon, floatOf);
          if x.Some? && y.Some? {
            pair := Some((x.value, y.value));
          }
        }
      }
      assert pair == DictPoint(point, floatOf);
      coords := CollectStep(coords, pair, PointsFrom(points[k + 1..], floatOf), PointsFrom(points, floatOf));
    }
    assert points[|points|..] == [];
  }

  /** `PointsFrom` at index `k`: the pair of `points[k]`, if any, then the rest. */
  lemma {:induction false} PointsFromAt(points: seq<Value>, floatOf: string -> Option<real>, k: nat)
    requires k < |points|
    ensures PointsFrom(points[k..], floatOf) == PairsOf(points[k], floatOf) + PointsFrom(points[k + 1..], floatOf)
  {
    assert points[k..][1..] == points[k + 1..];
    PointsFromFirst(points[k..], floatOf, PairsOf(points[k], floatOf), PointsFrom(points[k + 1..], floatOf));
  }

  /** One step of the collecting loop: the pair, if any, moves from the rest to the front. */
  function CollectStep(coords: seq<Point>, pair: Option<Point>, rest: seq<Point>, total: seq<Point>): (r: seq<Point>)
    requires coords + ((if pair.Some? then [pair.value] else []) + rest) == total
    ensures r + rest == total
  {
    if pair.Some? then
      assert coords + ([pair.value] + rest) == (coords + [pair.value]) + rest;
      coords + [pair.value]
    else
      assert [] + rest == rest;
      coords
  }

  /**
   * `_encode_from_points`: collect the pairs, then encode them. `None`
   * exactly when no point gives a pair; otherwise a non-empty string the
   * reference decoder reads back as the scaled pairs.
   */
  method EncodeFromPoints(points: seq<Value>, floatOf: string -> Option<real>, scale: (real, int) -> int)
    returns (r: Option<string>)
    ensures r == EncodedFromPoints(points, floatOf, scale)
    ensures r.None? <==> forall i :: 0 <= i < |points| ==> DictPoint(points[i], floatOf).None?
    ensures r.Some? ==>
      && r.value != []
      && Polyline.DecodeInts(r.value, 0, 0, 0) == Success(Polyline.Scaled(PointsFrom(points, floatOf), 5, scale))
  {
    var coords := CollectDictPoints(points, floatOf);
    PointsFromEmpty(points, floatOf);
    if coords == [] {
      return None;
    }
    var s := EncodePolyline(coords, 5, scale);
    EncodedNonEmpty(Polyline.Scaled(coords, 5, scale));
    return Some(s);
  }

  /** The encoding of at least one point has characters. */
  lemma {:induction false} EncodedNonEmpty(scaled: seq<(int, int)>)
    requires scaled != []
    ensures Polyline.EncodeInts(scaled, 0, 0) != []
  {
    assert Polyline.EncodeInts(scaled, 0, 0)
      == Polyline.Chunks(Polyline.ZigZag(scaled[0].0)) + Polyline.Chunks(Polyline.ZigZag(scaled[0].1))
        + Polyline.EncodeInts(scaled[1..], scaled[0].0, scaled[0].1);
  }

  // ------------------------------------------------------------------ the payload search

  /**
   * What one dict entry yields in `_extract_polyline_from_payload`: a
   * non-empty string under a key containing "polyline" (any case); else,
   * under a key that lower-cases to "polylinedto", the encoding of a list
   * of point dicts when it is non-empty; else nothing.
   */
  function PolylineHit(key: string, value: Value, floatOf: string -> Option<real>, scale: (real, int) -> int)
    : (r: Option<string>)
    ensures r.Some? ==> r.value != []
  {
    var lowered := AsciiLower(key);
    if Contains(lowered, "polyline") && value.Str? && value.s != [] then Some(value.s)
    else if lowered == "polylinedto" && value.List? then
      var encoded := EncodedFromPoints(value.items, floatOf, scale);
      if encoded.Some? && encoded.value != [] then encoded else None
    else None
  }

  /** `PolylineHit` as the test the walk takes. */
  function Hit(floatOf: string -> Option<real>, scale: (real, int) -> int): (string, Value) -> Option<string>
  {
    (k, v) => PolylineHit(k, v, floatOf, scale)
  }

  /**
   * `_extract_polyline_from_payload`: the first dict entry, in
   * breadth-first order, that yields a polyline; `None` when none does.
   */
  method ExtractPolylineFromPayload(payload: Value, floatOf: string -> Option<real>, scale: (real, int) -> int)
    returns (r: Option<string>)
    ensures r == FirstHit(BfsOrder([payload]), Hit(floatOf, scale))
  {
    r := SearchEntries(payload, Hit(floatOf, scale));
  }

  /**
   * The search returns `None` exactly when no visited dict entry yields a
   * polyline, and otherwise the non-empty polyline of the earliest visited
   * node that yields one.
   */
  lemma {:induction false} ExtractPolylineFirst(payload: Value, floatOf: string -> Option<real>, scale: (real, int) -> int)
    ensures var hit := Hit(floatOf, scale);
      var nodes := BfsOrder([payload]);
      var h := FirstHit(nodes, hit);
      && (h.None? <==> forall i :: 0 <= i < |nodes| ==> NodeHit(nodes[i], hit).None?)
      && (h.Some? ==>
            && h.value != []
            && exists i :: 0 <= i < |nodes| && NodeHit(nodes[i], hit) == h &&
                 forall e :: 0 <= e < i ==> NodeHit(nodes[e], hit).None?)
  {
    var hit := Hit(floatOf, scale);
    var nodes := BfsOrder([payload]);
    FirstHitFirst(nodes, hit);
    var h := FirstHit(nodes, hit);
    if h.Some? {
      var i :| 0 <= i < |nodes| && NodeHit(nodes[i], hit) == h;
      EntryHitFirst(nodes[i].entries, hit);
    }
  }

  // ------------------------------------------------------------------ pixel mappers

  /** The `bounds` dict of `_remap_pixels_to_wgs84`, its four keys present. */
  datatype Bounds = Bounds(north: real, south: real, east: real, west: real)

  /** `x` lies between `a` and `b`, in whichever order they come. */
  predicate Between(x: real, a: real, b: real)
  {
    (a <= x <= b) || (b <= x <= a)
  }

  /** `min(s)`. */
  function MinOf(s: seq<real>): (m: real)
    requires s != []
    ensures m in s && forall i :: 0 <= i < |s| ==> m <= s[i]
  {
    if |s| == 1 then s[0]
    else
      var m := MinOf(s[1..]);
      assert forall i :: 1 <= i < |s| ==> s[i] == s[1..][i - 1];
      if s[0] <= m then s[0] else m
  }

  /** `max(s)`. */
  function MaxOf(s: seq<real>): (m: real)
    requires s != []
    ensures m in s && forall i :: 0 <= i < |s| ==> s[i] <= m
  {
    if |s| == 1 then s[0]
    else
      var m := MaxOf(s[1..]);
      assert forall i :: 1 <= i < |s| ==> s[i] == s[1..][i - 1];
      if s[0] >= m then s[0] else m
  }

  /** `[pt[0] for pt in points]`. */
  function Xs(points: seq<(real, real)>): (r: seq<real>)
    ensures |r| == |points| && forall i :: 0 <= i < |points| ==> r[i] == points[i].0
  {
    seq(|points|, i requires 0 <= i < |points| => points[i].0)
  }

  /** `[pt[1] for pt in points]`. */
  function Ys(points: seq<(real, real)>): (r: seq<real>)
    ensures |r| == |points| && forall i :: 0 <= i < |points| ==> r[i] == points[i].1
  {
    seq(|points|, i requires 0 <= i < |points| => points[i].1)
  }

  /** The points have no extent along x or along y: `max == min` on one axis. */
  predicate Flat(points: seq<(real, real)>)
    requires points != []
  {
    MaxOf(Xs(points)) == MinOf(Xs(points)) || MaxOf(Ys(points)) == MinOf(Ys(points))
  }

  /** `Flat` holds exactly when all x values, or all y values, are equal. */
  lemma {:induction false} FlatMeansEqual(points: seq<(real, real)>)
    requires points != []
    ensures Flat(points) <==>
      (forall i, j :: 0 <= i < |points| && 0 <= j < |points| ==> points[i].0 == points[j].0) ||
      (forall i, j :: 0 <= i < |points| && 0 <= j < |points| ==> points[i].1 == points[j].1)
  {
    var xs, ys := Xs(points), Ys(points);
    if forall i, j :: 0 <= i < |points| && 0 <= j < |points| ==> points[i].0 == points[j].0 {
      var a :| 0 <= a < |xs| && xs[a] == MinOf(xs);
      var b :| 0 <= b < |xs| && xs[b] == MaxOf(xs);
      assert points[a].0 == points[b].0;
    }
    if forall i, j :: 0 <= i < |points| && 0 <= j < |points| ==> points[i].1 == points[j].1 {
      var a :| 0 <= a < |ys| && ys[a] == MinOf(ys);
      var b :| 0 <= b < |ys| && ys[b] == MaxOf(ys);
      assert points[a].1 == points[b].1;
    }
  }

  /** `(v - lo) / (hi - lo)`: where `v` sits between `lo` and `hi`. */
  function Ratio(v: real, lo: real, hi: real): real
    requires lo < hi
  {
    (v - lo) / (hi - lo)
  }

  lemma {:induction false} MulSign(t: real, d: real)
    requires d > 0.0
    ensures t < 0.0 ==> t * d < 0.0
    ensures t > 1.0 ==> t * d > d
  {
  }

  lemma {:induction false} DivMul(a: real, d: real)
    requires d > 0.0
    ensures (a / d) * d == a
  {
  }

  /** A value between the bounds has its ratio in [0, 1]; the bounds themselves give 0 and 1. */
  lemma {:induction false} RatioInUnit(v: real, lo: real, hi: real)
    requires lo <= v <= hi && lo < hi
    ensures 0.0 <= Ratio(v, lo, hi) <= 1.0
    ensures v == lo ==> Ratio(v, lo, hi) == 0.0
    ensures v == hi ==> Ratio(v, lo, hi) == 1.0
  {
    DivMul(v - lo, hi - lo);
    MulSign(Ratio(v, lo, hi), hi - lo);
  }

  lemma {:induction false} ForwardUp(a: real, b: real, t: real)
    requires 0.0 <= t <= 1.0 && a <= b
    ensures a <= a + (b - a) * t <= b
  {
  }

  lemma {:induction false} ForwardDown(a: real, b: real, t: real)
    requires 0.0 <= t <= 1.0 && b <= a
    ensures b <= a + (b - a) * t <= a
  {
  }

  /**
   * `a + (b - a) * t` for a fraction `t` in [0, 1] lies between `a` and
   * `b`, at `a` for 0 and at `b` for 1.
   */
  lemma {:induction false} Forward(a: real, b: real, t: real)
    requires 0.0 <= t <= 1.0
    ensures Between(a + (b - a) * t, a, b)
    ensures t == 0.0 ==> a + (b - a) * t == a
    ensures t == 1.0 ==> a + (b - a) * t == b
  {
    if a <= b {
      ForwardUp(a, b, t);
    } else {
      ForwardDown(a, b, t);
    }
  }

  lemma {:induction false} BackwardUp(a: real, b: real, t: real)
    requires 0.0 <= t <= 1.0 && b <= a
    ensures b <= a - (a - b) * t <= a
  {
  }

  lemma {:induction false} BackwardDown(a: real, b: real, t: real)
    requires 0.0 <= t <= 1.0 && a <= b
    ensures a <= a - (a - b) * t <= b
  {
  }

  /** The same move written `a - (a - b) * t`, as the latitude is computed. */
  lemma {:induction false} Backward(a: real, b: real, t: real)
    requires 0.0 <= t <= 1.0
    ensures Between(a - (a - b) * t, a, b)
    ensures t == 0.0 ==> a - (a - b) * t == a
    ensures t == 1.0 ==> a - (a - b) * t == b
  {
    if b <= a {
      BackwardUp(a, b, t);
    } else {
      BackwardDown(a, b, t);
    }
  }

  /** The (lat, lon) one pixel maps to inside `bounds`. */
  function RemapPoint(p: (real, real), minX: real, maxX: real, minY: real, maxY: real, bounds: Bounds): Point
    requires minX < maxX && minY < maxY
  {
    var lonRatio := Ratio(p.0, minX, maxX);
    var latRatio := Ratio(p.1, minY, maxY);
    (Offset(bounds.north, -(bounds.north - bounds.south), latRatio), Offset(bounds.west, bounds.east - bounds.west, lonRatio))
  }

  /** The interpolation step of the remap: `start + span * t`. */
  function Offset(start: real, span: real, t: real): real
  {
    start + span * t
  }

  /**
   * A pixel inside the points' extent lands inside the box; the leftmost
   * and rightmost pixels land on the west and east edges, the topmost and
   * bottommost on the north and south edges (pixel y grows downwards).
   */
  lemma {:induction false} RemapPointInBox(p: (real, real), minX: real, maxX: real, minY: real, maxY: real, bounds: Bounds)
    requires minX < maxX && minY < maxY
    requires minX <= p.0 <= maxX && minY <= p.1 <= maxY
    ensures var r := RemapPoint(p, minX, maxX, minY, maxY, bounds);
      && Between(r.0, bounds.south, bounds.north) && Between(r.1, bounds.west, bounds.east)
      && (p.0 == minX ==> r.1 == bounds.west) && (p.0 == maxX ==> r.1 == bounds.east)
      && (p.1 == minY ==> r.0 == bounds.north) && (p.1 == maxY ==> r.0 == bounds.south)
  {
    var lonRatio := Ratio(p.0, minX, maxX);
    var latRatio := Ratio(p.1, minY, maxY);
    RatioInUnit(p.0, minX, maxX);
    RatioInUnit(p.1, minY, maxY);
    Forward(bounds.west, bounds.east, lonRatio);
    Backward(bounds.north, bounds.south, latRatio);
  }

  /** No points, points with no extent on an axis, or a box with no extent on an axis. */
  predicate Degenerate(points: seq<(real, real)>, bounds: Bounds)
  {
    points == [] || Flat(points) || bounds.east - bounds.west == 0.0 || bounds.north - bounds.south == 0.0
  }

  /** What `_remap_pixels_to_wgs84` returns. */
  function Remapped(points: seq<(real, real)>, bounds: Bounds): (r: seq<Point>)
  {
    if Degenerate(points, bounds) then []
    else
      var minX, maxX, minY, maxY := MinOf(Xs(points)), MaxOf(Xs(points)), MinOf(Ys(points)), MaxOf(Ys(points));
      seq(|points|, k requires 0 <= k < |points| => RemapPoint(points[k], minX, maxX, minY, maxY, bounds))
  }

  /**
   * `[]` for no points, for points with no extent on an axis, or for a box
   * with no extent on an axis; otherwise one (lat, lon) per pixel, each
   * inside the box, the pixels' extremes on its edges.
   */
  lemma {:induction false} RemappedInBox(points: seq<(real, real)>, bounds: Bounds)
    ensures var r := Remapped(points, bounds);
      && (Degenerate(points, bounds) ==> r == [])
      && (!Degenerate(points, bounds) ==>
            var minX, maxX, minY, maxY := MinOf(Xs(points)), MaxOf(Xs(points)), MinOf(Ys(points)), MaxOf(Ys(points));
            && |r| == |points|
            && (forall k :: 0 <= k < |r| ==>
                  Between(r[k].0, bounds.south, bounds.north) && Between(r[k].1, bounds.west, bounds.east))
            && (forall k :: 0 <= k < |r| && points[k].0 == minX ==> r[k].1 == bounds.west)
            && (forall k :: 0 <= k < |r| && points[k].0 == maxX ==> r[k].1 == bounds.east)
            && (forall k :: 0 <= k < |r| && points[k].1 == minY ==> r[k].0 == bounds.north)
            && (forall k :: 0 <= k < |r| && points[k].1 == maxY ==> r[k].0 == bounds.south))
  {
    var r := Remapped(points, bounds);
    if !Degenerate(points, bounds) {
      var xs, ys := Xs(points), Ys(points);
      var minX, maxX, minY, maxY := MinOf(xs), MaxOf(xs), MinOf(ys), MaxOf(ys);
      forall k | 0 <= k < |r|
        ensures Between(r[k].0, bounds.south, bounds.north) && Between(r[k].1, bounds.west, bounds.east)
        ensures points[k].0 == minX ==> r[k].1 == bounds.west
        ensures points[k].0 == maxX ==> r[k].1 == bounds.east
        ensures points[k].1 == minY ==> r[k].0 == bounds.north
        ensures points[k].1 == maxY ==> r[k].0 == bounds.south
      {
        assert xs[k] == points[k].0 && ys[k] == points[k].1;
        RemapPointInBox(points[k], minX, maxX, minY, maxY, bounds);
      }
    }
  }

  /** `_remap_pixels_to_wgs84`: the spans and extremes, then one interpolated pair per pixel. */
  method RemapPixelsToWgs84(points: seq<(real, real)>, bounds: Bounds) returns (r: seq<Point>)
    ensures r == Remapped(points, bounds)
  {
    if points == [] {
      return [];
    }
    var xs, ys := Xs(points), Ys(points);
    var minX, maxX := MinOf(xs), MaxOf(xs);
    var minY, maxY := MinOf(ys), MaxOf(ys);
    if maxX == minX || maxY == minY {
      return [];
    }
    var lonSpan := bounds.east - bounds.west;
    var latSpan := bounds.north - bounds.south;
    if lonSpan == 0.0 || latSpan == 0.0 {
      return [];
    }
    assert xs[0] == points[0].0 && ys[0] == points[0].1;
    r := RemapEach(points, minX, maxX, minY, maxY, bounds, lonSpan, latSpan);
    assert !Degenerate(points, bounds);
  }

  /** The loop of `_remap_pixels_to_wgs84`: one interpolated (lat, lon) per pixel. */
  method RemapEach(points: seq<(real, real)>, minX: real, maxX: real, minY: real, maxY: real, bounds: Bounds,
                   lonSpan: real, latSpan: real) returns (r: seq<Point>)
    requires minX < maxX && minY < maxY
    requires lonSpan == bounds.east - bounds.west && latSpan == bounds.north - bounds.south
    ensures r == seq(|points|, k requires 0 <= k < |points| => RemapPoint(points[k], minX, maxX, minY, maxY, bounds))
  {
    r := [];
    for k := 0 to |points|
      invariant |r| == k
      invariant forall j :: 0 <= j < k ==> r[j] == RemapPoint(points[j], minX, maxX, minY, maxY, bounds)
    {
      var (x, y) := points[k];
      var lonRatio := Ratio(x, minX, maxX);
      var latRatio := Ratio(y, minY, maxY);
      var lon := Offset(bounds.west, lonSpan, lonRatio);
      var lat := Offset(bounds.north, -latSpan, latRatio);
      r := r + [(lat, lon)];
    }
  }

  /** The point of the unit square one pixel maps to: (1 - y ratio, x ratio). */
  function UnitPoint(p: (real, real), minX: real, maxX: real, minY: real, maxY: real): Point
    requires minX < maxX && minY < maxY
  {
    (1.0 - Ratio(p.1, minY, maxY), Ratio(p.0, minX, maxX))
  }

  /** What `_normalize_pixels_to_unit_route` returns. */
  function Normalized(points: seq<(real, real)>): (r: seq<Point>)
  {
    if points == [] || Flat(points) then []
    else
      var minX, maxX, minY, maxY := MinOf(Xs(points)), MaxOf(Xs(points)), MinOf(Ys(points)), MaxOf(Ys(points));
      seq(|points|, k requires 0 <= k < |points| => UnitPoint(points[k], minX, maxX, minY, maxY))
  }

  /**
   * `[]` for no points or points with no extent on an axis; otherwise one
   * point per pixel in [0, 1] x [0, 1], the leftmost pixels at 0 and the
   * rightmost at 1 across, the topmost at 1 and the bottommost at 0 up.
   */
  lemma {:induction false} NormalizedInUnitSquare(points: seq<(real, real)>)
    ensures var r := Normalized(points);
      && (points == [] || Flat(points) ==> r == [])
      && (points != [] && !Flat(points) ==>
            var minX, maxX, minY, maxY := MinOf(Xs(points)), MaxOf(Xs(points)), MinOf(Ys(points)), MaxOf(Ys(points));
            && |r| == |points|
            && (forall k :: 0 <= k < |r| ==> 0.0 <= r[k].0 <= 1.0 && 0.0 <= r[k].1 <= 1.0)
            && (forall k :: 0 <= k < |r| && points[k].0 == minX ==> r[k].1 == 0.0)
            && (forall k :: 0 <= k < |r| && points[k].0 == maxX ==> r[k].1 == 1.0)
            && (forall k :: 0 <= k < |r| && points[k].1 == minY ==> r[k].0 == 1.0)
            && (forall k :: 0 <= k < |r| && points[k].1 == maxY ==> r[k].0 == 0.0))
  {
    var r := Normalized(points);
    if points != [] && !Flat(points) {
      var xs, ys := Xs(points), Ys(points);
      var minX, maxX, minY, maxY := MinOf(xs), MaxOf(xs), MinOf(ys), MaxOf(ys);
      forall k | 0 <= k < |r|
        ensures 0.0 <= r[k].0 <= 1.0 && 0.0 <= r[k].1 <= 1.0
        ensures points[k].0 == minX ==> r[k].1 == 0.0
        ensures points[k].0 == maxX ==> r[k].1 == 1.0
        ensures points[k].1 == minY ==> r[k].0 == 1.0
        ensures points[k].1 == maxY ==> r[k].0 == 0.0
      {
        assert xs[k] == points[k].0 && ys[k] == points[k].1;
        RatioInUnit(points[k].0, minX, maxX);
        RatioInUnit(points[k].1, minY, maxY);
      }
    }
  }

  /** `_normalize_pixels_to_unit_route`: the extremes, then one scaled point per pixel. */
  method NormalizePixelsToUnitRoute(points: seq<(real, real)>) returns (r: seq<Point>)
    ensures r == Normalized(points)
  {
    if points == [] {
      return [];
    }
    var xs, ys := Xs(points), Ys(points);
    var minX, maxX := MinOf(xs), MaxOf(xs);
    var minY, maxY := MinOf(ys), MaxOf(ys);
    if maxX == minX || maxY == minY {
      return [];
    }
    assert xs[0] == points[0].0 && ys[0] == points[0].1;
    r := NormalizeEach(points, minX, maxX, minY, maxY);
    assert !Flat(points);
  }

  /** The loop of `_normalize_pixels_to_unit_route`: one scaled point per pixel. */
  method NormalizeEach(points: seq<(real, real)>, minX: real, maxX: real, minY: real, maxY: real) returns (r: seq<Point>)
    requires minX < maxX && minY < maxY
    ensures r == seq(|points|, k requires 0 <= k < |points| => UnitPoint(points[k], minX, maxX, minY, maxY))
  {
    r := [];
    for k := 0 to |points|
      invariant |r| == k
      invariant forall j :: 0 <= j < k ==> r[j] == UnitPoint(points[j], minX, maxX, minY, maxY)
    {
      var (x, y) := points[k];
      var lonRatio := Ratio(x, minX, maxX);
      var latRatio := Ratio(y, minY, maxY);
      r := r + [(1.0 - latRatio, lonRatio)];
    }
  }
}
