/**
 * `utils/route_utils.py`: the route loop classifier and the steps it chains
 * — an optional base64 unwrap, the polyline decode (module `Polyline`), a
 * filter of consecutive near-duplicate points, the closure test and the
 * sign of the shoelace area.
 *
 * Coordinates are reals. The haversine distance is the parameter
 * `distance` of the classifier.
 */
module RouteUtils {
  import opened Wrappers
  import opened Text
  import Utf8
  import Base64
  import Polyline

  /** The members of `utils/constants.py`'s `RouteOrientation`. */
  datatype Orientation = Clockwise | CounterClockwise

  type Point = (real, real)

  const DefaultPrecision: int := 5
  const DefaultClosureThreshold: real := 50.0
  const AreaEpsilon: real := 0.000000000001
  const DuplicateTolerance: real := 0.0000001

  // ------------------------------------------------------------------ base64 unwrap

  /** `BASE64_CHARS`: the alphabet, '=', and the line breaks '\n' and '\r'. */
  predicate InBase64Chars(c: char)
  {
    Base64.IsAlphabetChar(c) || c == '=' || c == '\n' || c == '\r'
  }

  predicate AllBase64Chars(s: string)
  {
    forall i :: 0 <= i < |s| ==> InBase64Chars(s[i])
  }

  /**
   * `_maybe_decode_base64`: the stripped input, or the UTF-8 text of its
   * base64 decoding when the input is made of `BASE64_CHARS` and both
   * decodings succeed. The decoded text is not checked to be a polyline.
   */
  function MaybeDecodeBase64(encoded: string): (r: string)
    ensures (forall i :: 0 <= i < |encoded| ==> IsPyWhitespace(encoded[i])) ==> r == ""
    ensures !AllBase64Chars(PyStrip(encoded)) ==> r == PyStrip(encoded)
  {
    if encoded == "" then ""
    else
      var candidate := PyStrip(encoded);
      if candidate == "" then ""
      else if !AllBase64Chars(candidate) then candidate
      else Unwrap(candidate)
  }

  /** The text of `candidate` padded to a multiple of four and decoded, or `candidate` on an error. */
  function Unwrap(candidate: string): string
  {
    var padded := candidate + Base64.Pads((-|candidate|) % 4);
    var bytes := Base64.Decode(padded);
    if bytes.None? then candidate
    else
      var text := Utf8.Decode(bytes.value);
      if text.None? then candidate else text.value
  }

  /**
   * When the base64 decoding or the UTF-8 decoding fails, the stripped
   * input comes back unchanged.
   */
  lemma {:induction false} MaybeDecodeFailure(encoded: string, padded: string)
    requires PyStrip(encoded) != ""
    requires padded == PyStrip(encoded) + Base64.Pads((-|PyStrip(encoded)|) % 4)
    requires Base64.Decode(padded).None? || Utf8.Decode(Base64.Decode(padded).value).None?
    ensures MaybeDecodeBase64(encoded) == PyStrip(encoded)
  {
    UnwrapFailure(PyStrip(encoded));
  }

  lemma {:induction false} UnwrapFailure(candidate: string)
    requires var padded := candidate + Base64.Pads((-|candidate|) % 4);
      Base64.Decode(padded).None? || Utf8.Decode(Base64.Decode(padded).value).None?
    ensures Unwrap(candidate) == candidate
  {
  }

  lemma {:induction false} UnwrapPadded(s: string, bytes: seq<Utf8.Byte>, text: string)
    requires |s| % 4 == 0
    requires Base64.Decode(s) == Some(bytes) && Utf8.Decode(bytes) == Some(text)
    ensures Unwrap(s) == text
  {
    NoPadding(s);
  }

  /** A candidate whose length is a multiple of four gets no '=' appended. */
  lemma {:induction false} NoPadding(s: string)
    requires |s| % 4 == 0
    ensures s + Base64.Pads((-|s|) % 4) == s
  {
    assert (-|s|) % 4 == 0;
    assert Base64.Pads(0) == "";
  }

  /** Every character of a base64 encoding is an alphabet character or a pad. */
  lemma {:induction false} EncodedChars(data: seq<Utf8.Byte>)
    ensures var e := Base64.Encode(data);
      forall i :: 0 <= i < |e| ==> Base64.IsAlphabetChar(e[i]) || e[i] == '='
  {
    var n := if |data| % 3 == 0 then 0 else 3 - |data| % 3;
    var body := Base64.EncodeBody(data);
    Base64.EncodeSplits(data);
    var e := Base64.Encode(data);
    forall i | 0 <= i < |e|
      ensures Base64.IsAlphabetChar(e[i]) || e[i] == '='
    {
      if i >= |body| {
        assert e[i] == Base64.Pads(n)[i - |body|];
      } else {
        assert e[i] == body[i];
      }
    }
  }

  /**
   * A non-empty text of alphabet characters and pads, of a length that is a
   * multiple of four, is taken as base64: its UTF-8 decoding comes back when
   * both decodings succeed.
   */
  lemma {:induction false} MaybeDecodeWellFormed(s: string)
    requires s != [] && |s| % 4 == 0
    requires forall i :: 0 <= i < |s| ==> Base64.IsAlphabetChar(s[i]) || s[i] == '='
    requires Base64.Decode(s).Some? && Utf8.Decode(Base64.Decode(s).value).Some?
    ensures MaybeDecodeBase64(s) == Utf8.Decode(Base64.Decode(s).value).value
  {
    TrimUnchanged(s, IsPyWhitespace);
    assert PyStrip(s) == s;
    assert AllBase64Chars(s);
    assert MaybeDecodeBase64(s) == Unwrap(s);
    UnwrapPadded(s, Base64.Decode(s).value, Utf8.Decode(Base64.Decode(s).value).value);
  }

  /** Base64 text of UTF-8 text, as `b64encode(text.encode())` writes it, unwraps to the text. */
  lemma {:induction false} MaybeDecodeEncoded(text: string)
    ensures MaybeDecodeBase64(Base64.Encode(Utf8.Encode(text))) == text
  {
    var data := Utf8.Encode(text);
    var e := Base64.Encode(data);
    Base64.DecodeEncode(data);
    Utf8.DecodeEncode(text);
    if e != [] {
      EncodedChars(data);
      MaybeDecodeWellFormed(e);
    }
  }

  // ------------------------------------------------------------------ near-duplicate filter

  function Abs(x: real): real
  {
    if x < 0.0 then -x else x
  }

  /** More than 1e-7 apart on some axis. */
  predicate Apart(a: Point, b: Point)
  {
    Abs(a.0 - b.0) > DuplicateTolerance || Abs(a.1 - b.1) > DuplicateTolerance
  }

  /** The points kept from `points` when `prev` is the last point kept before them. */
  function DedupeFrom(points: seq<Point>, prev: Option<Point>): seq<Point>
  {
    if points == [] then []
    else if prev.None? || Apart(points[0], prev.value) then
      [points[0]] + DedupeFrom(points[1..], Some(points[0]))
    else DedupeFrom(points[1..], prev)
  }

  /** `_dedupe_sequential`, with its loop over the points and its `prev`. */
  method DedupeSequential(points: seq<Point>) returns (deduped: seq<Point>)
    ensures deduped == DedupeFrom(points, None)
  {
    deduped := [];
    var prev: Option<Point> := None;
    for k := 0 to |points|
      invariant deduped + DedupeFrom(points[k..], prev) == DedupeFrom(points, None)
    {
      assert points[k..][1..] == points[k + 1..];
      var current := points[k];
      if prev.None? || Abs(current.0 - prev.value.0) > DuplicateTolerance || Abs(current.1 - prev.value.1) > DuplicateTolerance {
        assert deduped + ([current] + DedupeFrom(points[k + 1..], Some(current)))
            == (deduped + [current]) + DedupeFrom(points[k + 1..], Some(current));
        deduped := deduped + [current];
        prev := Some(current);
      }
    }
    assert points[|points|..] == [];
    assert deduped + [] == deduped;
  }

  /** `sub` is `s` with some elements left out, the rest in order. */
  predicate IsSubsequence<T(==)>(sub: seq<T>, s: seq<T>)
    decreases |s|
  {
    sub == [] || (s != [] && ((sub[0] == s[0] && IsSubsequence(sub[1..], s[1..])) || IsSubsequence(sub, s[1..])))
  }

  /**
   * The filter keeps a subsequence of the input that starts with the first
   * input point, and every kept point lies more than 1e-7 away, on some
   * axis, from the point kept just before it.
   */
  lemma {:induction false} DedupeShape(points: seq<Point>, prev: Option<Point>)
    ensures var r := DedupeFrom(points, prev);
      && IsSubsequence(r, points)
      && (points != [] && prev.None? ==> r != [] && r[0] == points[0])
      && (r != [] && prev.Some? ==> Apart(r[0], prev.value))
      && (forall k :: 0 < k < |r| ==> Apart(r[k], r[k - 1]))
    decreases |points|
  {
    if points != [] {
      DedupeShape(points[1..], Some(points[0]));
      DedupeShape(points[1..], prev);
      var r := DedupeFrom(points, prev);
      if prev.None? || Apart(points[0], prev.value) {
        var tail := DedupeFrom(points[1..], Some(points[0]));
        assert r[1..] == tail;
        forall k | 0 < k < |r|
          ensures Apart(r[k], r[k - 1])
        {
          if k == 1 {
            assert r[0] == points[0] && r[1] == tail[0];
          } else {
            assert r[k] == tail[k - 1] && r[k - 1] == tail[k - 2];
          }
        }
      }
    }
  }

  /** A route already free of near-duplicates passes the filter unchanged: it is idempotent. */
  lemma {:induction false} DedupeKeepsSpread(points: seq<Point>, prev: Option<Point>)
    requires forall k :: 0 < k < |points| ==> Apart(points[k], points[k - 1])
    requires points != [] && prev.Some? ==> Apart(points[0], prev.value)
    ensures DedupeFrom(points, prev) == points
    decreases |points|
  {
    if points != [] {
      DedupeKeepsSpread(points[1..], Some(points[0]));
      assert [points[0]] + points[1..] == points;
    }
  }

  lemma {:induction false} DedupeIdempotent(points: seq<Point>)
    ensures DedupeFrom(DedupeFrom(points, None), None) == DedupeFrom(points, None)
  {
    DedupeShape(points, None);
    DedupeKeepsSpread(DedupeFrom(points, None), None);
  }

  // ------------------------------------------------------------------ shoelace area

  /** `lon1 * lat2 - lon2 * lat1` for the edge from `a` to `b`. */
  function Cross(a: Point, b: Point): real
  {
    a.1 * b.0 - b.1 * a.0
  }

  /** The cross terms of the edges `p[0]p[1]`, ..., `p[k-1]p[k]`. */
  function OpenSum(p: seq<Point>, k: nat): real
    requires k < |p|
  {
    if k == 0 then 0.0 else OpenSum(p, k - 1) + Cross(p[k - 1], p[k])
  }

  /** Twice the signed area of the closed polygon: every edge, the closing one included. */
  function ClosedSum(p: seq<Point>): real
    requires |p| >= 1
  {
    OpenSum(p, |p| - 1) + Cross(p[|p| - 1], p[0])
  }

  /** What `_signed_area` computes: 0 below three points, else half the closed sum. */
  function SignedArea(p: seq<Point>): real
  {
    if |p| < 3 then 0.0 else ClosedSum(p) / 2.0
  }

  /** `_signed_area`, with its loop over the edges `(i, (i + 1) % n)`. */
  method ComputeSignedArea(points: seq<Point>) returns (area: real)
    ensures area == SignedArea(points)
    ensures |points| < 3 ==> area == 0.0
  {
    if |points| < 3 {
      return 0.0;
    }
    var n := |points|;
    area := 0.0;
    for i := 0 to n
      invariant i < n ==> area == OpenSum(points, i)
      invariant i == n ==> area == ClosedSum(points)
    {
      var (lat1, lon1) := points[i];
      var (lat2, lon2) := points[(i + 1) % n];
      AreaStep(points, i, area);
      assert lon1 * lat2 - lon2 * lat1 == Cross(points[i], points[(i + 1) % n]);
      area := area + (lon1 * lat2 - lon2 * lat1);
    }
    area := area / 2.0;
  }

  /** One edge of the `_signed_area` loop: its cross term extends the open sum, or closes it. */
  lemma {:induction false} AreaStep(points: seq<Point>, i: nat, area: real)
    requires i < |points| && area == OpenSum(points, i)
    ensures var next := area + Cross(points[i], points[(i + 1) % |points|]);
      if i + 1 < |points| then next == OpenSum(points, i + 1) else next == ClosedSum(points)
  {
    var n := |points|;
    if i + 1 < n {
      assert (i + 1) % n == i + 1;
    } else {
      assert (i + 1) % n == 0;
    }
  }

  lemma {:induction false} OpenSumFront(a: Point, q: seq<Point>, k: nat)
    requires k < |q|
    ensures OpenSum([a] + q, k + 1) == Cross(a, q[0]) + OpenSum(q, k)
  {
    var p := [a] + q;
    if k > 0 {
      OpenSumFront(a, q, k - 1);
      assert p[k] == q[k - 1] && p[k + 1] == q[k];
    }
  }

  lemma {:induction false} OpenSumPrefix(p: seq<Point>, extra: seq<Point>, k: nat)
    requires k < |p|
    ensures OpenSum(p + extra, k) == OpenSum(p, k)
  {
    if k > 0 {
      OpenSumPrefix(p, extra, k - 1);
      assert (p + extra)[k] == p[k] && (p + extra)[k - 1] == p[k - 1];
    }
  }

  /** Starting the polygon one vertex later leaves the closed sum unchanged. */
  lemma {:induction false} RotateOnce(p: seq<Point>)
    requires |p| >= 2
    ensures ClosedSum(p[1..] + [p[0]]) == ClosedSum(p)
  {
    var q := p[1..];
    var r := q + [p[0]];
    var n := |p|;
    assert p == [p[0]] + q;
    OpenSumFront(p[0], q, n - 2);
    OpenSumPrefix(q, [p[0]], n - 2);
    assert r[n - 1] == p[0] && r[n - 2] == p[n - 1] && r[0] == p[1];
    assert OpenSum(r, n - 1) == OpenSum(r, n - 2) + Cross(p[n - 1], p[0]);
  }

  function Rotate(p: seq<Point>, k: nat): seq<Point>
    requires k <= |p|
  {
    p[k..] + p[..k]
  }

  /** Moving the first vertex of `Rotate(p, k - 1)` to the end gives `Rotate(p, k)`. */
  lemma {:induction false} RotateStep(p: seq<Point>, k: nat)
    requires 0 < k <= |p|
    ensures var prev := Rotate(p, k - 1); prev[1..] + [prev[0]] == Rotate(p, k)
  {
    var prev := Rotate(p, k - 1);
    assert prev[0] == p[k - 1];
    assert prev[1..] == p[k..] + p[..k - 1];
    assert p[..k] == p[..k - 1] + [p[k - 1]];
    assert (p[k..] + p[..k - 1]) + [p[k - 1]] == p[k..] + (p[..k - 1] + [p[k - 1]]);
  }

  /** Rotating the start index leaves the signed area unchanged. */
  lemma {:induction false} RotationInvariant(p: seq<Point>, k: nat)
    requires k <= |p|
    ensures SignedArea(Rotate(p, k)) == SignedArea(p)
  {
    if k > 0 && |p| >= 3 {
      RotationInvariant(p, k - 1);
      var prev := Rotate(p, k - 1);
      RotateOnce(prev);
      RotateStep(p, k);
    } else if k == 0 {
      assert Rotate(p, 0) == p;
    }
  }

  function Reverse(p: seq<Point>): (r: seq<Point>)
    ensures |r| == |p|
    ensures forall i :: 0 <= i < |p| ==> r[i] == p[|p| - 1 - i]
  {
    if p == [] then [] else Reverse(p[1..]) + [p[0]]
  }

  lemma {:induction false} CrossSwap(a: Point, b: Point)
    ensures Cross(b, a) == -Cross(a, b)
  {
  }

  /** The open sum of the reversed path is the negated open sum. */
  lemma {:induction false} OpenSumReverse(p: seq<Point>)
    requires |p| >= 1
    ensures OpenSum(Reverse(p), |p| - 1) == -OpenSum(p, |p| - 1)
  {
    var n := |p|;
    if n >= 2 {
      var q := p[1..];
      OpenSumReverse(q);
      var rq := Reverse(q);
      var r := Reverse(p);
      assert r == rq + [p[0]];
      OpenSumPrefix(rq, [p[0]], n - 2);
      assert r[n - 2] == p[1] && r[n - 1] == p[0];
      CrossSwap(p[0], p[1]);
      assert p == [p[0]] + q;
      OpenSumFront(p[0], q, n - 2);
    }
  }

  /** Reversing the point order negates the signed area. */
  lemma {:induction false} ReversalNegates(p: seq<Point>)
    ensures SignedArea(Reverse(p)) == -SignedArea(p)
  {
    if |p| >= 3 {
      OpenSumReverse(p);
      CrossSwap(p[|p| - 1], p[0]);
    }
  }

  // ------------------------------------------------------------------ classifier

  /** The orientation of a loop with signed area `area`, `None` when it is degenerate. */
  function OrientationOf(area: real): Option<Orientation>
  {
    if Abs(area) <= AreaEpsilon then None
    else if area > 0.0 then Some(CounterClockwise)
    else Some(Clockwise)
  }

  /**
   * The steps of `classify_route_loop` after the decode: the route is a
   * loop when at least three distinct points remain and the first and last
   * lie within the threshold; a loop is oriented by its signed area.
   */
  function ClassifyPoints(points: seq<Point>, closureThreshold: real,
                          distance: (Point, Point) -> real): (r: (bool, Option<Orientation>))
    ensures var cleaned := DedupeFrom(points, None);
      r.0 <==> |cleaned| >= 3 && distance(cleaned[0], cleaned[|cleaned| - 1]) <= closureThreshold
    ensures r.0 ==> r.1 == OrientationOf(SignedArea(DedupeFrom(points, None)))
    ensures !r.0 ==> r.1 == None
  {
    var cleaned := DedupeFrom(points, None);
    if |cleaned| < 3 then (false, None)
    else if distance(cleaned[0], cleaned[|cleaned| - 1]) > closureThreshold then (false, None)
    else (true, OrientationOf(SignedArea(cleaned)))
  }

  /**
   * `classify_route_loop(route_polyline, precision=..., closure_threshold_m=...)`:
   * `(is_loop, orientation)`. `distance` is the haversine distance in metres.
   * An empty unwrapped text and a decoding error both make it no loop.
   */
  function ClassifyRouteLoop(routePolyline: string, precision: int, closureThreshold: real,
                             distance: (Point, Point) -> real): (r: (bool, Option<Orientation>))
    ensures r.1.Some? ==> r.0
    ensures MaybeDecodeBase64(routePolyline) == "" ==> r == (false, None)
    ensures Polyline.Decoded(MaybeDecodeBase64(routePolyline), precision).Failure? ==> r == (false, None)
    ensures precision < 0 ==> r == (false, None)
  {
    var decodedPolyline := MaybeDecodeBase64(routePolyline);
    if decodedPolyline == "" then (false, None)
    else
      match Polyline.Decoded(decodedPolyline, precision)
      case Failure(_) => (false, None)
      case Success(points) => ClassifyPoints(points, closureThreshold, distance)
  }

  /**
   * The orientation of a loop is the sign of its area: counter-clockwise
   * for a positive area, clockwise for a negative one, none within 1e-12 of
   * zero.
   */
  lemma {:induction false} OrientationSign(area: real)
    ensures OrientationOf(area) == Some(CounterClockwise) <==> area > AreaEpsilon
    ensures OrientationOf(area) == Some(Clockwise) <==> area < -AreaEpsilon
    ensures OrientationOf(area) == None <==> -AreaEpsilon <= area <= AreaEpsilon
  {
  }

  /** A route that unwraps and decodes to `points` is classified by its points. */
  lemma {:induction false} ClassifyDecoded(routePolyline: string, precision: int, closureThreshold: real,
                        distance: (Point, Point) -> real, points: seq<Point>)
    requires MaybeDecodeBase64(routePolyline) != ""
    requires Polyline.Decoded(MaybeDecodeBase64(routePolyline), precision) == Success(points)
    ensures ClassifyRouteLoop(routePolyline, precision, closureThreshold, distance)
      == ClassifyPoints(points, closureThreshold, distance)
  {
  }

  /** Walking a loop the other way flips its orientation. */
  lemma {:induction false} OrientationReversed(p: seq<Point>)
    ensures OrientationOf(SignedArea(Reverse(p))) == match OrientationOf(SignedArea(p))
      case None => None
      case Some(Clockwise) => Some(CounterClockwise)
      case Some(CounterClockwise) => Some(Clockwise)
  {
    ReversalNegates(p);
  }
}
