/**
 * Google's Encoded Polyline Algorithm Format, on integer-scaled coordinates.
 *
 * A value is zig-zag mapped to a natural number, cut into 5-bit groups from
 * the least significant end, and each group is written as one character
 * `group + 63`, with `0x20` added to every group but the last. A route is the
 * concatenation of the encodings of the latitude and longitude deltas of its
 * points, each point taken relative to the previous one (the first relative
 * to (0, 0)).
 *
 * The methods model the reference encoder of `serialize_gpx.py` and the
 * decoder of `utils/route_utils.py` as they are written (loops over a
 * running index); the functions are their specifications, and the lemmas
 * prove the codec's properties, the round trip above all.
 */
module Polyline {
  import opened Wrappers
  import opened Bits

  /** The two `ValueError`s of the codec. */
  datatype PolylineError = NegativePrecision | Truncated

  // ------------------------------------------------------------------ zig-zag

  /** Python's `~x`. */
  function Invert(x: int): int
  {
    -x - 1
  }

  /**
   * The zig-zag map `~(v << 1)` for negative `v`, `v << 1` otherwise. It is a
   * bijection from the integers onto the naturals whose parity carries the
   * sign.
   */
  function ZigZag(v: int): (z: nat)
    ensures z % 2 == (if v < 0 then 1 else 0)
    ensures z / 2 == (if v < 0 then -v - 1 else v)
  {
    if v < 0 then Invert(2 * v) else 2 * v
  }

  /** The decoder's `~(result >> 1) if result & 1 else result >> 1`. */
  function UnZigZag(r: nat): int
  {
    if r % 2 == 1 then Invert(r / 2) else r / 2
  }

  lemma {:induction false} ZigZagRoundTrip(v: int)
    ensures UnZigZag(ZigZag(v)) == v
  {
  }

  lemma {:induction false} UnZigZagRoundTrip(r: nat)
    ensures ZigZag(UnZigZag(r)) == r
  {
  }

  // ------------------------------------------------------------------ 5-bit groups

  function Pow32(k: nat): (r: nat)
    ensures r >= 1
  {
    if k == 0 then 1 else 32 * Pow32(k - 1)
  }

  /** The characters `_encode_number` writes for the zig-zag value `z`. */
  function Chunks(z: nat): (c: string)
    ensures |c| >= 1
  {
    if z < 32 then [(z + 63) as char]
    else [(32 + z % 32 + 63) as char] + Chunks(z / 32)
  }

  /**
   * Every character of `Chunks(z)` but the last lies in [95, 126] (its
   * `0x20` continuation bit is set) and the last lies in [63, 94], so the
   * encodings of consecutive numbers split unambiguously; and the number of
   * characters is the number of 5-bit groups `z` needs.
   */
  lemma {:induction false} ChunksShape(z: nat)
    ensures var c := Chunks(z);
      && (forall i :: 0 <= i < |c| - 1 ==> 95 <= c[i] as int <= 126)
      && 63 <= c[|c| - 1] as int <= 94
      && z < Pow32(|c|)
      && (|c| > 1 ==> Pow32(|c| - 1) <= z)
  {
    if z >= 32 {
      ChunksShape(z / 32);
    }
  }

  /**
   * `_encode_number`: zig-zag the value, then emit groups while the value is
   * at least 0x20.
   */
  method EncodeNumber(v: int) returns (s: string)
    ensures s == Chunks(ZigZag(v))
  {
    var value: nat := if v < 0 then Invert(2 * v) else 2 * v;
    var chunkChars: string := [];
    while value >= 32
      invariant chunkChars + Chunks(value) == Chunks(ZigZag(v))
      decreases value
    {
      BitOrDisjoint(value % 32, 1, 5);
      chunkChars := chunkChars + [(BitOr(value % 32, 32) + 63) as char];
      value := value / 32;
    }
    chunkChars := chunkChars + [(value + 63) as char];
    s := chunkChars;
  }

  // ------------------------------------------------------------------ reading one value

  /**
   * The natural number spelled by the groups starting at index `i`, and the
   * index just past its last group; `None` when the string ends before a
   * character without the continuation bit. A character below '?' gives a
   * negative group byte; `byte & 0x1F` is then `byte % 32` and the byte ends
   * the value.
   */
  function ReadRaw(s: string, i: nat): (r: Option<(nat, nat)>)
    ensures r.Some? ==> i < r.value.1 <= |s|
    decreases |s| - i
  {
    if i >= |s| then None
    else
      var b := s[i] as int - 63;
      if b < 32 then Some((b % 32, i + 1))
      else match ReadRaw(s, i + 1)
        case None => None
        case Some((v, j)) => Some((b % 32 + 32 * v, j))
  }

  /**
   * Reading fails exactly when no character from `i` on ends a value: the
   * string runs out while every group still has its continuation bit.
   */
  lemma {:induction false} ReadRawTruncated(s: string, i: nat)
    ensures ReadRaw(s, i).None? <==> forall k :: i <= k < |s| ==> s[k] as int - 63 >= 32
    decreases |s| - i
  {
    if i < |s| && s[i] as int - 63 >= 32 {
      ReadRawTruncated(s, i + 1);
    }
  }

  /** `_decode_value`: the un-zig-zagged value and the next index, or `Truncated`. */
  function ReadValue(s: string, i: nat): (r: Result<(int, nat), PolylineError>)
    ensures r.Success? ==> i < r.value.1 <= |s|
  {
    match ReadRaw(s, i)
    case None => Failure(Truncated)
    case Some((z, j)) => Success((UnZigZag(z), j))
  }

  /** The value `Some((v, j))` describes once `acc` already holds `shift` bits. */
  function Shifted(acc: nat, shift: nat, r: Option<(nat, nat)>): Option<(nat, nat)>
  {
    match r
    case None => None
    case Some((v, j)) => Some((acc + Pow2(shift) * v, j))
  }

  /** One group read while `acc` holds the `shift` bits read so far. */
  lemma {:induction false} ReadStep(s: string, i: nat, acc: nat, shift: nat)
    requires i < |s| && acc < Pow2(shift)
    ensures var g := (s[i] as int - 63) % 32;
      && acc + g * Pow2(shift) < Pow2(shift + 5)
      && Shifted(acc, shift, ReadRaw(s, i))
         == if s[i] as int - 63 < 32 then Some((acc + g * Pow2(shift), i + 1))
            else Shifted(acc + g * Pow2(shift), shift + 5, ReadRaw(s, i + 1))
  {
    var g := (s[i] as int - 63) % 32;
    GroupBound(acc, g, shift);
    if s[i] as int - 63 < 32 {
      ReadLastGroup(s, i, acc, shift);
    } else {
      ReadMoreGroups(s, i, acc, shift);
    }
  }

  /** A group without the continuation bit ends the value. */
  lemma {:induction false} ReadLastGroup(s: string, i: nat, acc: nat, shift: nat)
    requires i < |s| && s[i] as int - 63 < 32
    ensures var g := (s[i] as int - 63) % 32;
      Shifted(acc, shift, ReadRaw(s, i)) == Some((acc + g * Pow2(shift), i + 1))
  {
    var g := (s[i] as int - 63) % 32;
    assert ReadRaw(s, i) == Some((g, i + 1));
    assert Pow2(shift) * g == g * Pow2(shift);
  }

  /** A group with the continuation bit is followed by the rest of the value. */
  lemma {:induction false} ReadMoreGroups(s: string, i: nat, acc: nat, shift: nat)
    requires i < |s| && s[i] as int - 63 >= 32
    ensures var g := (s[i] as int - 63) % 32;
      Shifted(acc, shift, ReadRaw(s, i)) == Shifted(acc + g * Pow2(shift), shift + 5, ReadRaw(s, i + 1))
  {
    var g := (s[i] as int - 63) % 32;
    var rest := ReadRaw(s, i + 1);
    if rest.Some? {
      var (v, j) := rest.value;
      assert ReadRaw(s, i) == Some((g + 32 * v, j));
      GroupShift(acc, g, v, shift);
    } else {
      assert ReadRaw(s, i).None?;
    }
  }

  lemma {:induction false} GroupBound(acc: nat, g: nat, shift: nat)
    requires acc < Pow2(shift) && g < 32
    ensures acc + g * Pow2(shift) < Pow2(shift + 5)
  {
    var p := Pow2(shift);
    Pow2Add(shift, 5);
    assert Pow2(5) == 32;
    assert acc + g * p < (g + 1) * p;
    assert (g + 1) * p <= 32 * p;
  }

  lemma {:induction false} GroupShift(acc: nat, g: nat, v: nat, shift: nat)
    ensures acc + Pow2(shift) * (g + 32 * v) == acc + g * Pow2(shift) + Pow2(shift + 5) * v
  {
    Pow2Add(shift, 5);
    assert Pow2(5) == 32;
  }

  /** The decoding loop's invariant carried over one group. */
  lemma {:induction false} ReadGroup(s: string, index: nat, i: nat, acc: nat, shift: nat)
    requires i < |s| && acc < Pow2(shift)
    requires ReadRaw(s, index) == Shifted(acc, shift, ReadRaw(s, i))
    ensures var next := acc + Place((s[i] as int - 63) % 32, shift);
      && next < Pow2(shift + 5)
      && (s[i] as int - 63 < 32 ==> ReadRaw(s, index) == Some((next, i + 1)))
      && (s[i] as int - 63 >= 32 ==> ReadRaw(s, index) == Shifted(next, shift + 5, ReadRaw(s, i + 1)))
  {
    ReadStep(s, i, acc, shift);
  }

  /** A group of bits moved `shift` places up: `group << shift`. */
  function Place(group: nat, shift: nat): nat
  {
    group * Pow2(shift)
  }

  /** `_decode_value`, with its `while True` loop over the groups. */
  method DecodeValue(polyline: string, index: nat) returns (r: Result<(int, nat), PolylineError>)
    ensures r == ReadValue(polyline, index)
  {
    var result: nat := 0;
    var shift: nat := 0;
    var i := index;
    while true
      invariant index <= i
      invariant i > |polyline| ==> i == index
      invariant result < Pow2(shift)
      invariant ReadRaw(polyline, index) == Shifted(result, shift, ReadRaw(polyline, i))
      decreases |polyline| - i
    {
      if i >= |polyline| {
        return Failure(Truncated);
      }
      var b := polyline[i] as int - 63;
      var group: nat := b % 32;
      ReadGroup(polyline, index, i, result, shift);
      BitOrDisjoint(result, group, shift);
      result := BitOr(result, Place(group, shift));
      shift := shift + 5;
      i := i + 1;
      if b < 32 {
        break;
      }
    }
    var delta := if result % 2 == 1 then Invert(result / 2) else result / 2;
    return Success((delta, i));
  }

  // ------------------------------------------------------------------ whole routes

  /**
   * The integer points spelled from index `i` on, when the running sums
   * before it are (`lat`, `lng`): each step reads a latitude delta and a
   * longitude delta and adds them.
   */
  function DecodeInts(s: string, i: nat, lat: int, lng: int): Result<seq<(int, int)>, PolylineError>
    decreases |s| - i
  {
    if i >= |s| then Success([])
    else
      var latStep :- ReadValue(s, i);
      var lngStep :- ReadValue(s, latStep.1);
      var rest :- DecodeInts(s, lngStep.1, lat + latStep.0, lng + lngStep.0);
      Success([(lat + latStep.0, lng + lngStep.0)] + rest)
  }

  /** The deltas as they follow each other in the string, or `Truncated`. */
  function ReadAll(s: string, i: nat): Result<seq<int>, PolylineError>
    decreases |s| - i
  {
    if i >= |s| then Success([])
    else
      var step :- ReadValue(s, i);
      var rest :- ReadAll(s, step.1);
      Success([step.0] + rest)
  }

  /** The concatenated encodings of the points' deltas. */
  function EncodeInts(points: seq<(int, int)>, prevLat: int, prevLng: int): string
  {
    if points == [] then ""
    else
      Chunks(ZigZag(points[0].0 - prevLat)) + Chunks(ZigZag(points[0].1 - prevLng))
      + EncodeInts(points[1..], points[0].0, points[0].1)
  }

  /** Sum of `vals[start]`, `vals[start + 2]`, ... for the first `n` such positions. */
  function SumEvery2(vals: seq<int>, start: nat, n: nat): int
    requires start + 2 * n <= |vals| + 1
    decreases n
  {
    if n == 0 then 0 else SumEvery2(vals, start, n - 1) + vals[start + 2 * (n - 1)]
  }

  /** The reading of the integer-point decoding as prefix sums of the deltas. */
  function PrefixSums(vals: seq<int>, lat: int, lng: int): (pts: seq<(int, int)>)
    requires |vals| % 2 == 0
    ensures |pts| * 2 == |vals|
    ensures forall k :: 0 <= k < |pts| ==>
      pts[k] == (lat + SumEvery2(vals, 0, k + 1), lng + SumEvery2(vals, 1, k + 1))
  {
    var n := |vals| / 2;
    seq(n, k requires 0 <= k < n => (lat + SumEvery2(vals, 0, k + 1), lng + SumEvery2(vals, 1, k + 1)))
  }

  // ------------------------------------------------------------------ precision

  /** `(lat / factor, lng / factor)` for every decoded point. */
  function Unscale(pts: seq<(int, int)>, factor: real): (r: seq<(real, real)>)
    requires factor > 0.0
    ensures |r| == |pts|
    ensures forall k :: 0 <= k < |pts| ==>
      r[k].0 * factor == pts[k].0 as real && r[k].1 * factor == pts[k].1 as real
  {
    seq(|pts|, k requires 0 <= k < |pts| => (pts[k].0 as real / factor, pts[k].1 as real / factor))
  }

  /** Unscaling one more point appends its quotients. */
  lemma {:induction false} UnscaleSnoc(pts: seq<(int, int)>, p: (int, int), factor: real)
    requires factor > 0.0
    ensures Unscale(pts + [p], factor) == Unscale(pts, factor) + [(p.0 as real / factor, p.1 as real / factor)]
  {
  }

  /**
   * `(int(round(lat * 10 ** p)), int(round(lng * 10 ** p)))`. The float
   * product and Python's round-half-to-even are the parameter `scale`:
   * `scale(x, p)` stands for `int(round(x * 10 ** p))`.
   */
  function ScalePoint(point: (real, real), p: int, scale: (real, int) -> int): (int, int)
  {
    (scale(point.0, p), scale(point.1, p))
  }

  /** Every point scaled by `10 ** p`. */
  function Scaled(points: seq<(real, real)>, p: int, scale: (real, int) -> int): (r: seq<(int, int)>)
    ensures |r| == |points|
    ensures forall k :: 0 <= k < |points| ==> r[k] == ScalePoint(points[k], p, scale)
  {
    seq(|points|, k requires 0 <= k < |points| => ScalePoint(points[k], p, scale))
  }

  /** What `decode_polyline(polyline, precision)` returns or raises. */
  function Decoded(polyline: string, precision: int): Result<seq<(real, real)>, PolylineError>
  {
    if precision < 0 then Failure(NegativePrecision)
    else
      var pts :- DecodeInts(polyline, 0, 0, 0);
      Success(Unscale(pts, Pow10(precision) as real))
  }

  /**
   * `decode_polyline` raises for a negative precision and gives `[]` for
   * "". Otherwise it succeeds exactly when every value can be read and
   * their number is even, and then yields one coordinate per pair; it
   * fails only with `Truncated`.
   */
  lemma {:induction false} DecodedCases(polyline: string, precision: int)
    ensures precision < 0 ==> Decoded(polyline, precision) == Failure(NegativePrecision)
    ensures precision >= 0 && polyline == "" ==> Decoded(polyline, precision) == Success([])
    ensures precision >= 0 ==>
      (Decoded(polyline, precision).Success? <==> ReadAll(polyline, 0).Success? && |ReadAll(polyline, 0).value| % 2 == 0)
    ensures precision >= 0 && Decoded(polyline, precision).Success? ==>
      |Decoded(polyline, precision).value| * 2 == |ReadAll(polyline, 0).value|
    ensures precision >= 0 && Decoded(polyline, precision).Failure? ==> Decoded(polyline, precision).error == Truncated
  {
    if precision >= 0 {
      DecodeIntsByPairs(polyline, 0, 0, 0);
      if polyline == "" {
        assert DecodeInts(polyline, 0, 0, 0) == Success([]);
      }
    }
  }

  /** `decode_polyline`: the precision check, then the loop over pairs of values. */
  method DecodePolyline(polyline: string, precision: int) returns (r: Result<seq<(real, real)>, PolylineError>)
    ensures r == Decoded(polyline, precision)
  {
    if precision < 0 {
      return Failure(NegativePrecision);
    }
    var factor := Pow10(precision) as real;
    var lat := 0;
    var lng := 0;
    var index := 0;
    var coords: seq<(real, real)> := [];
    ghost var ints: seq<(int, int)> := [];
    ThenEmpty(DecodeInts(polyline, 0, 0, 0));
    while index < |polyline|
      invariant coords == Unscale(ints, factor)
      invariant DecodeInts(polyline, 0, 0, 0) == Then(ints, DecodeInts(polyline, index, lat, lng))
      decreases |polyline| - index
    {
      var latStep := DecodeValue(polyline, index);
      if latStep.Failure? {
        return Failure(latStep.error);
      }
      var lngStep := DecodeValue(polyline, latStep.value.1);
      if lngStep.Failure? {
        return Failure(lngStep.error);
      }
      DecodeLoopStep(polyline, ints, index, lat, lng, latStep.value.0, latStep.value.1, lngStep.value.0, lngStep.value.1);
      index := lngStep.value.1;
      lat := lat + latStep.value.0;
      lng := lng + lngStep.value.0;
      ints := ints + [(lat, lng)];
      coords := coords + [(lat as real / factor, lng as real / factor)];
    }
    assert ints + [] == ints;
    return Success(coords);
  }

  /** The decoding loop's invariant carried over one pair of values. */
  lemma {:induction false} DecodeLoopStep(s: string, ints: seq<(int, int)>, i: nat, lat: int, lng: int, a: int, j: nat, b: int, k: nat)
    requires ReadValue(s, i) == Success((a, j)) && ReadValue(s, j) == Success((b, k))
    requires DecodeInts(s, 0, 0, 0) == Then(ints, DecodeInts(s, i, lat, lng))
    ensures DecodeInts(s, 0, 0, 0) == Then(ints + [(lat + a, lng + b)], DecodeInts(s, k, lat + a, lng + b))
  {
    DecodeIntsStep(s, i, lat, lng, a, j, b, k);
    ThenThen(ints, (lat + a, lng + b), DecodeInts(s, k, lat + a, lng + b));
  }

  /** Prepends `prefix` to a successful result. */
  function Then(prefix: seq<(int, int)>, r: Result<seq<(int, int)>, PolylineError>): Result<seq<(int, int)>, PolylineError>
  {
    match r
    case Success(rest) => Success(prefix + rest)
    case Failure(e) => Failure(e)
  }

  lemma {:induction false} ThenEmpty(r: Result<seq<(int, int)>, PolylineError>)
    ensures Then([], r) == r
  {
    if r.Success? {
      assert [] + r.value == r.value;
    }
  }

  lemma {:induction false} ThenThen(prefix: seq<(int, int)>, x: (int, int), r: Result<seq<(int, int)>, PolylineError>)
    ensures Then(prefix, Then([x], r)) == Then(prefix + [x], r)
  {
    if r.Success? {
      assert prefix + ([x] + r.value) == (prefix + [x]) + r.value;
    }
  }

  // ------------------------------------------------------------------ encoder

  /**
   * The encoding loop shared by every encoder of the repository: scale each
   * point with `int(round(x * 10 ** precision))` and append the encodings of
   * its deltas from the previous scaled point. No precision check.
   */
  method EncodeScaledPoints(points: seq<(real, real)>, precision: int, scale: (real, int) -> int) returns (s: string)
    ensures s == EncodeInts(Scaled(points, precision, scale), 0, 0)
  {
    ghost var scaled := Scaled(points, precision, scale);
    var encodedChunks: string := "";
    var prevLat := 0;
    var prevLng := 0;
    for k := 0 to |points|
      invariant encodedChunks + EncodeInts(scaled[k..], prevLat, prevLng) == EncodeInts(scaled, 0, 0)
    {
      var latI := scale(points[k].0, precision);
      var lngI := scale(points[k].1, precision);
      ScaledAt(points, precision, scale, k);
      var latChunk := EncodeNumber(latI - prevLat);
      var lngChunk := EncodeNumber(lngI - prevLng);
      EncodeStep(scaled, k, prevLat, prevLng, latI, lngI, encodedChunks);
      encodedChunks := encodedChunks + latChunk + lngChunk;
      prevLat := latI;
      prevLng := lngI;
    }
    assert scaled[|points|..] == [];
    s := encodedChunks;
  }

  /** The `k`-th scaled point. */
  lemma {:induction false} ScaledAt(points: seq<(real, real)>, precision: int, scale: (real, int) -> int, k: nat)
    requires k < |points|
    ensures Scaled(points, precision, scale)[k] == (scale(points[k].0, precision), scale(points[k].1, precision))
  {
  }

  /** The encoding loop's invariant carried over one point. */
  lemma {:induction false} EncodeStep(points: seq<(int, int)>, k: nat, prevLat: int, prevLng: int, lat: int, lng: int, done: string)
    requires k < |points| && points[k] == (lat, lng)
    ensures done + EncodeInts(points[k..], prevLat, prevLng)
      == (done + Chunks(ZigZag(lat - prevLat)) + Chunks(ZigZag(lng - prevLng))) + EncodeInts(points[k + 1..], lat, lng)
  {
    EncodeIntsFrom(points, k, prevLat, prevLng, lat, lng);
    AppendRegroup(done, Chunks(ZigZag(lat - prevLat)), Chunks(ZigZag(lng - prevLng)), EncodeInts(points[k + 1..], lat, lng));
  }

  lemma {:induction false} AppendRegroup(a: string, b: string, c: string, d: string)
    ensures a + (b + c + d) == (a + b + c) + d
  {
  }

  lemma {:induction false} EncodeIntsFrom(points: seq<(int, int)>, k: nat, prevLat: int, prevLng: int, lat: int, lng: int)
    requires k < |points| && points[k] == (lat, lng)
    ensures EncodeInts(points[k..], prevLat, prevLng)
      == Chunks(ZigZag(lat - prevLat)) + Chunks(ZigZag(lng - prevLng)) + EncodeInts(points[k + 1..], lat, lng)
  {
    assert points[k..][0] == (lat, lng);
    assert points[k..][1..] == points[k + 1..];
  }

  /** What `serialize_gpx.encode_polyline(points, precision)` returns or raises. */
  function Encoded(points: seq<(real, real)>, precision: int, scale: (real, int) -> int): (r: Result<string, PolylineError>)
    ensures r.Failure? <==> precision < 0
    ensures precision >= 0 && points == [] ==> r == Success("")
  {
    if precision < 0 then Failure(NegativePrecision)
    else Success(EncodeInts(Scaled(points, precision, scale), 0, 0))
  }

  /**
   * `serialize_gpx.encode_polyline`: a negative precision raises before any
   * output is produced; otherwise the encoding loop.
   */
  method EncodePolyline(points: seq<(real, real)>, precision: int, scale: (real, int) -> int) returns (r: Result<string, PolylineError>)
    ensures r == Encoded(points, precision, scale)
  {
    if precision < 0 {
      return Failure(NegativePrecision);
    }
    var s := EncodeScaledPoints(points, precision, scale);
    return Success(s);
  }

  // ------------------------------------------------------------------ round trip

  /** One iteration of the decoding loop: a latitude delta, then a longitude delta. */
  lemma {:induction false} DecodeIntsStep(s: string, i: nat, lat: int, lng: int, dLat: int, j: nat, dLng: int, k: nat)
    requires ReadValue(s, i) == Success((dLat, j)) && ReadValue(s, j) == Success((dLng, k))
    ensures DecodeInts(s, i, lat, lng) == Then([(lat + dLat, lng + dLng)], DecodeInts(s, k, lat + dLat, lng + dLng))
  {
  }

  /** A point read in front of the points that follow it. */
  lemma {:induction false} DecodeIntsCons(s: string, i: nat, lat: int, lng: int, j: nat, k: nat, points: seq<(int, int)>)
    requires points != []
    requires ReadValue(s, i) == Success((points[0].0 - lat, j)) && ReadValue(s, j) == Success((points[0].1 - lng, k))
    requires DecodeInts(s, k, points[0].0, points[0].1) == Success(points[1..])
    ensures DecodeInts(s, i, lat, lng) == Success(points)
  {
    DecodeIntsStep(s, i, lat, lng, points[0].0 - lat, j, points[0].1 - lng, k);
    assert [points[0]] + points[1..] == points;
  }

  /** Reading the characters `Chunks(z)` gives back `z` and the index just past them. */
  lemma {:induction false} ReadChunks(s: string, i: nat, z: nat)
    requires i + |Chunks(z)| <= |s| && s[i..i + |Chunks(z)|] == Chunks(z)
    ensures ReadRaw(s, i) == Some((z, i + |Chunks(z)|))
    decreases z
  {
    var c := Chunks(z);
    assert s[i] == c[0];
    if z >= 32 {
      assert c[1..] == Chunks(z / 32);
      assert s[i + 1..i + 1 + |Chunks(z / 32)|] == c[1..];
      ReadChunks(s, i + 1, z / 32);
    }
  }

  /**
   * Decoding the characters `_encode_number(v)` wrote gives back exactly `v`
   * and the index just past them.
   */
  lemma {:induction false} ReadEncodedNumber(s: string, i: nat, v: int)
    requires i + |Chunks(ZigZag(v))| <= |s| && s[i..i + |Chunks(ZigZag(v))|] == Chunks(ZigZag(v))
    ensures ReadValue(s, i) == Success((v, i + |Chunks(ZigZag(v))|))
  {
    ReadChunks(s, i, ZigZag(v));
    ZigZagRoundTrip(v);
  }

  /** `ReadEncodedNumber` with the end index named. */
  lemma {:induction false} ReadNumberAt(s: string, i: nat, v: int, j: nat)
    requires j == i + |Chunks(ZigZag(v))| <= |s| && s[i..j] == Chunks(ZigZag(v))
    ensures ReadValue(s, i) == Success((v, j))
  {
    ReadEncodedNumber(s, i, v);
  }

  /**
   * Decoding an encoder output from the running sums it started from gives
   * back the scaled integer points.
   */
  lemma {:induction false} DecodeEncodeInts(s: string, i: nat, points: seq<(int, int)>, lat: int, lng: int)
    requires i <= |s| && s[i..] == EncodeInts(points, lat, lng)
    ensures DecodeInts(s, i, lat, lng) == Success(points)
    decreases |points|
  {
    if points != [] {
      var j, k := ReadFirstPoint(s, i, points, lat, lng);
      DecodeEncodeInts(s, k, points[1..], points[0].0, points[0].1);
      DecodeIntsCons(s, i, lat, lng, j, k, points);
    }
  }

  /** An encoded route is its first point's deltas, then the rest. */
  lemma {:induction false} EncodeIntsCons(points: seq<(int, int)>, lat: int, lng: int)
    requires points != []
    ensures EncodeInts(points, lat, lng)
      == Chunks(ZigZag(points[0].0 - lat)) + Chunks(ZigZag(points[0].1 - lng)) + EncodeInts(points[1..], points[0].0, points[0].1)
  {
  }

  /** The two values of an encoded route's first point, and where the rest of it starts. */
  lemma {:induction false} ReadFirstPoint(s: string, i: nat, points: seq<(int, int)>, lat: int, lng: int) returns (j: nat, k: nat)
    requires points != [] && i <= |s| && s[i..] == EncodeInts(points, lat, lng)
    ensures ReadValue(s, i) == Success((points[0].0 - lat, j))
    ensures ReadValue(s, j) == Success((points[0].1 - lng, k))
    ensures k <= |s| && s[k..] == EncodeInts(points[1..], points[0].0, points[0].1)
  {
    j, k := SplitFirstPoint(s, i, points, lat, lng);
    ReadNumberAt(s, i, points[0].0 - lat, j);
    ReadNumberAt(s, j, points[0].1 - lng, k);
  }

  /** Where the encodings of the first point's two deltas end. */
  lemma {:induction false} SplitFirstPoint(s: string, i: nat, points: seq<(int, int)>, lat: int, lng: int) returns (j: nat, k: nat)
    requires points != [] && i <= |s| && s[i..] == EncodeInts(points, lat, lng)
    ensures j == i + |Chunks(ZigZag(points[0].0 - lat))| && k == j + |Chunks(ZigZag(points[0].1 - lng))| && k <= |s|
    ensures s[i..j] == Chunks(ZigZag(points[0].0 - lat))
    ensures s[j..k] == Chunks(ZigZag(points[0].1 - lng))
    ensures s[k..] == EncodeInts(points[1..], points[0].0, points[0].1)
  {
    var c1 := Chunks(ZigZag(points[0].0 - lat));
    var c2 := Chunks(ZigZag(points[0].1 - lng));
    EncodeIntsCons(points, lat, lng);
    SplitSuffix(s, i, c1, c2, EncodeInts(points[1..], points[0].0, points[0].1));
    j, k := i + |c1|, i + |c1| + |c2|;
  }

  lemma {:induction false} SplitSuffix(s: string, i: nat, a: string, b: string, c: string)
    requires i <= |s| && s[i..] == a + b + c
    ensures i + |a| + |b| <= |s|
    ensures s[i..i + |a|] == a
    ensures s[i + |a|..i + |a| + |b|] == b
    ensures s[i + |a| + |b|..] == c
  {
    assert s[i..][..|a|] == a;
    assert s[i..][|a|..|a| + |b|] == b;
    assert s[i..][|a| + |b|..] == c;
  }

  /** The integer round trip: decoding an encoding gives back the scaled points. */
  lemma {:induction false} IntRoundTrip(points: seq<(int, int)>)
    ensures DecodeInts(EncodeInts(points, 0, 0), 0, 0, 0) == Success(points)
  {
    var s := EncodeInts(points, 0, 0);
    assert s[0..] == s;
    DecodeEncodeInts(s, 0, points, 0, 0);
  }

  /**
   * `decode_polyline(encode_polyline(points, p), p)` gives the scaled
   * integers divided by `10 ** p`: the only loss is the rounding.
   */
  lemma {:induction false} RoundTrip(points: seq<(real, real)>, precision: int, scale: (real, int) -> int)
    requires precision >= 0
    ensures Encoded(points, precision, scale).Success?
    ensures Decoded(Encoded(points, precision, scale).value, precision)
      == Success(Unscale(Scaled(points, precision, scale), Pow10(precision) as real))
  {
    IntRoundTrip(Scaled(points, precision, scale));
  }

  // ------------------------------------------------------------------ decoding by pairs

  lemma {:induction false} SumEvery2Shift(a: int, b: int, rest: seq<int>, start: nat, n: nat)
    requires start < 2 && start + 2 * n <= |rest| + 1
    ensures SumEvery2([a, b] + rest, start, n + 1) == [a, b][start] + SumEvery2(rest, start, n)
  {
    var v := [a, b] + rest;
    if n > 0 {
      SumEvery2Shift(a, b, rest, start, n - 1);
      assert v[start + 2 * n] == rest[start + 2 * (n - 1)];
    }
  }

  lemma {:induction false} PrefixSumsCons(a: int, b: int, rest: seq<int>, lat: int, lng: int)
    requires |rest| % 2 == 0
    ensures PrefixSums([a, b] + rest, lat, lng) == [(lat + a, lng + b)] + PrefixSums(rest, lat + a, lng + b)
  {
    var l := PrefixSums([a, b] + rest, lat, lng);
    var r := [(lat + a, lng + b)] + PrefixSums(rest, lat + a, lng + b);
    forall k | 0 <= k < |l|
      ensures l[k] == r[k]
    {
      SumEvery2Shift(a, b, rest, 0, k);
      SumEvery2Shift(a, b, rest, 1, k);
    }
  }

  /** The pairs property of `DecodeIntsByPairs` at index `i`. */
  predicate ByPairs(s: string, i: nat, lat: int, lng: int)
  {
    && (DecodeInts(s, i, lat, lng).Success? <==> ReadAll(s, i).Success? && |ReadAll(s, i).value| % 2 == 0)
    && (DecodeInts(s, i, lat, lng).Success? ==>
          DecodeInts(s, i, lat, lng).value == PrefixSums(ReadAll(s, i).value, lat, lng))
    && (DecodeInts(s, i, lat, lng).Failure? ==> DecodeInts(s, i, lat, lng).error == Truncated)
  }

  /** Reading two values in a row, then everything after them. */
  lemma {:induction false} ReadAllTwo(s: string, i: nat, a: int, j: nat, b: int, k: nat)
    requires ReadValue(s, i) == Success((a, j)) && ReadValue(s, j) == Success((b, k))
    ensures ReadAll(s, i).Success? <==> ReadAll(s, k).Success?
    ensures ReadAll(s, k).Success? ==> ReadAll(s, i).value == [a, b] + ReadAll(s, k).value
  {
    if ReadAll(s, k).Success? {
      assert ReadAll(s, j).value == [b] + ReadAll(s, k).value;
      assert [a] + ([b] + ReadAll(s, k).value) == [a, b] + ReadAll(s, k).value;
    }
  }

  /** The pairs property carried back over one successfully read pair. */
  lemma {:induction false} ByPairsStep(s: string, i: nat, lat: int, lng: int, a: int, j: nat, b: int, k: nat)
    requires ReadValue(s, i) == Success((a, j)) && ReadValue(s, j) == Success((b, k))
    requires ByPairs(s, k, lat + a, lng + b)
    ensures ByPairs(s, i, lat, lng)
  {
    DecodeIntsStep(s, i, lat, lng, a, j, b, k);
    ReadAllTwo(s, i, a, j, b, k);
    if DecodeInts(s, k, lat + a, lng + b).Success? {
      ByPairsStepDecoded(s, i, lat, lng, a, j, b, k);
    } else {
      ByPairsStepFailed(s, i, lat, lng, a, j, b, k);
    }
  }

  lemma {:induction false} ByPairsStepDecoded(s: string, i: nat, lat: int, lng: int, a: int, j: nat, b: int, k: nat)
    requires ByPairs(s, k, lat + a, lng + b) && DecodeInts(s, k, lat + a, lng + b).Success?
    requires DecodeInts(s, i, lat, lng) == Then([(lat + a, lng + b)], DecodeInts(s, k, lat + a, lng + b))
    requires ReadAll(s, i).Success? <==> ReadAll(s, k).Success?
    requires ReadAll(s, k).Success? ==> ReadAll(s, i).value == [a, b] + ReadAll(s, k).value
    ensures ByPairs(s, i, lat, lng)
  {
    var later := DecodeInts(s, k, lat + a, lng + b);
    var rest := ReadAll(s, k).value;
    assert DecodeInts(s, i, lat, lng) == Success([(lat + a, lng + b)] + later.value);
    assert |ReadAll(s, i).value| == |rest| + 2;
    PrefixSumsCons(a, b, rest, lat, lng);
  }

  lemma {:induction false} ByPairsStepFailed(s: string, i: nat, lat: int, lng: int, a: int, j: nat, b: int, k: nat)
    requires ByPairs(s, k, lat + a, lng + b) && DecodeInts(s, k, lat + a, lng + b).Failure?
    requires DecodeInts(s, i, lat, lng) == Then([(lat + a, lng + b)], DecodeInts(s, k, lat + a, lng + b))
    requires ReadAll(s, i).Success? <==> ReadAll(s, k).Success?
    requires ReadAll(s, k).Success? ==> ReadAll(s, i).value == [a, b] + ReadAll(s, k).value
    ensures ByPairs(s, i, lat, lng)
  {
    assert DecodeInts(s, i, lat, lng) == Failure(DecodeInts(s, k, lat + a, lng + b).error);
    if ReadAll(s, k).Success? {
      assert |ReadAll(s, i).value| == |ReadAll(s, k).value| + 2;
    }
  }

  /** Where the first or the second value cannot be read, decoding ends in `Truncated`. */
  lemma {:induction false} ByPairsEnd(s: string, i: nat, lat: int, lng: int)
    requires i < |s|
    requires ReadValue(s, i).Failure? || ReadValue(s, ReadValue(s, i).value.1).Failure?
    ensures ByPairs(s, i, lat, lng)
  {
    var first := ReadValue(s, i);
    if first.Success? {
      var j := first.value.1;
      if j >= |s| {
        assert ReadAll(s, j) == Success([]);
        assert ReadAll(s, i).value == [first.value.0];
      } else {
        assert ReadAll(s, j).Failure?;
      }
    }
  }

  /**
   * `decode_polyline` reads the values in pairs: it succeeds exactly when
   * every value can be read and their number is even, and then its k-th
   * point is the running sum of the first k + 1 latitude deltas and of the
   * first k + 1 longitude deltas. An odd count ends in `Truncated`.
   */
  lemma {:induction false} DecodeIntsByPairs(s: string, i: nat, lat: int, lng: int)
    ensures DecodeInts(s, i, lat, lng).Success?
      <==> ReadAll(s, i).Success? && |ReadAll(s, i).value| % 2 == 0
    ensures DecodeInts(s, i, lat, lng).Success? ==>
      DecodeInts(s, i, lat, lng).value == PrefixSums(ReadAll(s, i).value, lat, lng)
    ensures DecodeInts(s, i, lat, lng).Failure? ==> DecodeInts(s, i, lat, lng).error == Truncated
    decreases |s| - i
  {
    if i >= |s| {
      assert DecodeInts(s, i, lat, lng) == Success([]) && ReadAll(s, i) == Success([]);
    } else if ReadValue(s, i).Failure? || ReadValue(s, ReadValue(s, i).value.1).Failure? {
      ByPairsEnd(s, i, lat, lng);
    } else {
      var (a, j) := ReadValue(s, i).value;
      var (b, k) := ReadValue(s, j).value;
      DecodeIntsByPairs(s, k, lat + a, lng + b);
      ByPairsStep(s, i, lat, lng, a, j, b, k);
    }
  }
}
