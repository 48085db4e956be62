/**
 * `decodePolyline` of `map_scriptrs.js`, the browser-side polyline decoder.
 *
 * Unlike the Python decoder it works with JavaScript's 32-bit bitwise
 * operators and never throws: `charCodeAt` past the end of the string gives
 * `NaN`, which contributes nothing to the value (`NaN & 0x1f` is 0) and ends
 * the group (`NaN >= 0x20` is false). The model keeps `result` as the
 * unsigned 32-bit pattern of the JavaScript number; `Signed` reads it back
 * as the int32 that `>>`, `&` and `~` see.
 */
module MapScript {
  import opened Wrappers
  import opened Bits
  import Polyline

  const TwoTo31: nat := 0x8000_0000
  const TwoTo32: nat := 0x1_0000_0000

  /** `str.charCodeAt(i)`, with `None` for the `NaN` past the end. */
  function CharCodeAt(s: string, i: nat): Option<nat>
  {
    if i < |s| then Some(s[i] as nat) else None
  }

  /** `(byte & 0x1f)` where `byte = code - 63`; `NaN & 0x1f` is 0. */
  function Group(code: Option<nat>): (g: nat)
    ensures g < 32
  {
    match code
    case None => 0
    case Some(c) => (c - 63) % 32
  }

  /** `byte >= 0x20`, false for `NaN`. */
  predicate Continues(code: Option<nat>)
  {
    code.Some? && code.value - 63 >= 32
  }

  /** The int32 a 32-bit pattern stands for. */
  function Signed(u: nat): int
    requires u < TwoTo32
  {
    if u >= TwoTo31 then u - TwoTo32 else u
  }

  /** `result |= (byte & 0x1f) << shift`: the shift count is taken modulo 32 and the product wraps. */
  function OrGroup(u: nat, g: nat, shift: nat): (r: nat)
    requires u < TwoTo32
    ensures r < TwoTo32
  {
    BitOrBound32(u, (g * Pow2(shift % 32)) % TwoTo32);
    BitOr(u, (g * Pow2(shift % 32)) % TwoTo32)
  }

  lemma {:induction false} BitOrBound32(a: nat, b: nat)
    requires a < TwoTo32 && b < TwoTo32
    ensures BitOr(a, b) < TwoTo32
  {
    Pow2Values();
    BitOrBound(a, b, 32);
  }

  /**
   * The `do ... while (byte >= 0x20)` loop from index `i`, once `u` holds the
   * bits read so far: the final 32-bit pattern and the index after the last
   * character read, which is `|s| + 1` when the string ran out.
   */
  function ReadGroups(s: string, i: nat, u: nat, shift: nat): (r: (nat, nat))
    requires u < TwoTo32
    ensures r.0 < TwoTo32 && i < r.1
    ensures i <= |s| ==> r.1 <= |s| + 1
    decreases |s| - i
  {
    var code := CharCodeAt(s, i);
    var next := OrGroup(u, Group(code), shift);
    if Continues(code) then ReadGroups(s, i + 1, next, shift + 5) else (next, i + 1)
  }

  /** `(result & 1) ? ~(result >> 1) : (result >> 1)` on the int32 `result`. */
  function Change(u: nat): int
    requires u < TwoTo32
  {
    if u % 2 == 1 then Polyline.Invert(Signed(u) / 2) else Signed(u) / 2
  }

  /** One number read from index `i`: its 32-bit pattern and the index after it. */
  function ReadNumber(s: string, i: nat): (r: (nat, nat))
    ensures r.0 < TwoTo32 && i < r.1
    ensures i <= |s| ==> r.1 <= |s| + 1
  {
    ReadGroups(s, i, 0, 0)
  }

  /** The running sums pushed from index `i` on. */
  function DecodeInts(s: string, i: nat, lat: int, lng: int): seq<(int, int)>
    decreases |s| - i
  {
    if i >= |s| then []
    else
      var latRead := ReadNumber(s, i);
      var lngRead := ReadNumber(s, latRead.1);
      var x, y := lat + Change(latRead.0), lng + Change(lngRead.0);
      [(x, y)] + DecodeInts(s, lngRead.1, x, y)
  }

  /**
   * `Math.pow(10, precision || 5)`: an omitted precision (`None`) and a
   * precision of 0 both select 10^5.
   */
  function Factor(precision: Option<int>): (f: real)
    ensures f > 0.0
    ensures precision == None || precision == Some(0) ==> f == 100000.0
    ensures precision.Some? && precision.value > 0 ==> f == Pow10(precision.value) as real
  {
    var p := if precision == None || precision == Some(0) then 5 else precision.value;
    assert Pow10(5) == 100000;
    if p >= 0 then Pow10(p) as real else TenthPower(-p)
  }

  /** `10 ** -k` as a real, one division by ten at a time. */
  function TenthPower(k: nat): (r: real)
    ensures r > 0.0
  {
    if k == 0 then 1.0 else TenthPower(k - 1) / 10.0
  }

  /** What `decodePolyline(str, precision)` returns. */
  function Decoded(s: string, precision: Option<int>): seq<(real, real)>
  {
    Polyline.Unscale(DecodeInts(s, 0, 0, 0), Factor(precision))
  }

  /**
   * Each pass of the outer loop pushes one coordinate and reads at least two
   * characters, one per value: "" decodes to `[]`, any other text to at least
   * one coordinate and at most one per two characters, rounded up.
   */
  lemma {:induction false} DecodeIntsCount(s: string, i: nat, lat: int, lng: int)
    ensures DecodeInts(s, i, lat, lng) == [] <==> i >= |s|
    ensures i <= |s| ==> 2 * |DecodeInts(s, i, lat, lng)| <= |s| - i + 1
    decreases |s| - i
  {
    if i < |s| {
      var latRead := ReadNumber(s, i);
      var lngRead := ReadNumber(s, latRead.1);
      var x, y := lat + Change(latRead.0), lng + Change(lngRead.0);
      DecodeIntsCount(s, lngRead.1, x, y);
    }
  }

  /** `decodePolyline("")` is `[]`; a non-empty text yields between 1 and (|s| + 1) / 2 coordinates. */
  lemma {:induction false} DecodedCount(s: string, precision: Option<int>)
    ensures Decoded(s, precision) == [] <==> s == ""
    ensures 2 * |Decoded(s, precision)| <= |s| + 1
  {
    DecodeIntsCount(s, 0, 0, 0);
  }

  /** One `do ... while` loop reading a value's groups. */
  method ReadValueBits(s: string, start: nat) returns (result: nat, index: nat)
    ensures (result, index) == ReadNumber(s, start)
  {
    result := 0;
    index := start;
    var shift: nat := 0;
    while true
      invariant start <= index
      invariant index <= |s| || index == start
      invariant result < TwoTo32
      invariant ReadGroups(s, start, 0, 0) == ReadGroups(s, index, result, shift)
      decreases |s| - index
    {
      var code := CharCodeAt(s, index);
      index := index + 1;
      result := OrGroup(result, Group(code), shift);
      shift := shift + 5;
      if !Continues(code) {
        break;
      }
    }
  }

  /** `decodePolyline`: the outer `while` loop, two values per pushed coordinate. */
  method DecodePolyline(str: string, precision: Option<int>) returns (coordinates: seq<(real, real)>)
    ensures coordinates == Decoded(str, precision)
  {
    var index := 0;
    var lat := 0;
    var lng := 0;
    coordinates := [];
    var factor := Factor(precision);
    ghost var ints: seq<(int, int)> := [];
    while index < |str|
      invariant coordinates == Polyline.Unscale(ints, factor)
      invariant DecodeInts(str, 0, 0, 0) == ints + DecodeInts(str, index, lat, lng)
      decreases |str| - index
    {
      var latBits, j := ReadValueBits(str, index);
      var latitudeChange := Change(latBits);
      var lngBits, k := ReadValueBits(str, j);
      var longitudeChange := Change(lngBits);
      DecodeLoopStep(str, ints, index, lat, lng, latBits, j, lngBits, k, lat + latitudeChange, lng + longitudeChange);
      lat := lat + latitudeChange;
      lng := lng + longitudeChange;
      index := k;
      Polyline.UnscaleSnoc(ints, (lat, lng), factor);
      ints := ints + [(lat, lng)];
      coordinates := coordinates + [(lat as real / factor, lng as real / factor)];
    }
    assert ints + [] == ints;
  }

  /** The decoding loop's invariant carried over one pair of values. */
  lemma {:induction false} DecodeLoopStep(s: string, ints: seq<(int, int)>, i: nat, lat: int, lng: int, a: nat, j: nat, b: nat, k: nat, x: int, y: int)
    requires i < |s| && a < TwoTo32 && b < TwoTo32
    requires ReadNumber(s, i) == (a, j) && ReadNumber(s, j) == (b, k)
    requires x == lat + Change(a) && y == lng + Change(b)
    requires DecodeInts(s, 0, 0, 0) == ints + DecodeInts(s, i, lat, lng)
    ensures DecodeInts(s, 0, 0, 0) == (ints + [(x, y)]) + DecodeInts(s, k, x, y)
  {
    DecodeIntsStep(s, i, lat, lng, a, j, b, k, x, y);
    Regroup(ints, (x, y), DecodeInts(s, k, x, y));
  }

  lemma {:induction false} Regroup(front: seq<(int, int)>, p: (int, int), rest: seq<(int, int)>)
    ensures front + ([p] + rest) == (front + [p]) + rest
  {
  }

  // ------------------------------------------------------------------ properties

  /**
   * Reading at or past the end of the string never fails: the `NaN` adds
   * nothing to the value and ends it.
   */
  lemma {:induction false} ReadPastEnd(s: string, i: nat, u: nat, shift: nat)
    requires i >= |s| && u < TwoTo32
    ensures ReadGroups(s, i, u, shift) == (u, i + 1)
  {
  }

  /** Every zig-zagged delta of the route fits in 31 bits. */
  predicate Fits31(points: seq<(int, int)>, lat: int, lng: int)
  {
    points != [] ==>
      && Polyline.ZigZag(points[0].0 - lat) < TwoTo31
      && Polyline.ZigZag(points[0].1 - lng) < TwoTo31
      && Fits31(points[1..], points[0].0, points[0].1)
  }

  /** The first character of `Chunks(z)` carries the low group, and the continuation bit when z >= 32. */
  lemma {:induction false} FirstChunk(s: string, i: nat, z: nat)
    requires i + |Polyline.Chunks(z)| <= |s| && s[i..i + |Polyline.Chunks(z)|] == Polyline.Chunks(z)
    ensures Group(CharCodeAt(s, i)) == z % 32
    ensures Continues(CharCodeAt(s, i)) <==> z >= 32
  {
    assert s[i] == Polyline.Chunks(z)[0];
  }

  /** Without wrap-around, OR-ing in a group adds it. */
  lemma {:induction false} OrGroupAdds(u: nat, g: nat, shift: nat)
    requires u < Pow2(shift) && u < TwoTo32 && shift < 32 && g * Pow2(shift) < TwoTo32
    ensures OrGroup(u, g, shift) == u + g * Pow2(shift)
  {
    var x := g * Pow2(shift);
    assert shift % 32 == shift;
    assert x % TwoTo32 == x;
    BitOrDisjoint(u, g, shift);
  }

  lemma {:induction false} MulMonotone(a: nat, b: nat, p: nat)
    requires a <= b
    ensures a * p <= b * p
  {
  }

  /** A non-zero value below 2^31 placed at bit `shift` forces `shift < 31`. */
  lemma {:induction false} ShiftBelow31(u: nat, z: nat, g: nat, shift: nat)
    requires 1 <= z && g <= z && u + z * Pow2(shift) < TwoTo31
    ensures shift < 31 && g * Pow2(shift) < TwoTo31
    ensures u + g * Pow2(shift) < TwoTo31
  {
    var p := Pow2(shift);
    MulMonotone(1, z, p);
    MulMonotone(g, z, p);
    if shift >= 31 {
      Pow2Monotone(31, shift);
      Pow2Values();
      assert false;
    }
  }

  /**
   * On the characters of `Chunks(z)`, with `u` holding the `shift` bits
   * read before, the 32-bit loop reads exactly the Python decoder's value as
   * long as the whole value stays below 2^31.
   */
  lemma {:induction false} ReadChunks(s: string, i: nat, z: nat, u: nat, shift: nat)
    requires i + |Polyline.Chunks(z)| <= |s| && s[i..i + |Polyline.Chunks(z)|] == Polyline.Chunks(z)
    requires u < Pow2(shift) && u + z * Pow2(shift) < TwoTo31
    ensures u < TwoTo32
    ensures ReadGroups(s, i, u, shift) == (u + z * Pow2(shift), i + |Polyline.Chunks(z)|)
    decreases z
  {
    FirstChunk(s, i, z);
    var next := OrGroup(u, Group(CharCodeAt(s, i)), shift);
    FirstGroupAdds(u, z, shift, next);
    if z >= 32 {
      TailSlice(s, i, z);
      ReadChunksTail(s, i, z, u, shift, next, z / 32);
    } else {
      SingleChunk(z);
    }
  }

  /** The first group OR-ed in adds `z % 32` at bit `shift`, while the whole value stays below 2^31. */
  lemma {:induction false} FirstGroupAdds(u: nat, z: nat, shift: nat, next: nat)
    requires u < Pow2(shift) && u + z * Pow2(shift) < TwoTo31
    requires u < TwoTo32 ==> next == OrGroup(u, z % 32, shift)
    ensures u < TwoTo32
    ensures next == u + (z % 32) * Pow2(shift)
  {
    MulMonotone(0, z, Pow2(shift));
    var g := z % 32;
    if z == 0 {
      assert OrGroup(u, 0, shift) == u;
    } else {
      ShiftBelow31(u, z, g, shift);
      OrGroupAdds(u, g, shift);
    }
  }

  /** A value below 32 is one character, and its value is its own low group. */
  lemma {:induction false} SingleChunk(z: nat)
    requires z < 32
    ensures |Polyline.Chunks(z)| == 1 && z % 32 == z
  {
  }

  lemma {:induction false} ReadChunksTail(s: string, i: nat, z: nat, u: nat, shift: nat, acc: nat, q: nat)
    requires z >= 32 && acc == u + (z % 32) * Pow2(shift) && q == z / 32 && acc < TwoTo32
    requires i + 1 + |Polyline.Chunks(q)| <= |s| && s[i + 1..i + 1 + |Polyline.Chunks(q)|] == Polyline.Chunks(q)
    requires u < Pow2(shift) && u + z * Pow2(shift) < TwoTo31
    ensures ReadGroups(s, i + 1, acc, shift + 5) == (u + z * Pow2(shift), i + |Polyline.Chunks(z)|)
    decreases z, 0
  {
    TailArith(u, z, shift);
    ReadChunks(s, i + 1, q, acc, shift + 5);
    TailResult(ReadGroups(s, i + 1, acc, shift + 5), i, z, u, shift, acc, q);
  }

  /** The value and end index `ReadChunks` gives for the tail, in terms of the whole of `Chunks(z)`. */
  lemma {:induction false} TailResult(r: (nat, nat), i: nat, z: nat, u: nat, shift: nat, acc: nat, q: nat)
    requires z >= 32 && u < Pow2(shift) && acc == u + (z % 32) * Pow2(shift) && q == z / 32
    requires r == (acc + q * Pow2(shift + 5), i + 1 + |Polyline.Chunks(q)|)
    ensures r == (u + z * Pow2(shift), i + |Polyline.Chunks(z)|)
  {
    TailArith(u, z, shift);
  }

  /** After its first character, `Chunks(z)` continues with `Chunks(z / 32)` when z >= 32. */
  lemma {:induction false} TailSlice(s: string, i: nat, z: nat)
    requires i + |Polyline.Chunks(z)| <= |s| && s[i..i + |Polyline.Chunks(z)|] == Polyline.Chunks(z)
    requires z >= 32
    ensures i + 1 + |Polyline.Chunks(z / 32)| == i + |Polyline.Chunks(z)|
    ensures s[i + 1..i + 1 + |Polyline.Chunks(z / 32)|] == Polyline.Chunks(z / 32)
  {
    var c := Polyline.Chunks(z);
    var rest := Polyline.Chunks(z / 32);
    assert c == [c[0]] + rest;
    assert s[i..i + |c|][1..] == rest;
  }

  lemma {:induction false} TailArith(u: nat, z: nat, shift: nat)
    requires u < Pow2(shift)
    ensures u + (z % 32) * Pow2(shift) < Pow2(shift + 5)
    ensures u + (z % 32) * Pow2(shift) + (z / 32) * Pow2(shift + 5) == u + z * Pow2(shift)
  {
    var g := z % 32;
    var q := z / 32;
    Polyline.GroupBound(u, g, shift);
    Polyline.GroupShift(u, g, q, shift);
    assert z == g + 32 * q;
  }

  /** On a value below 2^31 the int32 reading agrees with the Python un-zig-zag. */
  lemma {:induction false} ChangeAgrees(z: nat)
    requires z < TwoTo31
    ensures Change(z) == Polyline.UnZigZag(z)
  {
  }

  /** The 32-bit loop reads back a number the Python encoder wrote, when it fits in 31 bits. */
  lemma {:induction false} ReadEncodedNumber(s: string, i: nat, v: int, j: nat)
    requires Polyline.ZigZag(v) < TwoTo31
    requires j == i + |Polyline.Chunks(Polyline.ZigZag(v))| && j <= |s|
    requires s[i..j] == Polyline.Chunks(Polyline.ZigZag(v))
    ensures ReadNumber(s, i) == (Polyline.ZigZag(v), j)
    ensures Change(Polyline.ZigZag(v)) == v
  {
    var z := Polyline.ZigZag(v);
    assert z * Pow2(0) == z;
    ReadChunks(s, i, z, 0, 0);
    ChangeAgrees(z);
    Polyline.ZigZagRoundTrip(v);
  }

  /** One iteration of the outer loop. */
  lemma {:induction false} DecodeIntsStep(s: string, i: nat, lat: int, lng: int, a: nat, j: nat, b: nat, k: nat, x: int, y: int)
    requires i < |s| && a < TwoTo32 && b < TwoTo32
    requires ReadNumber(s, i) == (a, j) && ReadNumber(s, j) == (b, k)
    requires x == lat + Change(a) && y == lng + Change(b)
    ensures DecodeInts(s, i, lat, lng) == [(x, y)] + DecodeInts(s, k, x, y)
  {
  }

  /** One iteration of the outer loop over the two numbers the Python encoder wrote for a point. */
  lemma {:induction false} DecodeEncodedPoint(s: string, i: nat, lat: int, lng: int, x: int, y: int, j: nat, k: nat)
    requires Polyline.ZigZag(x - lat) < TwoTo31 && Polyline.ZigZag(y - lng) < TwoTo31
    requires j == i + |Polyline.Chunks(Polyline.ZigZag(x - lat))|
    requires k == j + |Polyline.Chunks(Polyline.ZigZag(y - lng))| && k <= |s|
    requires s[i..j] == Polyline.Chunks(Polyline.ZigZag(x - lat))
    requires s[j..k] == Polyline.Chunks(Polyline.ZigZag(y - lng))
    ensures DecodeInts(s, i, lat, lng) == [(x, y)] + DecodeInts(s, k, x, y)
  {
    var z1 := Polyline.ZigZag(x - lat);
    var z2 := Polyline.ZigZag(y - lng);
    ReadEncodedNumber(s, i, x - lat, j);
    ReadEncodedNumber(s, j, y - lng, k);
    DecodeIntsStep(s, i, lat, lng, z1, j, z2, k, x, y);
  }

  /**
   * On a Python encoder output whose zig-zagged deltas fit in 31 bits, the
   * 32-bit decoder gives back the scaled integer points.
   */
  lemma {:induction false} DecodeEncodeInts(s: string, i: nat, points: seq<(int, int)>, lat: int, lng: int)
    requires i <= |s| && s[i..] == Polyline.EncodeInts(points, lat, lng)
    requires Fits31(points, lat, lng)
    ensures DecodeInts(s, i, lat, lng) == points
    decreases |points|
  {
    if points != [] {
      var j, k := Polyline.SplitFirstPoint(s, i, points, lat, lng);
      DecodeEncodedPoint(s, i, lat, lng, points[0].0, points[0].1, j, k);
      DecodeEncodeInts(s, k, points[1..], points[0].0, points[0].1);
      ConsPoint(s, i, lat, lng, k, points);
    }
  }

  lemma {:induction false} ConsPoint(s: string, i: nat, lat: int, lng: int, k: nat, points: seq<(int, int)>)
    requires points != []
    requires DecodeInts(s, i, lat, lng) == [points[0]] + DecodeInts(s, k, points[0].0, points[0].1)
    requires DecodeInts(s, k, points[0].0, points[0].1) == points[1..]
    ensures DecodeInts(s, i, lat, lng) == points
  {
    assert [points[0]] + points[1..] == points;
  }

  /**
   * Outside encoder output the two decoders can differ: "?" holds one
   * value, so the browser decoder reads a longitude of 0 past the end and
   * returns one coordinate, while the Python decoder reports truncation.
   */
  lemma {:induction false} TruncatedTextDiffers()
    ensures |Decoded("?", None)| == 1
    ensures Polyline.Decoded("?", 5).Failure?
  {
    DecodedCount("?", None);
    assert Polyline.ReadRaw("?", 0) == Some((0, 1));
    assert Polyline.ReadValue("?", 1).Failure?;
  }

  /**
   * On the encoder's output for points whose zig-zagged deltas fit 31 bits,
   * `decodePolyline` returns what `utils/route_utils.py`'s
   * `decode_polyline` returns: with the same
   * precision when it is at least 1, and with precision 5 when it is
   * omitted.
   */
  lemma {:induction false} AgreesWithPython(points: seq<(int, int)>, jsPrecision: Option<int>, pyPrecision: int)
    requires Fits31(points, 0, 0)
    requires (jsPrecision == None && pyPrecision == 5) || (jsPrecision == Some(pyPrecision) && pyPrecision >= 1)
    ensures var s := Polyline.EncodeInts(points, 0, 0);
      Polyline.Decoded(s, pyPrecision) == Success(Decoded(s, jsPrecision))
  {
    var s := Polyline.EncodeInts(points, 0, 0);
    assert s[0..] == s;
    DecodeEncodeInts(s, 0, points, 0, 0);
    Polyline.IntRoundTrip(points);
    assert Pow10(5) == 100000;
  }
}
