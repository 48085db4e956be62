/**
 * What the route extractors of `utils/extract_route_from_ridewithgps.py`
 * and `extract_events_from_json.py` share: the loop that turns a list of
 * point entries into (lat, lon) pairs while skipping an entry equal to the
 * last pair kept, and the choice of the latitude and longitude keys of a
 * point dict by case-insensitive name; and the copy of the polyline
 * encoder each of them carries, with `extract_events_from_url.py`.
 */
module Coordinates {
  import opened Wrappers
  import opened Text
  import opened PyValue
  import Polyline

  /** A (latitude, longitude) pair. */
  type Point = (real, real)

  // ------------------------------------------------------------------ the entry loop

  function LastOf(coords: seq<Point>): Option<Point>
  {
    if coords == [] then None else Some(coords[|coords| - 1])
  }

  /** No pair is followed directly by an equal pair. */
  predicate NoBackToBack(r: seq<Point>)
  {
    forall i, j {:trigger r[i], r[j]} :: 0 <= i < |r| && 0 <= j < |r| && j == i + 1 ==> r[i] != r[j]
  }

  /**
   * The pairs of `items` in order, as `point` reads them: an entry without
   * a pair, or whose pair equals the last pair kept, is skipped.
   */
  function KeepNew(items: seq<Value>, point: Value -> Option<Point>, last: Option<Point>): (r: seq<Point>)
    ensures |r| <= |items|
  {
    if items == [] then []
    else
      var p := point(items[0]);
      if p.None? || p == last then KeepNew(items[1..], point, last)
      else [p.value] + KeepNew(items[1..], point, p)
  }

  /**
   * The loop of `_coerce_coordinate_sequence` over a list: read each entry,
   * skip it when it gives no pair or repeats the last pair, append otherwise.
   */
  method CollectPoints(items: seq<Value>, point: Value -> Option<Point>) returns (coords: seq<Point>)
    ensures coords == KeepNew(items, point, None)
  {
    coords := [];
    for k := 0 to |items|
      invariant coords + KeepNew(items[k..], point, LastOf(coords)) == KeepNew(items, point, None)
    {
      var latLon := point(items[k]);
      assert items[k..][1..] == items[k + 1..];
      if latLon.None? {
        continue;
      }
      if coords != [] && latLon.value == coords[|coords| - 1] {
        continue;
      }
      assert coords + ([latLon.value] + KeepNew(items[k + 1..], point, latLon))
          == (coords + [latLon.value]) + KeepNew(items[k + 1..], point, latLon);
      coords := coords + [latLon.value];
    }
    assert items[|items|..] == [];
  }

  /** The kept pairs never repeat back to back, and the first differs from `last`. */
  lemma {:induction false} KeepNewShape(items: seq<Value>, point: Value -> Option<Point>, last: Option<Point>)
    ensures var r := KeepNew(items, point, last);
      && NoBackToBack(r)
      && (r != [] && last.Some? ==> r[0] != last.value)
  {
    if items != [] {
      var p := point(items[0]);
      KeepNewShape(items[1..], point, if p.None? || p == last then last else p);
    }
  }

  /** The entry each kept pair comes from. */
  lemma {:induction false} KeepNewSource(items: seq<Value>, point: Value -> Option<Point>, last: Option<Point>, k: nat)
    returns (i: nat)
    requires k < |KeepNew(items, point, last)|
    ensures i < |items| && point(items[i]) == Some(KeepNew(items, point, last)[k])
  {
    var p := point(items[0]);
    if p.None? || p == last {
      i := KeepNewSource(items[1..], point, last, k);
      i := i + 1;
    } else if k == 0 {
      i := 0;
    } else {
      i := KeepNewSource(items[1..], point, p, k - 1);
      i := i + 1;
    }
  }

  /** When no entry gives a pair, nothing is kept. */
  lemma {:induction false} KeepNewNone(items: seq<Value>, point: Value -> Option<Point>, last: Option<Point>)
    requires forall i :: 0 <= i < |items| ==> point(items[i]).None?
    ensures KeepNew(items, point, last) == []
  {
    if items != [] {
      KeepNewNone(items[1..], point, last);
    }
  }

  // ------------------------------------------------------------------ choosing keys

  /** `keys[i]` lowers to `lowered` and no later key does. */
  predicate LastLowering(keys: seq<string>, lowered: string, i: int)
  {
    0 <= i < |keys| && AsciiLower(keys[i]) == lowered
    && forall j :: i < j < |keys| ==> AsciiLower(keys[j]) != lowered
  }

  /**
   * `{key.lower(): key for key in entry.keys()}[lowered]`: of the keys that
   * lower to `lowered`, the last one wins the comprehension.
   */
  function LowerKey(keys: seq<string>, lowered: string): (r: Option<string>)
    ensures r.Some? ==> r.value in keys && AsciiLower(r.value) == lowered
    ensures r.None? <==> forall i :: 0 <= i < |keys| ==> AsciiLower(keys[i]) != lowered
  {
    if keys == [] then None
    else if AsciiLower(keys[|keys| - 1]) == lowered then Some(keys[|keys| - 1])
    else
      var r := LowerKey(keys[..|keys| - 1], lowered);
      assert forall i :: 0 <= i < |keys| - 1 ==> keys[..|keys| - 1][i] == keys[i];
      r
  }

  /** The key found is the last that lowers to `lowered`: later keys overwrite earlier ones. */
  lemma {:induction false} LowerKeyLast(keys: seq<string>, lowered: string)
    ensures LowerKey(keys, lowered).Some? ==>
      exists i :: LastLowering(keys, lowered, i) && keys[i] == LowerKey(keys, lowered).value
  {
    if keys != [] {
      if AsciiLower(keys[|keys| - 1]) == lowered {
        assert LastLowering(keys, lowered, |keys| - 1);
      } else {
        var prefix := keys[..|keys| - 1];
        LowerKeyLast(prefix, lowered);
        if LowerKey(prefix, lowered).Some? {
          var i :| LastLowering(prefix, lowered, i) && prefix[i] == LowerKey(prefix, lowered).value;
          assert prefix[i] == keys[i];
          assert LastLowering(keys, lowered, i);
        }
      }
    }
  }

  /** The key of the first of `candidates` present among the lowered keys. */
  function ChooseKey(keys: seq<string>, candidates: seq<string>): (r: Option<string>)
    ensures r.Some? ==> r.value in keys
  {
    if candidates == [] then None
    else
      var k := LowerKey(keys, candidates[0]);
      if k.Some? then k else ChooseKey(keys, candidates[1..])
  }

  /** The latitude names, in order of preference. */
  const LatNames: seq<string> := ["lat", "latitude", "y"]

  /** The longitude names, in order of preference. */
  const LonNames: seq<string> := ["lon", "lng", "longitude", "x"]

  /**
   * The chosen key belongs to the earliest candidate any key lowers to; no
   * candidate present gives `None`.
   */
  lemma {:induction false} ChooseKeyFirst(keys: seq<string>, candidates: seq<string>)
    ensures ChooseKey(keys, candidates).None? <==>
      forall c :: 0 <= c < |candidates| ==> LowerKey(keys, candidates[c]).None?
    ensures ChooseKey(keys, candidates).Some? ==>
      exists c :: 0 <= c < |candidates| && ChooseKey(keys, candidates) == LowerKey(keys, candidates[c])
        && forall e :: 0 <= e < c ==> LowerKey(keys, candidates[e]).None?
  {
    if candidates != [] && LowerKey(keys, candidates[0]).None? {
      ChooseKeyFirst(keys, candidates[1..]);
      if ChooseKey(keys, candidates).Some? {
        var c :| 0 <= c < |candidates[1..]| && ChooseKey(keys, candidates) == LowerKey(keys, candidates[1..][c])
          && forall e :: 0 <= e < c ==> LowerKey(keys, candidates[1..][e]).None?;
        assert ChooseKey(keys, candidates) == LowerKey(keys, candidates[c + 1]);
        assert forall e :: 0 <= e < c + 1 ==> LowerKey(keys, candidates[e]).None? by {
          forall e | 0 <= e < c + 1
            ensures LowerKey(keys, candidates[e]).None?
          {
            if e > 0 {
              assert candidates[e] == candidates[1..][e - 1];
            }
          }
        }
      } else {
        forall c | 0 <= c < |candidates|
          ensures LowerKey(keys, candidates[c]).None?
        {
          if c > 0 {
            assert candidates[c] == candidates[1..][c - 1];
          }
        }
      }
    } else if candidates != [] {
      assert ChooseKey(keys, candidates) == LowerKey(keys, candidates[0]);
    }
  }

  /**
   * `_latlon_from_dict`: the named keys when both are present, else the
   * guessed keys (`guess` is what the module's `_guess_lat_lon_keys`
   * returns for this entry); `None` when a key is missing or a value is not
   * float-convertible.
   */
  function LatLonFromDict(entry: Entries, guess: (Option<string>, Option<string>),
                          floatOf: string -> Option<real>): (r: Option<Point>)
    ensures var latKey, lonKey := ChooseKey(Keys(entry), LatNames), ChooseKey(Keys(entry), LonNames);
      latKey.Some? && lonKey.Some? ==>
        r == (var lat, lon := ToFloat(GetOrNull(entry, latKey.value), floatOf), ToFloat(GetOrNull(entry, lonKey.value), floatOf);
              if lat.Some? && lon.Some? then Some((lat.value, lon.value)) else None)
    ensures var latKey, lonKey := ChooseKey(Keys(entry), LatNames), ChooseKey(Keys(entry), LonNames);
      (latKey.None? || lonKey.None?) && (guess.0.None? || guess.1.None?) ==> r.None?
    ensures var latKey, lonKey := ChooseKey(Keys(entry), LatNames), ChooseKey(Keys(entry), LonNames);
      (latKey.None? || lonKey.None?) && guess.0.Some? && guess.1.Some? ==>
        r == (var lat, lon := ToFloat(GetOrNull(entry, guess.0.value), floatOf), ToFloat(GetOrNull(entry, guess.1.value), floatOf);
              if lat.Some? && lon.Some? then Some((lat.value, lon.value)) else None)
  {
    var latKey := ChooseKey(Keys(entry), LatNames);
    var lonKey := ChooseKey(Keys(entry), LonNames);
    var (latChoice, lonChoice) := if latKey.None? || lonKey.None? then guess else (latKey, lonKey);
    if latChoice.None? || lonChoice.None? then None
    else
      var lat := ToFloat(GetOrNull(entry, latChoice.value), floatOf);
      var lon := ToFloat(GetOrNull(entry, lonChoice.value), floatOf);
      if lat.Some? && lon.Some? then Some((lat.value, lon.value)) else None
  }

  // ------------------------------------------------------------------ the encoder copies

  /** `_encode_polyline_value`, the same in all three extractors: the reference `_encode_number`. */
  method EncodePolylineValue(value: int) returns (s: string)
    ensures s == Polyline.Chunks(Polyline.ZigZag(value))
    ensures Polyline.ReadValue(s, 0) == Success((value, |s|))
  {
    s := Polyline.EncodeNumber(value);
    Polyline.ReadEncodedNumber(s, 0, value);
    assert s[0..] == s;
  }

  /**
   * `_encode_polyline`, the same in all three extractors: the reference
   * encoding loop without its precision check. For every precision the
   * reference accepts it writes the same string, and the reference decoder
   * reads the scaled points back.
   */
  method EncodePolyline(coordinates: seq<Point>, precision: int, scale: (real, int) -> int) returns (s: string)
    ensures precision >= 0 ==> Polyline.Encoded(coordinates, precision, scale) == Success(s)
    ensures Polyline.DecodeInts(s, 0, 0, 0) == Success(Polyline.Scaled(coordinates, precision, scale))
  {
    s := Polyline.EncodeScaledPoints(coordinates, precision, scale);
    Polyline.IntRoundTrip(Polyline.Scaled(coordinates, precision, scale));
  }
}
